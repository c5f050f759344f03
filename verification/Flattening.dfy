/** Blocks of items laid out one after the other. */
module Flattening {
  function Flat<T>(blocks: seq<seq<T>>): seq<T> {
    if blocks == [] then [] else Flat(blocks[..|blocks| - 1]) + blocks[|blocks| - 1]
  }

  lemma FlatPush<T>(blocks: seq<seq<T>>, block: seq<T>)
    ensures Flat(blocks + [block]) == Flat(blocks) + block
  {
    assert (blocks + [block])[..|blocks|] == blocks;
  }

  lemma FlatOne<T>(block: seq<T>)
    ensures Flat([block]) == block
  {
    assert [] + [block] == [block];
    FlatPush([], block);
  }

  /** Where block p starts. */
  function Start<T>(blocks: seq<seq<T>>, p: nat): nat
    requires p <= |blocks|
  {
    |Flat(blocks[..p])|
  }

  lemma StartNext<T>(blocks: seq<seq<T>>, p: nat)
    requires p < |blocks|
    ensures Start(blocks, p + 1) == Start(blocks, p) + |blocks[p]|
  {
    assert blocks[..p + 1] == blocks[..p] + [blocks[p]];
    FlatPush(blocks[..p], blocks[p]);
  }

  lemma {:induction false} FlatSplit<T>(blocks: seq<seq<T>>, p: nat)
    requires p < |blocks|
    ensures Flat(blocks) == Flat(blocks[..p]) + blocks[p] + Flat(blocks[p + 1..])
    decreases |blocks|
  {
    var front, last := blocks[..|blocks| - 1], blocks[|blocks| - 1];
    if p == |blocks| - 1 {
      assert blocks[p + 1..] == [];
    } else {
      FlatSplit(front, p);
      assert front[..p] == blocks[..p];
      assert blocks[p + 1..] == front[p + 1..] + [last];
      FlatPush(front[p + 1..], last);
      assert Flat(blocks) == (Flat(blocks[..p]) + blocks[p] + Flat(front[p + 1..])) + last;
    }
  }

  lemma FlatAt<T>(blocks: seq<seq<T>>, p: nat, j: nat)
    requires p < |blocks| && j < |blocks[p]|
    ensures Start(blocks, p) + j < |Flat(blocks)| && Flat(blocks)[Start(blocks, p) + j] == blocks[p][j]
  {
    hide Flat;
    FlatSplit(blocks, p);
  }

  lemma FlatUpdate<T>(blocks: seq<seq<T>>, p: nat, j: nat, x: T)
    requires p < |blocks| && j < |blocks[p]|
    ensures Start(blocks, p) + j < |Flat(blocks)|
    ensures Flat(blocks[p := blocks[p][j := x]]) == Flat(blocks)[Start(blocks, p) + j := x]
    ensures forall q :: 0 <= q <= |blocks| ==> Start(blocks[p := blocks[p][j := x]], q) == Start(blocks, q)
  {
    hide Flat;
    var after := blocks[p := blocks[p][j := x]];
    FlatSplit(blocks, p);
    FlatSplit(after, p);
    assert after[..p] == blocks[..p] && after[p + 1..] == blocks[p + 1..];
    StartsAlike(blocks, after);
  }

  lemma {:induction false} StartsAlike<T>(a: seq<seq<T>>, b: seq<seq<T>>)
    requires |a| == |b| && forall i :: 0 <= i < |a| ==> |a[i]| == |b[i]|
    ensures forall q :: 0 <= q <= |a| ==> Start(a, q) == Start(b, q)
  {
    var q := 0;
    while q < |a|
      invariant 0 <= q <= |a| && forall k :: 0 <= k <= q ==> Start(a, k) == Start(b, k)
    {
      StartNext(a, q);
      StartNext(b, q);
      q := q + 1;
    }
  }

  /** Block p, cut out. */
  lemma FlatSlice<T>(blocks: seq<seq<T>>, p: nat)
    requires p < |blocks|
    ensures Start(blocks, p) + |blocks[p]| <= |Flat(blocks)|
    ensures Flat(blocks)[Start(blocks, p)..Start(blocks, p) + |blocks[p]|] == blocks[p]
  {
    hide Flat;
    FlatSplit(blocks, p);
  }
}

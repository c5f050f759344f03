/** What the chunk store asks of its data buckets, call by call, and what is live after it. */
module BlockEvents {
  import opened Pool
  import opened Chunks

  /** Put: a new hash and its chunk go into their block. Recount: the count of a hash changes
      and its bucket is told. Drop: the last reference goes, the block is cleared and posted,
      and that post released these buckets. */
  datatype Event =
    | Put(index: nat, digest: seq<Byte>, refcnt: int, chunk: Chunk)
    | Recount(index: nat, refcnt: int)
    | Drop(index: nat, released: set<nat>)

  /** A live block: the record and the chunk it must show. */
  datatype Entry = Entry(digest: seq<Byte>, refcnt: int, chunk: Chunk)

  function After(live: map<nat, Entry>, e: Event): map<nat, Entry> {
    match e
    case Put(i, digest, refcnt, chunk) => live[i := Entry(digest, refcnt, chunk)]
    case Recount(i, refcnt) => if i in live then live[i := live[i].(refcnt := refcnt)] else live
    case Drop(i, _) => live - {i}
  }

  /** A put takes a block that is not live, the others name live ones, and a released bucket has
      neither the dropped block nor a live one. */
  ghost predicate Allowed(live: map<nat, Entry>, e: Event) {
    match e
    case Put(i, _, _, _) => i !in live
    case Recount(i, _) => i in live
    case Drop(i, released) => i in live && forall j :: j in live ==> BucketOf(j) !in released
  }

  function Live(events: seq<Event>): map<nat, Entry> {
    if events == [] then map[] else After(Live(events[..|events| - 1]), events[|events| - 1])
  }

  ghost predicate Legal(events: seq<Event>) {
    events != [] ==>
      Legal(events[..|events| - 1]) && Allowed(Live(events[..|events| - 1]), events[|events| - 1])
  }

  lemma Push(events: seq<Event>, e: Event)
    ensures Live(events + [e]) == After(Live(events), e)
    ensures Legal(events + [e]) <==> Legal(events) && Allowed(Live(events), e)
  {
    assert (events + [e])[..|events|] == events;
  }

  lemma {:induction false} LegalPrefix(events: seq<Event>, n: nat)
    requires Legal(events) && n <= |events|
    ensures Legal(events[..n])
    ensures n < |events| ==>
              Allowed(Live(events[..n]), events[n]) && Live(events[..n + 1]) == After(Live(events[..n]), events[n])
    decreases |events|
  {
    if n == |events| {
      assert events[..n] == events;
    } else {
      var front := events[..|events| - 1];
      LegalPrefix(front, n);
      assert front[..n] == events[..n];
      assert events[..n + 1] == events[..n] + [events[n]];
      Push(events[..n], events[n]);
      if n + 1 < |events| { assert front[..n + 1] == events[..n + 1]; }
    }
  }
}

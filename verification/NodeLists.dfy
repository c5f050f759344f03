/** The intrusive singly linked lists of src/modules/filesystem/bucketaccounting.h.

    The accounting nodes live in a fixed array, so a node pointer is modelled by
    the node's position in that array and the null pointer by NULL.  Two lists share
    the one array of `nextNode` links. */
module NodeLists {

  const NULL: int := -1

  /** `nodes` is the list that starts at `head` when links are followed through `links`. */
  ghost predicate IsList(links: seq<int>, head: int, nodes: seq<int>) {
    && (forall i :: 0 <= i < |nodes| ==> 0 <= nodes[i] < |links|)
    && head == NodeAt(nodes, 0)
    && (forall i :: 0 <= i < |nodes| ==> links[nodes[i]] == NodeAt(nodes, i + 1))
  }

  /** The pointer to the i-th node of a list, which is null one past its end. */
  ghost function NodeAt(nodes: seq<int>, i: nat): int {
    if i < |nodes| then nodes[i] else NULL
  }

  ghost predicate NoDup<T>(s: seq<T>) {
    forall i, j :: 0 <= i < j < |s| ==> s[i] != s[j]
  }

  /** An atomicNodePtr: the head of an intrusive list.  The ghost field names the nodes
      on it, first to last. */
  class NodeList {
    var head: int
    ghost var nodes: seq<int>

    constructor ()
      ensures head == NULL && nodes == []
    {
      head := NULL;
      nodes := [];
    }

    ghost predicate Valid(links: array<int>)
      reads this, links
    {
      IsList(links[..], head, nodes)
    }

    /** bucketaccounting::insertIntoList: push a node that is on neither list. */
    method Insert(node: int, links: array<int>)
      requires Valid(links)
      requires 0 <= node < links.Length && node !in nodes
      modifies this, links
      ensures Valid(links)
      ensures nodes == [node] + old(nodes)
      ensures forall k :: 0 <= k < links.Length && k != node ==> links[k] == old(links[k])
    {
      var expected := head;
      links[node] := expected;
      head := node;
      PushFront(old(links[..]), links[..], expected, nodes, node);
      nodes := [node] + nodes;
    }

    /** bucketaccounting::takeFromList: pop the first node, or return NULL. */
    method Take(links: array<int>) returns (node: int)
      requires Valid(links)
      modifies this
      ensures Valid(links)
      ensures old(nodes) == [] ==> node == NULL && nodes == []
      ensures old(nodes) != [] ==> node == old(nodes)[0] && nodes == old(nodes)[1..]
    {
      var expected := head;
      if expected == NULL {
        return NULL;
      }
      head := links[expected];
      PopFront(links[..], expected, nodes);
      nodes := nodes[1..];
      node := expected;
    }

    /** bucketaccounting::stealList: detach the whole list and return its first node. */
    method Steal(links: array<int>) returns (first: int)
      requires Valid(links)
      modifies this
      ensures Valid(links)
      ensures nodes == [] && head == NULL
      ensures first == old(head)
    {
      first := head;
      head := NULL;
      nodes := [];
    }
  }

  lemma PushFront(links: seq<int>, links': seq<int>, head: int, nodes: seq<int>, node: int)
    requires IsList(links, head, nodes)
    requires 0 <= node < |links| && node !in nodes
    requires links' == links[node := head]
    ensures IsList(links', node, [node] + nodes)
  {
    var pushed := [node] + nodes;
    forall i | 0 <= i < |pushed|
      ensures 0 <= pushed[i] < |links'|
      ensures links'[pushed[i]] == NodeAt(pushed, i + 1)
    {
      if i > 0 {
        assert pushed[i] == nodes[i - 1];
      }
    }
  }

  lemma PopFront(links: seq<int>, head: int, nodes: seq<int>)
    requires IsList(links, head, nodes) && nodes != []
    ensures IsList(links, links[head], nodes[1..])
  {
    var rest := nodes[1..];
    forall i | 0 <= i < |rest|
      ensures links[rest[i]] == NodeAt(rest, i + 1)
    {
      assert rest[i] == nodes[i + 1];
    }
  }

  /** Links of nodes that are not on a list may change without disturbing it. */
  lemma ListFrame(links: seq<int>, links': seq<int>, head: int, nodes: seq<int>)
    requires IsList(links, head, nodes) && |links'| == |links|
    requires forall k :: 0 <= k < |links| && k in nodes ==> links'[k] == links[k]
    ensures IsList(links', head, nodes)
  {
    forall i | 0 <= i < |nodes| ensures links'[nodes[i]] == links[nodes[i]] {
      assert nodes[i] in nodes;
    }
  }

}

/** Inodes, their chains of continuation blocks, and the contents laid out over a chain
    (src/modules/filesystem/inode.h). */
module InodeState {
  import opened NodeLists
  import opened Chunks

  const INODE_SLOTS: nat := 495
  const CTD_SLOTS: nat := 508
  const CTD_CHARS: nat := 4064

  datatype Inode = Inode(myID: nat, nextID: nat, metaID: nat, metasize: nat, size: nat, ctd: seq<nat>)

  /** A continuation block; it holds slots on a content chain and characters on a metadata chain. */
  datatype InodeCtd = InodeCtd(myID: nat, nextID: nat, ctd: seq<nat>, charContent: seq<Byte>)

  /** The blocks of the metadata buckets, by index. */
  datatype Blocks = Blocks(inodes: map<nat, Inode>, nodes: map<nat, InodeCtd>)

  function NoSlots(n: nat): (s: seq<nat>)
    ensures |s| == n && forall i :: 0 <= i < n ==> s[i] == 0
  {
    seq(n, _ => 0)
  }

  /** A new block is zeroed but for its own index. */
  function NewInode(id: nat): Inode {
    Inode(id, 0, 0, 0, 0, NoSlots(INODE_SLOTS))
  }

  function NewCtd(id: nat): InodeCtd {
    InodeCtd(id, 0, NoSlots(CTD_SLOTS), Zeros(CTD_CHARS))
  }

  // ---------- chains ----------

  /** The two chains of an inode. */
  datatype Chain = Content(ino: nat) | Meta(ino: nat)

  datatype Place = Place(chain: Chain, at: nat)

  /** Which blocks make up each chain, and where each block is. */
  datatype Layout = Layout(chains: map<Chain, seq<nat>>, places: map<nat, Place>)

  function First(inode: Inode, c: Chain): nat {
    if c.Content? then inode.nextID else inode.metaID
  }

  function Following(chain: seq<nat>, k: int): nat
    requires -1 <= k
  {
    if k + 1 < |chain| then chain[k + 1] else 0
  }

  ghost predicate NodeOk(nodes: map<nat, InodeCtd>, places: map<nat, Place>, c: Chain, chain: seq<nat>, k: nat)
    requires k < |chain|
  {
    var id := chain[k];
    && id != 0 && id in nodes && id in places && places[id] == Place(c, k)
    && nodes[id].myID == id && nodes[id].nextID == Following(chain, k)
    && |nodes[id].ctd| == CTD_SLOTS && |nodes[id].charContent| == CTD_CHARS
  }

  ghost predicate ChainOk(nodes: map<nat, InodeCtd>, places: map<nat, Place>, c: Chain, chain: seq<nat>) {
    forall k :: 0 <= k < |chain| ==> NodeOk(nodes, places, c, chain, k)
  }

  ghost predicate InodeOk(i: nat, inode: Inode, chains: map<Chain, seq<nat>>) {
    && i != 0 && inode.myID == i && |inode.ctd| == INODE_SLOTS
    && Content(i) in chains && Meta(i) in chains
    && inode.nextID == Following(chains[Content(i)], -1) && inode.metaID == Following(chains[Meta(i)], -1)
    && (inode.metasize > 0 ==> chains[Meta(i)] != [])
  }

  ghost predicate PlaceOk(id: nat, place: Place, chains: map<Chain, seq<nat>>) {
    place.chain in chains && place.at < |chains[place.chain]| && chains[place.chain][place.at] == id
  }

  ghost predicate InodesOk(inodes: map<nat, Inode>, chains: map<Chain, seq<nat>>) {
    && (forall i :: i in inodes ==> InodeOk(i, inodes[i], chains))
    && (forall c :: c in chains ==> c.ino in inodes)
  }

  ghost predicate ChainsOk(nodes: map<nat, InodeCtd>, lay: Layout) {
    forall c :: c in lay.chains ==> ChainOk(nodes, lay.places, c, lay.chains[c])
  }

  ghost predicate PlacesOk(lay: Layout) {
    forall id :: id in lay.places ==> PlaceOk(id, lay.places[id], lay.chains)
  }

  /** Every continuation block is on exactly one chain, at exactly one place; the links follow
      the chains and end with 0. */
  ghost predicate Linked(b: Blocks, lay: Layout) {
    && InodesOk(b.inodes, lay.chains)
    && ChainsOk(b.nodes, lay)
    && PlacesOk(lay) && lay.places.Keys == b.nodes.Keys
    && b.inodes.Keys !! b.nodes.Keys
  }

  /** So no block is listed twice, on one chain or on two. */
  lemma ChainsDistinct(b: Blocks, lay: Layout, c: Chain, d: Chain)
    requires Linked(b, lay) && c in lay.chains && d in lay.chains
    ensures NoDup(lay.chains[c])
    ensures c != d ==> forall x :: x in lay.chains[c] ==> x !in lay.chains[d]
    ensures forall x :: x in lay.chains[c] ==> x in b.nodes && x !in b.inodes && x != 0
  {
    var s, t := lay.chains[c], lay.chains[d];
    assert ChainOk(b.nodes, lay.places, c, s) && ChainOk(b.nodes, lay.places, d, t);
    forall i | 0 <= i < |s| ensures s[i] in lay.places && lay.places[s[i]] == Place(c, i) && s[i] in b.nodes && s[i] != 0 {
      assert NodeOk(b.nodes, lay.places, c, s, i);
    }
    forall i | 0 <= i < |t| ensures t[i] in lay.places && lay.places[t[i]] == Place(d, i) {
      assert NodeOk(b.nodes, lay.places, d, t, i);
    }
  }

  // ---------- what a file keeps in its blocks ----------

  /** The slots of an inode and its content chain, and the characters of its metadata chain. */
  datatype FileView = FileView(slots: seq<seq<nat>>, text: seq<seq<Byte>>, metasize: nat, size: nat)

  function SlotsOf(nodes: map<nat, InodeCtd>, id: nat): seq<nat> {
    if id in nodes then nodes[id].ctd else []
  }

  function CharsOf(nodes: map<nat, InodeCtd>, id: nat): seq<Byte> {
    if id in nodes then nodes[id].charContent else []
  }

  function ChainOf(lay: Layout, c: Chain): seq<nat> {
    if c in lay.chains then lay.chains[c] else []
  }

  function NodeSlots(nodes: map<nat, InodeCtd>, chain: seq<nat>): (r: seq<seq<nat>>)
    ensures |r| == |chain| && forall k :: 0 <= k < |chain| ==> r[k] == SlotsOf(nodes, chain[k])
  {
    seq(|chain|, k requires 0 <= k < |chain| => SlotsOf(nodes, chain[k]))
  }

  function NodeChars(nodes: map<nat, InodeCtd>, chain: seq<nat>): (r: seq<seq<Byte>>)
    ensures |r| == |chain| && forall k :: 0 <= k < |chain| ==> r[k] == CharsOf(nodes, chain[k])
  {
    seq(|chain|, k requires 0 <= k < |chain| => CharsOf(nodes, chain[k]))
  }

  function ViewOf(b: Blocks, lay: Layout, i: nat): FileView
    requires i in b.inodes
  {
    FileView([b.inodes[i].ctd] + NodeSlots(b.nodes, ChainOf(lay, Content(i))), NodeChars(b.nodes, ChainOf(lay, Meta(i))),
             b.inodes[i].metasize, b.inodes[i].size)
  }

  function View(b: Blocks, lay: Layout): (views: map<nat, FileView>)
    ensures views.Keys == b.inodes.Keys
  {
    map i | i in b.inodes :: ViewOf(b, lay, i)
  }

  // ---------- changing a block ----------

  function WithInode(b: Blocks, inode: Inode): Blocks {
    b.(inodes := b.inodes[inode.myID := inode])
  }

  function WithNode(b: Blocks, node: InodeCtd): Blocks {
    b.(nodes := b.nodes[node.myID := node])
  }

  lemma InodeChanged(b: Blocks, lay: Layout, inode: Inode)
    requires Linked(b, lay) && inode.myID in b.inodes
    requires inode.nextID == b.inodes[inode.myID].nextID && inode.metaID == b.inodes[inode.myID].metaID
    requires |inode.ctd| == INODE_SLOTS && (inode.metasize > 0 ==> inode.metaID != 0)
    ensures Linked(WithInode(b, inode), lay)
    ensures var v := View(b, lay);
            View(WithInode(b, inode), lay) ==
            v[inode.myID := v[inode.myID].(slots := v[inode.myID].slots[0 := inode.ctd],
                                                metasize := inode.metasize, size := inode.size)]
  {
    hide ChainsOk, PlacesOk, View, ViewOf, NodeSlots, NodeChars, InodesOk;
    var after := WithInode(b, inode);
    InodesStayOk(b, lay, inode);
    InodeView(b, lay, inode);
    forall j | j in b.inodes && j != inode.myID ensures ViewOf(after, lay, j) == ViewOf(b, lay, j) {
      ViewOfSame(b, lay, after, lay, j);
    }
    ViewPut(b, lay, after, lay, inode.myID);
  }

  lemma InodesStayOk(b: Blocks, lay: Layout, inode: Inode)
    requires InodesOk(b.inodes, lay.chains) && inode.myID in b.inodes
    requires inode.nextID == b.inodes[inode.myID].nextID && inode.metaID == b.inodes[inode.myID].metaID
    requires |inode.ctd| == INODE_SLOTS && (inode.metasize > 0 ==> inode.metaID != 0)
    ensures InodesOk(WithInode(b, inode).inodes, lay.chains)
  {
    var after := WithInode(b, inode).inodes;
    assert InodeOk(inode.myID, b.inodes[inode.myID], lay.chains);
    forall j | j in after ensures InodeOk(j, after[j], lay.chains) {
      assert InodeOk(j, b.inodes[j], lay.chains);
    }
  }

  lemma InodeView(b: Blocks, lay: Layout, inode: Inode)
    requires inode.myID in b.inodes
    ensures var v := ViewOf(b, lay, inode.myID);
            v.slots != [] && ViewOf(WithInode(b, inode), lay, inode.myID) ==
            v.(slots := v.slots[0 := inode.ctd], metasize := inode.metasize, size := inode.size)
  {
    hide NodeSlots, NodeChars;
    var v := ViewOf(b, lay, inode.myID);
    assert ViewOf(WithInode(b, inode), lay, inode.myID).slots == v.slots[0 := inode.ctd];
  }

  /** Only this block of this chain changes. */
  lemma NodeChanged(b: Blocks, lay: Layout, c: Chain, at: nat, node: InodeCtd)
    requires Linked(b, lay) && c in lay.chains && at < |lay.chains[c]| && node.myID == lay.chains[c][at]
    requires node.myID in b.nodes && node.nextID == b.nodes[node.myID].nextID
    requires |node.ctd| == CTD_SLOTS && |node.charContent| == CTD_CHARS
    ensures Linked(WithNode(b, node), lay)
    ensures forall d :: d in lay.chains && d != c ==>
              NodeSlots(WithNode(b, node).nodes, lay.chains[d]) == NodeSlots(b.nodes, lay.chains[d])
              && NodeChars(WithNode(b, node).nodes, lay.chains[d]) == NodeChars(b.nodes, lay.chains[d])
    ensures NodeSlots(WithNode(b, node).nodes, lay.chains[c]) == NodeSlots(b.nodes, lay.chains[c])[at := node.ctd]
    ensures NodeChars(WithNode(b, node).nodes, lay.chains[c]) == NodeChars(b.nodes, lay.chains[c])[at := node.charContent]
  {
    hide InodesOk, PlacesOk;
    ChainsDistinct(b, lay, c, c);
    forall d | d in lay.chains
      ensures ChainOk(WithNode(b, node).nodes, lay.places, d, lay.chains[d])
      ensures d != c ==> node.myID !in lay.chains[d]
    {
      ChainsDistinct(b, lay, c, d);
      ChainWithNode(b.nodes, lay.places, d, lay.chains[d], node);
    }
  }

  lemma ChainWithNode(nodes: map<nat, InodeCtd>, places: map<nat, Place>, c: Chain, chain: seq<nat>, node: InodeCtd)
    requires ChainOk(nodes, places, c, chain)
    requires node.myID in nodes && node.nextID == nodes[node.myID].nextID
    requires |node.ctd| == CTD_SLOTS && |node.charContent| == CTD_CHARS
    ensures ChainOk(nodes[node.myID := node], places, c, chain)
  {
    var after := nodes[node.myID := node];
    forall k | 0 <= k < |chain| ensures NodeOk(after, places, c, chain, k) {
      assert NodeOk(nodes, places, c, chain, k);
    }
  }

  /** What an inode shows depends on its own fields and the blocks of its chains. */
  lemma ViewOfSame(b: Blocks, lay: Layout, b': Blocks, lay': Layout, i: nat)
    requires i in b.inodes && i in b'.inodes
    requires b'.inodes[i].ctd == b.inodes[i].ctd && b'.inodes[i].size == b.inodes[i].size
    requires b'.inodes[i].metasize == b.inodes[i].metasize
    requires NodeSlots(b'.nodes, ChainOf(lay', Content(i))) == NodeSlots(b.nodes, ChainOf(lay, Content(i)))
    requires NodeChars(b'.nodes, ChainOf(lay', Meta(i))) == NodeChars(b.nodes, ChainOf(lay, Meta(i)))
    ensures ViewOf(b', lay', i) == ViewOf(b, lay, i)
  {
  }

  lemma HasChains(b: Blocks, lay: Layout, i: nat)
    requires InodesOk(b.inodes, lay.chains) && i in b.inodes
    ensures Content(i) in lay.chains && Meta(i) in lay.chains && i != 0 && b.inodes[i].myID == i
    ensures b.inodes[i].nextID == Following(lay.chains[Content(i)], -1)
    ensures b.inodes[i].metaID == Following(lay.chains[Meta(i)], -1)
    ensures |b.inodes[i].ctd| == INODE_SLOTS
  {
    assert InodeOk(i, b.inodes[i], lay.chains);
  }

  lemma OtherViewsSame(b: Blocks, lay: Layout, c: Chain, at: nat, node: InodeCtd, j: nat)
    requires Linked(b, lay) && c in lay.chains && at < |lay.chains[c]| && node.myID == lay.chains[c][at]
    requires node.myID in b.nodes && node.nextID == b.nodes[node.myID].nextID
    requires |node.ctd| == CTD_SLOTS && |node.charContent| == CTD_CHARS
    requires j in b.inodes && j != c.ino
    ensures ViewOf(WithNode(b, node), lay, j) == ViewOf(b, lay, j)
  {
    HasChains(b, lay, j);
    hide Linked, ViewOf;
    NodeChanged(b, lay, c, at, node);
    ViewOfSame(b, lay, WithNode(b, node), lay, j);
  }

  lemma NodeOkAt(b: Blocks, lay: Layout, c: Chain, at: nat)
    requires ChainsOk(b.nodes, lay) && c in lay.chains && at < |lay.chains[c]|
    ensures NodeOk(b.nodes, lay.places, c, lay.chains[c], at)
  {
    assert ChainOk(b.nodes, lay.places, c, lay.chains[c]);
  }

  lemma ViewPut(b: Blocks, lay: Layout, b': Blocks, lay': Layout, i: nat)
    requires i in b'.inodes && b'.inodes.Keys == b.inodes.Keys + {i}
    requires forall j :: j in b.inodes && j != i ==> ViewOf(b', lay', j) == ViewOf(b, lay, j)
    ensures View(b', lay') == View(b, lay)[i := ViewOf(b', lay', i)]
    ensures i in b.inodes ==> View(b, lay)[i] == ViewOf(b, lay, i)
  {
    hide ViewOf;
  }

  lemma SlotsOfView(b: Blocks, lay: Layout, b': Blocks, i: nat, at: nat, slots: seq<nat>)
    requires i in b.inodes && b'.inodes == b.inodes && at < |ChainOf(lay, Content(i))|
    requires NodeSlots(b'.nodes, ChainOf(lay, Content(i))) == NodeSlots(b.nodes, ChainOf(lay, Content(i)))[at := slots]
    requires NodeChars(b'.nodes, ChainOf(lay, Meta(i))) == NodeChars(b.nodes, ChainOf(lay, Meta(i)))
    ensures var v := ViewOf(b, lay, i);
            && |v.slots| == |ChainOf(lay, Content(i))| + 1 && v.slots[at + 1] == SlotsOf(b.nodes, ChainOf(lay, Content(i))[at])
            && ViewOf(b', lay, i) == v.(slots := v.slots[at + 1 := slots])
  {
    var v := ViewOf(b, lay, i);
    assert ViewOf(b', lay, i).slots == v.slots[at + 1 := slots];
  }

  lemma CharsOfView(b: Blocks, lay: Layout, b': Blocks, i: nat, at: nat, chars: seq<Byte>)
    requires i in b.inodes && b'.inodes == b.inodes && at < |ChainOf(lay, Meta(i))|
    requires NodeSlots(b'.nodes, ChainOf(lay, Content(i))) == NodeSlots(b.nodes, ChainOf(lay, Content(i)))
    requires NodeChars(b'.nodes, ChainOf(lay, Meta(i))) == NodeChars(b.nodes, ChainOf(lay, Meta(i)))[at := chars]
    ensures var v := ViewOf(b, lay, i);
            && |v.text| == |ChainOf(lay, Meta(i))| && v.text[at] == CharsOf(b.nodes, ChainOf(lay, Meta(i))[at])
            && ViewOf(b', lay, i) == v.(text := v.text[at := chars])
  {
  }

  lemma NodeOkIn(b: Blocks, lay: Layout, c: Chain, at: nat)
    requires Linked(b, lay) && c in lay.chains && at < |lay.chains[c]|
    ensures NodeOk(b.nodes, lay.places, c, lay.chains[c], at)
  {
    hide NodeOk;
    NodeOkAt(b, lay, c, at);
  }

  /** Changing the slots of a block of a content chain. */
  lemma SlotsChanged(b: Blocks, lay: Layout, i: nat, at: nat, slots: seq<nat>)
    requires Linked(b, lay) && i in b.inodes && Content(i) in lay.chains && at < |lay.chains[Content(i)]|
    requires lay.chains[Content(i)][at] in b.nodes && |slots| == CTD_SLOTS
    ensures var v, node := View(b, lay), b.nodes[lay.chains[Content(i)][at]];
            var after := WithNode(b, node.(ctd := slots));
            && node.myID == lay.chains[Content(i)][at]
            && Linked(after, lay) && after.inodes == b.inodes
            && |v[i].slots| == |lay.chains[Content(i)]| + 1 && v[i].slots[at + 1] == node.ctd
            && View(after, lay) == v[i := v[i].(slots := v[i].slots[at + 1 := slots])]
  {
    NodeOkAt(b, lay, Content(i), at);
    HasChains(b, lay, i);
    hide Linked, NodeOk;
    var node := b.nodes[lay.chains[Content(i)][at]].(ctd := slots);
    NodeChanged(b, lay, Content(i), at, node);
    hide View, ViewOf, NodeSlots, NodeChars;
    forall j | j in b.inodes && j != i ensures ViewOf(WithNode(b, node), lay, j) == ViewOf(b, lay, j) {
      OtherViewsSame(b, lay, Content(i), at, node, j);
    }
    SlotsOfView(b, lay, WithNode(b, node), i, at, slots);
    ViewPut(b, lay, WithNode(b, node), lay, i);
  }

  /** Changing the characters of a block of a metadata chain. */
  lemma CharsChanged(b: Blocks, lay: Layout, i: nat, at: nat, chars: seq<Byte>)
    requires Linked(b, lay) && i in b.inodes && Meta(i) in lay.chains && at < |lay.chains[Meta(i)]|
    requires lay.chains[Meta(i)][at] in b.nodes && |chars| == CTD_CHARS
    ensures var v, node := View(b, lay), b.nodes[lay.chains[Meta(i)][at]];
            var after := WithNode(b, node.(charContent := chars));
            && node.myID == lay.chains[Meta(i)][at]
            && Linked(after, lay) && after.inodes == b.inodes
            && |v[i].text| == |lay.chains[Meta(i)]| && v[i].text[at] == node.charContent
            && View(after, lay) == v[i := v[i].(text := v[i].text[at := chars])]
  {
    NodeOkAt(b, lay, Meta(i), at);
    HasChains(b, lay, i);
    hide Linked, NodeOk;
    var node := b.nodes[lay.chains[Meta(i)][at]].(charContent := chars);
    NodeChanged(b, lay, Meta(i), at, node);
    hide View, ViewOf, NodeSlots, NodeChars;
    forall j | j in b.inodes && j != i ensures ViewOf(WithNode(b, node), lay, j) == ViewOf(b, lay, j) {
      OtherViewsSame(b, lay, Meta(i), at, node, j);
    }
    CharsOfView(b, lay, WithNode(b, node), i, at, chars);
    ViewPut(b, lay, WithNode(b, node), lay, i);
  }

  // ---------- appending a block to a chain ----------

  /** The end of the chain gets linked to the new block. */
  function Appended(b: Blocks, lay: Layout, c: Chain, id: nat): Blocks
    requires c.ino in b.inodes
    requires ChainOf(lay, c) != [] ==> ChainOf(lay, c)[|ChainOf(lay, c)| - 1] in b.nodes
  {
    var chain, inode := ChainOf(lay, c), b.inodes[c.ino];
    if chain != [] then
      var last := chain[|chain| - 1];
      b.(nodes := b.nodes[last := b.nodes[last].(nextID := id)][id := NewCtd(id)])
    else
      Blocks(b.inodes[c.ino := if c.Content? then inode.(nextID := id) else inode.(metaID := id)], b.nodes[id := NewCtd(id)])
  }

  function AppendedLay(lay: Layout, c: Chain, id: nat): Layout {
    Layout(lay.chains[c := ChainOf(lay, c) + [id]], lay.places[id := Place(c, |ChainOf(lay, c)|)])
  }

  lemma AppendFacts(b: Blocks, lay: Layout, c: Chain, id: nat)
    requires Linked(b, lay) && c in lay.chains && id !in b.inodes && id !in b.nodes && id != 0
    ensures c.ino in b.inodes && id !in lay.places
    ensures ChainOf(lay, c) != [] ==> ChainOf(lay, c)[|ChainOf(lay, c)| - 1] in b.nodes
    ensures forall x :: x in lay.chains[c] ==> x in b.nodes
    ensures forall d, x :: d in lay.chains && x in lay.chains[d] ==> x != id
  {
    forall d | d in lay.chains ensures forall x :: x in lay.chains[d] ==> x in b.nodes {
      ChainsDistinct(b, lay, d, d);
    }
  }

  /** The chain itself. */
  lemma AppendChainOk(b: Blocks, lay: Layout, c: Chain, id: nat)
    requires Linked(b, lay) && c in lay.chains && id !in b.inodes && id !in b.nodes && id != 0
    ensures c.ino in b.inodes && (ChainOf(lay, c) != [] ==> ChainOf(lay, c)[|ChainOf(lay, c)| - 1] in b.nodes)
    ensures ChainOk(Appended(b, lay, c, id).nodes, AppendedLay(lay, c, id).places, c, lay.chains[c] + [id])
  {
    AppendFacts(b, lay, c, id);
    ChainsDistinct(b, lay, c, c);
    var chain := lay.chains[c];
    var after, lay', chain' := Appended(b, lay, c, id), AppendedLay(lay, c, id), chain + [id];
    hide InodesOk, PlacesOk, ChainsOk;
    forall k | 0 <= k < |chain'| ensures NodeOk(after.nodes, lay'.places, c, chain', k) {
      if k < |chain| { NodeOkAt(b, lay, c, k); }
    }
  }

  /** The blocks of any other chain are as before. */
  lemma AppendSame(b: Blocks, lay: Layout, c: Chain, id: nat, d: Chain)
    requires Linked(b, lay) && c in lay.chains && id !in b.inodes && id !in b.nodes && id != 0
    requires d in lay.chains && d != c
    ensures c.ino in b.inodes && (ChainOf(lay, c) != [] ==> ChainOf(lay, c)[|ChainOf(lay, c)| - 1] in b.nodes)
    ensures forall x :: x in lay.chains[d] ==>
              x in b.nodes && x in Appended(b, lay, c, id).nodes && Appended(b, lay, c, id).nodes[x] == b.nodes[x]
  {
    AppendFacts(b, lay, c, id);
    ChainsDistinct(b, lay, d, c);
    hide Linked;
    assert lay.chains[c] != [] ==> lay.chains[c][|lay.chains[c]| - 1] in lay.chains[c];
  }

  lemma AppendOthersOk(b: Blocks, lay: Layout, c: Chain, id: nat, d: Chain)
    requires Linked(b, lay) && c in lay.chains && id !in b.inodes && id !in b.nodes && id != 0
    requires d in lay.chains && d != c
    ensures c.ino in b.inodes && (ChainOf(lay, c) != [] ==> ChainOf(lay, c)[|ChainOf(lay, c)| - 1] in b.nodes)
    ensures ChainOk(Appended(b, lay, c, id).nodes, AppendedLay(lay, c, id).places, d, lay.chains[d])
  {
    AppendSame(b, lay, c, id, d);
    AppendFacts(b, lay, c, id);
    var after, lay', chain := Appended(b, lay, c, id), AppendedLay(lay, c, id), lay.chains[d];
    hide InodesOk, PlacesOk, ChainsOk, Appended;
    forall k | 0 <= k < |chain| ensures NodeOk(after.nodes, lay'.places, d, chain, k) {
      NodeOkAt(b, lay, d, k);
      assert chain[k] in lay.chains[d];
    }
  }

  lemma AppendInodesOk(b: Blocks, lay: Layout, c: Chain, id: nat)
    requires Linked(b, lay) && c in lay.chains && id !in b.inodes && id !in b.nodes && id != 0
    ensures c.ino in b.inodes && (ChainOf(lay, c) != [] ==> ChainOf(lay, c)[|ChainOf(lay, c)| - 1] in b.nodes)
    ensures InodesOk(Appended(b, lay, c, id).inodes, AppendedLay(lay, c, id).chains)
  {
    AppendFacts(b, lay, c, id);
    var after, lay' := Appended(b, lay, c, id), AppendedLay(lay, c, id);
    forall i | i in after.inodes ensures InodeOk(i, after.inodes[i], lay'.chains) {
      assert InodeOk(i, b.inodes[i], lay.chains);
    }
  }

  lemma AppendPlacesOk(b: Blocks, lay: Layout, c: Chain, id: nat)
    requires Linked(b, lay) && c in lay.chains && id !in b.inodes && id !in b.nodes && id != 0
    ensures PlacesOk(AppendedLay(lay, c, id))
  {
    var lay' := AppendedLay(lay, c, id);
    forall x | x in lay'.places ensures PlaceOk(x, lay'.places[x], lay'.chains) {
      if x != id { assert PlaceOk(x, lay.places[x], lay.chains); }
    }
  }

  /** An empty block is added at the end of what the inode keeps. */
  lemma AppendKeepsLinked(b: Blocks, lay: Layout, c: Chain, id: nat)
    requires Linked(b, lay) && c in lay.chains && id !in b.inodes && id !in b.nodes && id != 0
    ensures c.ino in b.inodes && (ChainOf(lay, c) != [] ==> ChainOf(lay, c)[|ChainOf(lay, c)| - 1] in b.nodes)
    ensures Linked(Appended(b, lay, c, id), AppendedLay(lay, c, id))
    ensures Appended(b, lay, c, id).nodes.Keys == b.nodes.Keys + {id} && Appended(b, lay, c, id).inodes.Keys == b.inodes.Keys
  {
    hide InodesOk, PlacesOk, ChainsOk, Appended, AppendedLay;
    AppendFacts(b, lay, c, id);
    AppendInodesOk(b, lay, c, id);
    AppendPlacesOk(b, lay, c, id);
    AppendChainsOk(b, lay, c, id);
    AppendKeys(b, lay, c, id);
  }

  lemma AppendChainsOk(b: Blocks, lay: Layout, c: Chain, id: nat)
    requires Linked(b, lay) && c in lay.chains && id !in b.inodes && id !in b.nodes && id != 0
    ensures c.ino in b.inodes && (ChainOf(lay, c) != [] ==> ChainOf(lay, c)[|ChainOf(lay, c)| - 1] in b.nodes)
    ensures ChainsOk(Appended(b, lay, c, id).nodes, AppendedLay(lay, c, id))
  {
    AppendChainOk(b, lay, c, id);
    var after, lay' := Appended(b, lay, c, id), AppendedLay(lay, c, id);
    hide Linked, ChainOk, Appended;
    forall d | d in lay'.chains ensures ChainOk(after.nodes, lay'.places, d, lay'.chains[d]) {
      if d != c { AppendOthersOk(b, lay, c, id, d); }
    }
  }

  lemma AppendKeys(b: Blocks, lay: Layout, c: Chain, id: nat)
    requires c.ino in b.inodes
    requires ChainOf(lay, c) != [] ==> ChainOf(lay, c)[|ChainOf(lay, c)| - 1] in b.nodes
    ensures Appended(b, lay, c, id).nodes.Keys == b.nodes.Keys + {id} && Appended(b, lay, c, id).inodes.Keys == b.inodes.Keys
    ensures AppendedLay(lay, c, id).places.Keys == lay.places.Keys + {id}
  {
  }

  lemma ChainSame(nodes: map<nat, InodeCtd>, after: map<nat, InodeCtd>, chain: seq<nat>)
    requires forall x :: x in chain ==> x in nodes && x in after && after[x] == nodes[x]
    ensures NodeSlots(after, chain) == NodeSlots(nodes, chain) && NodeChars(after, chain) == NodeChars(nodes, chain)
  {
  }

  lemma AppendOtherViews(b: Blocks, lay: Layout, c: Chain, id: nat, j: nat)
    requires Linked(b, lay) && c in lay.chains && id !in b.inodes && id !in b.nodes && id != 0
    requires j in b.inodes
    ensures c.ino in b.inodes && (ChainOf(lay, c) != [] ==> ChainOf(lay, c)[|ChainOf(lay, c)| - 1] in b.nodes)
    ensures var after, lay' := Appended(b, lay, c, id), AppendedLay(lay, c, id);
            && (Content(j) != c ==> NodeSlots(after.nodes, ChainOf(lay', Content(j))) == NodeSlots(b.nodes, ChainOf(lay, Content(j))))
            && (Meta(j) != c ==> NodeChars(after.nodes, ChainOf(lay', Meta(j))) == NodeChars(b.nodes, ChainOf(lay, Meta(j))))
  {
    AppendFacts(b, lay, c, id);
    HasChains(b, lay, j);
    var after := Appended(b, lay, c, id);
    hide Linked, Appended, NodeSlots, NodeChars;
    if Content(j) != c {
      AppendSame(b, lay, c, id, Content(j));
      ChainSame(b.nodes, after.nodes, lay.chains[Content(j)]);
    }
    if Meta(j) != c {
      AppendSame(b, lay, c, id, Meta(j));
      ChainSame(b.nodes, after.nodes, lay.chains[Meta(j)]);
    }
  }

  lemma AppendOwnView(b: Blocks, lay: Layout, c: Chain, id: nat)
    requires Linked(b, lay) && c in lay.chains && id !in b.inodes && id !in b.nodes && id != 0
    ensures c.ino in b.inodes && (ChainOf(lay, c) != [] ==> ChainOf(lay, c)[|ChainOf(lay, c)| - 1] in b.nodes)
    ensures var after, lay' := Appended(b, lay, c, id), AppendedLay(lay, c, id);
            && NodeSlots(after.nodes, ChainOf(lay', c)) == NodeSlots(b.nodes, ChainOf(lay, c)) + [NoSlots(CTD_SLOTS)]
            && NodeChars(after.nodes, ChainOf(lay', c)) == NodeChars(b.nodes, ChainOf(lay, c)) + [Zeros(CTD_CHARS)]
  {
    hide Linked, NodeSlots, NodeChars;
    AppendFacts(b, lay, c, id);
    ChainGrown(b.nodes, Appended(b, lay, c, id).nodes, lay.chains[c], id);
  }

  lemma ChainGrown(nodes: map<nat, InodeCtd>, after: map<nat, InodeCtd>, chain: seq<nat>, id: nat)
    requires forall x :: x in chain ==> SlotsOf(after, x) == SlotsOf(nodes, x) && CharsOf(after, x) == CharsOf(nodes, x)
    ensures NodeSlots(after, chain + [id]) == NodeSlots(nodes, chain) + [SlotsOf(after, id)]
    ensures NodeChars(after, chain + [id]) == NodeChars(nodes, chain) + [CharsOf(after, id)]
  {
    hide SlotsOf, CharsOf;
  }

  function WithBlock(v: FileView, c: Chain): FileView {
    if c.Content? then v.(slots := v.slots + [NoSlots(CTD_SLOTS)]) else v.(text := v.text + [Zeros(CTD_CHARS)])
  }

  lemma AppendView(b: Blocks, lay: Layout, c: Chain, id: nat)
    requires Linked(b, lay) && c in lay.chains && id !in b.inodes && id !in b.nodes && id != 0
    ensures c.ino in b.inodes && c.ino in View(b, lay) && (ChainOf(lay, c) != [] ==> ChainOf(lay, c)[|ChainOf(lay, c)| - 1] in b.nodes)
    ensures View(Appended(b, lay, c, id), AppendedLay(lay, c, id)) == View(b, lay)[c.ino := WithBlock(View(b, lay)[c.ino], c)]
  {
    hide View, NodeSlots, NodeChars, Linked, Appended, AppendedLay, ViewOf, ChainOf, WithBlock;
    AppendFacts(b, lay, c, id);
    AppendKeys(b, lay, c, id);
    AppendInodesKept(b, lay, c, id);
    var after, lay', i := Appended(b, lay, c, id), AppendedLay(lay, c, id), c.ino;
    forall j | j in b.inodes && j != i ensures ViewOf(after, lay', j) == ViewOf(b, lay, j) {
      AppendOtherViews(b, lay, c, id, j);
      ViewOfSame(b, lay, after, lay', j);
    }
    AppendOtherViews(b, lay, c, id, i);
    AppendOwnView(b, lay, c, id);
    ViewOfAppended(b, lay, after, lay', c);
    ViewPut(b, lay, after, lay', i);
  }

  lemma AppendInodesKept(b: Blocks, lay: Layout, c: Chain, id: nat)
    requires c.ino in b.inodes
    requires ChainOf(lay, c) != [] ==> ChainOf(lay, c)[|ChainOf(lay, c)| - 1] in b.nodes
    ensures forall j :: j in b.inodes ==>
              var inode, after := b.inodes[j], Appended(b, lay, c, id).inodes[j];
              after.ctd == inode.ctd && after.size == inode.size && after.metasize == inode.metasize
  {
  }

  lemma ViewOfAppended(b: Blocks, lay: Layout, b': Blocks, lay': Layout, c: Chain)
    requires c.ino in b.inodes && c.ino in b'.inodes
    requires b'.inodes[c.ino].ctd == b.inodes[c.ino].ctd && b'.inodes[c.ino].size == b.inodes[c.ino].size
    requires b'.inodes[c.ino].metasize == b.inodes[c.ino].metasize
    requires NodeSlots(b'.nodes, ChainOf(lay', Content(c.ino))) ==
             NodeSlots(b.nodes, ChainOf(lay, Content(c.ino))) + if c.Content? then [NoSlots(CTD_SLOTS)] else []
    requires NodeChars(b'.nodes, ChainOf(lay', Meta(c.ino))) ==
             NodeChars(b.nodes, ChainOf(lay, Meta(c.ino))) + if c.Meta? then [Zeros(CTD_CHARS)] else []
    ensures ViewOf(b', lay', c.ino) == WithBlock(ViewOf(b, lay, c.ino), c)
  {
    hide NodeSlots, NodeChars;
    assert ViewOf(b', lay', c.ino).slots == WithBlock(ViewOf(b, lay, c.ino), c).slots;
  }

  // ---------- creating and deleting an inode ----------

  function Created(b: Blocks, id: nat): Blocks {
    b.(inodes := b.inodes[id := NewInode(id)])
  }

  function CreatedLay(lay: Layout, id: nat): Layout {
    lay.(chains := lay.chains[Content(id) := []][Meta(id) := []])
  }

  lemma NoChainsYet(b: Blocks, lay: Layout, id: nat)
    requires InodesOk(b.inodes, lay.chains) && id !in b.inodes
    ensures Content(id) !in lay.chains && Meta(id) !in lay.chains
  {
    assert Content(id).ino == id && Meta(id).ino == id;
  }

  lemma CreateInodesOk(b: Blocks, lay: Layout, id: nat)
    requires InodesOk(b.inodes, lay.chains) && id !in b.inodes && id != 0
    ensures InodesOk(Created(b, id).inodes, CreatedLay(lay, id).chains)
  {
    NoChainsYet(b, lay, id);
    var after, lay' := Created(b, id), CreatedLay(lay, id);
    forall i | i in after.inodes ensures InodeOk(i, after.inodes[i], lay'.chains) {
      if i != id { assert InodeOk(i, b.inodes[i], lay.chains); }
    }
  }

  lemma CreatePlacesOk(b: Blocks, lay: Layout, id: nat)
    requires InodesOk(b.inodes, lay.chains) && PlacesOk(lay) && id !in b.inodes
    ensures PlacesOk(CreatedLay(lay, id))
  {
    NoChainsYet(b, lay, id);
    var lay' := CreatedLay(lay, id);
    forall x | x in lay'.places ensures PlaceOk(x, lay'.places[x], lay'.chains) {
      assert PlaceOk(x, lay.places[x], lay.chains);
    }
  }

  lemma CreateKeepsLinked(b: Blocks, lay: Layout, id: nat)
    requires Linked(b, lay) && id !in b.inodes && id !in b.nodes && id != 0
    ensures Linked(Created(b, id), CreatedLay(lay, id))
  {
    hide ChainOk, InodesOk, PlacesOk;
    CreateInodesOk(b, lay, id);
    CreatePlacesOk(b, lay, id);
    EmptyChainOk(b.nodes, lay.places, Content(id));
    EmptyChainOk(b.nodes, lay.places, Meta(id));
  }

  lemma EmptyChainOk(nodes: map<nat, InodeCtd>, places: map<nat, Place>, c: Chain)
    ensures ChainOk(nodes, places, c, [])
  {
  }

  lemma CreatedChains(lay: Layout, id: nat, j: nat)
    requires j != id
    ensures ChainOf(CreatedLay(lay, id), Content(j)) == ChainOf(lay, Content(j))
    ensures ChainOf(CreatedLay(lay, id), Meta(j)) == ChainOf(lay, Meta(j))
    ensures ChainOf(CreatedLay(lay, id), Content(id)) == [] == ChainOf(CreatedLay(lay, id), Meta(id))
  {
  }

  lemma CreateView(b: Blocks, lay: Layout, id: nat)
    requires id !in b.inodes
    ensures View(Created(b, id), CreatedLay(lay, id)) == View(b, lay)[id := FileView([NoSlots(INODE_SLOTS)], [], 0, 0)]
  {
    hide View, ViewOf, NodeSlots, NodeChars, ChainOf, CreatedLay;
    var after, lay' := Created(b, id), CreatedLay(lay, id);
    forall j | j in b.inodes ensures ViewOf(after, lay', j) == ViewOf(b, lay, j) {
      CreatedChains(lay, id, j);
      ViewOfSame(b, lay, after, lay', j);
    }
    CreatedChains(lay, id, id + 1);
    EmptyView(after, lay', id);
    ViewPut(b, lay, after, lay', id);
  }

  lemma EmptyView(b: Blocks, lay: Layout, i: nat)
    requires i in b.inodes && ChainOf(lay, Content(i)) == [] && ChainOf(lay, Meta(i)) == []
    ensures ViewOf(b, lay, i) == FileView([b.inodes[i].ctd], [], b.inodes[i].metasize, b.inodes[i].size)
  {
    assert ViewOf(b, lay, i).slots == [b.inodes[i].ctd];
  }

  /** All blocks of an inode, in the order they are given back. */
  function BlocksOf(lay: Layout, i: nat): seq<nat> {
    [i] + ChainOf(lay, Content(i)) + ChainOf(lay, Meta(i))
  }

  ghost function IdsOf(lay: Layout, i: nat): set<nat> {
    set x | x in BlocksOf(lay, i)
  }

  lemma NoDupConcat(a: seq<nat>, b: seq<nat>)
    requires NoDup(a) && NoDup(b) && forall x :: x in a ==> x !in b
    ensures NoDup(a + b)
  {
    forall i, j | 0 <= i < j < |a + b| ensures (a + b)[i] != (a + b)[j] {
      if i < |a| <= j { assert a[i] in a && b[j - |a|] in b; }
    }
  }

  lemma BlocksOfDistinct(b: Blocks, lay: Layout, i: nat)
    requires Linked(b, lay) && i in b.inodes
    ensures NoDup(BlocksOf(lay, i))
    ensures forall x :: x in BlocksOf(lay, i) ==> x == i || x in b.nodes
  {
    HasChains(b, lay, i);
    ChainsDistinct(b, lay, Content(i), Meta(i));
    ChainsDistinct(b, lay, Meta(i), Content(i));
    hide Linked;
    NoDupConcat([i], lay.chains[Content(i)]);
    NoDupConcat([i] + lay.chains[Content(i)], lay.chains[Meta(i)]);
  }

  ghost function Deleted(b: Blocks, lay: Layout, i: nat): Blocks {
    Blocks(b.inodes - {i}, b.nodes - IdsOf(lay, i))
  }

  ghost function DeletedLay(lay: Layout, i: nat): Layout {
    Layout(lay.chains - {Content(i), Meta(i)}, lay.places - IdsOf(lay, i))
  }

  /** The blocks of another chain stay. */
  lemma OthersStay(b: Blocks, lay: Layout, i: nat, d: Chain)
    requires Linked(b, lay) && i in b.inodes && d in lay.chains && d.ino != i
    ensures forall x :: x in lay.chains[d] ==> x in b.nodes && x !in IdsOf(lay, i)
    ensures ChainOk(Deleted(b, lay, i).nodes, DeletedLay(lay, i).places, d, lay.chains[d])
  {
    HasChains(b, lay, i);
    ChainsDistinct(b, lay, d, Content(i));
    ChainsDistinct(b, lay, d, Meta(i));
    var chain := lay.chains[d];
    forall k | 0 <= k < |chain| ensures NodeOk(Deleted(b, lay, i).nodes, DeletedLay(lay, i).places, d, chain, k) {
      NodeOkAt(b, lay, d, k);
      assert chain[k] in chain;
    }
  }

  lemma DeletePlacesOk(b: Blocks, lay: Layout, i: nat)
    requires Linked(b, lay) && i in b.inodes
    ensures PlacesOk(DeletedLay(lay, i))
  {
    HasChains(b, lay, i);
    var after := DeletedLay(lay, i);
    forall x | x in after.places ensures PlaceOk(x, after.places[x], after.chains) {
      assert PlaceOk(x, lay.places[x], lay.chains);
      assert x !in BlocksOf(lay, i);
    }
  }

  lemma DeleteInodesOk(b: Blocks, lay: Layout, i: nat)
    requires Linked(b, lay) && i in b.inodes
    ensures InodesOk(Deleted(b, lay, i).inodes, DeletedLay(lay, i).chains)
  {
    hide ChainsOk, PlacesOk, IdsOf;
    var after, lay' := Deleted(b, lay, i), DeletedLay(lay, i);
    forall j | j in after.inodes ensures InodeOk(j, after.inodes[j], lay'.chains) {
      assert InodeOk(j, b.inodes[j], lay.chains);
    }
  }

  lemma DeleteKeepsLinked(b: Blocks, lay: Layout, i: nat)
    requires Linked(b, lay) && i in b.inodes
    ensures Linked(Deleted(b, lay, i), DeletedLay(lay, i))
  {
    hide InodesOk, PlacesOk, IdsOf, ChainOk;
    DeleteInodesOk(b, lay, i);
    DeletePlacesOk(b, lay, i);
    forall d | d in lay.chains && d.ino != i
      ensures ChainOk(Deleted(b, lay, i).nodes, DeletedLay(lay, i).places, d, lay.chains[d]) {
      OthersStay(b, lay, i, d);
    }
    assert forall d :: d in DeletedLay(lay, i).chains ==> d in lay.chains && d.ino != i;
  }

  lemma DeleteView(b: Blocks, lay: Layout, i: nat)
    requires Linked(b, lay) && i in b.inodes
    ensures View(Deleted(b, lay, i), DeletedLay(lay, i)) == View(b, lay) - {i}
  {
    hide ViewOf, NodeSlots, NodeChars, Linked;
    var after, lay' := Deleted(b, lay, i), DeletedLay(lay, i);
    forall j | j in b.inodes && j != i ensures ViewOf(after, lay', j) == ViewOf(b, lay, j) {
      DeleteOtherView(b, lay, i, j);
    }
  }

  lemma DeleteOtherView(b: Blocks, lay: Layout, i: nat, j: nat)
    requires Linked(b, lay) && i in b.inodes && j in b.inodes && j != i
    ensures ViewOf(Deleted(b, lay, i), DeletedLay(lay, i), j) == ViewOf(b, lay, j)
  {
    hide ViewOf, NodeSlots, NodeChars, Linked, Deleted, DeletedLay, ChainOf;
    var after, lay' := Deleted(b, lay, i), DeletedLay(lay, i);
    DeleteKeeps(b, lay, i, j);
    OthersStay(b, lay, i, Content(j));
    OthersStay(b, lay, i, Meta(j));
    DeleteNodesSame(b, lay, i, lay.chains[Content(j)]);
    DeleteNodesSame(b, lay, i, lay.chains[Meta(j)]);
    ViewOfSame(b, lay, after, lay', j);
  }

  lemma DeleteNodesSame(b: Blocks, lay: Layout, i: nat, chain: seq<nat>)
    requires forall x :: x in chain ==> x in b.nodes && x !in IdsOf(lay, i)
    ensures NodeSlots(Deleted(b, lay, i).nodes, chain) == NodeSlots(b.nodes, chain)
    ensures NodeChars(Deleted(b, lay, i).nodes, chain) == NodeChars(b.nodes, chain)
  {
    hide NodeSlots, NodeChars, IdsOf;
    ChainSame(b.nodes, Deleted(b, lay, i).nodes, chain);
  }

  lemma DeleteKeeps(b: Blocks, lay: Layout, i: nat, j: nat)
    requires Linked(b, lay) && i in b.inodes && j in b.inodes && j != i
    ensures Content(j) in lay.chains && Meta(j) in lay.chains
    ensures ChainOf(lay, Content(j)) == lay.chains[Content(j)] == ChainOf(DeletedLay(lay, i), Content(j))
    ensures ChainOf(lay, Meta(j)) == lay.chains[Meta(j)] == ChainOf(DeletedLay(lay, i), Meta(j))
    ensures j in Deleted(b, lay, i).inodes && Deleted(b, lay, i).inodes[j] == b.inodes[j]
  {
    HasChains(b, lay, j);
  }
}

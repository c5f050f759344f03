/** Writing a journal file and replaying all files after a crash
    (src/modules/filesystem/journal.cpp:63-87 and 125-215). */
module JournalReplay {
  import opened Wrappers
  import opened Chunks
  import opened Flattening
  import opened JournalRecords

  /** The encrypted stream of a file: message number k of the stream that a header starts. */
  datatype Cipher = Cipher(seal: (seq<Byte>, nat, seq<Byte>) -> seq<Byte>, open: (seq<Byte>, nat, seq<Byte>) -> seq<Byte>)

  const OVERHEAD: nat := 17
  const HEADER_SIZE: nat := 24

  ghost predicate Opens(c: Cipher) {
    forall h, k, m :: c.open(h, k, c.seal(h, k, m)) == m && |c.seal(h, k, m)| == |m| + OVERHEAD
  }

  function Payload(r: Record): seq<Byte> {
    r.name + r.data
  }

  /** The messages of one record, starting with message k. */
  function Sealed(c: Cipher, header: seq<Byte>, k: nat, r: Record): seq<Byte> {
    c.seal(header, k, EntryBytes(r)) + if |Payload(r)| > 0 then c.seal(header, k + 1, Payload(r)) else []
  }

  function Messages(records: seq<Record>): nat {
    if records == [] then 0
    else Messages(records[..|records| - 1]) + 1 + if |Payload(records[|records| - 1])| > 0 then 1 else 0
  }

  /** The content of a journal file. */
  function Image(c: Cipher, header: seq<Byte>, records: seq<Record>): seq<Byte> {
    if records == [] then header
    else
      var front, r := records[..|records| - 1], records[|records| - 1];
      Image(c, header, front) + Sealed(c, header, Messages(front), r)
  }

  lemma ImagePush(c: Cipher, header: seq<Byte>, records: seq<Record>, r: Record)
    ensures Image(c, header, records + [r]) == Image(c, header, records) + Sealed(c, header, Messages(records), r)
    ensures Messages(records + [r]) == Messages(records) + 1 + if |Payload(r)| > 0 then 1 else 0
  {
    assert (records + [r])[..|records|] == records;
  }

  /** A file of one record: the header, the entry as message 0, and the name with the data behind it
      as message 1, if there is either. */
  lemma OneRecord(c: Cipher, header: seq<Byte>, r: Record)
    ensures Image(c, header, [r]) ==
              header + c.seal(header, 0, EntryBytes(r))
              + if r.name == [] && r.data == [] then [] else c.seal(header, 1, r.name + r.data)
    ensures Messages([r]) == if r.name == [] && r.data == [] then 1 else 2
  {
    hide EntryBytes;
    assert [] + [r] == [r];
    ImagePush(c, header, [], r);
    hide Image, Messages;
    assert Image(c, header, [r]) == header + Sealed(c, header, 0, r) by { assert Image(c, header, []) == header; }
  }

  /** A file starts with the image of every prefix of its records. */
  lemma {:induction false} ImagePrefix(c: Cipher, header: seq<Byte>, records: seq<Record>, i: nat)
    requires i <= |records|
    ensures Image(c, header, records[..i]) <= Image(c, header, records)
  {
    if i == |records| {
      assert records[..i] == records;
    } else {
      var front := records[..|records| - 1];
      ImagePrefix(c, header, front, i);
      assert front[..i] == records[..i];
    }
  }

  /** What a crash leaves of a file with these records. The header reaches the disk with the
      first record: until then it may be missing. */
  ghost predicate OnDisk(c: Cipher, bytes: seq<Byte>, records: seq<Record>) {
    if |bytes| < HEADER_SIZE then records == [] else bytes == Image(c, bytes[..HEADER_SIZE], records)
  }

  lemma {:induction false} ImageStart(c: Cipher, header: seq<Byte>, records: seq<Record>)
    ensures header <= Image(c, header, records)
  {
    if records != [] { ImageStart(c, header, records[..|records| - 1]); }
  }

  /** An open journal file: what is on disk, and what its stream still buffers. */
  class JournalFile {
    const cipher: Cipher
    const header: seq<Byte>
    var content: seq<Byte>
    var buffer: seq<Byte>
    var messages: nat
    var entries: nat
    ghost var records: seq<Record>

    ghost predicate Valid()
      reads this
    {
      && Opens(cipher) && |header| == HEADER_SIZE
      && content + buffer == Image(cipher, header, records)
      && (if records == [] then content == [] else buffer == [])
      && messages == Messages(records) && entries == |records|
    }

    lemma ContentOnDisk()
      requires Valid()
      ensures OnDisk(cipher, content, records)
    {
      hide Image;
      ImageStart(cipher, header, records);
      if records != [] {
        assert content == Image(cipher, header, records);
        assert content[..HEADER_SIZE] == header;
      }
    }

    constructor (cipher: Cipher, header: seq<Byte>)
      requires Opens(cipher) && |header| == HEADER_SIZE
      ensures Valid() && records == [] && this.cipher == cipher && this.header == header
    {
      this.cipher, this.header := cipher, header;
      content, buffer, messages, entries, records := [], header, 0, 0, [];
    }

    method WriteEntry(r: Record)
      requires Valid()
      modifies this
      ensures Valid() && records == old(records) + [r]
    {
      hide Opens, Image, Messages, EntryBytes;
      ImagePush(cipher, header, records, r);
      var encrypted := cipher.seal(header, messages, EntryBytes(r));
      messages := messages + 1;
      var datacontent := r.name + r.data;
      if |datacontent| > 0 {
        encrypted := encrypted + cipher.seal(header, messages, datacontent);
        messages := messages + 1;
      }
      content, buffer := content + buffer + encrypted, [];
      entries := entries + 1;
      records := records + [r];
    }

    method DeleteEntry(id: nat)
      requires Valid()
      modifies this
      ensures Valid() && records == old(records) + [CloseOf(id)]
    {
      WriteEntry(CloseOf(id));
    }
  }

  lemma SliceAfter<T>(s: seq<T>, front: seq<T>, part: seq<T>)
    requires front + part <= s
    ensures |front| + |part| <= |s| && s[|front|..|front| + |part|] == part
  {
    assert s[..|front + part|] == front + part;
  }

  lemma SliceWithin<T>(s: seq<T>, at: nat, part: seq<T>, i: nat, j: nat)
    requires i <= j <= |part| && at + |part| <= |s| && s[at..at + |part|] == part
    ensures s[at + i..at + j] == part[i..j]
  {
    forall k | 0 <= k < j - i ensures s[at + i..at + j][k] == part[i..j][k] {
      assert s[at..at + |part|][i + k] == s[at + (i + k)];
    }
  }

  /** What the reading loop finds at the offset of record i. */
  lemma RecordAt(c: Cipher, header: seq<Byte>, records: seq<Record>, i: nat)
    requires Opens(c) && i < |records|
    ensures |Image(c, header, records[..i])| < |Image(c, header, records)|
    ensures var at, image := |Image(c, header, records[..i])|, Image(c, header, records);
            var sealed := Sealed(c, header, Messages(records[..i]), records[i]);
            && at + |sealed| <= |image| && image[at..at + |sealed|] == sealed
            && |Image(c, header, records[..i + 1])| == at + |sealed|
    ensures Messages(records[..i + 1]) == Messages(records[..i]) + 1 + if |Payload(records[i])| > 0 then 1 else 0
  {
    hide Image, Messages, Sealed, Opens;
    SealedParts(c, header, Messages(records[..i]), records[i], Sealed(c, header, Messages(records[..i]), records[i]));
    ImagePrefix(c, header, records, i + 1);
    assert records[..i + 1] == records[..i] + [records[i]];
    ImagePush(c, header, records[..i], records[i]);
    SliceAfter(Image(c, header, records), Image(c, header, records[..i]),
               Sealed(c, header, Messages(records[..i]), records[i]));
  }

  /** The messages at the start of a sealed record. */
  lemma SealedParts(c: Cipher, header: seq<Byte>, k: nat, r: Record, bytes: seq<Byte>)
    requires Opens(c) && bytes == Sealed(c, header, k, r)
    ensures |bytes| == ENTRY_SIZE + OVERHEAD + if |Payload(r)| > 0 then |Payload(r)| + OVERHEAD else 0
    ensures c.open(header, k, bytes[..ENTRY_SIZE + OVERHEAD]) == EntryBytes(r)
    ensures |Payload(r)| > 0 ==> c.open(header, k + 1, bytes[ENTRY_SIZE + OVERHEAD..]) == Payload(r)
  {
    var entry := c.seal(header, k, EntryBytes(r));
    assert bytes[..|entry|] == entry;
    if |Payload(r)| > 0 {
      assert bytes[|entry|..] == c.seal(header, k + 1, Payload(r));
    }
  }

  /** One turn of the loop below: the entry, then as many further bytes as the entry announces. */
  method ReadRecord(c: Cipher, header: seq<Byte>, encryptedJournal: seq<Byte>, offset: nat, k: nat,
                    ghost records: seq<Record>, ghost i: nat)
    returns (entry: seq<Byte>, payload: seq<Byte>, next: nat)
    requires Opens(c) && i < |records| && Fits(records[i])
    requires encryptedJournal == Image(c, header, records)
    requires offset == |Image(c, header, records[..i])| && k == Messages(records[..i])
    ensures entry == EntryBytes(records[i]) && payload == Payload(records[i])
    ensures offset < next <= |encryptedJournal| && next == |Image(c, header, records[..i + 1])|
    ensures Messages(records[..i + 1]) == k + 1 + if |payload| > 0 then 1 else 0
  {
    hide Image, Messages, EntryBytes, ReadHeader, Fits, Opens, Sealed;
    ghost var r := records[i];
    ghost var sealed := Sealed(c, header, k, r);
    RecordAt(c, header, records, i);
    SealedParts(c, header, k, r, sealed);
    var entryEncSize := ENTRY_SIZE + OVERHEAD;
    next := offset + entryEncSize;
    SliceWithin(encryptedJournal, offset, sealed, 0, entryEncSize);
    entry := c.open(header, k, encryptedJournal[offset..next]);
    EntryRoundTrip(r, []);
    assert entry + [] == entry;
    var e := ReadHeader(entry).value;
    payload := [];
    if e.dataLength + e.nameLength > 0 {
      var dataEncSize := e.nameLength + e.dataLength + OVERHEAD;
      SliceWithin(encryptedJournal, offset, sealed, entryEncSize, |sealed|);
      payload := c.open(header, k + 1, encryptedJournal[next..next + dataEncSize]);
      next := next + dataEncSize;
    }
  }

  lemma AtStart(c: Cipher, header: seq<Byte>, records: seq<Record>)
    ensures records[..|records|] == records
    ensures Image(c, header, records[..0]) == header && Messages(records[..0]) == 0 && PlainAll(records[..0]) == []
  {
  }

  lemma Regroup<T>(a: seq<T>, b: seq<T>, c: seq<T>, d: seq<T>)
    ensures a + b + c + d == a + (b + c + d)
  {
  }

  lemma PlainNext(records: seq<Record>, i: nat)
    requires i < |records|
    ensures PlainAll(records[..i + 1]) == PlainAll(records[..i]) + EntryBytes(records[i]) + Payload(records[i])
  {
    assert records[..i + 1] == records[..i] + [records[i]];
    PlainPush(records[..i], records[i]);
  }

  /** The loop of tryReplay over one file: the plain entries, names and data are appended to
      the complete journal. */
  method ReadFile(c: Cipher, encryptedJournal: seq<Byte>, completeJournal: seq<Byte>, ghost records: seq<Record>)
    returns (journal: seq<Byte>)
    requires Opens(c) && OnDisk(c, encryptedJournal, records)
    requires forall r :: r in records ==> Fits(r)
    ensures journal == completeJournal + PlainAll(records)
  {
    hide Opens, Image, Messages, Sealed, PlainAll, Fits;
    var header := encryptedJournal[..Min(HEADER_SIZE, |encryptedJournal|)];
    AtStart(c, header, records);
    var offset, k := HEADER_SIZE, 0;
    journal := completeJournal;
    ghost var i := 0;
    if 0 < |records| { RecordAt(c, header, records, 0); }
    while offset < |encryptedJournal|
      invariant |encryptedJournal| >= HEADER_SIZE ==> encryptedJournal == Image(c, header, records)
      invariant |encryptedJournal| < HEADER_SIZE ==> i == |records| && offset >= HEADER_SIZE
      invariant |encryptedJournal| >= HEADER_SIZE ==>
          && i <= |records| && offset == |Image(c, header, records[..i])| && k == Messages(records[..i])
          && (i == |records| <==> offset == |encryptedJournal|) && offset <= |encryptedJournal|
      invariant i <= |records| && journal == completeJournal + PlainAll(records[..i])
      decreases |records| - i
    {
      var entry, payload, next := ReadRecord(c, header, encryptedJournal, offset, k, records, i);
      PlainNext(records, i);
      Regroup(completeJournal, PlainAll(records[..i]), entry, payload);
      journal := journal + entry + payload;
      offset := next;
      k := k + 1 + if |payload| > 0 then 1 else 0;
      i := i + 1;
      if i < |records| { RecordAt(c, header, records, i); }
    }
  }

  // ---------- the entries that are left ----------

  datatype Item = Item(offset: nat, size: nat)

  /** The items point at the plain bytes of exactly these records. */
  ghost predicate Points(items: map<nat, Item>, journal: seq<Byte>, open: map<nat, Record>) {
    && items.Keys == open.Keys
    && forall id :: id in items ==> PointsAt(items[id], journal, open[id])
  }

  ghost predicate PointsAt(item: Item, journal: seq<Byte>, r: Record) {
    && item.offset + item.size <= |journal|
    && journal[item.offset..item.offset + item.size] == Plain(r)
  }

  lemma {:induction false} PlainPrefix(records: seq<Record>, i: nat)
    requires i <= |records|
    ensures PlainAll(records[..i]) <= PlainAll(records)
  {
    if i == |records| {
      assert records[..i] == records;
    } else {
      var front := records[..|records| - 1];
      PlainPrefix(front, i);
      assert front[..i] == records[..i];
    }
  }

  /** What the collecting loop finds at the offset of record i. */
  lemma PlainAt(records: seq<Record>, i: nat)
    requires i < |records| && Fits(records[i])
    ensures var at, journal, r := |PlainAll(records[..i])|, PlainAll(records), records[i];
            && at + |Plain(r)| <= |journal| && PointsAt(Item(at, |Plain(r)|), journal, r)
            && |PlainAll(records[..i + 1])| == at + |Plain(r)|
            && ReadHeader(journal[at..at + ENTRY_SIZE]) == Some(HeaderOf(r))
  {
    hide PlainAll, ReadHeader, EntryBytes, Fits;
    var r := records[i];
    PlainPrefix(records, i + 1);
    assert records[..i + 1] == records[..i] + [r];
    PlainPush(records[..i], r);
    SliceAfter(PlainAll(records), PlainAll(records[..i]), Plain(r));
    SliceWithin(PlainAll(records), |PlainAll(records[..i])|, Plain(r), 0, ENTRY_SIZE);
    assert Plain(r)[0..ENTRY_SIZE] == EntryBytes(r) + [];
    EntryRoundTrip(r, []);
  }

  lemma PointsPush(items: map<nat, Item>, journal: seq<Byte>, open: map<nat, Record>, r: Record, item: Item)
    requires Points(items, journal, open) && PointsAt(item, journal, r)
    ensures Points(items - {r.id}, journal, open - {r.id})
    ensures Points(items[r.id := item], journal, open[r.id := r])
  {
    hide PointsAt, Plain;
  }

  /** The loop of tryReplay over the complete journal. */
  method Collect(completeJournal: seq<Byte>, ghost records: seq<Record>) returns (items: map<nat, Item>)
    requires completeJournal == PlainAll(records)
    requires forall r :: r in records ==> Fits(r)
    ensures Points(items, completeJournal, Open(records))
  {
    hide PlainAll, ReadHeader, Fits, Points, PointsAt, Open;
    items := map[];
    var offset := 0;
    ghost var i := 0;
    CollectStart(records);
    if 0 < |records| { PlainAt(records, 0); }
    while offset < |completeJournal|
      invariant i <= |records| && offset == |PlainAll(records[..i])|
      invariant offset <= |completeJournal| && (i == |records| <==> offset == |completeJournal|)
      invariant Points(items, completeJournal, Open(records[..i]))
      decreases |records| - i
    {
      PlainAt(records, i);
      assert records[..i + 1] == records[..i] + [records[i]];
      OpenPush(records[..i], records[i]);
      var entry := ReadHeader(completeJournal[offset..offset + ENTRY_SIZE]).value;
      var size := ENTRY_SIZE + entry.nameLength + entry.dataLength;
      PointsPush(items, completeJournal, Open(records[..i]), records[i], Item(offset, size));
      if entry.kind == Close {
        items := items - {entry.id};
      } else {
        items := items[entry.id := Item(offset, size)];
      }
      offset := offset + size;
      i := i + 1;
      if i < |records| { PlainAt(records, i); }
    }
  }

  lemma CollectStart(records: seq<Record>)
    ensures PlainAll(records[..0]) == [] && Open(records[..0]) == map[]
    ensures Points(map[], PlainAll(records), map[])
    ensures records[..|records|] == records
    ensures records == [] ==> PlainAll(records) == []
  {
    hide PointsAt, Plain;
    assert records[..0] == [];
  }

  // ---------- dispatching them ----------

  ghost predicate Ascending(records: seq<Record>) {
    forall i, j :: 0 <= i < j < |records| ==> records[i].id < records[j].id
  }

  /** The replayed entries are exactly these records, each once, by ascending id. */
  ghost predicate Replays(open: map<nat, Record>, replayed: seq<Record>) {
    && Ascending(replayed)
    && (forall r :: r in replayed ==> r.id in open && open[r.id] == r)
    && (forall id :: id in open ==> open[id] in replayed)
  }

  lemma {:induction false} LeastExists(ids: set<nat>)
    requires ids != {}
    ensures exists id :: id in ids && forall other :: other in ids ==> id <= other
  {
    var some :| some in ids;
    if ids != {some} {
      LeastExists(ids - {some});
      var least :| least in ids - {some} && forall other :: other in ids - {some} ==> least <= other;
      var id := if some < least then some else least;
      forall other | other in ids ensures id <= other {
        assert other == some || other in ids - {some};
      }
      assert id in ids && forall other :: other in ids ==> id <= other;
    }
  }

  /** The entry, name and data cut out of the content of an item. */
  method Decode(content: seq<Byte>, ghost r: Record) returns (replayed: Option<Record>)
    requires content == Plain(r) && Fits(r)
    ensures replayed == Some(r)
  {
    hide ReadHeader, EntryBytes, Fits;
    replayed := None;
    assert content == EntryBytes(r) + (r.name + r.data);
    EntryRoundTrip(r, r.name + r.data);
    if |content| >= ENTRY_SIZE {
      var entry := ReadHeader(content).value;
      if |content| >= ENTRY_SIZE + entry.nameLength + entry.dataLength {
        var name := content[ENTRY_SIZE..ENTRY_SIZE + entry.nameLength];
        var data := content[ENTRY_SIZE + entry.nameLength..ENTRY_SIZE + entry.nameLength + entry.dataLength];
        assert name == r.name && data == r.data;
        replayed := Some(WithPayload(entry, name, data));
      }
    }
  }

  /** Everything but the ids left to go through has been replayed. */
  ghost predicate Replaying(open: map<nat, Record>, left: set<nat>, replayed: seq<Record>) {
    && left <= open.Keys
    && Replays(open - left, replayed)
    && forall r, id :: r in replayed && id in left ==> r.id < id
  }

  lemma ReplayOne(open: map<nat, Record>, left: set<nat>, replayed: seq<Record>, id: nat)
    requires Replaying(open, left, replayed) && id in left && open[id].id == id
    requires forall other :: other in left ==> id <= other
    ensures Replaying(open, left - {id}, replayed + [open[id]])
  {
    var after := replayed + [open[id]];
    assert after[|replayed|] == open[id];
    forall r | r in open && r !in left - {id} ensures open[r] in after {
      if r != id {
        assert (open - left)[r] in replayed;
      }
    }
  }

  lemma PointsRead(item: Item, journal: seq<Byte>, r: Record)
    requires PointsAt(item, journal, r)
    ensures item.offset + item.size <= |journal|
    ensures journal[item.offset..item.offset + item.size] == Plain(r)
  {
  }

  /** The last loop of tryReplay, over the sorted items. */
  method Dispatch(completeJournal: seq<Byte>, items: map<nat, Item>, ghost open: map<nat, Record>)
    returns (replayed: seq<Record>)
    requires Points(items, completeJournal, open)
    requires forall id :: id in open ==> open[id].id == id && Fits(open[id])
    ensures Replays(open, replayed)
  {
    hide Fits, Replaying, PointsAt, Plain, Replays;
    replayed := [];
    var left := items.Keys;
    ReplayStart(open);
    while left != {}
      invariant left <= items.Keys
      invariant Replaying(open, left, replayed)
    {
      LeastExists(left);
      var id :| id in left && forall other :: other in left ==> id <= other;
      var item := items[id];
      PointsRead(item, completeJournal, open[id]);
      var entry := Decode(completeJournal[item.offset..item.offset + item.size], open[id]);
      ReplayOne(open, left, replayed, id);
      replayed := replayed + [entry.value];
      left := left - {id};
    }
    ReplayEnd(open, replayed);
  }

  lemma ReplayStart(open: map<nat, Record>)
    ensures Replaying(open, open.Keys, [])
  {
  }

  lemma ReplayEnd(open: map<nat, Record>, replayed: seq<Record>)
    requires Replaying(open, {}, replayed)
    ensures Replays(open, replayed)
  {
    assert open - {} == open;
  }

  lemma {:induction false} PlainConcat(a: seq<Record>, b: seq<Record>)
    ensures PlainAll(a + b) == PlainAll(a) + PlainAll(b)
  {
    hide PlainAll, Plain;
    CollectStart(b);
    if b == [] {
      assert a + b == a;
    } else {
      var front, r := b[..|b| - 1], b[|b| - 1];
      PlainConcat(a, front);
      assert a + b == (a + front) + [r] && b == front + [r];
      PlainPush(a + front, r);
      PlainPush(front, r);
    }
  }

  /** What one file holds is among what all files hold. */
  lemma {:induction false} FlatContains(parts: seq<seq<Record>>, i: nat)
    requires i < |parts|
    ensures forall r :: r in parts[i] ==> r in Flat(parts)
  {
    if i < |parts| - 1 { FlatContains(parts[..|parts| - 1], i); }
  }

  lemma PlainOfNext(parts: seq<seq<Record>>, i: nat)
    requires i < |parts|
    ensures Flat(parts[..i + 1]) == Flat(parts[..i]) + parts[i]
    ensures PlainAll(Flat(parts[..i + 1])) == PlainAll(Flat(parts[..i])) + PlainAll(parts[i])
  {
    assert parts[..i + 1][..i] == parts[..i];
    PlainConcat(Flat(parts[..i]), parts[i]);
  }

  /** tryReplay over the files of the journal directory, in the order they are listed. */
  method TryReplay(c: Cipher, files: seq<seq<Byte>>, ghost parts: seq<seq<Record>>) returns (replayed: seq<Record>)
    requires Opens(c) && |files| == |parts|
    requires forall i :: 0 <= i < |files| ==> OnDisk(c, files[i], parts[i])
    requires forall r :: r in Flat(parts) ==> Fits(r)
    ensures Replays(Open(Flat(parts)), replayed)
  {
    var completeJournal := [];
    for i := 0 to |files|
      invariant completeJournal == PlainAll(Flat(parts[..i]))
    {
      PlainOfNext(parts, i);
      FlatContains(parts, i);
      completeJournal := ReadFile(c, files[i], completeJournal, parts[i]);
    }
    assert parts[..|parts|] == parts;
    var items := Collect(completeJournal, Flat(parts));
    OpenIds(Flat(parts));
    replayed := Dispatch(completeJournal, items, Open(Flat(parts)));
  }
}

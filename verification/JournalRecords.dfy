/** Journal records: their bytes and what a sequence of them leaves to do
    (src/modules/filesystem/journal.h and journal.cpp). */
module JournalRecords {
  import opened Wrappers
  import opened Chunks

  // ---------- little-endian numbers ----------

  function LittleEndian(n: nat, width: nat): (bytes: seq<Byte>)
    ensures |bytes| == width
  {
    if width == 0 then [] else [n % 256] + LittleEndian(n / 256, width - 1)
  }

  function FromLittleEndian(bytes: seq<Byte>): nat {
    if bytes == [] then 0 else bytes[0] + 256 * FromLittleEndian(bytes[1..])
  }

  function Range(width: nat): nat {
    if width == 0 then 1 else 256 * Range(width - 1)
  }

  lemma {:induction false} LittleEndianRoundTrip(n: nat, width: nat)
    requires n < Range(width)
    ensures FromLittleEndian(LittleEndian(n, width)) == n
  {
    if width > 0 {
      var bytes := LittleEndian(n, width);
      assert bytes[1..] == LittleEndian(n / 256, width - 1);
      LittleEndianRoundTrip(n / 256, width - 1);
    }
  }

  // ---------- entries ----------

  datatype Kind = Close | MkObject | WriteData | Unlink | RenameMove | Chmod | Chown | TruncateFile

  function Code(kind: Kind): nat {
    match kind
    case Close => 0x10
    case MkObject => 0x20
    case WriteData => 0x30
    case Unlink => 0x40
    case RenameMove => 0x50
    case Chmod => 0x60
    case Chown => 0x70
    case TruncateFile => 0x80
  }

  /** Any other code makes the replay throw "corrupted journal". */
  function KindOf(code: nat): Option<Kind> {
    match code
    case 0x10 => Some(Close)
    case 0x20 => Some(MkObject)
    case 0x30 => Some(WriteData)
    case 0x40 => Some(Unlink)
    case 0x50 => Some(RenameMove)
    case 0x60 => Some(Chmod)
    case 0x70 => Some(Chown)
    case 0x80 => Some(TruncateFile)
    case _ => None
  }

  /** A journalEntry with the name and data written behind it. */
  datatype Record = Record(
    id: nat,
    kind: Kind,
    parentNode: nat,
    newNode: nat,
    newParentNode: nat,
    mode: nat,
    offset: nat,
    name: seq<Byte>,
    data: seq<Byte>
  )

  /** The fields fit their integer types: 32 bits for id and mode, 64 for the others. */
  predicate Fits(r: Record) {
    && r.id < Range(4) && r.mode < Range(4)
    && r.parentNode < Range(8) && r.newNode < Range(8) && r.newParentNode < Range(8)
    && r.offset < Range(8) && |r.name| < Range(8) && |r.data| < Range(8)
  }

  /** The record deleteEntry writes. */
  function CloseOf(id: nat): Record {
    Record(id, Close, 0, 0, 0, 0, 0, [], [])
  }

  const ENTRY_SIZE: nat := 64

  // ---------- packed structures ----------

  function Total(widths: seq<nat>): nat {
    if widths == [] then 0 else widths[0] + Total(widths[1..])
  }

  /** Numbers laid out one after the other. */
  function Pack(values: seq<nat>, widths: seq<nat>): (bytes: seq<Byte>)
    requires |values| == |widths|
    ensures |bytes| == Total(widths)
  {
    if values == [] then [] else LittleEndian(values[0], widths[0]) + Pack(values[1..], widths[1..])
  }

  function Unpack(bytes: seq<Byte>, widths: seq<nat>): (values: seq<nat>)
    requires |bytes| >= Total(widths)
    ensures |values| == |widths|
  {
    if widths == [] then []
    else [FromLittleEndian(bytes[..widths[0]])] + Unpack(bytes[widths[0]..], widths[1..])
  }

  /** Reading the numbers back gives them, whatever follows them. */
  lemma {:induction false} PackRoundTrip(values: seq<nat>, widths: seq<nat>, rest: seq<Byte>)
    requires |values| == |widths|
    requires forall i :: 0 <= i < |values| ==> values[i] < Range(widths[i])
    ensures Unpack(Pack(values, widths) + rest, widths) == values
  {
    if values != [] {
      var first := LittleEndian(values[0], widths[0]);
      var others := Pack(values[1..], widths[1..]);
      var bytes := Pack(values, widths) + rest;
      assert bytes == first + (others + rest);
      assert bytes[..widths[0]] == first && bytes[widths[0]..] == others + rest;
      LittleEndianRoundTrip(values[0], widths[0]);
      PackRoundTrip(values[1..], widths[1..], rest);
    }
  }

  // ---------- the bytes of an entry ----------

  /** The layout of a journalEntry in memory: id, type, the three nodes, mod and its padding,
      offset and the two lengths. */
  const LAYOUT: seq<nat> := [4, 4, 8, 8, 8, 4, 4, 8, 8, 8]

  function Values(r: Record): (values: seq<nat>)
    ensures |values| == |LAYOUT|
  {
    [r.id, Code(r.kind), r.parentNode, r.newNode, r.newParentNode, r.mode, 0, r.offset, |r.name|, |r.data|]
  }

  lemma LayoutSize()
    ensures Total(LAYOUT) == ENTRY_SIZE
  {
    assert Total([8, 8, 8]) == 24;
    assert Total([4, 4, 8, 8, 8]) == 32 by { assert [4, 4, 8, 8, 8][2..] == [8, 8, 8]; }
    assert LAYOUT[5..] == [4, 4, 8, 8, 8];
    assert Total(LAYOUT[3..]) == 48;
    assert Total(LAYOUT[1..]) == 60;
  }

  function EntryBytes(r: Record): (bytes: seq<Byte>)
    ensures |bytes| == ENTRY_SIZE
  {
    LayoutSize();
    Pack(Values(r), LAYOUT)
  }

  /** The bytes of a number, from the low one up. */
  lemma SmallNumber(low: Byte, high: Byte)
    ensures LittleEndian(low + 256 * high, 4) == [low, high, 0, 0]
    ensures LittleEndian(low + 256 * high, 8) == [low, high, 0, 0, 0, 0, 0, 0]
  {
    assert LittleEndian(0, 2) == [0, 0];
    assert LittleEndian(0, 6) == [0, 0, 0, 0, 0, 0] by { assert LittleEndian(0, 4) == [0, 0, 0, 0]; }
    assert (low + 256 * high) / 256 == high && (low + 256 * high) % 256 == low;
    assert LittleEndian(high, 3) == [high] + LittleEndian(0, 2);
    assert LittleEndian(high, 7) == [high] + LittleEndian(0, 6);
  }

  /** Where the fields of an entry are among its 64 bytes, and what stands for each kind. */
  lemma EntryLayout(r: Record)
    ensures var bytes := EntryBytes(r);
            && bytes[0..4] == LittleEndian(r.id, 4)
            && bytes[4..8] == [match r.kind
                               case Close => 16 case MkObject => 32 case WriteData => 48 case Unlink => 64
                               case RenameMove => 80 case Chmod => 96 case Chown => 112 case TruncateFile => 128, 0, 0, 0]
            && bytes[8..16] == LittleEndian(r.parentNode, 8)
            && bytes[16..24] == LittleEndian(r.newNode, 8)
            && bytes[24..32] == LittleEndian(r.newParentNode, 8)
            && bytes[32..36] == LittleEndian(r.mode, 4)
            && bytes[40..48] == LittleEndian(r.offset, 8)
            && bytes[48..56] == LittleEndian(|r.name|, 8)
            && bytes[56..64] == LittleEndian(|r.data|, 8)
  {
    hide LittleEndian, Pack, Total, EntryBytes, LAYOUT;
    FrontFields(r);
    BackFields(r);
    SmallNumber(Code(r.kind), 0);
  }

  lemma FrontFields(r: Record)
    ensures var bytes, v := EntryBytes(r), Values(r);
            && bytes[0..4] == LittleEndian(v[0], 4)
            && bytes[4..8] == LittleEndian(v[1], 4)
            && bytes[8..16] == LittleEndian(v[2], 8)
            && bytes[16..24] == LittleEndian(v[3], 8)
            && bytes[24..32] == LittleEndian(v[4], 8)
            && bytes[32..] == Pack(v[5..], LAYOUT[5..])
  {
    hide LittleEndian, Pack, Total;
    var bytes, v := EntryBytes(r), Values(r);
    LayoutSize();
    assert bytes[0..] == bytes && v[0..] == v && LAYOUT[0..] == LAYOUT;
    hide EntryBytes, Values;
    Field(bytes, v, 0, 0);
    Field(bytes, v, 1, 4);
    Field(bytes, v, 2, 8);
    Field(bytes, v, 3, 16);
    Field(bytes, v, 4, 24);
  }

  lemma BackFields(r: Record)
    ensures var bytes, v := EntryBytes(r), Values(r);
            && bytes[32..36] == LittleEndian(v[5], 4)
            && bytes[40..48] == LittleEndian(v[7], 8)
            && bytes[48..56] == LittleEndian(v[8], 8)
            && bytes[56..64] == LittleEndian(v[9], 8)
  {
    hide LittleEndian, Pack, Total, EntryBytes, Values;
    var bytes, v := EntryBytes(r), Values(r);
    FrontFields(r);
    Field(bytes, v, 5, 32);
    Field(bytes, v, 6, 36);
    Field(bytes, v, 7, 40);
    Field(bytes, v, 8, 48);
    Field(bytes, v, 9, 56);
  }

  /** Field i of packed numbers, and where the next one starts. */
  lemma Field(bytes: seq<Byte>, v: seq<nat>, i: nat, at: nat)
    requires |v| == 10 && i < 10 && at <= |bytes| && bytes[at..] == Pack(v[i..], LAYOUT[i..])
    ensures at + LAYOUT[i] <= |bytes| && bytes[at..at + LAYOUT[i]] == LittleEndian(v[i], LAYOUT[i])
    ensures bytes[at + LAYOUT[i]..] == Pack(v[i + 1..], LAYOUT[i + 1..])
  {
    hide LittleEndian;
    var w := LAYOUT[i];
    assert v[i..][1..] == v[i + 1..] && LAYOUT[i..][1..] == LAYOUT[i + 1..];
    var rest := Pack(v[i + 1..], LAYOUT[i + 1..]);
    assert bytes[at..] == LittleEndian(v[i], w) + rest;
    assert bytes[at..][..w] == LittleEndian(v[i], w) && bytes[at..][w..] == rest;
  }

  /** An entry read back: everything of a record but its name and data, and their lengths. */
  datatype Header = Header(id: nat, kind: Kind, parentNode: nat, newNode: nat, newParentNode: nat, mode: nat, offset: nat,
                           nameLength: nat, dataLength: nat)

  function HeaderOf(r: Record): Header {
    Header(r.id, r.kind, r.parentNode, r.newNode, r.newParentNode, r.mode, r.offset, |r.name|, |r.data|)
  }

  function WithPayload(h: Header, name: seq<Byte>, data: seq<Byte>): Record {
    Record(h.id, h.kind, h.parentNode, h.newNode, h.newParentNode, h.mode, h.offset, name, data)
  }

  function ReadHeader(bytes: seq<Byte>): Option<Header>
    requires |bytes| >= ENTRY_SIZE
  {
    LayoutSize();
    var v := Unpack(bytes, LAYOUT);
    match KindOf(v[1])
    case None => None
    case Some(kind) => Some(Header(v[0], kind, v[2], v[3], v[4], v[5], v[7], v[8], v[9]))
  }

  lemma Ranges()
    ensures Range(4) == 0x1_0000_0000 && Range(8) > Range(4)
  {
    assert Range(2) == 0x1_0000;
    assert Range(4) == 256 * 256 * Range(2);
    assert Range(6) == 256 * 256 * Range(4);
    assert Range(8) == 256 * 256 * Range(6);
  }

  /** Reading an entry back gives its fields, whatever follows it. */
  lemma EntryRoundTrip(r: Record, rest: seq<Byte>)
    requires Fits(r)
    ensures ReadHeader(EntryBytes(r) + rest) == Some(HeaderOf(r))
  {
    Ranges();
    hide Range, Pack, Unpack, Total;
    PackRoundTrip(Values(r), LAYOUT, rest);
  }

  /** What tryReplay keeps of a record: the entry, the name and the data. */
  function Plain(r: Record): (bytes: seq<Byte>)
    ensures |bytes| == ENTRY_SIZE + |r.name| + |r.data|
  {
    EntryBytes(r) + r.name + r.data
  }

  function PlainAll(records: seq<Record>): seq<Byte> {
    if records == [] then [] else PlainAll(records[..|records| - 1]) + Plain(records[|records| - 1])
  }

  lemma PlainPush(records: seq<Record>, r: Record)
    ensures PlainAll(records + [r]) == PlainAll(records) + Plain(r)
  {
    assert (records + [r])[..|records|] == records;
  }

  // ---------- what is left to do ----------

  /** The entries no later record closes, by id. */
  function Open(records: seq<Record>): map<nat, Record> {
    if records == [] then map[]
    else
      var before, r := Open(records[..|records| - 1]), records[|records| - 1];
      if r.kind == Close then before - {r.id} else before[r.id := r]
  }

  function Ids(records: seq<Record>): set<nat> {
    set i | 0 <= i < |records| :: records[i].id
  }

  lemma OpenPush(records: seq<Record>, r: Record)
    ensures Open(records + [r]) == if r.kind == Close then Open(records) - {r.id} else Open(records)[r.id := r]
    ensures Ids(records + [r]) == Ids(records) + {r.id}
  {
    assert (records + [r])[..|records|] == records;
    forall id | id in Ids(records) ensures id in Ids(records + [r]) {
      var i :| 0 <= i < |records| && records[i].id == id;
      assert (records + [r])[i].id == id;
    }
    assert (records + [r])[|records|].id == r.id;
  }

  lemma {:induction false} OpenIds(records: seq<Record>)
    ensures Open(records).Keys <= Ids(records)
    ensures forall id :: id in Open(records) ==> Open(records)[id] in records && Open(records)[id].id == id
  {
    if records != [] {
      var before, r := records[..|records| - 1], records[|records| - 1];
      OpenIds(before);
      assert records == before + [r];
      OpenPush(before, r);
    }
  }

  /** Records about different ids do not disturb each other. */
  lemma {:induction false} OpenConcat(a: seq<Record>, b: seq<Record>)
    requires Ids(a) !! Ids(b)
    ensures Open(a + b) == Open(a) + Open(b)
    ensures Ids(a + b) == Ids(a) + Ids(b)
  {
    if b == [] {
      assert a + b == a;
    } else {
      var front, r := b[..|b| - 1], b[|b| - 1];
      assert b == front + [r];
      OpenPush(front, r);
      OpenConcat(a, front);
      assert a + b == (a + front) + [r];
      OpenPush(a + front, r);
      OpenIds(a);
    }
  }

}

/**
 The tools that write archives: the device-node inserter `insert_devnodes`, and the entries and trailer
 of `pack_cpio`; and what the unpacker makes of their output.
 */
module CpioInsert {
  import opened ByteSeq
  import opened CpioFormat
  import opened CpioUnpack

  const S_IFCHR := 0x2000
  const MB64 := 64 * 1024 * 1024

  // ----- Writing entries -----------------------------------------------------------------------

  /** What `insert_devnodes.entry` writes, as a record: everything but the arguments is 0, and one link. */
  function EntryRecord(name: seq<byte>, data: seq<byte>, mode: nat, rdevMajor: nat, rdevMinor: nat): Record {
    Record([0, mode, 0, 0, 1, 0, |data|, 0, 0, rdevMajor, rdevMinor, |name| + 1, 0], name, data,
           Zeros(Pad4(HEADER + |name| + 1 + |data|)))
  }

  /** Its arguments come back from the unpacker. */
  lemma EntryRecordReads(name: seq<byte>, data: seq<byte>, mode: nat, rdevMajor: nat, rdevMinor: nat)
    requires |name| < 1023 && (forall i :: 0 <= i < |name| ==> name[i] != 0)
    requires |data| < U32 && mode < U32 && rdevMajor < U32 && rdevMinor < U32
    ensures var r := EntryRecord(name, data, mode, rdevMajor, rdevMinor);
            ValidRecord(r) && EntryOf(r) == Entry(StripDot(name), mode, data, rdevMajor, rdevMinor)
    ensures StripDot(name) == if 2 <= |name| && name[..2] == [46, 47] then name[2..] else name
  {
    var r := EntryRecord(name, data, mode, rdevMajor, rdevMinor);
    assert forall i :: 0 <= i < 13 ==> r.fields[i] < U32;
  }

  // ----- The trailer of `pack_cpio` -------------------------------------------------------------

  /** `pack_cpio.trailer`: a header of eleven fields, without the two of the device; then the name, and
      zeros up to 512 bytes. */
  function TrailerBytes(ino: nat): (s: seq<byte>)
    requires ino < U32
    ensures |s| == 512
  {
    var body := HeaderBytes([ino, 493, 0, 0, 1, 0, 0, 0, 0, 11, 0]) + TRAILER + [0];
    var padded := body + Zeros(Pad4(|body|));
    padded + Zeros((512 - |padded| % 512) % 512)
  }

  /** Where a reader of thirteen fields looks for the size of the name, the name itself stands. */
  lemma TrailerMisread(d: seq<byte>, p: nat, ino: nat)
    requires ino < U32 && HoldsAt(d, p, TrailerBytes(ino))
    ensures p + HEADER <= |d| && MagicAt(d, p) && Field(d, p, NAMESIZE) == 0xA0_0E00
  {
    hide FieldBytes, Zeros, HexValue;
    var t := TrailerBytes(ino);
    HoldsSlice(d, p, t, 0, 6);
    HoldsSlice(d, p, t, 94, 8);
    assert t[94..102] == TRAILER[..8];
    TrailerNumber();
  }

  /** "TRAILER!", read as a number. */
  lemma TrailerNumber()
    ensures HexValue(TRAILER[..8]) == 0xA0_0E00
  {
    var t := TRAILER;
    assert t[..8][..7] == t[..7] && t[..7][..6] == t[..6] && t[..6][..5] == t[..5] && t[..5][..4] == t[..4];
    assert t[..4][..3] == t[..3] && t[..3][..2] == t[..2] && t[..2][..1] == t[..1] && t[..1][..0] == [];
    assert HexValue(t[..3]) == 0xA by {
      assert HexValue(t[..2]) == 0 by { assert HexValue(t[..1]) == 0; }
    }
    assert HexValue(t[..6]) == 0xA00E by {
      assert HexValue(t[..5]) == 0xA00 by { assert HexValue(t[..4]) == 0xA0; }
    }
    assert HexValue(t[..7]) == 0xA_00E0;
  }

  /** The unpacker refuses whatever that trailer ends, for a name that is too long, after it has taken all entries. */
  lemma WrittenUnpacks(items: seq<Item>, filler: seq<byte>, ino: nat, rest: seq<byte>)
    requires ValidItems(items) && NoMagic(filler) && ino < U32
    ensures UnpackFrom(ArchiveBytes(items, filler + TrailerBytes(ino) + rest), 0) == Unpacked(-2, Entries(items))
  {
    hide TrailerBytes, ArchiveBytes, NoMagic, MagicAt, Entries, HoldsAt, Field, After, UnpackFrom;
    UnpackWhole(items, filler + TrailerBytes(ino) + rest);
    TrailerUnpacks(filler, ino, rest);
    AfterEnd(Entries(items), -2);
  }

  lemma TrailerUnpacks(filler: seq<byte>, ino: nat, rest: seq<byte>)
    requires NoMagic(filler) && ino < U32
    ensures UnpackFrom(filler + TrailerBytes(ino) + rest, 0) == Unpacked(-2, [])
  {
    hide TrailerBytes, NoMagic, MagicAt, HoldsAt, Field, After;
    var t, d := TrailerBytes(ino), filler + TrailerBytes(ino) + rest;
    assert d[0..] == filler + (t + rest);
    DropHolds(d, 0, filler, t + rest);
    DropHolds(d, |filler|, t, rest);
    TrailerMisread(d, |filler|, ino);
    UnpackFiller(d, 0, filler);
  }

  // ----- The layout of `pack_cpio.entry` -------------------------------------------------------

  /** `pack_cpio.entry` also pads between name and data, always with zeros: `r.padding` plays no part. */
  function PackedBytes(r: Record): seq<byte>
    requires ValidRecord(r)
  {
    HeaderBytes(r.fields) + r.name + [0] + Zeros(Pad4(HEADER + |r.name| + 1)) + r.data + Zeros(Pad4(|r.data|))
  }

  /** What it puts behind the name. */
  function PackedTail(r: Record): (t: seq<byte>)
    ensures |t| == Pad4(HEADER + |r.name| + 1) + |r.data| + Pad4(|r.data|)
  {
    Zeros(Pad4(HEADER + |r.name| + 1)) + r.data + Zeros(Pad4(|r.data|))
  }

  lemma PadsTogether(a: nat, n: nat)
    ensures Pad4(a) + Pad4(n) == Pad4(a + n) || Pad4(a) + Pad4(n) == Pad4(a + n) + 4
  {
    ModSum(a, n);
  }

  lemma ModSum(a: nat, n: nat)
    ensures (a + n) % 4 == if a % 4 + n % 4 < 4 then a % 4 + n % 4 else a % 4 + n % 4 - 4
  {
    var x := a % 4 + n % 4;
    assert a + n == 4 * (a / 4 + n / 4) + x;
    if x >= 4 {
      assert a + n == 4 * (a / 4 + n / 4 + 1) + (x - 4);
    }
  }

  /** The record that stands there, for readers that expect the data right behind the name. */
  function AsRead(r: Record): (x: Record)
    requires ValidRecord(r)
    ensures ValidRecord(x) && x.name == r.name && |x.data| == |r.data|
  {
    PadsTogether(HEADER + |r.name| + 1, |r.data|);
    var n, t := |r.data|, PackedTail(r);
    r.(data := t[..n], padding := t[n..n + Pad4(HEADER + |r.name| + 1 + n)])
  }

  /** What is left over: nothing, or four bytes. */
  function Gap(r: Record): (g: seq<byte>)
    ensures |g| == 0 || |g| == 4
  {
    PadsTogether(HEADER + |r.name| + 1, |r.data|);
    PackedTail(r)[|r.data| + Pad4(HEADER + |r.name| + 1 + |r.data|)..]
  }

  /** A packed entry is a record whose data begin too early, and a gap. */
  lemma PackedIsRecord(r: Record)
    requires ValidRecord(r)
    ensures PackedBytes(r) == RecordBytes(AsRead(r)) + Gap(r)
  {
    hide FieldBytes, PackedTail, PackedBytes, AsRead, Gap, Pad4, ValidRecord;
    var head, x := HeaderBytes(r.fields) + r.name + [0], AsRead(r);
    TailBytes(r, head);
    TailCut(r);
    TailParts(head, x.data, x.padding, Gap(r));
  }

  lemma TailCut(r: Record)
    requires ValidRecord(r)
    ensures PackedTail(r) == AsRead(r).data + AsRead(r).padding + Gap(r) && AsRead(r).fields == r.fields
  {
    hide PackedTail, Pad4;
    PadsTogether(HEADER + |r.name| + 1, |r.data|);
    CutTwice(PackedTail(r), |r.data|, |r.data| + Pad4(HEADER + |r.name| + 1 + |r.data|));
  }

  lemma CutTwice(t: seq<byte>, a: nat, b: nat)
    requires a <= b <= |t|
    ensures t == t[..a] + t[a..b] + t[b..]
  {
  }

  lemma TailBytes(r: Record, head: seq<byte>)
    requires ValidRecord(r) && head == HeaderBytes(r.fields) + r.name + [0]
    ensures PackedBytes(r) == head + PackedTail(r)
  {
    hide FieldBytes;
  }

  lemma TailParts(head: seq<byte>, a: seq<byte>, b: seq<byte>, c: seq<byte>)
    ensures head + (a + b + c) == head + a + b + c
  {
  }

  predicate NameAligned(r: Record) {
    (HEADER + |r.name| + 1) % 4 == 0
  }

  /** Without data, or with a name that ends on a boundary, the data do not begin too early. */
  lemma PackedCoincides(r: Record)
    requires ValidRecord(r) && (r.data == [] || NameAligned(r))
    ensures AsRead(r).data == r.data && EntryOf(AsRead(r)) == EntryOf(r) && Gap(r) == []
    ensures AllZero(r.padding) ==> PackedBytes(r) == RecordBytes(r)
  {
    hide FieldBytes, RecordBytes, PackedBytes;
    NothingShifts(r);
    if AllZero(r.padding) {
      assert AsRead(r) == r;
      PackedIsRecord(r);
    }
  }

  lemma NothingShifts(r: Record)
    requires ValidRecord(r) && (r.data == [] || NameAligned(r))
    ensures AsRead(r).data == r.data && AsRead(r).fields == r.fields && Gap(r) == [] && AllZero(AsRead(r).padding)
  {
    hide Pad4;
    PadsAlike(HEADER + |r.name| + 1, |r.data|);
    TailStarts(r);
  }

  lemma PadsAlike(a: nat, n: nat)
    requires n == 0 || a % 4 == 0
    ensures Pad4(a) + Pad4(n) == Pad4(a + n) && (n == 0 || Pad4(a) == 0)
  {
    ModSum(a, n);
  }

  lemma TailStarts(r: Record)
    requires r.data == [] || Pad4(HEADER + |r.name| + 1) == 0
    ensures PackedTail(r)[..|r.data|] == r.data && AllZero(PackedTail(r)[|r.data|..])
  {
    hide Pad4;
  }

  predicate AllZero(s: seq<byte>) {
    forall i :: 0 <= i < |s| ==> s[i] == 0
  }

  /** Otherwise the unpacker reads other data: it reads the right data exactly when the name is aligned or the
      data are all zeros. */
  lemma PackedReads(d: seq<byte>, p: nat, r: Record)
    requires ValidRecord(r) && HoldsAt(d, p, PackedBytes(r))
    ensures p + HEADER <= |d| && 0 < Field(d, p, NAMESIZE) && p + EntryLength(d, p) <= |d|
    ensures EntryAt(d, p) == EntryOf(AsRead(r))
    ensures EntryAt(d, p).data == r.data <==> NameAligned(r) || AllZero(r.data)
  {
    hide HexValue, PackedBytes, NameAt, Zeros, RecordBytes, AsRead, EntryAt;
    PackedIsRecord(r);
    HoldsConcat(d, p, RecordBytes(AsRead(r)), Gap(r));
    RecordReads(d, p, AsRead(r));
    ReadData(r);
    ShiftedZeros(Pad4(HEADER + |r.name| + 1), r.data);
  }

  lemma ReadData(r: Record)
    requires ValidRecord(r)
    ensures AsRead(r).data == (Zeros(Pad4(HEADER + |r.name| + 1)) + r.data)[..|r.data|]
  {
  }

  /** A file "init" of one byte, "x". */
  const SMALL_FILE := Record([0x493E0, 0x81ED, 0, 0, 1, 0, 1, 0, 0, 0, 0, 5, 0], [105, 110, 105, 116], [120], [])

  /** Its byte is lost: the unpacker reads a zero. */
  lemma PackedLoses(d: seq<byte>, p: nat)
    ensures ValidRecord(SMALL_FILE)
    ensures HoldsAt(d, p, PackedBytes(SMALL_FILE)) ==>
              && p + HEADER <= |d| && 0 < Field(d, p, NAMESIZE) && p + EntryLength(d, p) <= |d|
              && EntryAt(d, p).data == [0]
  {
    hide HexValue, PackedBytes, NameAt, HoldsAt, AsRead, EntryAt;
    assert forall i :: 0 <= i < 13 ==> SMALL_FILE.fields[i] < U32;
    if HoldsAt(d, p, PackedBytes(SMALL_FILE)) {
      PackedReads(d, p, SMALL_FILE);
      ReadData(SMALL_FILE);
      assert (Zeros(1) + [120])[..1] == [0];
    }
  }

  lemma ShiftedZeros(k: nat, data: seq<byte>)
    ensures (Zeros(k) + data)[..|data|] == data <==> k == 0 || AllZero(data)
  {
    var s := (Zeros(k) + data)[..|data|];
    if k != 0 && s == data {
      FirstIsZero(k, data, |data|);
    }
  }

  lemma {:induction false} FirstIsZero(k: nat, data: seq<byte>, n: nat)
    requires 0 < k && n <= |data| && (Zeros(k) + data)[..|data|] == data
    ensures forall i :: 0 <= i < n ==> data[i] == 0
  {
    if n > 0 {
      FirstIsZero(k, data, n - 1);
      assert data[n - 1] == (Zeros(k) + data)[n - 1];
    }
  }

  // ----- Reading numbers the way Python does ---------------------------------------------------

  datatype PyInt = ValueError | Value(v: int)

  predicate IsSpace(c: byte) {
    c == 32 || 9 <= c <= 13
  }

  function TrimLeft(s: seq<byte>): seq<byte> {
    if s != [] && IsSpace(s[0]) then TrimLeft(s[1..]) else s
  }

  function TrimRight(s: seq<byte>): seq<byte> {
    if s != [] && IsSpace(s[|s| - 1]) then TrimRight(s[..|s| - 1]) else s
  }

  /** Digits, with single underscores allowed between them. */
  function PyDigits(s: seq<byte>): PyInt {
    if s == [] || !IsHex(s[|s| - 1]) then ValueError
    else if |s| == 1 then Value(DigitValue(s[0]))
    else
      match PyDigits(s[..|s| - if s[|s| - 2] == 95 then 2 else 1])
      case ValueError => ValueError
      case Value(v) => Value(16 * v + DigitValue(s[|s| - 1]))
  }

  /** An optional "0x", which an underscore may follow. */
  function PyUnsigned(s: seq<byte>): PyInt {
    if 2 <= |s| && s[0] == 48 && (s[1] == 120 || s[1] == 88) then
      PyDigits(if 3 <= |s| && s[2] == 95 then s[3..] else s[2..])
    else PyDigits(s)
  }

  /** `int(s, 16)`. */
  function PyInt16(s: seq<byte>): PyInt {
    var t := TrimRight(TrimLeft(s));
    if t != [] && t[0] == 45 then
      match PyUnsigned(t[1..])
      case ValueError => ValueError
      case Value(v) => Value(-v)
    else if t != [] && t[0] == 43 then PyUnsigned(t[1..])
    else PyUnsigned(t)
  }

  lemma {:induction false} PyDigitsHex(s: seq<byte>)
    requires s != [] && forall i :: 0 <= i < |s| ==> IsHex(s[i])
    ensures PyDigits(s) == Value(HexValue(s))
  {
    if |s| > 1 {
      PyDigitsHex(s[..|s| - 1]);
    } else {
      assert HexValue(s[..0]) == 0;
    }
  }

  /** On digits alone, Python and the unpacker read the same number. */
  lemma PyInt16Hex(s: seq<byte>)
    requires s != [] && forall i :: 0 <= i < |s| ==> IsHex(s[i])
    ensures PyInt16(s) == Value(HexValue(s))
  {
    hide HexValue, PyDigits;
    assert TrimLeft(s) == s && TrimRight(s) == s;
    PyDigitsHex(s);
  }

  /** What else Python accepts: a sign, "0x", white space around, an underscore between digits. */
  lemma PyInt16Forms(s: seq<byte>)
    requires s != [] && forall i :: 0 <= i < |s| ==> IsHex(s[i])
    ensures PyInt16([43] + s) == Value(HexValue(s)) && PyInt16([45] + s) == Value(0 - HexValue(s))
    ensures PyInt16([48, 120] + s) == PyInt16([48, 88] + s) == Value(HexValue(s))
    ensures PyInt16([32] + s + [10]) == Value(HexValue(s))
    ensures PyDigits(s + [95] + [48]) == Value(16 * HexValue(s)) && PyDigits(s + [95]) == ValueError
  {
    hide PyInt16, PyDigits;
    PySign(s, 43);
    PySign(s, 45);
    PyPrefix(s, 120);
    PyPrefix(s, 88);
    PySpaces(s);
    PyUnderscore(s);
  }

  lemma PySign(s: seq<byte>, sign: byte)
    requires s != [] && (forall i :: 0 <= i < |s| ==> IsHex(s[i])) && (sign == 43 || sign == 45)
    ensures PyInt16([sign] + s) == Value(if sign == 45 then 0 - HexValue(s) else HexValue(s))
  {
    hide HexValue, PyDigits, TrimLeft, TrimRight;
    PyDigitsHex(s);
    Trimmed([sign] + s);
    assert ([sign] + s)[1..] == s;
  }

  lemma PyPrefix(s: seq<byte>, x: byte)
    requires s != [] && (forall i :: 0 <= i < |s| ==> IsHex(s[i])) && (x == 120 || x == 88)
    ensures PyInt16([48, x] + s) == Value(HexValue(s))
  {
    hide HexValue, PyDigits, TrimLeft, TrimRight;
    PyDigitsHex(s);
    Trimmed([48, x] + s);
    assert ([48, x] + s)[2..] == s;
  }

  lemma PySpaces(s: seq<byte>)
    requires s != [] && forall i :: 0 <= i < |s| ==> IsHex(s[i])
    ensures PyInt16([32] + s + [10]) == Value(HexValue(s))
  {
    hide HexValue, PyDigits, TrimLeft, TrimRight;
    PyDigitsHex(s);
    TrimSpaces(s);
  }

  lemma Trimmed(s: seq<byte>)
    requires s != [] && !IsSpace(s[0]) && !IsSpace(s[|s| - 1])
    ensures TrimRight(TrimLeft(s)) == s
  {
  }

  lemma TrimSpaces(s: seq<byte>)
    requires s != [] && !IsSpace(s[0]) && !IsSpace(s[|s| - 1])
    ensures TrimRight(TrimLeft([32] + s + [10])) == s
  {
    assert ([32] + s + [10])[1..] == s + [10] && (s + [10])[..|s|] == s;
    assert TrimLeft(s + [10]) == s + [10];
  }

  lemma PyUnderscore(s: seq<byte>)
    requires s != [] && forall i :: 0 <= i < |s| ==> IsHex(s[i])
    ensures PyDigits(s + [95] + [48]) == Value(16 * HexValue(s))
    ensures PyDigits(s + [95]) == ValueError
  {
    hide HexValue;
    PyDigitsHex(s);
    assert (s + [95] + [48])[..|s|] == s;
  }

  // ----- The scan ------------------------------------------------------------------------------

  /** "./dev", "./dev/", "dev", "dev/" */
  predicate IsDev(name: seq<byte>) {
    || name == [46, 47, 100, 101, 118] || name == [46, 47, 100, 101, 118, 47]
    || name == [100, 101, 118] || name == [100, 101, 118, 47]
  }

  datatype Search = NotFound | FoundAt(pos: nat)

  function FieldSlice(d: seq<byte>, p: nat, i: nat): (s: seq<byte>)
    requires p + HEADER <= |d| && i < 13
    ensures |s| == 8
  {
    d[p + 6 + 8 * i..p + 6 + 8 * i + 8]
  }

  function NumberAt(d: seq<byte>, p: nat, i: nat): PyInt
    requires p + HEADER <= |d| && i < 13
  {
    PyInt16(FieldSlice(d, p, i))
  }

  /** The sizes at a header can be read and are plausible. */
  predicate Plausible(d: seq<byte>, p: nat)
    requires p + HEADER <= |d|
  {
    var namesize, filesize := NumberAt(d, p, NAMESIZE), NumberAt(d, p, FILESIZE);
    namesize.Value? && filesize.Value? && 0 < namesize.v <= 4096 && 0 <= filesize.v < MB64
  }

  /** `find_entry_end`. */
  function FindEntryEnd(d: seq<byte>, p: nat): (end: nat)
    requires p + HEADER <= |d| && Plausible(d, p)
    ensures p + HEADER < end
  {
    var total := HEADER + NumberAt(d, p, NAMESIZE).v + NumberAt(d, p, FILESIZE).v;
    p + total + Pad4(total)
  }

  /** `d[p:q]`, which stops at the end of `d`. */
  function PySlice(d: seq<byte>, p: nat, q: nat): seq<byte>
    requires p <= q
  {
    if p >= |d| then [] else if q > |d| then d[p..] else d[p..q]
  }

  predicate DevAt(d: seq<byte>, p: nat)
    requires p + HEADER <= |d| && Plausible(d, p)
  {
    IsDev(PySlice(d, p + HEADER, p + HEADER + NumberAt(d, p, NAMESIZE).v - 1))
  }

  /** The position of the first entry of the device directory, going from entry to entry, or four bytes on
      where no entry is. */
  function ScanDev(d: seq<byte>, p: nat): (r: Search)
    ensures r.FoundAt? ==> p <= r.pos && r.pos + HEADER <= |d| && Plausible(d, r.pos)
    decreases |d| - p
  {
    if p + HEADER > |d| then NotFound
    else if !MagicAt(d, p) || !Plausible(d, p) then ScanDev(d, p + 4)
    else if DevAt(d, p) then FoundAt(p)
    else ScanDev(d, FindEntryEnd(d, p))
  }

  const CONSOLE: seq<byte> := [100, 101, 118, 47, 99, 111, 110, 115, 111, 108, 101]
  const NULLDEV: seq<byte> := [100, 101, 118, 47, 110, 117, 108, 108]
  const ZERODEV: seq<byte> := [100, 101, 118, 47, 122, 101, 114, 111]

  /** A device node without data. */
  function NodeItem(name: seq<byte>, mode: nat, rdevMajor: nat, rdevMinor: nat): (x: Item)
    requires |name| < 1023 && 0 !in name && name != TRAILER
    requires mode < U32 && rdevMajor < U32 && rdevMinor < U32
    ensures ValidItem(x) && x.filler == [] && EntryOf(x.record) == Entry(StripDot(name), mode, [], rdevMajor, rdevMinor)
  {
    assert forall i :: 0 <= i < |name| ==> name[i] in name;
    EntryRecordReads(name, [], mode, rdevMajor, rdevMinor);
    Item([], EntryRecord(name, [], mode, rdevMajor, rdevMinor))
  }

  /** dev/console 0600 5:1, dev/null 0666 1:3, dev/zero 0666 1:5 */
  function Nodes(): (items: seq<Item>)
    ensures ValidItems(items)
  {
    [NodeItem(CONSOLE, S_IFCHR + 384, 5, 1), NodeItem(NULLDEV, S_IFCHR + 438, 1, 3),
     NodeItem(ZERODEV, S_IFCHR + 438, 1, 5)]
  }

  /** What they unpack to: "dev/console", 020600, 5:1; "dev/null", 020666, 1:3; "dev/zero", 020666, 1:5. */
  function NodeEntries(): seq<Entry> {
    [Entry([100, 101, 118, 47, 99, 111, 110, 115, 111, 108, 101], 0x2180, [], 5, 1),
     Entry([100, 101, 118, 47, 110, 117, 108, 108], 0x21B6, [], 1, 3),
     Entry([100, 101, 118, 47, 122, 101, 114, 111], 0x21B6, [], 1, 5)]
  }

  lemma NodesUnpack()
    ensures Entries(Nodes()) == NodeEntries()
  {
    hide EntryOf, NodeItem;
    var n := Nodes();
    assert ValidItem(n[0]) && ValidItem(n[1]) && ValidItem(n[2]);
    assert Entries(n[3..]) == [];
    assert n[1..][1..] == n[2..] && n[2..][1..] == n[3..];
    assert Entries(n[2..]) == [EntryOf(n[2].record)];
    assert Entries(n[1..]) == [EntryOf(n[1].record)] + Entries(n[2..]);
  }

  datatype Inserted = NoDevEntry | Inserted(output: seq<byte>)

  /** The nodes go behind the entry that the scan finds. */
  function SpliceOf(d: seq<byte>): Inserted {
    match ScanDev(d, 0)
    case NotFound => NoDevEntry
    case FoundAt(p) =>
      var after := FindEntryEnd(d, p);
      Inserted(PySlice(d, 0, after) + ArchiveBytes(Nodes(), []) + PySlice(d, after, after + |d|))
  }

  /** `main`, from the bytes of one file to those of the other. */
  method InsertDevnodes(d: seq<byte>) returns (r: Inserted)
    ensures r == SpliceOf(d)
  {
    hide MagicAt, Plausible, DevAt, ArchiveBytes, PySlice;
    var pos, found := 0, false;
    while pos + HEADER <= |d|
      invariant ScanDev(d, 0) == ScanDev(d, pos) && !found
      decreases |d| - pos
    {
      if !MagicAt(d, pos) {
        pos := pos + 4;
        continue;
      }
      if !Plausible(d, pos) {
        pos := pos + 4;
        continue;
      }
      if DevAt(d, pos) {
        found := true;
        break;
      }
      pos := FindEntryEnd(d, pos);
    }
    if !found {
      return NoDevEntry;
    }
    var after := FindEntryEnd(d, pos);
    r := Inserted(PySlice(d, 0, after) + ArchiveBytes(Nodes(), []) + PySlice(d, after, after + |d|));
  }

  // ----- What the scan sees ----------------------------------------------------------------------

  /** The next multiple of four. */
  function Up4(n: nat): nat {
    if n % 4 == 0 then n else n + 4 - n % 4
  }

  /** What the scan takes for a header. */
  predicate Stops(d: seq<byte>, q: nat) {
    q + HEADER <= |d| && MagicAt(d, q) && Plausible(d, q)
  }

  /** Nothing at a multiple of four between the two positions stops the scan. */
  predicate Quiet(d: seq<byte>, from: nat, to: nat) {
    forall q :: from <= q < to && q % 4 == 0 ==> !Stops(d, q)
  }

  /** The scan sees an entry whose header is at a multiple of four, unless it has 64 MB of data or more. */
  predicate Seen(x: Item, h: nat) {
    h % 4 == 0 && |x.record.data| < MB64
  }

  lemma EndAligned(d: seq<byte>, p: nat)
    requires p + HEADER <= |d| && Plausible(d, p)
    ensures FindEntryEnd(d, p) % 4 == p % 4
  {
    hide NumberAt;
  }

  lemma {:induction false} ScanFrom(d: seq<byte>, s: nat, e: nat)
    requires s % 4 == 0 && s <= Up4(e) && Quiet(d, s, e)
    ensures ScanDev(d, s) == ScanDev(d, Up4(e))
    decreases Up4(e) - s
  {
    hide MagicAt, Plausible, DevAt, FindEntryEnd;
    if s < e {
      assert !Stops(d, s);
      ScanFrom(d, s + 4, e);
    }
  }

  lemma ScanOver(d: seq<byte>, p: nat, e: nat)
    requires p <= e && Quiet(d, p, e)
    ensures ScanDev(d, Up4(p)) == ScanDev(d, Up4(e))
  {
    hide ScanDev, Stops;
    assert forall q :: Up4(p) <= q < e && q % 4 == 0 ==> !Stops(d, q);
    ScanFrom(d, Up4(p), e);
  }

  lemma RecordScans(d: seq<byte>, p: nat, r: Record)
    requires ValidRecord(r) && HoldsAt(d, p, RecordBytes(r)) && |r.data| < MB64
    ensures MagicAt(d, p) && p + HEADER <= |d| && Plausible(d, p)
    ensures FindEntryEnd(d, p) == p + |RecordBytes(r)| && DevAt(d, p) == IsDev(r.name)
  {
    hide HoldsAt, RecordBytes, Hex, HexValue, PyInt16, IsDev;
    RecordLayout(d, p, r);
    FieldReads(d, p, r, 12);
    NumberReads(d, p, r, NAMESIZE);
    NumberReads(d, p, r, FILESIZE);
    HoldsSlice(d, p, MAGIC, 0, 6);
    HoldsSlice(d, p + HEADER, r.name + [0], 0, |r.name|);
    HoldsSlice(d, p + HEADER, r.name + [0], 0, |r.name| + 1);
    assert (r.name + [0])[..|r.name|] == r.name;
  }

  lemma NumberReads(d: seq<byte>, p: nat, r: Record, i: nat)
    requires ValidRecord(r) && HoldsAt(d, p, RecordBytes(r)) && i < 13 && p + HEADER <= |d|
    ensures NumberAt(d, p, i) == Value(r.fields[i])
  {
    hide HoldsAt, RecordBytes, HexValue, Hex, PyInt16;
    FieldReads(d, p, r, i);
    Pow16Of8();
    HexInverts(r.fields[i], 8);
    PyInt16Hex(FieldSlice(d, p, i));
  }

  /** What is at a position that the scan looks at, in terms of bytes: "070701", sizes that Python reads as numbers
      in range, and one of the names "./dev", "./dev/", "dev" and "dev/". */
  predicate HeaderThere(d: seq<byte>, q: nat) {
    && q + 110 <= |d| && d[q..q + 6] == [48, 55, 48, 55, 48, 49]
    && var namesize, filesize := PyInt16(d[q + 94..q + 102]), PyInt16(d[q + 54..q + 62]);
       namesize.Value? && filesize.Value? && 1 <= namesize.v <= 4096 && 0 <= filesize.v < 67108864
  }

  predicate DevThere(d: seq<byte>, q: nat)
    requires HeaderThere(d, q)
  {
    var n := PyInt16(d[q + 94..q + 102]).v - 1;
    var end := if q + 110 + n <= |d| then q + 110 + n else |d|;
    d[q + 110..end] in {[46, 47, 100, 101, 118], [46, 47, 100, 101, 118, 47], [100, 101, 118], [100, 101, 118, 47]}
  }

  /** Each step of the scan: four bytes on, behind the entry, or found. */
  lemma ScanStep(d: seq<byte>, p: nat)
    requires p + 110 <= |d|
    ensures !HeaderThere(d, p) ==> ScanDev(d, p) == ScanDev(d, p + 4)
    ensures HeaderThere(d, p) && DevThere(d, p) ==> ScanDev(d, p) == FoundAt(p)
    ensures HeaderThere(d, p) ==>
              var total := 110 + PyInt16(d[p + 94..p + 102]).v + PyInt16(d[p + 54..p + 62]).v;
              && FindEntryEnd(d, p) == p + (total + 3) / 4 * 4
              && (!DevThere(d, p) ==> ScanDev(d, p) == ScanDev(d, p + (total + 3) / 4 * 4))
  {
    hide PyInt16, IsDev, ScanDev;
    HeaderStops(d, p);
    ScanStops(d, p);
  }

  lemma ScanStops(d: seq<byte>, p: nat)
    requires p + HEADER <= |d|
    ensures !Stops(d, p) ==> ScanDev(d, p) == ScanDev(d, p + 4)
    ensures Stops(d, p) && DevAt(d, p) ==> ScanDev(d, p) == FoundAt(p)
    ensures Stops(d, p) && !DevAt(d, p) ==> ScanDev(d, p) == ScanDev(d, FindEntryEnd(d, p))
  {
    hide MagicAt, Plausible, DevAt, FindEntryEnd;
  }

  lemma HeaderStops(d: seq<byte>, p: nat)
    requires p + HEADER <= |d|
    ensures HeaderThere(d, p) <==> Stops(d, p)
    ensures HeaderThere(d, p) ==>
              && DevThere(d, p) == DevAt(d, p)
              && var total := 110 + PyInt16(d[p + 94..p + 102]).v + PyInt16(d[p + 54..p + 62]).v;
                 FindEntryEnd(d, p) == p + (total + 3) / 4 * 4
  {
    hide PyInt16;
    if HeaderThere(d, p) {
      UpToFour(110 + PyInt16(d[p + 94..p + 102]).v + PyInt16(d[p + 54..p + 62]).v);
      var n := PyInt16(d[p + 94..p + 102]).v - 1;
      assert PySlice(d, p + 110, p + 110 + n) == d[p + 110..if p + 110 + n <= |d| then p + 110 + n else |d|];
    }
  }

  lemma UpToFour(n: nat)
    ensures n + Pad4(n) == (n + 3) / 4 * 4
  {
  }

  /** Filler without the magic is quiet, up to the header behind it. */
  lemma FillerQuiet(d: seq<byte>, p: nat, f: seq<byte>)
    requires HoldsAt(d, p, f) && NoMagic(f) && MagicAt(d, p + |f|)
    ensures Quiet(d, p, p + |f|)
  {
    hide MagicAt, HoldsAt, NoMagic, Plausible;
    forall q | p <= q < p + |f|
      ensures !Stops(d, q)
    {
      FirstMagic(d, p, f, q - p);
    }
  }

  lemma SeenRecordScans(d: seq<byte>, h: nat, x: Item)
    requires ValidRecord(x.record) && HoldsAt(d, h, RecordBytes(x.record)) && Seen(x, h)
    ensures var q := h + |RecordBytes(x.record)|;
            if IsDev(x.record.name) then ScanDev(d, Up4(h)).FoundAt? && FindEntryEnd(d, ScanDev(d, Up4(h)).pos) == q
            else ScanDev(d, Up4(h)) == ScanDev(d, Up4(q))
  {
    hide RecordBytes, HoldsAt, MagicAt, Plausible, DevAt, IsDev, ValidRecord, FindEntryEnd;
    RecordScans(d, h, x.record);
    EndAligned(d, h);
    assert Up4(h) == h && Up4(h + |RecordBytes(x.record)|) == h + |RecordBytes(x.record)|;
  }

  /** Over one entry with the filler before it: the scan stops at it, or goes on behind it. */
  lemma ScanItem(d: seq<byte>, p: nat, x: Item, h: nat, q: nat)
    requires NoMagic(x.filler) && ValidRecord(x.record) && h == p + |x.filler| && q == h + |RecordBytes(x.record)|
    requires HoldsAt(d, p, x.filler) && HoldsAt(d, h, RecordBytes(x.record))
    requires Seen(x, h) || Quiet(d, h, q)
    ensures if Seen(x, h) && IsDev(x.record.name) then
              ScanDev(d, Up4(p)).FoundAt? && FindEntryEnd(d, ScanDev(d, Up4(p)).pos) == q
            else ScanDev(d, Up4(p)) == ScanDev(d, Up4(q))
  {
    hide RecordBytes, HoldsAt, MagicAt, FindEntryEnd, IsDev, ValidRecord, NoMagic, ScanDev, Quiet, Up4, NameAt,
         EntryAt, Seen;
    RecordReads(d, h, x.record);
    FillerQuiet(d, p, x.filler);
    ScanOver(d, p, h);
    if Seen(x, h) {
      SeenRecordScans(d, h, x);
    } else {
      ScanOver(d, h, q);
    }
  }

  /** The first device directory that the scan can see, for entries from position `p` on; or the number of entries. */
  function FirstSeenDev(p: nat, items: seq<Item>): (k: nat)
    requires ValidItems(items)
    ensures k <= |items|
    ensures k < |items| ==> IsDev(items[k].record.name)
    decreases |items|
  {
    if items == [] then 0
    else
      var h := p + |items[0].filler|;
      if Seen(items[0], h) && IsDev(items[0].record.name) then 0
      else 1 + FirstSeenDev(h + |RecordBytes(items[0].record)|, items[1..])
  }

  /** Up to there, nothing inside an entry that the scan cannot see looks to it like a header. */
  ghost predicate Undisturbed(d: seq<byte>, p: nat, items: seq<Item>)
    requires ValidItems(items)
    decreases |items|
  {
    items == [] ||
    var h := p + |items[0].filler|;
    var q := h + |RecordBytes(items[0].record)|;
    && (Seen(items[0], h) || Quiet(d, h, q))
    && ((Seen(items[0], h) && IsDev(items[0].record.name)) || Undisturbed(d, q, items[1..]))
  }

  /** The scan goes from entry to entry as the unpacker does, as far as it sees them. It stops at the first
      device directory that it sees; if it sees none, its result is that of what follows the entries. */
  lemma {:induction false} ScanArchive(d: seq<byte>, p: nat, items: seq<Item>, end: seq<byte>)
    requires ValidItems(items) && p <= |d| && d[p..] == ArchiveBytes(items, end) && Undisturbed(d, p, items)
    ensures var k := FirstSeenDev(p, items);
            if k < |items| then
              && ScanDev(d, Up4(p)).FoundAt?
              && FindEntryEnd(d, ScanDev(d, Up4(p)).pos) == p + |ArchiveBytes(items[..k + 1], [])|
            else ScanDev(d, Up4(p)) == ScanDev(d, Up4(p + |ArchiveBytes(items, [])|))
    decreases |items|
  {
    hide RecordBytes, HoldsAt, ScanDev, FindEntryEnd, IsDev, ValidRecord, NoMagic, Seen, Quiet, Up4, ArchiveBytes,
         UnpackFrom;
    if items == [] {
      ArchiveNothing([]);
    } else {
      var x, k := items[0], FirstSeenDev(p, items);
      assert ValidItem(x);
      ArchiveFirst(items, end);
      var h, q := ItemStands(d, p, x.filler, x.record, ArchiveBytes(items[1..], end));
      ScanItem(d, p, x, h, q);
      ArchiveFirst(items, []);
      if k < |items| {
        PrefixLength(items, k);
      }
      if Seen(x, h) && IsDev(x.record.name) {
        ArchiveNothing([]);
      } else {
        ScanArchive(d, q, items[1..], end);
      }
    }
  }

  lemma PrefixLength(items: seq<Item>, k: nat)
    requires ValidItems(items) && k < |items|
    ensures |ArchiveBytes(items[..k + 1], [])| ==
            |items[0].filler| + |RecordBytes(items[0].record)| + |ArchiveBytes(items[1..][..k], [])|
  {
    hide ArchiveBytes, RecordBytes;
    ArchiveFirst(items[..k + 1], []);
    assert items[..k + 1][1..] == items[1..][..k];
  }

  lemma ArchiveNothing(end: seq<byte>)
    ensures ArchiveBytes([], end) == end
  {
  }

  lemma ArchiveFirst(items: seq<Item>, end: seq<byte>)
    requires ValidItems(items) && items != []
    ensures ArchiveBytes(items, end) == items[0].filler + RecordBytes(items[0].record) + ArchiveBytes(items[1..], end)
    ensures |ArchiveBytes(items, end)| ==
            |items[0].filler| + |RecordBytes(items[0].record)| + |ArchiveBytes(items[1..], end)|
  {
    hide RecordBytes;
  }

  /** Filler in steps of four, and entries of less than 64 MB: the scan sees everything. */
  predicate Steppable(x: Item) {
    |x.filler| % 4 == 0 && |x.record.data| < MB64
  }

  lemma {:induction false} SteppableSeen(d: seq<byte>, p: nat, items: seq<Item>)
    requires ValidItems(items) && p % 4 == 0 && forall i :: 0 <= i < |items| ==> Steppable(items[i])
    ensures Undisturbed(d, p, items)
    ensures forall i :: 0 <= i < FirstSeenDev(p, items) ==> !IsDev(items[i].record.name)
    decreases |items|
  {
    hide Quiet, IsDev, RecordBytes, ValidRecord, NoMagic;
    if items != [] {
      var x := items[0];
      assert ValidItem(x) && Steppable(x);
      var q := p + |x.filler| + |RecordBytes(x.record)|;
      RecordAligned(x.record);
      SteppableSeen(d, q, items[1..]);
      forall i | 0 < i < FirstSeenDev(p, items)
        ensures !IsDev(items[i].record.name)
      {
        assert items[i] == items[1..][i - 1];
      }
    }
  }

  lemma RecordAligned(r: Record)
    requires ValidRecord(r)
    ensures |RecordBytes(r)| % 4 == 0
  {
    hide FieldBytes;
  }

  /** Where the header of entry `i` stands. */
  function HeaderPos(items: seq<Item>, i: nat): nat
    requires ValidItems(items) && i < |items|
  {
    |ArchiveBytes(items[..i], [])| + |items[i].filler|
  }

  /** A device directory that the scan can see: its header at a multiple of four, its data below 64 MB, and its
      name "./dev", "./dev/", "dev" or "dev/". */
  predicate VisibleDev(items: seq<Item>, i: nat)
    requires ValidItems(items) && i < |items|
  {
    && HeaderPos(items, i) % 4 == 0 && |items[i].record.data| < 67108864
    && items[i].record.name in
         {[46, 47, 100, 101, 118], [46, 47, 100, 101, 118, 47], [100, 101, 118], [100, 101, 118, 47]}
  }

  lemma {:induction false} FirstSeenIs(p: nat, items: seq<Item>)
    requires ValidItems(items)
    ensures var k := FirstSeenDev(p, items);
            && (forall i :: 0 <= i < k ==> !SeenFrom(p, items, i)) && (k < |items| ==> SeenFrom(p, items, k))
    decreases |items|
  {
    hide ArchiveBytes, RecordBytes, ValidRecord, NoMagic, IsDev, Seen;
    if items != [] {
      assert ValidItem(items[0]);
      ArchiveNothing([]);
      var q := p + |items[0].filler| + |RecordBytes(items[0].record)|;
      FirstSeenIs(q, items[1..]);
      forall i | 0 < i < |items|
        ensures SeenFrom(p, items, i) == SeenFrom(q, items[1..], i - 1)
      {
        FrontLength(items, i);
      }
    }
  }

  predicate SeenFrom(p: nat, items: seq<Item>, i: nat)
    requires ValidItems(items) && i < |items|
  {
    Seen(items[i], p + HeaderPos(items, i)) && IsDev(items[i].record.name)
  }

  lemma FrontLength(items: seq<Item>, i: nat)
    requires ValidItems(items) && 0 < i < |items|
    ensures HeaderPos(items, i) == |items[0].filler| + |RecordBytes(items[0].record)| + HeaderPos(items[1..], i - 1)
  {
    hide ArchiveBytes, RecordBytes;
    ArchiveFirst(items[..i], []);
    assert items[..i][1..] == items[1..][..i - 1];
  }

  lemma FirstVisible(items: seq<Item>, k: nat)
    requires ValidItems(items) && k <= |items| && (k < |items| ==> VisibleDev(items, k))
    requires forall i :: 0 <= i < k ==> !VisibleDev(items, i)
    ensures FirstSeenDev(0, items) == k
  {
    hide ArchiveBytes, FirstSeenDev, HeaderPos, ValidItem;
    FirstSeenIs(0, items);
    assert forall i :: 0 <= i < |items| ==> SeenFrom(0, items, i) == VisibleDev(items, i);
  }

  /** Where nothing stops the scan any more, it finds nothing: an archive in which it can see no device
      directory is left alone. */
  lemma ScanMisses(items: seq<Item>, end: seq<byte>)
    requires ValidItems(items) && Undisturbed(ArchiveBytes(items, end), 0, items)
    requires forall i :: 0 <= i < |items| ==> !VisibleDev(items, i)
    ensures var d, q := ArchiveBytes(items, end), |ArchiveBytes(items, [])|;
            && SpliceOf(d).NoDevEntry? == ScanDev(d, Up4(q)).NotFound?
            && (Quiet(d, q, |d|) ==> SpliceOf(d).NoDevEntry?)
  {
    hide ArchiveBytes, Undisturbed, FirstSeenDev, Quiet, VisibleDev, ValidItem, SpliceOf, ScanDev;
    FirstVisible(items, |items|);
    NothingSeen(items, end);
  }

  lemma NothingSeen(items: seq<Item>, end: seq<byte>)
    requires ValidItems(items) && Undisturbed(ArchiveBytes(items, end), 0, items) && FirstSeenDev(0, items) == |items|
    ensures var d, q := ArchiveBytes(items, end), |ArchiveBytes(items, [])|;
            && SpliceOf(d).NoDevEntry? == ScanDev(d, Up4(q)).NotFound?
            && (Quiet(d, q, |d|) ==> SpliceOf(d).NoDevEntry?)
  {
    hide ArchiveBytes, Undisturbed, FindEntryEnd, FirstSeenDev, MagicAt, Plausible, DevAt, Quiet, UnpackFrom, Entries;
    var d, q := ArchiveBytes(items, end), |ArchiveBytes(items, [])|;
    assert d[0..] == d;
    ScanArchive(d, 0, items, end);
    UnpackItems(d, 0, items, end);
    if Quiet(d, q, |d|) {
      ScanOver(d, q, |d|);
    }
  }

  lemma {:induction false} ArchiveSplit(a: seq<Item>, b: seq<Item>, end: seq<byte>)
    requires ValidItems(a) && ValidItems(b)
    ensures ArchiveBytes(a + b, end) == ArchiveBytes(a, []) + ArchiveBytes(b, end)
    ensures Entries(a + b) == Entries(a) + Entries(b)
  {
    hide RecordBytes, ValidItem, EntryOf;
    if a == [] {
      assert a + b == b;
    } else {
      assert (a + b)[1..] == a[1..] + b;
      ArchiveSplit(a[1..], b, end);
    }
  }

  /** The output is the archive with the nodes put in behind the device directory. */
  lemma SpliceIsArchive(items: seq<Item>, end: seq<byte>)
    requires ValidItems(items) && Undisturbed(ArchiveBytes(items, end), 0, items) && FirstSeenDev(0, items) < |items|
    ensures var k := FirstSeenDev(0, items);
            SpliceOf(ArchiveBytes(items, end)) ==
            Inserted(ArchiveBytes(items[..k + 1] + (Nodes() + items[k + 1..]), end))
  {
    hide ArchiveBytes, ScanDev, FindEntryEnd, Plausible, IsDev, Nodes, ValidItem, Entries, Undisturbed, FirstSeenDev;
    var k := FirstSeenDev(0, items);
    var d, front, back := ArchiveBytes(items, end), items[..k + 1], items[k + 1..];
    assert front + back == items && d[0..] == d;
    ScanArchive(d, 0, items, end);
    ArchiveSplit(front, back, end);
    ArchiveSplit(Nodes(), back, end);
    ArchiveSplit(front, Nodes() + back, end);
    Parts(ArchiveBytes(front, []), ArchiveBytes(back, end));
  }

  lemma Parts(a: seq<byte>, b: seq<byte>)
    requires a != []
    ensures PySlice(a + b, 0, |a|) == a && PySlice(a + b, |a|, |a| + |a + b|) == b
  {
  }

  /** Splicing preserves meaning, whatever the entries are followed by: what is unpacked is the entries up to
      and including the first device directory that the scan can see, then console, null and zero, then all the
      others, with the same code as before. */
  lemma SplicePreserves(items: seq<Item>, end: seq<byte>, k: nat)
    requires ValidItems(items) && Undisturbed(ArchiveBytes(items, end), 0, items)
    requires k < |items| && VisibleDev(items, k) && forall i :: 0 <= i < k ==> !VisibleDev(items, i)
    ensures var d, rest := ArchiveBytes(items, end), UnpackFrom(end, 0);
            && UnpackFrom(d, 0) == Unpacked(rest.code, Entries(items[..k + 1]) + Entries(items[k + 1..]) + rest.entries)
            && SpliceOf(d).Inserted?
            && UnpackFrom(SpliceOf(d).output, 0) ==
               Unpacked(rest.code, Entries(items[..k + 1]) + NodeEntries() + Entries(items[k + 1..]) + rest.entries)
  {
    hide ArchiveBytes, Entries, UnpackFrom, SpliceOf, NodeEntries, ValidItem, Undisturbed, FirstSeenDev, VisibleDev;
    FirstVisible(items, k);
    SpliceAtFirst(items, end);
  }

  lemma SpliceAtFirst(items: seq<Item>, end: seq<byte>)
    requires ValidItems(items) && Undisturbed(ArchiveBytes(items, end), 0, items) && FirstSeenDev(0, items) < |items|
    ensures var d, k, rest := ArchiveBytes(items, end), FirstSeenDev(0, items), UnpackFrom(end, 0);
            && UnpackFrom(d, 0) == Unpacked(rest.code, Entries(items[..k + 1]) + Entries(items[k + 1..]) + rest.entries)
            && SpliceOf(d).Inserted?
            && UnpackFrom(SpliceOf(d).output, 0) ==
               Unpacked(rest.code, Entries(items[..k + 1]) + NodeEntries() + Entries(items[k + 1..]) + rest.entries)
  {
    hide ArchiveBytes, Entries, UnpackFrom, SpliceOf, IsDev, Nodes, NodeEntries, ValidItem, Undisturbed, FirstSeenDev;
    var k := FirstSeenDev(0, items);
    var front, back := items[..k + 1], items[k + 1..];
    assert front + back == items;
    ArchiveSplit(front, back, end);
    UnpackWhole(items, end);
    SpliceIsArchive(items, end);
    UnpackWhole(front + (Nodes() + back), end);
    NodesUnpack();
    ArchiveSplit(Nodes(), back, end);
    ArchiveSplit(front, Nodes() + back, end);
    assert Entries(front) + (NodeEntries() + Entries(back)) == Entries(front) + NodeEntries() + Entries(back);
  }

  // ----- Archives that `pack_cpio` writes --------------------------------------------------------

  predicate Packable(rs: seq<Record>) {
    forall i :: 0 <= i < |rs| ==> ValidRecord(rs[i]) && rs[i].name != TRAILER
  }

  function PackedAll(rs: seq<Record>): seq<byte>
    requires Packable(rs)
  {
    if rs == [] then [] else PackedBytes(rs[0]) + PackedAll(rs[1..])
  }

  /** What the unpacker makes of them. */
  function PackedEntries(rs: seq<Record>): seq<Entry>
    requires Packable(rs)
  {
    if rs == [] then [] else [EntryOf(AsRead(rs[0]))] + PackedEntries(rs[1..])
  }

  /** The records that stand in a packed archive, each after the gap that the one before it leaves. */
  function PackedItems(rs: seq<Record>, gap: seq<byte>): (items: seq<Item>)
    requires Packable(rs)
    ensures |items| == |rs|
  {
    if rs == [] then [] else [Item(gap, AsRead(rs[0]))] + PackedItems(rs[1..], Gap(rs[0]))
  }

  function LastGap(rs: seq<Record>, gap: seq<byte>): (g: seq<byte>)
    requires Packable(rs)
    ensures |gap| == 0 || |gap| == 4 ==> |g| == 0 || |g| == 4
  {
    if rs == [] then gap else LastGap(rs[1..], Gap(rs[0]))
  }

  lemma ShortIsNoMagic(f: seq<byte>)
    requires |f| < 6
    ensures NoMagic(f)
  {
  }

  lemma {:induction false} PackedItemAt(rs: seq<Record>, gap: seq<byte>, i: nat)
    requires Packable(rs) && (|gap| == 0 || |gap| == 4) && i < |rs|
    ensures var x := PackedItems(rs, gap)[i]; x.record == AsRead(rs[i]) && |x.filler| % 4 == 0 && ValidItem(x)
    decreases |rs|
  {
    hide AsRead, Gap, ValidRecord;
    ShortIsNoMagic(gap);
    if i > 0 {
      PackedItemAt(rs[1..], Gap(rs[0]), i - 1);
    }
  }

  lemma PackedItemsValid(rs: seq<Record>, gap: seq<byte>)
    requires Packable(rs) && (|gap| == 0 || |gap| == 4)
    ensures ValidItems(PackedItems(rs, gap))
  {
    hide AsRead, Gap, ValidRecord, PackedItems, ValidItem;
    forall i | 0 <= i < |rs|
      ensures ValidItem(PackedItems(rs, gap)[i])
    {
      PackedItemAt(rs, gap, i);
    }
  }

  /** A packed archive is an archive of those records. */
  lemma {:induction false} PackedIsArchive(rs: seq<Record>, gap: seq<byte>, end: seq<byte>)
    requires Packable(rs) && (|gap| == 0 || |gap| == 4)
    ensures ValidItems(PackedItems(rs, gap))
    ensures gap + PackedAll(rs) + end == ArchiveBytes(PackedItems(rs, gap), LastGap(rs, gap) + end)
    decreases |rs|
  {
    hide AsRead, Gap, ValidRecord, RecordBytes, PackedBytes, ValidItem;
    PackedItemsValid(rs, gap);
    if rs != [] {
      PackedIsRecord(rs[0]);
      PackedIsArchive(rs[1..], Gap(rs[0]), end);
      var items := PackedItems(rs, gap);
      assert items[1..] == PackedItems(rs[1..], Gap(rs[0]));
      Regroup(gap, RecordBytes(AsRead(rs[0])), Gap(rs[0]), PackedAll(rs[1..]), end);
    }
  }

  lemma Regroup(g: seq<byte>, x: seq<byte>, y: seq<byte>, z: seq<byte>, end: seq<byte>)
    ensures g + ((x + y) + z) + end == (g + x) + (y + z + end)
  {
  }

  lemma {:induction false} PackedEntriesAre(items: seq<Item>, rs: seq<Record>)
    requires Packable(rs) && ValidItems(items) && |items| == |rs|
    requires forall i :: 0 <= i < |rs| ==> items[i].record == AsRead(rs[i])
    ensures Entries(items) == PackedEntries(rs)
  {
    hide AsRead, ValidRecord, EntryOf, ValidItem;
    if rs != [] {
      assert ValidItem(items[0]);
      assert forall i :: 0 <= i < |rs| - 1 ==> items[1..][i] == items[i + 1] && rs[1..][i] == rs[i + 1];
      PackedEntriesAre(items[1..], rs[1..]);
    }
  }

  lemma PackedStands(rs: seq<Record>, end: seq<byte>) returns (items: seq<Item>, last: seq<byte>)
    requires Packable(rs)
    ensures ValidItems(items) && NoMagic(last) && |items| == |rs|
    ensures PackedAll(rs) + end == ArchiveBytes(items, last + end)
    ensures forall i :: 0 <= i < |rs| ==> items[i].record == AsRead(rs[i]) && |items[i].filler| % 4 == 0
  {
    hide AsRead, Gap, ValidRecord, RecordBytes, PackedAll, ArchiveBytes, ValidItem, PackedItems, LastGap, NoMagic;
    items, last := PackedItems(rs, []), LastGap(rs, []);
    PackedIsArchive(rs, [], end);
    assert PackedAll(rs) + end == [] + PackedAll(rs) + end;
    ShortIsNoMagic(last);
    forall i | 0 <= i < |rs|
      ensures items[i].record == AsRead(rs[i]) && |items[i].filler| % 4 == 0
    {
      PackedItemAt(rs, [], i);
    }
  }

  /** The unpacker refuses every archive that `pack_cpio` writes, after it has taken all entries; what it makes of
      their data, `PackedReads` says. */
  lemma PackedUnpacks(rs: seq<Record>, ino: nat, rest: seq<byte>)
    requires Packable(rs) && ino < U32
    ensures UnpackFrom(PackedAll(rs) + TrailerBytes(ino) + rest, 0) == Unpacked(-2, PackedEntries(rs))
  {
    hide AsRead, Gap, ValidRecord, PackedAll, ArchiveBytes, ValidItem, NoMagic, TrailerBytes, UnpackFrom, Entries;
    hide PackedEntries;
    var t := TrailerBytes(ino);
    var items, last := PackedStands(rs, t + rest);
    assert PackedAll(rs) + t + rest == PackedAll(rs) + (t + rest);
    assert last + t + rest == last + (t + rest);
    PackedEntriesAre(items, rs);
    WrittenUnpacks(items, last, ino, rest);
  }

  /** With the nodes behind entry `k`. */
  function SplicedEntries(rs: seq<Record>, k: nat): seq<Entry>
    requires Packable(rs) && k < |rs|
  {
    PackedEntries(rs[..k + 1]) + NodeEntries() + PackedEntries(rs[k + 1..])
  }

  /** And `insert_devnodes` puts the nodes behind the first device directory ("./dev", "./dev/", "dev" or "dev/") of
      such an archive, and changes nothing else, when no file has 64 MB or more. */
  lemma PackedSplices(d: seq<byte>, rs: seq<Record>, k: nat, ino: nat, rest: seq<byte>)
    requires Packable(rs) && ino < U32 && d == PackedAll(rs) + TrailerBytes(ino) + rest
    requires k < |rs| && forall i :: 0 <= i < |rs| ==> |rs[i].data| < 67108864
    requires rs[k].name in
               {[46, 47, 100, 101, 118], [46, 47, 100, 101, 118, 47], [100, 101, 118], [100, 101, 118, 47]}
    requires forall i :: 0 <= i < k ==>
               rs[i].name !in
                 {[46, 47, 100, 101, 118], [46, 47, 100, 101, 118, 47], [100, 101, 118], [100, 101, 118, 47]}
    ensures SpliceOf(d).Inserted? && UnpackFrom(SpliceOf(d).output, 0) == Unpacked(-2, SplicedEntries(rs, k))
  {
    hide AsRead, Gap, ValidRecord, PackedAll, ArchiveBytes, NoMagic, TrailerBytes, UnpackFrom, Entries;
    hide PackedEntries, SpliceOf, NodeEntries, FirstSeenDev, Undisturbed;
    var t := TrailerBytes(ino);
    var items, last := PackedStands(rs, t + rest);
    assert PackedAll(rs) + t + rest == PackedAll(rs) + (t + rest);
    assert last + t + rest == last + (t + rest);
    SteppableSeen(d, 0, items);
    assert FirstSeenDev(0, items) == k by {
      assert IsDev(items[k].record.name);
    }
    SpliceAtFirst(items, last + (t + rest));
    TrailerUnpacks(last, ino, rest);
    AllEntries(items, rs, k + 1);
  }

  /** Without such a name it leaves a packed archive alone, and finds nothing in the trailer either. */
  lemma PackedMisses(d: seq<byte>, rs: seq<Record>, ino: nat)
    requires Packable(rs) && ino < U32 && d == PackedAll(rs) + TrailerBytes(ino)
    requires forall i :: 0 <= i < |rs| ==> |rs[i].data| < 67108864
    requires forall i :: 0 <= i < |rs| ==>
               rs[i].name !in
                 {[46, 47, 100, 101, 118], [46, 47, 100, 101, 118, 47], [100, 101, 118], [100, 101, 118, 47]}
    ensures SpliceOf(d) == NoDevEntry
  {
    hide AsRead, Gap, ValidRecord, PackedAll, ArchiveBytes, NoMagic, TrailerBytes, UnpackFrom, Entries;
    hide PackedEntries, SpliceOf, NodeEntries, FirstSeenDev, Undisturbed, Quiet;
    var t := TrailerBytes(ino);
    var items, last := PackedStands(rs, t);
    var q := |ArchiveBytes(items, [])|;
    SteppableSeen(d, 0, items);
    assert FirstSeenDev(0, items) == |items|;
    assert d[0..] == d;
    UnpackItems(d, 0, items, last + t);
    PackedAligned(items);
    TrailerQuiet(d, q, last, ino);
    NothingSeen(items, last + t);
  }

  lemma {:induction false} PackedAligned(items: seq<Item>)
    requires ValidItems(items) && forall i :: 0 <= i < |items| ==> |items[i].filler| % 4 == 0
    ensures |ArchiveBytes(items, [])| % 4 == 0
    decreases |items|
  {
    hide ArchiveBytes, RecordBytes, ValidRecord, NoMagic;
    if items == [] {
      ArchiveNothing([]);
    } else {
      assert ValidItem(items[0]);
      ArchiveFirst(items, []);
      RecordAligned(items[0].record);
      PackedAligned(items[1..]);
    }
  }

  /** A number does not end in '!' or in a zero byte. */
  lemma PyInt16Last(s: seq<byte>)
    requires s != [] && (s[|s| - 1] == 33 || s[|s| - 1] == 0)
    ensures PyInt16(s) == ValueError
  {
    hide PyDigits;
    TrimLeftLast(s);
    var t := TrimLeft(s);
    assert TrimRight(t) == t;
    PyDigitsLast(t);
    PyDigitsLast(t[1..]);
    if 2 <= |t| {
      PyDigitsLast(t[2..]);
    }
    if 3 <= |t| {
      PyDigitsLast(t[3..]);
      PyDigitsLast(t[1..][2..]);
    }
    if 4 <= |t| {
      PyDigitsLast(t[1..][3..]);
    }
  }

  lemma PyDigitsLast(s: seq<byte>)
    requires s == [] || s[|s| - 1] == 33 || s[|s| - 1] == 0
    ensures PyDigits(s) == ValueError
  {
  }

  lemma {:induction false} TrimLeftLast(s: seq<byte>)
    requires s != [] && !IsSpace(s[|s| - 1])
    ensures TrimLeft(s) != [] && TrimLeft(s)[|TrimLeft(s)| - 1] == s[|s| - 1]
    decreases |s|
  {
    if IsSpace(s[0]) {
      TrimLeftLast(s[1..]);
    }
  }

  /** Behind the numbers of the trailer's header: the name from its eighth byte on, and zeros. */
  lemma TrailerTail(ino: nat, i: nat)
    requires ino < U32 && 101 <= i < 512
    ensures TrailerBytes(ino)[i] == 33 || TrailerBytes(ino)[i] == 0
  {
    hide FieldBytes;
  }

  lemma TrailerQuiet(d: seq<byte>, q: nat, gap: seq<byte>, ino: nat)
    requires ino < U32 && q % 4 == 0 && q <= |d| && d[q..] == gap + TrailerBytes(ino) && NoMagic(gap)
    ensures Quiet(d, q, |d|)
  {
    hide TrailerBytes, NoMagic, MagicAt, HoldsAt, Plausible, Quiet;
    var t := TrailerBytes(ino);
    DropHolds(d, q, gap, t);
    assert d[q + |gap|..] == t + [];
    DropHolds(d, q + |gap|, t, []);
    TrailerMisread(d, q + |gap|, ino);
    FillerQuiet(d, q, gap);
    forall p | q + |gap| <= p < |d|
      ensures !Stops(d, p)
    {
      if p + HEADER <= |d| {
        var i := p + 101 - (q + |gap|);
        TrailerTail(ino, i);
        assert d[p + 101] == d[q + |gap|..][i] == t[i];
        PyInt16Last(d[p + 94..p + 102]);
        NotPlausible(d, p);
      }
    }
    QuietJoin(d, q, q + |gap|, |d|);
  }

  lemma NotPlausible(d: seq<byte>, p: nat)
    requires p + HEADER <= |d| && PyInt16(d[p + 94..p + 102]) == ValueError
    ensures !Plausible(d, p)
  {
    hide PyInt16;
  }

  lemma QuietJoin(d: seq<byte>, a: nat, b: nat, c: nat)
    requires Quiet(d, a, b) && forall p :: b <= p < c ==> !Stops(d, p)
    ensures Quiet(d, a, c)
  {
    hide Stops;
  }

  lemma AllEntries(items: seq<Item>, rs: seq<Record>, k: nat)
    requires Packable(rs) && ValidItems(items) && k <= |items| == |rs|
    requires forall i :: 0 <= i < |rs| ==> items[i].record == AsRead(rs[i])
    ensures Entries(items[..k]) == PackedEntries(rs[..k]) && Entries(items[k..]) == PackedEntries(rs[k..])
  {
    hide AsRead, ValidRecord, Entries, PackedEntries, ValidItem;
    PackedEntriesAre(items[..k], rs[..k]);
    PackedEntriesAre(items[k..], rs[k..]);
  }

  // ----- A directory that the scan does not see ------------------------------------------------

  /** "dev", 040755 */
  const DEVICES := EntryRecord([100, 101, 118], [], 0x41ED, 0, 0)

  /** The digit 7 is nowhere in the number. */
  predicate NoSeven(n: nat) {
    n == 0 || (n % 16 != 7 && NoSeven(n / 16))
  }

  lemma {:induction false} HexNoSeven(n: nat, k: nat)
    requires NoSeven(n)
    ensures forall i :: 0 <= i < k ==> Hex(n, k)[i] != 55
  {
    if k > 0 {
      HexNoSeven(n / 16, k - 1);
    }
  }

  lemma {:induction false} FieldsNoSeven(fields: seq<nat>)
    requires forall i :: 0 <= i < |fields| ==> NoSeven(fields[i])
    ensures forall i :: 0 <= i < 8 * |fields| ==> FieldBytes(fields)[i] != 55
    decreases |fields|
  {
    hide NoSeven, Hex;
    if fields != [] {
      FieldsNoSeven(fields[..|fields| - 1]);
      HexNoSeven(fields[|fields| - 1], 8);
    }
  }

  /** Without a 7 elsewhere, a record holds one only in its magic and its data. */
  predicate Sevenless(r: Record) {
    && ValidRecord(r) && (forall i :: 0 <= i < 13 ==> NoSeven(r.fields[i]))
    && (forall i :: 0 <= i < |r.name| ==> r.name[i] != 55) && AllZero(r.padding)
  }

  lemma RecordSevens(r: Record, i: nat)
    requires Sevenless(r) && i < |RecordBytes(r)| && RecordBytes(r)[i] == 55
    ensures i == 1 || i == 3 || HEADER + |r.name| + 1 <= i < HEADER + |r.name| + 1 + |r.data|
  {
    hide FieldBytes, NoSeven;
    FieldsNoSeven(r.fields);
  }

  lemma NoSevens()
    ensures NoSeven(0) && NoSeven(1) && NoSeven(4) && NoSeven(5) && NoSeven(128) && NoSeven(0x41ED) && NoSeven(0x81A4)
  {
    assert NoSeven(4) && NoSeven(8);
    assert NoSeven(0x41) && NoSeven(0x81);
    assert NoSeven(0x41E) && NoSeven(0x81A);
  }

  lemma EntrySevenless(name: seq<byte>, data: seq<byte>, mode: nat)
    requires ValidRecord(EntryRecord(name, data, mode, 0, 0)) && 0 < |name| && name[0] != 0 && name != TRAILER
    requires NoSeven(|name| + 1) && NoSeven(|data|) && NoSeven(mode)
    requires forall i :: 0 <= i < |name| ==> name[i] != 55
    ensures var r := EntryRecord(name, data, mode, 0, 0); Sevenless(r) && ValidItem(Item([0], r))
  {
    hide NoSeven, ValidRecord;
    NoSevens();
    assert !MagicAt([0], 0);
  }

  lemma DevicesSevenless()
    ensures ValidRecord(DEVICES) && Sevenless(DEVICES) && ValidItem(Item([0], DEVICES))
    ensures |RecordBytes(DEVICES)| == 116 && IsDev(DEVICES.name)
  {
    hide RecordBytes, NoSeven, Sevenless, ValidItem, ValidRecord;
    NoSevens();
    EntryRecordReads([100, 101, 118], [], 0x41ED, 0, 0);
    EntrySevenless([100, 101, 118], [], 0x41ED);
    RecordSize(DEVICES);
  }

  /** One byte of filler in front of the device directory: the unpacker passes it, the scan does not see the
      directory, and the archive is left alone. */
  lemma OneByteMisses()
    ensures ValidItems([Item([0], DEVICES)])
    ensures var d := ArchiveBytes([Item([0], DEVICES)], []);
            && UnpackFrom(d, 0).entries == [Entry([100, 101, 118], 0x41ED, [], 0, 0)]
            && SpliceOf(d).NoDevEntry?
  {
    hide RecordBytes, Sevenless, Plausible, UnpackFrom, SpliceOf;
    DevicesSevenless();
    var items := [Item([0], DEVICES)];
    var d := ArchiveBytes(items, []);
    UnpackWhole(items, []);
    UnpackNothing();
    assert items[1..] == [];
    ArchiveFirst(items, []);
    forall q | 0 <= q < |d| && q % 4 == 0
      ensures !Stops(d, q)
    {
      if q + 6 <= |d| && d[q..q + 6] == MAGIC {
        assert d[q..q + 6][1] == d[q + 1] == RecordBytes(DEVICES)[q];
        RecordSevens(DEVICES, q);
      }
    }
    ScanMisses(items, []);
  }

  lemma UnpackNothing()
    ensures UnpackFrom([], 0) == Unpacked(-4, [])
  {
  }

  /** A file "host" that holds an entry of its own. */
  function Host(): Record {
    EntryRecord([104, 111, 115, 116], RecordBytes(DEVICES) + Zeros(12), 0x81A4, 0, 0)
  }

  lemma HostIs()
    ensures var r := Host(); Sevenless(r) && ValidItem(Item([0], r)) && |r.data| == 128 && |r.name| == 4
    ensures |RecordBytes(Host())| == 244 && !IsDev(Host().name)
  {
    hide RecordBytes, NoSeven, Sevenless, ValidItem, ValidRecord;
    DevicesSevenless();
    NoSevens();
    EntryRecordReads([104, 111, 115, 116], RecordBytes(DEVICES) + Zeros(12), 0x81A4, 0, 0);
    EntrySevenless([104, 111, 115, 116], RecordBytes(DEVICES) + Zeros(12), 0x81A4);
    RecordSize(Host());
  }

  /** Where `Undisturbed` fails: behind one byte of filler the scan does not see a file, but takes an entry inside
      its data for the device directory, and the nodes are put in the middle of the file. */
  lemma ShamHeader()
    ensures ValidItems([Item([0], Host())]) && !IsDev(Host().name)
    ensures var d := ArchiveBytes([Item([0], Host())], []);
            && UnpackFrom(d, 0).entries == [EntryOf(Host())]
            && ScanDev(d, 0) == FoundAt(116) && FindEntryEnd(d, 116) == 232 < |d| == 245
  {
    hide RecordBytes, Sevenless, Plausible, UnpackFrom, Host, EntryOf, FindEntryEnd, DevAt, HoldsAt;
    HostIs();
    DevicesSevenless();
    var items := [Item([0], Host())];
    var d := ArchiveBytes(items, []);
    UnpackWhole(items, []);
    UnpackNothing();
    assert items[1..] == [];
    ArchiveFirst(items, []);
    HostHolds(d);
    forall q | 0 <= q < 116 && q % 4 == 0
      ensures !Stops(d, q)
    {
      if d[q..q + 6] == MAGIC {
        assert d[q..q + 6][1] == d[q + 1] == RecordBytes(Host())[q];
        RecordSevens(Host(), q);
      }
    }
    ScanOver(d, 0, 116);
    RecordScans(d, 116, DEVICES);
  }

  lemma HostHolds(d: seq<byte>)
    requires ValidRecord(Host()) && ValidRecord(DEVICES) && d == [0] + RecordBytes(Host())
             && |RecordBytes(Host())| == 244
    ensures HoldsAt(d, 116, RecordBytes(DEVICES))
  {
    hide RecordBytes, HoldsAt, FieldBytes;
    assert d == [0] + RecordBytes(Host()) + [];
    assert d[0..] == d;
    DropHolds(d, 0, [0], RecordBytes(Host()));
    assert RecordBytes(Host()) == RecordBytes(Host()) + [];
    DropHolds(d, 1, RecordBytes(Host()), []);
    RecordLayout(d, 1, Host());
    HoldsConcat(d, 116, RecordBytes(DEVICES), Zeros(12));
  }
}

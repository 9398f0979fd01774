/**
 The unpacker of the boot tools, `unpack_cpio`: a parser driven by the lengths in the headers, which
 looks for the next header when it does not find one where it expects it.
 */
module CpioUnpack {
  import opened ByteSeq
  import opened CpioFormat

  /** `hx`: eight hexadecimal digits. */
  method Hx(d: seq<byte>, p: nat) returns (v: nat)
    requires p + 8 <= |d|
    ensures v == HexValue(d[p..p + 8]) && v < U32
  {
    hide HexValue, Pow16;
    v := 0;
    var i := 0;
    NoDigits(d, p);
    while i < 8
      invariant 0 <= i <= 8
      invariant v == HexValue(d[p..p + i])
    {
      HexValueBound(d[p..p + i]);
      ShiftFits(i, v);
      NextDigit(d, p, i);
      var c := d[p + i];
      v := v * 16 % U32;
      if 48 <= c <= 57 {
        v := v + (c - 48);
      } else if 97 <= c <= 102 {
        v := v + (c - 97 + 10);
      } else if 65 <= c <= 70 {
        v := v + (c - 65 + 10);
      }
      i := i + 1;
    }
    HexValueBound(d[p..p + 8]);
    Pow16Of8();
  }

  lemma NoDigits(d: seq<byte>, p: nat)
    requires p <= |d|
    ensures HexValue(d[p..p]) == 0
  {
  }

  lemma NextDigit(d: seq<byte>, p: nat, i: nat)
    requires p + i < |d|
    ensures HexValue(d[p..p + i + 1]) == 16 * HexValue(d[p..p + i]) + DigitValue(d[p + i])
  {
    assert d[p..p + i + 1][..i] == d[p..p + i];
  }

  /** Shifting four bits out of 32 loses nothing before the eighth digit. */
  lemma ShiftFits(i: nat, v: nat)
    requires i < 8 && v < Pow16(i)
    ensures v * 16 < U32
  {
    Pow16Monotone(i, 7);
    assert Pow16(4) == 65536;
    assert Pow16(7) == 65536 * 4096;
  }

  lemma {:induction false} Pow16Monotone(i: nat, k: nat)
    requires i <= k
    ensures Pow16(i) <= Pow16(k)
  {
    if i < k {
      Pow16Monotone(i, k - 1);
    }
  }

  // ----- What the unpacker does ----------------------------------------------------------------

  /** An entry as it is handed to the file system. */
  datatype Entry = Entry(name: seq<byte>, mode: nat, data: seq<byte>, rdevMajor: nat, rdevMinor: nat)

  /** 0: the trailer was reached. -1: no next header. -2: a name that is empty or too long. -3: an entry
      that is longer than the archive. -4: no trailer. */
  datatype Unpacked = Unpacked(code: int, entries: seq<Entry>)

  /** A name buffer as a string: up to its first zero. */
  function CString(s: seq<byte>): (r: seq<byte>)
    ensures |r| <= |s| && r == s[..|r|] && (|r| < |s| ==> s[|r|] == 0)
    ensures forall i :: 0 <= i < |r| ==> r[i] != 0
  {
    if s == [] || s[0] == 0 then [] else [s[0]] + CString(s[1..])
  }

  /** A leading "./" is dropped. */
  function StripDot(name: seq<byte>): seq<byte> {
    if 2 <= |name| && name[0] == 46 && name[1] == 47 then name[2..] else name
  }

  function Field(d: seq<byte>, p: nat, i: nat): (v: nat)
    requires p + HEADER <= |d| && i < 13
    ensures v < U32
  {
    HexValueBound(d[p + 6 + 8 * i..p + 6 + 8 * i + 8]);
    Pow16Of8();
    HexValue(d[p + 6 + 8 * i..p + 6 + 8 * i + 8])
  }

  function NameAt(d: seq<byte>, p: nat): seq<byte>
    requires p + HEADER <= |d| && 0 < Field(d, p, NAMESIZE) && p + HEADER + Field(d, p, NAMESIZE) <= |d|
  {
    CString(d[p + HEADER..p + HEADER + Field(d, p, NAMESIZE) - 1])
  }

  function EntryLength(d: seq<byte>, p: nat): (n: nat)
    requires p + HEADER <= |d|
    ensures HEADER <= n
  {
    HEADER + Field(d, p, NAMESIZE) + Field(d, p, FILESIZE)
  }

  function EntryAt(d: seq<byte>, p: nat): Entry
    requires p + HEADER <= |d| && 0 < Field(d, p, NAMESIZE) && p + EntryLength(d, p) <= |d|
  {
    var data := p + HEADER + Field(d, p, NAMESIZE);
    Entry(StripDot(NameAt(d, p)), Field(d, p, MODE), d[data..data + Field(d, p, FILESIZE)],
          Field(d, p, RDEVMAJOR), Field(d, p, RDEVMINOR))
  }

  /** The next place from `q` on where a whole header fits and the magic stands; or a place where none fits. */
  function NextHeader(d: seq<byte>, q: nat): (r: nat)
    ensures q <= r && (r + HEADER <= |d| ==> MagicAt(d, r))
    decreases |d| - q
  {
    if q + HEADER > |d| || MagicAt(d, q) then q else NextHeader(d, q + 1)
  }

  /** Unpacking from position `p` on. */
  function UnpackFrom(d: seq<byte>, p: nat): Unpacked
    decreases |d| - p
  {
    if p + HEADER > |d| then Unpacked(-4, [])
    else if !MagicAt(d, p) then
      var q := NextHeader(d, p + 1);
      if q + HEADER > |d| then Unpacked(-1, []) else UnpackFrom(d, q)
    else if !(0 < Field(d, p, NAMESIZE) < 1024) then Unpacked(-2, [])
    else if |d| - p < EntryLength(d, p) then Unpacked(-3, [])
    else if NameAt(d, p) == TRAILER then Unpacked(0, [])
    else
      var rest := UnpackFrom(d, p + EntryLength(d, p) + Pad4(EntryLength(d, p)));
      Unpacked(rest.code, [EntryAt(d, p)] + rest.entries)
  }

  function After(entries: seq<Entry>, rest: Unpacked): Unpacked {
    Unpacked(rest.code, entries + rest.entries)
  }

  /** `strcmp` and `memmove` on the name buffer see the name up to its first zero. */
  method ReadName(d: seq<byte>, p: nat, namesize: nat) returns (name: seq<byte>)
    requires 0 < namesize && p + namesize <= |d|
    ensures name == CString(d[p..p + namesize - 1])
  {
    hide CString;
    var n := 0;
    ghost var s := d[p..p + namesize - 1];
    while n < namesize - 1 && d[p + n] != 0
      invariant 0 <= n <= namesize - 1
      invariant forall i :: 0 <= i < n ==> s[i] != 0
    {
      n := n + 1;
    }
    name := d[p..p + n];
    SliceOfSlice(d, p, p + namesize - 1, 0, n);
    CStringIs(s, n);
  }

  lemma CStringIs(s: seq<byte>, n: nat)
    requires n <= |s| && (forall i :: 0 <= i < n ==> s[i] != 0) && (n < |s| ==> s[n] == 0)
    ensures CString(s) == s[..n]
  {
    hide CString;
    var r := CString(s);
    assert |r| == n;
  }

  method ReadHeader(d: seq<byte>, p: nat) returns (mode: nat, filesize: nat, rdevmaj: nat, rdevmin: nat, namesize: nat)
    requires p + HEADER <= |d|
    ensures mode == Field(d, p, MODE) && filesize == Field(d, p, FILESIZE) && namesize == Field(d, p, NAMESIZE)
    ensures rdevmaj == Field(d, p, RDEVMAJOR) && rdevmin == Field(d, p, RDEVMINOR)
  {
    hide HexValue;
    mode := Hx(d, p + 14);
    filesize := Hx(d, p + 54);
    rdevmaj := Hx(d, p + 78);
    rdevmin := Hx(d, p + 86);
    namesize := Hx(d, p + 94);
  }

  /** What is done at a header: stop with a code, or take an entry and go on behind it. */
  datatype Step = Stop(code: int) | Take(entry: Entry, next: nat)

  method UnpackStep(d: seq<byte>, p: nat) returns (step: Step)
    requires p + HEADER <= |d| && MagicAt(d, p)
    ensures step.Stop? ==> UnpackFrom(d, p) == Unpacked(step.code, [])
    ensures step.Take? ==> p < step.next && UnpackFrom(d, p) == After([step.entry], UnpackFrom(d, step.next))
  {
    hide HexValue, CString, StripDot, Field, NextHeader, MagicAt;
    var mode, filesize, rdevmaj, rdevmin, namesize := ReadHeader(d, p);
    if namesize == 0 || namesize >= 1024 {
      return Stop(-2);
    }
    if |d| - p < HEADER + namesize + filesize {
      return Stop(-3);
    }
    var name := ReadName(d, p + HEADER, namesize);
    if name == TRAILER {
      return Stop(0);
    }
    var data := p + HEADER + namesize;
    var total := HEADER + namesize + filesize;
    step := Take(Entry(StripDot(name), mode, d[data..data + filesize], rdevmaj, rdevmin), p + total + Pad4(total));
  }

  /** `unpack_cpio`. */
  method UnpackCpio(d: seq<byte>) returns (r: Unpacked)
    ensures r == UnpackFrom(d, 0)
  {
    hide After, UnpackFrom, NextHeader;
    var p := 0;
    var entries: seq<Entry> := [];
    AfterNothing(UnpackFrom(d, 0));
    while p + HEADER <= |d|
      invariant UnpackFrom(d, 0) == After(entries, UnpackFrom(d, p))
      decreases |d| - p
    {
      if d[p..p + 6] != MAGIC {
        var q := Resync(d, p + 1);
        UnpackLost(d, p);
        if q + HEADER > |d| {
          AfterEnd(entries, -1);
          return Unpacked(-1, entries);
        }
        p := q;
        continue;
      }
      var step := UnpackStep(d, p);
      if step.Stop? {
        AfterEnd(entries, step.code);
        return Unpacked(step.code, entries);
      }
      AfterOne(entries, step.entry, UnpackFrom(d, step.next));
      entries := entries + [step.entry];
      p := step.next;
    }
    UnpackEnds(d, p);
    AfterEnd(entries, -4);
    r := Unpacked(-4, entries);
  }

  lemma UnpackLost(d: seq<byte>, p: nat)
    requires p + HEADER <= |d| && !MagicAt(d, p)
    ensures var q := NextHeader(d, p + 1);
            UnpackFrom(d, p) == if q + HEADER > |d| then Unpacked(-1, []) else UnpackFrom(d, q)
  {
  }

  lemma UnpackEnds(d: seq<byte>, p: nat)
    requires p + HEADER > |d|
    ensures UnpackFrom(d, p) == Unpacked(-4, [])
  {
  }

  lemma AfterNothing(rest: Unpacked)
    ensures After([], rest) == rest
  {
  }

  lemma AfterEnd(entries: seq<Entry>, code: int)
    ensures After(entries, Unpacked(code, [])) == Unpacked(code, entries)
  {
  }

  lemma AfterOne(entries: seq<Entry>, e: Entry, rest: Unpacked)
    ensures After(entries, After([e], rest)) == After(entries + [e], rest)
  {
    assert entries + ([e] + rest.entries) == (entries + [e]) + rest.entries;
  }

  /** The scan for the next header. */
  method Resync(d: seq<byte>, q0: nat) returns (q: nat)
    ensures q == NextHeader(d, q0)
  {
    q := q0;
    while q + HEADER <= |d| && d[q..q + 6] != MAGIC
      invariant NextHeader(d, q0) == NextHeader(d, q)
      decreases |d| - q
    {
      q := q + 1;
    }
  }

  // ----- What comes back of what was written ---------------------------------------------------

  /** The entry that a record stands for. */
  function EntryOf(r: Record): Entry
    requires ValidRecord(r)
  {
    Entry(StripDot(r.name), r.fields[MODE], r.data, r.fields[RDEVMAJOR], r.fields[RDEVMINOR])
  }

  lemma RecordName(d: seq<byte>, p: nat, r: Record)
    requires ValidRecord(r) && HoldsAt(d, p, RecordBytes(r))
    ensures p + HEADER + |r.name| + 1 <= |d| && Field(d, p, NAMESIZE) == |r.name| + 1
    ensures NameAt(d, p) == r.name
  {
    hide HoldsAt, RecordBytes, CString, HexValue;
    RecordLayout(d, p, r);
    HoldsSlice(d, p + HEADER, r.name + [0], 0, |r.name| + 1);
    FieldReads(d, p, r, NAMESIZE);
    HoldsSlice(d, p + HEADER, r.name + [0], 0, |r.name|);
    assert (r.name + [0])[..|r.name|] == r.name;
    CStringIs(r.name, |r.name|);
    assert r.name[..|r.name|] == r.name;
  }

  /** A record reads as its entry. */
  lemma RecordReads(d: seq<byte>, p: nat, r: Record)
    requires ValidRecord(r) && HoldsAt(d, p, RecordBytes(r))
    ensures p + |RecordBytes(r)| <= |d| && MagicAt(d, p) && Field(d, p, NAMESIZE) == |r.name| + 1
    ensures |RecordBytes(r)| == EntryLength(d, p) + Pad4(EntryLength(d, p))
    ensures NameAt(d, p) == r.name && EntryAt(d, p) == EntryOf(r)
  {
    hide RecordBytes, NameAt, StripDot, Field;
    RecordLayout(d, p, r);
    RecordName(d, p, r);
    RecordFields(d, p, r);
    HoldsSlice(d, p, MAGIC, 0, 6);
    HoldsSlice(d, p + HEADER + |r.name| + 1, r.data, 0, |r.data|);
  }

  lemma RecordFields(d: seq<byte>, p: nat, r: Record)
    requires ValidRecord(r) && HoldsAt(d, p, RecordBytes(r))
    ensures p + HEADER <= |d| && forall i :: 0 <= i < 13 ==> Field(d, p, i) == r.fields[i]
  {
    hide RecordBytes, HexValue, HoldsAt, Hex;
    FieldReads(d, p, r, 12);
    forall i | 0 <= i < 13
      ensures Field(d, p, i) == r.fields[i]
    {
      FieldReads(d, p, r, i);
    }
  }

  /** The parse is compositional: a record contributes its entry, whatever comes before and after it. */
  lemma UnpackRecord(d: seq<byte>, p: nat, r: Record)
    requires ValidRecord(r) && HoldsAt(d, p, RecordBytes(r)) && r.name != TRAILER
    ensures UnpackFrom(d, p) == After([EntryOf(r)], UnpackFrom(d, p + |RecordBytes(r)|))
  {
    hide RecordBytes, HoldsAt, HexValue, NameAt, EntryAt, Field, MagicAt;
    RecordReads(d, p, r);
  }

  lemma UnpackTrailer(d: seq<byte>, p: nat, r: Record)
    requires ValidRecord(r) && HoldsAt(d, p, RecordBytes(r)) && r.name == TRAILER
    ensures UnpackFrom(d, p) == Unpacked(0, [])
  {
    hide RecordBytes, HoldsAt, HexValue, NameAt, EntryAt, Field, MagicAt;
    RecordReads(d, p, r);
  }

  lemma {:induction false} NextHeaderIs(d: seq<byte>, q: nat, h: nat)
    requires q <= h && h + HEADER <= |d| && MagicAt(d, h)
    requires forall k :: q <= k < h ==> !MagicAt(d, k)
    ensures NextHeader(d, q) == h
    decreases h - q
  {
    if q < h {
      NextHeaderIs(d, q + 1, h);
    }
  }

  /** Filler without the magic is skipped exactly: the scan locks on the header behind it, not before. */
  lemma UnpackFiller(d: seq<byte>, p: nat, f: seq<byte>)
    requires HoldsAt(d, p, f) && NoMagic(f) && MagicAt(d, p + |f|) && p + |f| + HEADER <= |d|
    ensures UnpackFrom(d, p) == UnpackFrom(d, p + |f|)
  {
    hide HexValue, NameAt, EntryAt, Field, MagicAt, HoldsAt;
    if f != [] {
      forall k | p <= k < p + |f|
        ensures !MagicAt(d, k)
      {
        FirstMagic(d, p, f, k - p);
      }
      NextHeaderIs(d, p + 1, p + |f|);
    }
  }

  // ----- Archives ------------------------------------------------------------------------------

  /** A record with the filler before it. */
  datatype Item = Item(filler: seq<byte>, record: Record)

  predicate ValidItem(x: Item) {
    NoMagic(x.filler) && ValidRecord(x.record) && x.record.name != TRAILER
  }

  predicate ValidItems(items: seq<Item>) {
    forall i :: 0 <= i < |items| ==> ValidItem(items[i])
  }

  function ArchiveBytes(items: seq<Item>, end: seq<byte>): seq<byte>
    requires ValidItems(items)
  {
    if items == [] then end
    else items[0].filler + RecordBytes(items[0].record) + ArchiveBytes(items[1..], end)
  }

  function Entries(items: seq<Item>): seq<Entry>
    requires ValidItems(items)
  {
    if items == [] then [] else [EntryOf(items[0].record)] + Entries(items[1..])
  }

  /** Filler, the trailer, and anything at all. */
  datatype Ending = Ending(filler: seq<byte>, trailer: Record, rest: seq<byte>)

  predicate ValidEnding(z: Ending) {
    NoMagic(z.filler) && ValidRecord(z.trailer) && z.trailer.name == TRAILER
  }

  function EndingBytes(z: Ending): seq<byte>
    requires ValidEnding(z)
  {
    z.filler + RecordBytes(z.trailer) + z.rest
  }

  lemma DropHolds(d: seq<byte>, p: nat, a: seq<byte>, b: seq<byte>)
    requires p <= |d| && d[p..] == a + b
    ensures HoldsAt(d, p, a) && p + |a| <= |d| && d[p + |a|..] == b
  {
    assert d[p..p + |a|] == d[p..][..|a|];
    assert d[p + |a|..] == d[p..][|a|..];
  }

  /** A filler and the record behind it. */
  lemma ItemStands(d: seq<byte>, p: nat, f: seq<byte>, r: Record, rest: seq<byte>) returns (h: nat, q: nat)
    requires p <= |d| && ValidRecord(r) && d[p..] == f + RecordBytes(r) + rest && NoMagic(f)
    ensures h == p + |f| && q == h + |RecordBytes(r)| <= |d|
    ensures HoldsAt(d, p, f) && HoldsAt(d, h, RecordBytes(r)) && d[q..] == rest
    ensures UnpackFrom(d, p) == UnpackFrom(d, h)
  {
    hide HoldsAt, RecordBytes, UnpackFrom, NoMagic;
    h := p + |f|;
    q := h + |RecordBytes(r)|;
    assert f + RecordBytes(r) + rest == f + (RecordBytes(r) + rest);
    DropHolds(d, p, f, RecordBytes(r) + rest);
    DropHolds(d, h, RecordBytes(r), rest);
    RecordReads(d, h, r);
    UnpackFiller(d, p, f);
  }

  /** Records contribute their entries, in order; whatever follows them is unpacked as if they were not there. */
  lemma {:induction false} UnpackItems(d: seq<byte>, p: nat, items: seq<Item>, end: seq<byte>)
    requires ValidItems(items) && p <= |d| && d[p..] == ArchiveBytes(items, end)
    ensures var q := p + |ArchiveBytes(items, [])|;
            && q <= |d| && d[q..] == end
            && UnpackFrom(d, p) == After(Entries(items), UnpackFrom(d, q))
    decreases |items|
  {
    hide RecordBytes, HoldsAt, UnpackFrom, EntryOf, ValidRecord, NoMagic;
    if items == [] {
      AfterNothing(UnpackFrom(d, p));
    } else {
      var x := items[0];
      assert ValidItem(x);
      var h, next := ItemStands(d, p, x.filler, x.record, ArchiveBytes(items[1..], end));
      UnpackRecord(d, h, x.record);
      UnpackItems(d, next, items[1..], end);
      AfterBoth([EntryOf(x.record)], Entries(items[1..]), UnpackFrom(d, next + |ArchiveBytes(items[1..], [])|));
    }
  }

  lemma AfterBoth(a: seq<Entry>, b: seq<Entry>, rest: Unpacked)
    ensures After(a, After(b, rest)) == After(a + b, rest)
  {
    assert a + (b + rest.entries) == (a + b) + rest.entries;
  }

  /** Round trip: an archive of any records with any fillers and a trailer unpacks to exactly their entries,
      in order, and with success. */
  lemma UnpackArchive(d: seq<byte>, p: nat, items: seq<Item>, z: Ending)
    requires ValidItems(items) && ValidEnding(z) && p <= |d| && d[p..] == ArchiveBytes(items, EndingBytes(z))
    ensures UnpackFrom(d, p) == Unpacked(0, Entries(items))
  {
    hide RecordBytes, HoldsAt, UnpackFrom, ValidRecord, NoMagic, ArchiveBytes, Entries, After;
    var q := p + |ArchiveBytes(items, [])|;
    UnpackItems(d, p, items, EndingBytes(z));
    var h, _ := ItemStands(d, q, z.filler, z.trailer, z.rest);
    UnpackTrailer(d, h, z.trailer);
    AfterEnd(Entries(items), 0);
  }

  lemma {:induction false} NextHeaderShifts(d: seq<byte>, q: nat, k: nat)
    requires q <= |d|
    ensures NextHeader(d, q + k) == q + NextHeader(d[q..], k)
    decreases |d| - q - k
  {
    hide MagicAt, Field;
    if q + k + HEADER <= |d| {
      HeaderShifts(d, q, k);
      NextHeaderShifts(d, q, k + 1);
    }
  }

  lemma HeaderShifts(d: seq<byte>, q: nat, k: nat)
    requires q <= |d| && q + k + HEADER <= |d|
    ensures MagicAt(d[q..], k) == MagicAt(d, q + k)
    ensures forall i :: 0 <= i < 13 ==> Field(d[q..], k, i) == Field(d, q + k, i)
  {
    hide HexValue;
    SliceOfSlice(d, q, |d|, k, k + 6);
    assert d[q..][k..k + 6] == d[q + k..q + k + 6];
    forall i | 0 <= i < 13
      ensures Field(d[q..], k, i) == Field(d, q + k, i)
    {
      var a := k + 6 + 8 * i;
      SliceOfSlice(d, q, |d|, a, a + 8);
      assert d[q..][a..a + 8] == d[q + a..q + a + 8];
      assert q + k + 6 + 8 * i == q + a;
    }
  }

  lemma EntryShifts(d: seq<byte>, q: nat, k: nat)
    requires q <= |d| && q + k + HEADER <= |d| && 0 < Field(d, q + k, NAMESIZE) && q + k + EntryLength(d, q + k) <= |d|
    ensures EntryLength(d[q..], k) == EntryLength(d, q + k) && 0 < Field(d[q..], k, NAMESIZE)
    ensures NameAt(d[q..], k) == NameAt(d, q + k) && EntryAt(d[q..], k) == EntryAt(d, q + k)
  {
    hide HexValue, Field, CString, StripDot;
    HeaderShifts(d, q, k);
    var n, m := Field(d, q + k, NAMESIZE), Field(d, q + k, FILESIZE);
    var a := k + HEADER;
    SliceOfSlice(d, q, |d|, a, a + n - 1);
    SliceOfSlice(d, q, |d|, a + n, a + n + m);
    assert d[q..][a..a + n - 1] == d[q + k + HEADER..q + k + HEADER + n - 1];
    assert d[q..][a + n..a + n + m] == d[q + k + HEADER + n..q + k + HEADER + n + m];
  }

  /** What is unpacked from a position on depends on nothing before it. */
  lemma {:induction false} UnpackShifts(d: seq<byte>, q: nat, k: nat)
    requires q <= |d|
    ensures UnpackFrom(d, q + k) == UnpackFrom(d[q..], k)
    decreases |d| - q - k
  {
    hide HexValue, Field, NameAt, EntryAt, MagicAt, NextHeader;
    if q + k + HEADER <= |d| {
      HeaderShifts(d, q, k);
      if !MagicAt(d, q + k) {
        NextHeaderShifts(d, q, k + 1);
        UnpackShifts(d, q, NextHeader(d[q..], k + 1));
      } else if 0 < Field(d, q + k, NAMESIZE) < 1024 && EntryLength(d, q + k) <= |d| - (q + k) {
        EntryShifts(d, q, k);
        UnpackShifts(d, q, k + EntryLength(d, q + k) + Pad4(EntryLength(d, q + k)));
      }
    }
  }

  /** A whole archive: its entries, and then what its end unpacks to by itself. */
  lemma UnpackWhole(items: seq<Item>, end: seq<byte>)
    requires ValidItems(items)
    ensures UnpackFrom(ArchiveBytes(items, end), 0) == After(Entries(items), UnpackFrom(end, 0))
  {
    hide ArchiveBytes, Entries, UnpackFrom, After;
    var d, q := ArchiveBytes(items, end), |ArchiveBytes(items, [])|;
    assert d[0..] == d;
    UnpackItems(d, 0, items, end);
    UnpackShifts(d, q, 0);
  }

  // ----- The codes -----------------------------------------------------------------------------

  /** The bytes of a name: up to a zero, or all of the name buffer but its last byte. */
  predicate Named(d: seq<byte>, q: nat, name: seq<byte>)
    requires q + HEADER <= |d|
  {
    var namesize := HexValue(d[q + 94..q + 102]);
    && |name| < namesize && q + 110 + namesize <= |d| && d[q + 110..q + 110 + |name|] == name
    && (|name| + 1 < namesize ==> d[q + 110 + |name|] == 0)
  }

  lemma NamedIs(d: seq<byte>, q: nat)
    requires q + HEADER <= |d| && 0 < Field(d, q, NAMESIZE) && q + HEADER + Field(d, q, NAMESIZE) <= |d|
    ensures Named(d, q, NameAt(d, q))
  {
    hide HexValue, CString;
    var s := d[q + HEADER..q + HEADER + Field(d, q, NAMESIZE) - 1];
    var n := |CString(s)|;
    SliceOfSlice(d, q + HEADER, q + HEADER + |s|, 0, n);
  }

  lemma {:induction false} NextHeaderNone(d: seq<byte>, q: nat)
    requires NextHeader(d, q) + HEADER > |d|
    ensures forall k :: q <= k && k + HEADER <= |d| ==> !MagicAt(d, k)
    decreases |d| - q
  {
    hide MagicAt;
    if q + HEADER <= |d| {
      NextHeaderNone(d, q + 1);
    }
  }

  /** What stands at the position where a run stops with a code. "070701" is the magic, "TRAILER!!!" the name. */
  ghost predicate Reason(d: seq<byte>, q: nat, code: int) {
    if q + 110 > |d| then code == -4
    else if d[q..q + 6] != [48, 55, 48, 55, 48, 49] then
      code == -1 && forall k :: q < k && k + 110 <= |d| ==> !MagicAt(d, k)
    else
      var namesize, filesize := HexValue(d[q + 94..q + 102]), HexValue(d[q + 54..q + 62]);
      if namesize == 0 || namesize >= 1024 then code == -2
      else if q + 110 + namesize + filesize > |d| then code == -3
      else code == 0 && Named(d, q, [84, 82, 65, 73, 76, 69, 82, 33, 33, 33])
  }

  /** Every run stops at some position, for the reason of its code. */
  lemma {:induction false} UnpackStops(d: seq<byte>, p: nat) returns (q: nat)
    ensures p <= q && Reason(d, q, UnpackFrom(d, p).code)
    decreases |d| - p
  {
    hide HexValue, NameAt, EntryAt, Named, Reason, NextHeader;
    if p + HEADER > |d| || (MagicAt(d, p) && (!(0 < Field(d, p, NAMESIZE) < 1024) || EntryLength(d, p) > |d| - p)) {
      q := p;
      StopsShort(d, p);
    } else if !MagicAt(d, p) {
      var h := NextHeader(d, p + 1);
      if h + HEADER <= |d| {
        q := UnpackStops(d, h);
      } else {
        q := p;
        StopsLost(d, p);
      }
    } else if NameAt(d, p) == TRAILER {
      q := p;
      StopsAtTrailer(d, p);
    } else {
      q := UnpackStops(d, p + EntryLength(d, p) + Pad4(EntryLength(d, p)));
    }
  }

  lemma StopsShort(d: seq<byte>, p: nat)
    requires p + HEADER > |d| || (MagicAt(d, p) && (!(0 < Field(d, p, NAMESIZE) < 1024) || EntryLength(d, p) > |d| - p))
    ensures Reason(d, p, UnpackFrom(d, p).code)
  {
    hide HexValue, NameAt, EntryAt, Named, NextHeader;
  }

  lemma StopsLost(d: seq<byte>, p: nat)
    requires p + HEADER <= |d| && !MagicAt(d, p) && NextHeader(d, p + 1) + HEADER > |d|
    ensures Reason(d, p, UnpackFrom(d, p).code)
  {
    hide HexValue, NameAt, EntryAt, Named, NextHeader;
    NextHeaderNone(d, p + 1);
  }

  lemma StopsAtTrailer(d: seq<byte>, p: nat)
    requires p + HEADER <= |d| && MagicAt(d, p) && 0 < Field(d, p, NAMESIZE) < 1024 && EntryLength(d, p) <= |d| - p
    requires NameAt(d, p) == TRAILER
    ensures Reason(d, p, UnpackFrom(d, p).code)
  {
    hide HexValue, NameAt, EntryAt, Named, NextHeader;
    NamedIs(d, p);
  }

  /** A header and nothing known behind it. */
  lemma HeaderReads(d: seq<byte>, p: nat, r: Record)
    requires ValidRecord(r) && HoldsAt(d, p, HeaderBytes(r.fields))
    ensures p + HEADER <= |d| && MagicAt(d, p)
    ensures Field(d, p, NAMESIZE) == |r.name| + 1 && Field(d, p, FILESIZE) == |r.data|
  {
    hide HoldsAt, FieldBytes, Hex, HexValue;
    HoldsConcat(d, p, MAGIC, FieldBytes(r.fields));
    HoldsSlice(d, p, HeaderBytes(r.fields), 0, HEADER);
    HoldsSlice(d, p, MAGIC, 0, 6);
    FieldOf(d, p, r.fields, NAMESIZE);
    FieldOf(d, p, r.fields, FILESIZE);
  }

  lemma FieldOf(d: seq<byte>, p: nat, fields: seq<nat>, i: nat)
    requires |fields| == 13 && i < 13 && fields[i] < U32 && p + HEADER <= |d| && HoldsAt(d, p + 6, FieldBytes(fields))
    ensures Field(d, p, i) == fields[i]
  {
    hide HoldsAt, FieldBytes, Hex, HexValue;
    HoldsSlice(d, p + 6, FieldBytes(fields), 8 * i, 8);
    FieldAt(fields, i);
    Pow16Of8();
    HexInverts(fields[i], 8);
  }

  /** An archive that is cut inside an entry: the entries before it are taken, and the answer is -3 if the header
      is whole; otherwise -1, or -4 where not even the length of a header is left. */
  lemma UnpackCut(items: seq<Item>, filler: seq<byte>, r: Record, n: nat)
    requires ValidItems(items) && NoMagic(filler) && ValidRecord(r)
    requires n < 110 + |r.name| + 1 + |r.data|
    ensures n <= |RecordBytes(r)|
    ensures UnpackFrom(ArchiveBytes(items, filler + RecordBytes(r)[..n]), 0) ==
            Unpacked(if n >= 110 then -3 else if |filler| + n >= 110 then -1 else -4, Entries(items))
  {
    hide ArchiveBytes, Entries, UnpackFrom, RecordBytes, ValidItem, NoMagic;
    RecordSize(r);
    var end := filler + RecordBytes(r)[..n];
    UnpackWhole(items, end);
    if n >= HEADER {
      CutBehindHeader(filler, r, n);
      AfterEnd(Entries(items), -3);
    } else if |filler| + n >= HEADER {
      CutInHeader(filler, r, n);
      AfterEnd(Entries(items), -1);
    } else {
      UnpackEnds(end, 0);
      AfterEnd(Entries(items), -4);
    }
  }

  lemma RecordSize(r: Record)
    requires ValidRecord(r)
    ensures |RecordBytes(r)| == HEADER + |r.name| + 1 + |r.data| + |r.padding|
  {
    hide FieldBytes;
  }

  lemma CutBehindHeader(filler: seq<byte>, r: Record, n: nat)
    requires NoMagic(filler) && ValidRecord(r) && HEADER <= n < HEADER + |r.name| + 1 + |r.data|
             && n <= |RecordBytes(r)|
    ensures UnpackFrom(filler + RecordBytes(r)[..n], 0) == Unpacked(-3, [])
  {
    hide RecordBytes, NoMagic, HoldsAt, Field, NameAt, EntryAt, MagicAt, HeaderBytes;
    var cut := RecordBytes(r)[..n];
    var d := filler + cut;
    assert d[0..] == d;
    DropHolds(d, 0, filler, cut);
    HeaderFirst(r, n);
    DropHolds(d, |filler|, HeaderBytes(r.fields), cut[HEADER..]);
    HeaderReads(d, |filler|, r);
    UnpackFiller(d, 0, filler);
  }

  lemma HeaderFirst(r: Record, n: nat)
    requires ValidRecord(r) && HEADER <= n <= |RecordBytes(r)|
    ensures |HeaderBytes(r.fields)| == HEADER
            && RecordBytes(r)[..n] == HeaderBytes(r.fields) + RecordBytes(r)[..n][HEADER..]
  {
    hide FieldBytes;
    assert RecordBytes(r)[..HEADER] == HeaderBytes(r.fields);
  }

  lemma CutInHeader(filler: seq<byte>, r: Record, n: nat)
    requires NoMagic(filler) && ValidRecord(r) && n < HEADER <= |filler| + n && n <= |RecordBytes(r)|
    ensures UnpackFrom(filler + RecordBytes(r)[..n], 0) == Unpacked(-1, [])
  {
    hide RecordBytes, NoMagic, MagicAt, HoldsAt, NextHeader, Field, NameAt, EntryAt;
    var cut := RecordBytes(r)[..n];
    var d := filler + cut;
    assert d[0..] == d;
    DropHolds(d, 0, filler, cut);
    RecordStarts(r, n);
    forall k | 0 <= k && k + HEADER <= |d|
      ensures !MagicAt(d, k)
    {
      if n >= 6 {
        MagicBehind(filler, cut);
        FirstMagic(d, 0, filler, k);
      } else {
        MagicInside(filler, cut, k);
      }
    }
  }

  lemma RecordStarts(r: Record, n: nat)
    requires ValidRecord(r) && n <= |RecordBytes(r)|
    ensures n >= 6 ==> MagicAt(RecordBytes(r)[..n], 0)
  {
    hide FieldBytes;
  }

  lemma MagicBehind(f: seq<byte>, cut: seq<byte>)
    requires MagicAt(cut, 0)
    ensures MagicAt(f + cut, |f|)
  {
    assert (f + cut)[|f|..|f| + 6] == cut[0..6];
  }

  lemma MagicInside(f: seq<byte>, cut: seq<byte>, k: nat)
    requires NoMagic(f) && k + 6 <= |f|
    ensures !MagicAt(f + cut, k)
  {
    assert !MagicAt(f, k);
    assert (f + cut)[k..k + 6] == f[k..k + 6];
  }
}

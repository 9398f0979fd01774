/**
 The newc cpio archive format: headers of thirteen fields of eight hexadecimal digits, and the layout
 in which the boot tools write an entry.
 */
module CpioFormat {
  import opened ByteSeq

  const HEADER := 110
  const U32 := 0x1_0000_0000

  /** "070701" */
  const MAGIC: seq<byte> := [48, 55, 48, 55, 48, 49]
  /** "TRAILER!!!" */
  const TRAILER: seq<byte> := [84, 82, 65, 73, 76, 69, 82, 33, 33, 33]

  // ----- Hexadecimal ---------------------------------------------------------------------------

  function HexDigit(n: nat): byte
    requires n < 16
  {
    if n < 10 then 48 + n else 87 + n
  }

  predicate IsHex(c: byte) {
    48 <= c <= 57 || 97 <= c <= 102 || 65 <= c <= 70
  }

  /** What a character adds to a number; any that is no digit adds nothing. */
  function DigitValue(c: byte): (v: nat)
    ensures v < 16
  {
    if 48 <= c <= 57 then c - 48 else if 97 <= c <= 102 then c - 87 else if 65 <= c <= 70 then c - 55 else 0
  }

  /** Digits may be of either case. */
  lemma DigitValues(n: nat)
    requires n < 16
    ensures DigitValue(HexDigit(n)) == n && (10 <= n ==> DigitValue(65 + n - 10) == DigitValue(97 + n - 10) == n)
    ensures forall c: byte :: IsHex(c) <==> 48 <= c <= 57 || 65 <= c <= 70 || 97 <= c <= 102
    ensures forall c: byte :: !IsHex(c) ==> DigitValue(c) == 0
  {
  }

  function Pow16(k: nat): (r: nat)
    ensures 1 <= r
  {
    if k == 0 then 1 else 16 * Pow16(k - 1)
  }

  /** `k` digits, as the format `%08x` gives eight. */
  function Hex(n: nat, k: nat): (s: seq<byte>)
    ensures |s| == k
  {
    if k == 0 then [] else Hex(n / 16, k - 1) + [HexDigit(n % 16)]
  }

  function HexValue(s: seq<byte>): nat {
    if s == [] then 0 else 16 * HexValue(s[..|s| - 1]) + DigitValue(s[|s| - 1])
  }

  lemma {:induction false} HexInverts(n: nat, k: nat)
    requires n < Pow16(k)
    ensures HexValue(Hex(n, k)) == n
    ensures forall i :: 0 <= i < k ==> IsHex(Hex(n, k)[i])
  {
    if k > 0 {
      HexInverts(n / 16, k - 1);
      assert Hex(n, k)[..k - 1] == Hex(n / 16, k - 1);
    }
  }

  lemma {:induction false} HexValueBound(s: seq<byte>)
    ensures HexValue(s) < Pow16(|s|)
  {
    if s != [] {
      HexValueBound(s[..|s| - 1]);
    }
  }

  lemma Pow16Of8()
    ensures Pow16(8) == U32
  {
    assert Pow16(4) == 65536;
    assert Pow16(6) == 65536 * 256;
  }

  // ----- Entries -------------------------------------------------------------------------------

  /** An entry as it is written: thirteen header fields, a name, the data, and bytes that nobody looks at. */
  datatype Record = Record(fields: seq<nat>, name: seq<byte>, data: seq<byte>, padding: seq<byte>)

  const MODE := 1
  const FILESIZE := 6
  const RDEVMAJOR := 9
  const RDEVMINOR := 10
  const NAMESIZE := 11

  function Pad4(n: nat): (r: nat)
    ensures r < 4 && (n + r) % 4 == 0
  {
    (4 - n % 4) % 4
  }

  function Zeros(n: nat): (s: seq<byte>)
    ensures |s| == n && forall i :: 0 <= i < n ==> s[i] == 0
  {
    seq(n, _ => 0)
  }

  function FieldBytes(fields: seq<nat>): (s: seq<byte>)
    ensures |s| == 8 * |fields|
  {
    if fields == [] then [] else FieldBytes(fields[..|fields| - 1]) + Hex(fields[|fields| - 1], 8)
  }

  lemma {:induction false} FieldAt(fields: seq<nat>, i: nat)
    requires i < |fields|
    ensures FieldBytes(fields)[8 * i..8 * i + 8] == Hex(fields[i], 8)
    decreases |fields|
  {
    var front := fields[..|fields| - 1];
    if i < |fields| - 1 {
      FieldAt(front, i);
      assert FieldBytes(fields)[8 * i..8 * i + 8] == FieldBytes(front)[8 * i..8 * i + 8];
    }
  }

  function HeaderBytes(fields: seq<nat>): (s: seq<byte>)
    ensures |s| == 6 + 8 * |fields|
  {
    MAGIC + FieldBytes(fields)
  }

  /** What the header must say about the rest, and what a reader with a 1024-byte name buffer demands. */
  predicate ValidRecord(r: Record) {
    && |r.fields| == 13 && (forall i :: 0 <= i < 13 ==> r.fields[i] < U32)
    && r.fields[FILESIZE] == |r.data| && r.fields[NAMESIZE] == |r.name| + 1
    && |r.name| < 1023 && (forall i :: 0 <= i < |r.name| ==> r.name[i] != 0)
    && |r.padding| == Pad4(HEADER + |r.name| + 1 + |r.data|)
  }

  /** Header, name, data, and only then padding. */
  function RecordBytes(r: Record): seq<byte>
    requires ValidRecord(r)
  {
    HeaderBytes(r.fields) + r.name + [0] + r.data + r.padding
  }

  /** Where the parts of a record stand. */
  lemma RecordLayout(d: seq<byte>, p: nat, r: Record)
    requires ValidRecord(r) && HoldsAt(d, p, RecordBytes(r))
    ensures HoldsAt(d, p, [48, 55, 48, 55, 48, 49]) && HoldsAt(d, p + 6, FieldBytes(r.fields))
    ensures HoldsAt(d, p + HEADER, r.name + [0]) && HoldsAt(d, p + HEADER + |r.name| + 1, r.data)
    ensures |RecordBytes(r)| == HEADER + |r.name| + 1 + |r.data| + Pad4(HEADER + |r.name| + 1 + |r.data|)
  {
    hide HoldsAt, FieldBytes;
    var h, n := HeaderBytes(r.fields), r.name + [0];
    assert RecordBytes(r) == h + n + r.data + r.padding;
    HoldsConcat(d, p, h + n + r.data, r.padding);
    HoldsConcat(d, p, h + n, r.data);
    HoldsConcat(d, p, h, n);
    HoldsConcat(d, p, MAGIC, FieldBytes(r.fields));
  }

  /** Every field can be read back from its place. */
  lemma FieldReads(d: seq<byte>, p: nat, r: Record, i: nat)
    requires ValidRecord(r) && HoldsAt(d, p, RecordBytes(r)) && i < 13
    ensures p + 6 + 8 * i + 8 <= |d| && d[p + 6 + 8 * i..p + 6 + 8 * i + 8] == Hex(r.fields[i], 8)
    ensures HexValue(d[p + 6 + 8 * i..p + 6 + 8 * i + 8]) == r.fields[i]
  {
    hide HoldsAt, FieldBytes, RecordBytes, Hex, HexValue;
    RecordLayout(d, p, r);
    HoldsSlice(d, p + 6, FieldBytes(r.fields), 8 * i, 8);
    FieldAt(r.fields, i);
    Pow16Of8();
    HexInverts(r.fields[i], 8);
  }

  // ----- The magic -----------------------------------------------------------------------------

  predicate MagicAt(d: seq<byte>, p: nat) {
    p + 6 <= |d| && d[p..p + 6] == MAGIC
  }

  predicate NoMagic(f: seq<byte>) {
    forall k :: 0 <= k < |f| ==> !MagicAt(f, k)
  }

  /** The magic has no border: no proper end of it is also a beginning. */
  lemma NoBorder(k: nat)
    requires 0 < k < 6
    ensures MAGIC[k..] != MAGIC[..6 - k]
  {
    assert MAGIC[k..][0] == MAGIC[k] && MAGIC[..6 - k][0] == MAGIC[0];
    assert MAGIC[k..][5 - k] == MAGIC[5] && MAGIC[..6 - k][5 - k] == MAGIC[5 - k];
  }

  /** Hence filler that does not contain the magic cannot make one together with a header after it. */
  lemma FirstMagic(d: seq<byte>, p: nat, f: seq<byte>, k: nat)
    requires HoldsAt(d, p, f) && NoMagic(f) && MagicAt(d, p + |f|) && k < |f|
    ensures !MagicAt(d, p + k)
  {
    if k + 6 <= |f| {
      assert !MagicAt(f, k);
      HoldsSlice(d, p, f, k, 6);
    } else if MagicAt(d, p + k) {
      var n := |f| - k;
      SliceOfSlice(d, p + k, p + k + 6, n, 6);
      SliceOfSlice(d, p + |f|, p + |f| + 6, 0, 6 - n);
      NoBorder(n);
    }
  }
}

/**
 Match lengths: `LZ4_count` compares 8 bytes at a time and finds the first difference with
 `LZ4_NbCommonBytes`, here in its software form (xor, mask, multiply, shift).
 */
module Lz4Count {
  import opened ByteSeq

  // ----- The lowest nonzero byte of a word -----------------------------------------------------

  /** The software form: xor, mask, multiply, shift. */
  function SoftwareCount(val: bv64): bv64 {
    var m: bv64 := 0x0101010101010101;
    var v := val ^ (val - 1);
    ((v & (m - 1)) * m) >> 56
  }

  function NbCommonBytes(val: bv64): nat {
    SoftwareCount(val) as nat
  }

  predicate Clear(val: bv64, mask: bv64) {
    val & mask == 0
  }

  /** The bits of byte `j` of a little-endian word. */
  function ByteMask(j: nat): bv64
    requires j < 8
  {
    if j == 0 then 0xFF else if j == 1 then 0xFF00 else if j == 2 then 0xFF0000 else if j == 3 then 0xFF000000
    else if j == 4 then 0xFF00000000 else if j == 5 then 0xFF0000000000
    else if j == 6 then 0xFF000000000000 else 0xFF00000000000000
  }

  /** The bits of bytes 0 to `j - 1`. */
  function LowMask(j: nat): bv64
    requires j < 8
  {
    if j == 0 then 0 else LowMask(j - 1) | ByteMask(j - 1)
  }

  lemma LowMaskValues()
    ensures LowMask(0) == 0 && LowMask(1) == 0xFF && LowMask(2) == 0xFFFF && LowMask(3) == 0xFFFFFF
    ensures LowMask(4) == 0xFFFFFFFF && LowMask(5) == 0xFFFFFFFFFF
    ensures LowMask(6) == 0xFFFFFFFFFFFF && LowMask(7) == 0xFFFFFFFFFFFFFF
  {
    assert LowMask(3) == 0xFFFFFF;
    assert LowMask(5) == 0xFFFFFFFFFF;
  }

  /** The bits up to and including the lowest set one, sampled once per byte above the first. */
  function Samples(r: nat): bv64
    requires r < 8
  {
    if r == 0 then 0 else if r == 1 then 0x0100 else if r == 2 then 0x010100 else if r == 3 then 0x01010100
    else if r == 4 then 0x0101010100 else if r == 5 then 0x010101010100
    else if r == 6 then 0x01010101010100 else 0x0101010101010100
  }

  lemma Sampled(val: bv64, r: nat)
    requires r < 8 && Clear(val, LowMask(r)) && !Clear(val, ByteMask(r))
    ensures (val ^ (val - 1)) & 0x0101010101010100 == Samples(r)
  {
    LowMaskValues();
    hide LowMask;
    if r == 0 {} else if r == 1 {} else if r == 2 {} else if r == 3 {}
    else if r == 4 {} else if r == 5 {} else if r == 6 {} else {}
  }

  function Index(r: nat): bv64
    requires r < 8
  {
    if r == 0 then 0 else if r == 1 then 1 else if r == 2 then 2 else if r == 3 then 3
    else if r == 4 then 4 else if r == 5 then 5 else if r == 6 then 6 else 7
  }

  lemma CountOfSamples(val: bv64, r: nat)
    requires r < 8 && (val ^ (val - 1)) & 0x0101010101010100 == Samples(r)
    ensures SoftwareCount(val) == Index(r)
  {
    if r == 0 {} else if r == 1 {} else if r == 2 {} else if r == 3 {}
    else if r == 4 {} else if r == 5 {} else if r == 6 {} else {}
  }

  /** `LZ4_NbCommonBytes` is the index of the lowest nonzero byte. */
  lemma NbCommonBytesIs(val: bv64, r: nat)
    requires r < 8 && Clear(val, LowMask(r)) && !Clear(val, ByteMask(r))
    ensures NbCommonBytes(val) == r
  {
    Sampled(val, r);
    hide LowMask, ByteMask;
    CountOfSamples(val, r);
    hide SoftwareCount;
    if r == 0 {} else if r == 1 {} else if r == 2 {} else if r == 3 {}
    else if r == 4 {} else if r == 5 {} else if r == 6 {} else {}
  }

  // ----- Bytes as bit vectors ------------------------------------------------------------------

  function Bit(on: bool, mask: bv8): bv8 {
    if on then mask else 0
  }

  /** The bits of a byte. */
  function Bits(b: byte): bv8 {
    Bit(b / 128 == 1, 128) | Bit(b / 64 % 2 == 1, 64) | Bit(b / 32 % 2 == 1, 32) | Bit(b / 16 % 2 == 1, 16)
    | Bit(b / 8 % 2 == 1, 8) | Bit(b / 4 % 2 == 1, 4) | Bit(b / 2 % 2 == 1, 2) | Bit(b % 2 == 1, 1)
  }

  lemma SameBits(x: byte, y: byte)
    requires Bits(x) == Bits(y)
    ensures x / 128 == 1 <==> y / 128 == 1
    ensures x / 64 % 2 == 1 <==> y / 64 % 2 == 1
    ensures x / 32 % 2 == 1 <==> y / 32 % 2 == 1
    ensures x / 16 % 2 == 1 <==> y / 16 % 2 == 1
    ensures x / 8 % 2 == 1 <==> y / 8 % 2 == 1
    ensures x / 4 % 2 == 1 <==> y / 4 % 2 == 1
    ensures x / 2 % 2 == 1 <==> y / 2 % 2 == 1
    ensures x % 2 == 1 <==> y % 2 == 1
  {
  }

  lemma Doubled(x: int, y: int)
    requires x / 2 == y / 2 && (x % 2 == 1 <==> y % 2 == 1)
    ensures x == y
  {
  }

  lemma Quotients(x: byte)
    ensures x / 64 / 2 == x / 128 && x / 32 / 2 == x / 64 && x / 16 / 2 == x / 32 && x / 8 / 2 == x / 16
    ensures x / 4 / 2 == x / 8 && x / 2 / 2 == x / 4
  {
  }

  /** Different bytes have different bits. */
  lemma BitsInjective(x: byte, y: byte)
    ensures Bits(x) == Bits(y) <==> x == y
  {
    hide *;
    if Bits(x) == Bits(y) {
      SameBits(x, y);
      Quotients(x);
      Quotients(y);
      Doubled(x / 64, y / 64);
      Doubled(x / 32, y / 32);
      Doubled(x / 16, y / 16);
      Doubled(x / 8, y / 8);
      Doubled(x / 4, y / 4);
      Doubled(x / 2, y / 2);
      Doubled(x, y);
    }
  }

  /** 8 bytes as a little-endian word. */
  function Word(b: seq<bv8>): bv64
    requires |b| == 8
  {
    (b[0] as bv64) | ((b[1] as bv64) << 8) | ((b[2] as bv64) << 16) | ((b[3] as bv64) << 24)
    | ((b[4] as bv64) << 32) | ((b[5] as bv64) << 40) | ((b[6] as bv64) << 48) | ((b[7] as bv64) << 56)
  }

  function EightBits(m: seq<byte>, p: nat): (r: seq<bv8>)
    requires p + 8 <= |m|
    ensures |r| == 8 && forall j :: 0 <= j < 8 ==> r[j] == Bits(m[p + j])
  {
    seq(8, j requires 0 <= j < 8 => Bits(m[p + j]))
  }

  /** `LZ4_read_ARCH`. */
  function ReadArch(m: seq<byte>, p: nat): bv64
    requires p + 8 <= |m|
  {
    Word(EightBits(m, p))
  }

  /** Two words differ in a byte exactly when the bytes they are made of do. */
  lemma XorBytes(x: seq<bv8>, y: seq<bv8>, j: nat)
    requires |x| == |y| == 8 && j < 8
    ensures Clear(Word(x) ^ Word(y), ByteMask(j)) <==> x[j] == y[j]
  {
    if j == 0 {} else if j == 1 {} else if j == 2 {} else if j == 3 {}
    else if j == 4 {} else if j == 5 {} else if j == 6 {} else {}
  }

  lemma DiffBytes(m: seq<byte>, p: nat, q: nat, j: nat)
    requires p + 8 <= |m| && q + 8 <= |m| && j < 8
    ensures Clear(ReadArch(m, p) ^ ReadArch(m, q), ByteMask(j)) <==> m[p + j] == m[q + j]
  {
    hide Bits, Word, ByteMask, EightBits, Clear;
    var x, y := EightBits(m, p), EightBits(m, q);
    assert x[j] == Bits(m[p + j]) && y[j] == Bits(m[q + j]);
    XorBytes(x, y, j);
    BitsInjective(m[p + j], m[q + j]);
  }

  // ----- Common runs ---------------------------------------------------------------------------

  /** The `n` bytes at `p` are those at `q`. */
  predicate Same(m: seq<byte>, p: nat, q: nat, n: nat)
    requires p + n <= |m| && q + n <= |m|
  {
    m[p..p + n] == m[q..q + n]
  }

  /** `n` is the length of the longest common run of the bytes at `p` and at `q`, stopping before `limit`. */
  predicate IsCommonRun(m: seq<byte>, p: nat, q: nat, limit: nat, n: nat)
    requires p <= limit <= |m| && q + (limit - p) <= |m|
  {
    && p + n <= limit
    && Same(m, p, q, n)
    && (p + n == limit || m[p + n] != m[q + n])
  }

  lemma SameMore(m: seq<byte>, p: nat, q: nat, n: nat, k: nat)
    requires p + n + k <= |m| && q + n + k <= |m|
    ensures Same(m, p, q, n + k) <==> Same(m, p, q, n) && Same(m, p + n, q + n, k)
  {
    var a, b := m[p..p + n + k], m[q..q + n + k];
    assert m[p..p + n] == a[..n] && m[q..q + n] == b[..n];
    assert m[p + n..p + n + k] == a[n..] && m[q + n..q + n + k] == b[n..];
    assert a == a[..n] + a[n..] && b == b[..n] + b[n..];
  }

  lemma Same1(m: seq<byte>, p: nat, q: nat)
    requires p < |m| && q < |m|
    ensures Same(m, p, q, 1) <==> m[p] == m[q]
  {
    assert m[p..p + 1] == [m[p]] && m[q..q + 1] == [m[q]];
  }

  lemma {:induction false} LowBytesEqual(m: seq<byte>, p: nat, q: nat, r: nat)
    requires p + 8 <= |m| && q + 8 <= |m| && r < 8
    ensures Clear(ReadArch(m, p) ^ ReadArch(m, q), LowMask(r)) <==> Same(m, p, q, r)
  {
    hide ReadArch, ByteMask, LowMask, Same, Clear;
    var d := ReadArch(m, p) ^ ReadArch(m, q);
    LowMaskStep(d, r);
    if r > 0 {
      LowBytesEqual(m, p, q, r - 1);
      DiffBytes(m, p, q, r - 1);
      SameMore(m, p, q, r - 1, 1);
      Same1(m, p + r - 1, q + r - 1);
    } else {
      SameNone(m, p, q);
    }
  }

  lemma LowMaskStep(d: bv64, r: nat)
    requires r < 8
    ensures r == 0 ==> Clear(d, LowMask(r))
    ensures r > 0 ==> (Clear(d, LowMask(r)) <==> Clear(d, LowMask(r - 1)) && Clear(d, ByteMask(r - 1)))
  {
    if r == 0 {
    } else {
      var a, b := LowMask(r - 1), ByteMask(r - 1);
      hide ByteMask, Clear;
      assert LowMask(r) == a | b;
      hide LowMask;
      OrMask(d, a, b);
    }
  }

  lemma SameNone(m: seq<byte>, p: nat, q: nat)
    requires p <= |m| && q <= |m|
    ensures Same(m, p, q, 0)
  {
  }

  lemma OrMask(d: bv64, a: bv64, b: bv64)
    ensures Clear(d, a | b) <==> Clear(d, a) && Clear(d, b)
  {
    assert d & (a | b) == (d & a) | (d & b);
  }

  lemma NoDifference(m: seq<byte>, p: nat, q: nat)
    requires p + 8 <= |m| && q + 8 <= |m|
    ensures ReadArch(m, p) ^ ReadArch(m, q) == 0 <==> Same(m, p, q, 8)
  {
    hide ReadArch, Same, LowMask, ByteMask, Clear;
    LowBytesEqual(m, p, q, 7);
    DiffBytes(m, p, q, 7);
    SameMore(m, p, q, 7, 1);
    Same1(m, p + 7, q + 7);
    AllMask(ReadArch(m, p) ^ ReadArch(m, q));
  }

  lemma AllMask(d: bv64)
    ensures d == 0 <==> Clear(d, LowMask(7)) && Clear(d, ByteMask(7))
  {
    LowMaskValues();
    hide LowMask;
  }

  lemma FirstMismatch(m: seq<byte>, p: nat, q: nat) returns (r: nat)
    requires p + 8 <= |m| && q + 8 <= |m| && !Same(m, p, q, 8)
    ensures r < 8 && Same(m, p, q, r) && m[p + r] != m[q + r]
  {
    hide Same;
    r := 0;
    SameNone(m, p, q);
    while m[p + r] == m[q + r]
      invariant r < 8 && Same(m, p, q, r)
      decreases 8 - r
    {
      Same1(m, p + r, q + r);
      SameMore(m, p, q, r, 1);
      r := r + 1;
    }
  }

  /** The first byte in which two words differ, by `LZ4_NbCommonBytes`. */
  lemma FirstDifference(m: seq<byte>, p: nat, q: nat)
    requires p + 8 <= |m| && q + 8 <= |m| && ReadArch(m, p) ^ ReadArch(m, q) != 0
    ensures var r := NbCommonBytes(ReadArch(m, p) ^ ReadArch(m, q));
            r < 8 && m[p + r] != m[q + r] && Same(m, p, q, r)
  {
    hide ReadArch, NbCommonBytes, Same;
    NoDifference(m, p, q);
    var r := FirstMismatch(m, p, q);
    MismatchIndex(m, p, q, r, ReadArch(m, p) ^ ReadArch(m, q));
  }

  lemma MismatchIndex(m: seq<byte>, p: nat, q: nat, r: nat, d: bv64)
    requires p + 8 <= |m| && q + 8 <= |m| && r < 8 && d == ReadArch(m, p) ^ ReadArch(m, q)
    requires Same(m, p, q, r) && m[p + r] != m[q + r]
    ensures NbCommonBytes(d) == r
  {
    hide ReadArch, NbCommonBytes, LowMask, ByteMask, Same, Clear;
    LowBytesEqual(m, p, q, r);
    DiffBytes(m, p, q, r);
    NbCommonBytesIs(d, r);
  }

  /** One 8-byte comparison: the number of equal bytes. */
  method CountWord(m: seq<byte>, p: nat, q: nat) returns (n: nat)
    requires p + 8 <= |m| && q + 8 <= |m|
    ensures n <= 8 && Same(m, p, q, n) && (n < 8 ==> m[p + n] != m[q + n])
  {
    hide ReadArch, NbCommonBytes, Same;
    var diff := ReadArch(m, p) ^ ReadArch(m, q);
    if diff == 0 {
      NoDifference(m, p, q);
      n := 8;
    } else {
      FirstDifference(m, p, q);
      n := NbCommonBytes(diff);
    }
  }

  /** `LZ4_count`: the exact length of the common run. */
  method Count(m: seq<byte>, pIn: nat, pMatch: nat, pInLimit: nat) returns (n: nat)
    requires pIn <= pInLimit <= |m| && pMatch + (pInLimit - pIn) <= |m|
    ensures IsCommonRun(m, pIn, pMatch, pInLimit, n)
  {
    hide Same;
    n := 0;
    SameNone(m, pIn, pMatch);
    while pIn + n < pInLimit - 7
      invariant pIn + n <= pInLimit && Same(m, pIn, pMatch, n)
    {
      var r := CountWord(m, pIn + n, pMatch + n);
      SameMore(m, pIn, pMatch, n, r);
      n := n + r;
      if r < 8 {
        return;
      }
    }
    var k := CountTail(m, pIn + n, pMatch + n, pInLimit);
    SameMore(m, pIn, pMatch, n, k);
    n := n + k;
  }

  /** The last 7 bytes: 4, then 2, then 1. */
  method CountTail(m: seq<byte>, p: nat, q: nat, limit: nat) returns (k: nat)
    requires p <= limit <= |m| && q + (limit - p) <= |m| && limit - 7 <= p
    ensures IsCommonRun(m, p, q, limit, k)
  {
    hide Same;
    k := 0;
    SameNone(m, p, q);
    if p < limit - 3 && Same(m, q, p, 4) {
      SameSymmetric(m, p, q, 4);
      k := 4;
    }
    ghost var k4 := k;
    if p + k < limit - 1 && Same(m, q + k, p + k, 2) {
      SameSymmetric(m, p + k, q + k, 2);
      SameMore(m, p, q, k, 2);
      k := k + 2;
    }
    ghost var k2 := k;
    if p + k < limit && m[q + k] == m[p + k] {
      Same1(m, p + k, q + k);
      SameMore(m, p, q, k, 1);
      k := k + 1;
    }
    TailStops(m, p, q, limit, k4, k2, k);
  }

  lemma SameIndex(m: seq<byte>, p: nat, q: nat, n: nat, i: nat)
    requires p + n <= |m| && q + n <= |m| && i < n && Same(m, p, q, n)
    ensures m[p + i] == m[q + i]
  {
    assert m[p + i] == m[p..p + n][i] == m[q..q + n][i] == m[q + i];
  }

  lemma SameSymmetric(m: seq<byte>, p: nat, q: nat, n: nat)
    requires p + n <= |m| && q + n <= |m|
    ensures Same(m, p, q, n) <==> Same(m, q, p, n)
  {
  }

  /** Why three tries are enough: a failed try means a difference before its end. */
  lemma TailStops(m: seq<byte>, p: nat, q: nat, limit: nat, k4: nat, k2: nat, k: nat)
    requires p + k <= limit <= |m| && q + (limit - p) <= |m| && limit - 7 <= p
    requires k4 == 4 || (k4 == 0 && (p >= limit - 3 || !Same(m, q, p, 4)))
    requires k2 == k4 + 2 || (k2 == k4 && (p + k4 >= limit - 1 || !Same(m, q + k4, p + k4, 2)))
    requires k == k2 + 1 || (k == k2 && (p + k2 >= limit || m[q + k2] != m[p + k2]))
    requires Same(m, p, q, k)
    ensures p + k == limit || m[p + k] != m[q + k]
  {
    hide Same;
    if p + k < limit && m[p + k] == m[q + k] {
      Same1(m, p + k, q + k);
      SameMore(m, p, q, k, 1);
      if k2 == k4 {
        SameMore(m, p, q, k4, 2);
        SameSymmetric(m, p + k4, q + k4, 2);
      } else {
        SameSymmetric(m, p, q, 4);
      }
      assert false;
    }
  }
}

/**
 The copy routines of the LZ4 decoder. They move 8, 16, 32 or 64 bytes at a time and may write past
 the end they are given; what they promise is that the bytes up to that end are those of the
 byte by byte copy, and how far past it they may write.
 */
module Lz4Copy {
  import opened ByteSeq

  // ----- Copies inside the output buffer -------------------------------------------------------

  /** `memcpy` of `n` bytes: the two regions must not overlap, unless they are the same one. */
  method Memcpy(mem: array<byte>, d: nat, s: nat, n: nat)
    requires d + n <= mem.Length && s + n <= mem.Length
    requires s + n <= d || d + n <= s || s == d
    modifies mem
    ensures forall i :: 0 <= i < mem.Length && !(d <= i < d + n) ==> mem[i] == old(mem[i])
    ensures forall i :: d <= i < d + n ==> mem[i] == old(mem[i - d + s])
  {
    forall i | d <= i < d + n {
      mem[i] := mem[i - d + s];
    }
  }

  /** Copies 8 bytes at a time from `dist` bytes back; writes at least 8 bytes, and up to 7 past `e`. */
  method WildCopy8(mem: array<byte>, d: nat, dist: nat, e: int)
    requires 8 <= dist <= d && d + 8 <= mem.Length && e + 7 <= mem.Length
    modifies mem
    ensures forall i :: 0 <= i < mem.Length && (i < d || (d + 8 <= i && e + 7 <= i)) ==> mem[i] == old(mem[i])
    ensures forall i :: d <= i < e || d <= i < d + 8 ==> mem[i] == mem[i - dist]
  {
    Memcpy(mem, d, d - dist, 8);
    var p := d + 8;
    while p < e
      invariant d + 8 <= p && (p == d + 8 || p < e + 8)
      invariant forall i :: 0 <= i < mem.Length && (i < d || p <= i) ==> mem[i] == old(mem[i])
      invariant forall i :: d <= i < p ==> mem[i] == mem[i - dist]
    {
      Memcpy(mem, p, p - dist, 8);
      p := p + 8;
    }
  }

  /** Copies 32 bytes at a time, as two times 16, because the distance may be as small as 16. */
  method WildCopy32(mem: array<byte>, d: nat, dist: nat, e: int)
    requires 16 <= dist <= d && d + 32 <= mem.Length && e + 31 <= mem.Length
    modifies mem
    ensures forall i :: 0 <= i < mem.Length && (i < d || (d + 32 <= i && e + 31 <= i)) ==> mem[i] == old(mem[i])
    ensures forall i :: d <= i < e || d <= i < d + 32 ==> mem[i] == mem[i - dist]
  {
    Memcpy(mem, d, d - dist, 16);
    Memcpy(mem, d + 16, d + 16 - dist, 16);
    var p := d + 32;
    while p < e
      invariant d + 32 <= p && (p == d + 32 || p < e + 32)
      invariant forall i :: 0 <= i < mem.Length && (i < d || p <= i) ==> mem[i] == old(mem[i])
      invariant forall i :: d <= i < p ==> mem[i] == mem[i - dist]
    {
      Memcpy(mem, p, p - dist, 16);
      Memcpy(mem, p + 16, p + 16 - dist, 16);
      p := p + 32;
    }
  }

  method WildCopy64(mem: array<byte>, d: nat, dist: nat, e: int)
    requires 64 <= dist <= d && d + 64 <= mem.Length && e + 63 <= mem.Length
    modifies mem
    ensures forall i :: 0 <= i < mem.Length && (i < d || (d + 64 <= i && e + 63 <= i)) ==> mem[i] == old(mem[i])
    ensures forall i :: d <= i < e || d <= i < d + 64 ==> mem[i] == mem[i - dist]
  {
    Memcpy(mem, d, d - dist, 64);
    var p := d + 64;
    while p < e
      invariant d + 64 <= p && (p == d + 64 || p < e + 64)
      invariant forall i :: 0 <= i < mem.Length && (i < d || p <= i) ==> mem[i] == old(mem[i])
      invariant forall i :: d <= i < p ==> mem[i] == mem[i - dist]
    {
      Memcpy(mem, p, p - dist, 64);
      p := p + 64;
    }
  }

  // ----- The overlapping start of a match ------------------------------------------------------

  /** The distances that the table-driven prologue leaves between source and destination. */
  const INC32: seq<nat> := [0, 1, 2, 1, 0, 4, 4, 4]
  const DEC64: seq<int> := [0, 0, 0, -1, -4, 1, 2, 3]

  function Stretch(off: nat): int
    requires off < 8
  {
    8 + off - INC32[off] + DEC64[off]
  }

  /** Byte `i` equals the byte `off` before it, or is zero when `off` is zero. */
  predicate Repeats(m: seq<byte>, lo: int, hi: int, off: nat)
    requires off <= lo && hi <= |m|
  {
    forall i :: lo <= i < hi ==> m[i] == if off == 0 then 0 else m[i - off]
  }

  lemma {:induction false} RepeatsBack(m: seq<byte>, lo: nat, hi: nat, off: nat, j: nat, k: nat)
    requires 1 <= off <= lo && hi <= |m| && Repeats(m, lo, hi, off)
    requires j < hi && 1 <= k && lo <= j - (k - 1) * off
    ensures 0 <= j - k * off && m[j] == m[j - k * off]
    decreases k
  {
    if k > 1 {
      RepeatsBack(m, lo, hi, off, j, k - 1);
    }
  }

  /** After the prologue, source and destination are a multiple of the offset apart, and at least 8. */
  lemma StretchIsMultiple(off: nat) returns (k: nat)
    requires 1 <= off < 8
    ensures Stretch(off) == k * off && 1 <= k && 8 <= Stretch(off) && (k - 1) * off <= 7
    ensures INC32[off] < 8 && 4 <= 4 - INC32[off] + off && Stretch(off) <= 8 + off
  {
    k := [0, 8, 4, 3, 2, 2, 2, 2][off];
  }

  lemma StretchBounds(off: nat)
    requires off < 8
    ensures 8 <= Stretch(off) <= 8 + off
  {
  }

  /** If the first 8 bytes repeat with period `off` and the rest with the stretched period, all repeat with `off`. */
  lemma StretchRepeats(m: seq<byte>, d: nat, e: nat, off: nat)
    requires off < 8 && off <= d && d + 8 <= e <= |m|
    requires Repeats(m, d, d + 8, off)
    requires 8 <= Stretch(off) && Stretch(off) <= d + 8 && Repeats(m, d + 8, e, Stretch(off))
    ensures Repeats(m, d, e, off)
  {
    if off == 0 {
      ZeroRepeats(m, d, e);
    } else {
      var k := StretchIsMultiple(off);
      StretchRepeatsBy(m, d, e, off, k);
    }
  }

  lemma {:induction false} ZeroRepeats(m: seq<byte>, d: nat, e: nat)
    requires d + 8 <= e <= |m| && Repeats(m, d, d + 8, 0) && Repeats(m, d + 8, e, 8)
    ensures Repeats(m, d, e, 0)
  {
    if d + 8 < e {
      ZeroRepeats(m, d, e - 1);
      assert m[e - 1] == m[e - 9];
    }
  }

  lemma {:induction false} StretchRepeatsBy(m: seq<byte>, d: nat, e: nat, off: nat, k: nat)
    requires 1 <= off < 8 && off <= d && d + 8 <= e <= |m| && 1 <= k
    requires Stretch(off) == k * off && (k - 1) * off <= 7 && Stretch(off) <= d + 8
    requires Repeats(m, d, d + 8, off) && Repeats(m, d + 8, e, k * off)
    ensures Repeats(m, d, e, off)
    decreases e
  {
    if d + 8 < e {
      StretchRepeatsBy(m, d, e - 1, off, k);
      var i := e - 1;
      assert m[i] == m[i - k * off];
      if k > 1 {
        assert i - off - (k - 2) * off == i - (k - 1) * off;
        RepeatsBack(m, d, e - 1, off, i - off, k - 1);
        assert i - off - (k - 1) * off == i - k * off;
      }
    }
  }

  // ----- Copying a match -----------------------------------------------------------------------

  /** The first 4 bytes in the fast loop: two 2-byte copies. */
  method FastFirst4(mem: array<byte>, d: nat, off: nat)
    requires off < 8 && off != 1 && off <= d && d + 8 <= mem.Length
    modifies mem
    ensures forall i :: 0 <= i < mem.Length && !(d <= i < d + 4) ==> mem[i] == old(mem[i])
    ensures Repeats(mem[..], d, d + 4, off)
  {
    forall i | d <= i < d + 4 {
      mem[i] := 0;
    }
    Memcpy(mem, d, d - off, 2);
    ghost var m := mem[..];
    assert Repeats(m, d, d + 2, off);
    Memcpy(mem, d + 2, d - off + 2, 2);
    assert mem[d] == m[d] && mem[d + 1] == m[d + 1];
  }

  /** The first 4 bytes in the safe loop: one at a time. */
  method SafeFirst4(mem: array<byte>, d: nat, off: nat)
    requires off < 8 && off <= d && d + 8 <= mem.Length
    modifies mem
    ensures forall i :: 0 <= i < mem.Length && !(d <= i < d + 4) ==> mem[i] == old(mem[i])
    ensures Repeats(mem[..], d, d + 4, off)
  {
    forall i | d <= i < d + 4 {
      mem[i] := 0;
    }
    mem[d] := mem[d - off];
    mem[d + 1] := mem[d - off + 1];
    mem[d + 2] := mem[d - off + 2];
    mem[d + 3] := mem[d - off + 3];
  }

  /** The next 4 bytes, at the tabulated distance from the destination. */
  method Next4(mem: array<byte>, d: nat, off: nat)
    requires off < 8 && off <= d && d + 8 <= mem.Length
    requires Repeats(mem[..], d, d + 4, off)
    modifies mem
    ensures forall i :: 0 <= i < mem.Length && !(d + 4 <= i < d + 8) ==> mem[i] == old(mem[i])
    ensures Repeats(mem[..], d, d + 8, off)
  {
    ghost var m := mem[..];
    Memcpy(mem, d + 4, d - off + INC32[off], 4);
    Next4Repeats(m, mem[..], d, off);
  }

  lemma Next4Repeats(m: seq<byte>, m': seq<byte>, d: nat, off: nat)
    requires off < 8 && off <= d && d + 8 <= |m| == |m'|
    requires Repeats(m, d, d + 4, off)
    requires forall i :: 0 <= i < d + 4 ==> m'[i] == m[i]
    requires forall i :: d + 4 <= i < d + 8 ==> m'[i] == m[i - 4 - off + INC32[off]]
    ensures Repeats(m', d, d + 8, off)
  {
    assert Repeats(m', d, d + 4, off);
    var x := d - off + INC32[off];
    assert m'[d + 4] == m[x] && m'[d + 5] == m[x + 1] && m'[d + 6] == m[x + 2] && m'[d + 7] == m[x + 3];
    if off in {1, 2} {
      RepeatsBack(m, d, d + 4, off, d + 3, 1);
      assert m[d + 1] == m[d + 1 - off] && m[d + 2] == m[d + 2 - off] && m[d + 3] == m[d + 3 - off];
    } else if off == 3 {
      assert m[d + 1] == m[d - 2] && m[d + 2] == m[d - 1] && m[d + 3] == m[d];
    }
    forall i | d <= i < d + 8
      ensures m'[i] == if off == 0 then 0 else m'[i - off]
    {
      if i == d + 4 {
      } else if i == d + 5 {
      } else if i == d + 6 {
      } else if i == d + 7 {
      } else {
        assert m[i] == if off == 0 then 0 else m[i - off];
      }
    }
  }

  /** The first 8 bytes of a match: `LZ4_memcpy_using_offset_base` before its wild copy. */
  method MemcpyUsingOffsetBase(mem: array<byte>, d: nat, off: nat, e: nat)
    requires off < 16 && off != 1 && off <= d && d + 4 <= e && e + 12 <= mem.Length
    modifies mem
    ensures forall i :: 0 <= i < mem.Length && (i < d || e + 12 <= i) ==> mem[i] == old(mem[i])
    ensures Repeats(mem[..], d, e, off)
  {
    if off < 8 {
      FastFirst4(mem, d, off);
      Next4(mem, d, off);
      StretchBounds(off);
      ghost var m := mem[..];
      WildCopy8(mem, d + 8, Stretch(off), e);
      assert Repeats(mem[..], d, d + 8, off) by {
        assert forall i :: 0 <= i < d + 8 ==> mem[i] == m[i];
      }
      FinishStretch(mem[..], d, e, off);
    } else {
      Memcpy(mem, d, d - off, 8);
      ghost var m := mem[..];
      WildCopy8(mem, d + 8, off, e);
      assert forall i :: 0 <= i < d + 8 ==> mem[i] == m[i];
    }
  }

  lemma FinishStretch(m: seq<byte>, d: nat, e: nat, off: nat)
    requires off < 8 && off <= d && d + 8 <= |m| && e <= |m|
    requires Repeats(m, d, d + 8, off)
    requires 8 <= Stretch(off) <= d + 8
    requires forall i :: d + 8 <= i < e ==> m[i] == m[i - Stretch(off)]
    ensures Repeats(m, d, e, off)
  {
    if d + 8 <= e {
      StretchRepeats(m, d, e, off);
    }
  }

  /** The 8-byte pattern continues itself with period `off`. */
  predicate PatternOk(v: seq<byte>, off: nat)
    requires |v| == 8 && 1 <= off <= 8
  {
    && (forall t :: off <= t < 8 ==> v[t] == v[t - off])
    && (forall t :: 0 <= t < off ==> v[t] == v[8 + t - off])
  }

  /** The last `off` bytes before `p` are those that end the pattern. */
  predicate Follows(m: seq<byte>, p: nat, v: seq<byte>, off: nat)
    requires off <= p <= |m| && |v| == 8 && 1 <= off <= 8
  {
    forall t :: 8 - off <= t < 8 ==> m[p - 8 + t] == v[t]
  }

  method MakePattern(mem: array<byte>, d: nat, off: nat) returns (v: array<byte>)
    requires off in {1, 2, 4} && off <= d <= mem.Length
    ensures fresh(v) && v.Length == 8 && PatternOk(v[..], off) && Follows(mem[..], d, v[..], off)
  {
    v := new byte[8](i requires 0 <= i < 8 reads mem => mem[d - off + i % off]);
    PatternRepeats(v[..], mem[..], d, off);
  }

  lemma PatternRepeats(v: seq<byte>, m: seq<byte>, d: nat, off: nat)
    requires off in {1, 2, 4} && off <= d <= |m| && |v| == 8
    requires forall i :: 0 <= i < 8 ==> v[i] == m[d - off + i % off]
    ensures PatternOk(v, off) && Follows(m, d, v, off)
  {
    if off == 1 {
      assert forall i :: 0 <= i < 8 ==> i % 1 == 0;
      assert forall i :: 0 <= i < 8 ==> v[i] == m[d - 1];
    } else if off == 2 {
      assert v[0] == v[2] == v[4] == v[6] == m[d - 2];
      assert v[1] == v[3] == v[5] == v[7] == m[d - 1];
    } else {
      assert v[0] == v[4] == m[d - 4] && v[1] == v[5] == m[d - 3];
      assert v[2] == v[6] == m[d - 2] && v[3] == v[7] == m[d - 1];
    }
  }

  method Store8(mem: array<byte>, d: nat, v: array<byte>, ghost off: nat)
    requires v.Length == 8 && v != mem && 1 <= off <= 8 && off <= d && d + 8 <= mem.Length
    requires PatternOk(v[..], off) && Follows(mem[..], d, v[..], off)
    modifies mem
    ensures forall i :: 0 <= i < mem.Length && !(d <= i < d + 8) ==> mem[i] == old(mem[i])
    ensures Repeats(mem[..], d, d + 8, off) && Follows(mem[..], d + 8, v[..], off)
  {
    ghost var m, vs := mem[..], v[..];
    forall i | d <= i < d + 8 {
      mem[i] := v[i - d];
    }
    assert v[..] == vs;
    forall i | d <= i < d + 8
      ensures mem[i] == mem[i - off]
    {
      var t := i - d;
      assert vs[t] == if t >= off then vs[t - off] else vs[8 + t - off];
      if t < off {
        assert m[d - 8 + (8 + t - off)] == vs[8 + t - off];
      }
    }
  }

  /** Offsets 1, 2 and 4 divide 8: the 8-byte pattern is built once and stored repeatedly. */
  method StorePattern(mem: array<byte>, d: nat, off: nat, e: nat)
    requires off in {1, 2, 4} && off <= d && d + 4 <= e && e + 12 <= mem.Length
    modifies mem
    ensures forall i :: 0 <= i < mem.Length && (i < d || e + 12 <= i) ==> mem[i] == old(mem[i])
    ensures Repeats(mem[..], d, e, off)
  {
    var v := MakePattern(mem, d, off);
    Store8(mem, d, v, off);
    var p := d + 8;
    while p < e
      invariant d + 8 <= p && (p == d + 8 || p < e + 8)
      invariant forall i :: 0 <= i < mem.Length && (i < d || p <= i) ==> mem[i] == old(mem[i])
      invariant PatternOk(v[..], off) && Follows(mem[..], p, v[..], off)
      invariant Repeats(mem[..], d, p, off)
    {
      Store8(mem, p, v, off);
      p := p + 8;
    }
  }

  method MemcpyUsingOffset(mem: array<byte>, d: nat, off: nat, e: nat)
    requires off < 16 && off <= d && d + 4 <= e && e + 12 <= mem.Length
    modifies mem
    ensures forall i :: 0 <= i < mem.Length && (i < d || e + 12 <= i) ==> mem[i] == old(mem[i])
    ensures Repeats(mem[..], d, e, off)
  {
    if off in {1, 2, 4} {
      StorePattern(mem, d, off, e);
    } else {
      MemcpyUsingOffsetBase(mem, d, off, e);
    }
  }
}

/**
 How the compressor writes the parts of a sequence: lengths by 255s (for match lengths four at a
 time), literals in 8-byte steps that may spill past their end, and 2-byte offsets.
 */
module Lz4Emit {
  import opened ByteSeq
  import opened Lz4Format
  import opened Lz4Decode

  /** Only positions from `lo` to `hi - 1` differ. */
  predicate OnlyBetween(d: seq<byte>, d': seq<byte>, lo: int, hi: int) {
    |d'| == |d| && forall i :: 0 <= i < |d| && (i < lo || hi <= i) ==> d'[i] == d[i]
  }

  lemma HoldsKept(d: seq<byte>, d': seq<byte>, at: nat, bs: seq<byte>, lo: int, hi: int)
    requires HoldsAt(d, at, bs) && OnlyBetween(d, d', lo, hi) && (at + |bs| <= lo || hi <= at)
    ensures HoldsAt(d', at, bs)
  {
    assert d'[at..at + |bs|] == d[at..at + |bs|];
  }

  lemma OnlyBetweenTrans(d: seq<byte>, d': seq<byte>, d'': seq<byte>, lo: int, lo': int, hi: int, hi': int)
    requires OnlyBetween(d, d', lo', hi) && OnlyBetween(d', d'', lo, hi') && lo <= lo' && hi <= hi'
    ensures OnlyBetween(d, d'', lo, hi')
  {
  }

  /** The bytes of an extended length, one by one. */
  lemma {:induction false} ExtBytes(n: nat)
    ensures |Ext(n)| == n / 255 + 1
    ensures forall i :: 0 <= i < n / 255 ==> Ext(n)[i] == 255
    ensures Ext(n)[n / 255] == n % 255
    decreases n
  {
    if n >= 255 {
      ExtBytes(n - 255);
      assert n / 255 == (n - 255) / 255 + 1;
    }
  }

  lemma HoldsExt(d: seq<byte>, at: nat, n: nat)
    requires at + n / 255 + 1 <= |d|
    requires forall i :: at <= i < at + n / 255 ==> d[i] == 255
    requires d[at + n / 255] == n % 255
    ensures HoldsAt(d, at, Ext(n))
  {
    ExtBytes(n);
    assert d[at..at + |Ext(n)|] == Ext(n);
  }

  /** The loop that writes a literal length beyond 15. */
  method WriteExt(dst: array<byte>, op0: nat, n: nat) returns (op: nat)
    requires op0 + n / 255 + 1 <= dst.Length
    modifies dst
    ensures op == op0 + |Ext(n)| && HoldsAt(dst[..], op0, Ext(n))
    ensures OnlyBetween(old(dst[..]), dst[..], op0, op)
  {
    op := op0;
    var len := n;
    while len >= 255
      invariant 0 <= len <= n && op0 <= op <= op0 + n / 255 && n - len == 255 * (op - op0)
      invariant forall i :: op0 <= i < op ==> dst[i] == 255
      invariant OnlyBetween(old(dst[..]), dst[..], op0, op)
    {
      dst[op] := 255;
      op := op + 1;
      len := len - 255;
    }
    dst[op] := len;
    op := op + 1;
    HoldsExt(dst[..], op0, n);
  }

  /** Four 0xFF bytes. */
  method Write32Ones(dst: array<byte>, op: nat)
    requires op + 4 <= dst.Length
    modifies dst
    ensures OnlyBetween(old(dst[..]), dst[..], op, op + 4)
    ensures forall i :: op <= i < op + 4 ==> dst[i] == 255
  {
    forall i | op <= i < op + 4 {
      dst[i] := 255;
    }
  }

  /** The loop that writes a match length beyond 15: 0xFF bytes four at a time, then the remainder. */
  method WriteMatchExt(dst: array<byte>, op0: nat, n: nat) returns (op: nat)
    requires op0 + n / 255 + 4 <= dst.Length
    modifies dst
    ensures op == op0 + |Ext(n)| && HoldsAt(dst[..], op0, Ext(n))
    ensures OnlyBetween(old(dst[..]), dst[..], op0, op0 + n / 255 + 4)
  {
    op := op0;
    var code := n;
    Write32Ones(dst, op);
    while code >= 4 * 255
      invariant 0 <= code <= n && op0 <= op && n - code == 255 * (op - op0)
      invariant forall i :: op0 <= i < op + 4 ==> i < dst.Length && dst[i] == 255
      invariant OnlyBetween(old(dst[..]), dst[..], op0, op0 + n / 255 + 4)
    {
      op := op + 4;
      Write32Ones(dst, op);
      code := code - 4 * 255;
    }
    ghost var last := op + code / 255;
    assert last == op0 + n / 255 && code % 255 == n % 255 by { Quotient(n, code, op - op0); }
    op := op + code / 255;
    dst[op] := code % 255;
    op := op + 1;
    HoldsExt(dst[..], op0, n);
  }

  lemma Quotient(n: nat, code: nat, k: nat)
    requires n - code == 255 * k
    ensures n / 255 == code / 255 + k && n % 255 == code % 255
  {
  }

  method WriteLE16(dst: array<byte>, op: nat, value: nat)
    requires op + 2 <= dst.Length && value < 65536
    modifies dst
    ensures HoldsAt(dst[..], op, LE16(value))
    ensures OnlyBetween(old(dst[..]), dst[..], op, op + 2)
  {
    dst[op] := value % 256;
    dst[op + 1] := value / 256;
    assert dst[..][op..op + 2] == [value % 256, value / 256];
  }

  /** The token, the literal length and the literals of a sequence; the match half of the token is still 0. */
  predicate LiteralsAt(d: seq<byte>, token: nat, lits: seq<byte>, op: nat) {
    var p := token + 1 + |LenBytes(|lits|)|;
    && HoldsAt(d, token, [16 * Nibble(|lits|)])
    && HoldsAt(d, token + 1, LenBytes(|lits|))
    && HoldsAt(d, p, lits) && op == p + |lits|
  }

  method WriteLiteralLength(dst: array<byte>, token: nat, n: nat) returns (op: nat)
    requires token + 1 + |LenBytes(n)| <= dst.Length
    modifies dst
    ensures op == token + 1 + |LenBytes(n)|
    ensures HoldsAt(dst[..], token, [16 * Nibble(n)]) && HoldsAt(dst[..], token + 1, LenBytes(n))
    ensures OnlyBetween(old(dst[..]), dst[..], token, op)
  {
    op := token + 1;
    dst[token] := 16 * Nibble(n);
    ghost var d := dst[..];
    assert HoldsAt(d, token, [16 * Nibble(n)]) by { HoldsByte(d, token, 16 * Nibble(n)); }
    if n >= RUN_MASK {
      op := WriteExt(dst, op, n - RUN_MASK);
      HoldsKept(d, dst[..], token, [16 * Nibble(n)], token + 1, op);
    }
  }

  /** The literals of a sequence, with the spill of an 8-byte copy. */
  method WriteLiterals(m: seq<byte>, anchor: nat, n: nat, dst: array<byte>, token: nat, oend: nat) returns (op: nat)
    requires token + 1 + |LenBytes(n)| + n + 7 <= oend <= dst.Length && token + 1 + |LenBytes(n)| + 8 <= oend
    requires anchor + n + 8 <= |m|
    modifies dst
    ensures LiteralsAt(dst[..], token, m[anchor..anchor + n], op)
    ensures OnlyBetween(old(dst[..]), dst[..], token, oend)
  {
    hide LenBytes, HoldsAt;
    op := WriteLiteralLength(dst, token, n);
    ghost var d := dst[..];
    WildCopyIn(dst, op, m, anchor, op + n, 8);
    assert HoldsAt(dst[..], op, m[anchor..anchor + n]) by { HoldsHere(dst[..], op, m[anchor..anchor + n]); }
    HoldsKept(d, dst[..], token, [16 * Nibble(n)], op, oend);
    HoldsKept(d, dst[..], token + 1, LenBytes(n), op, oend);
    op := op + n;
  }

  lemma HoldsHere(d: seq<byte>, at: nat, bs: seq<byte>)
    requires at + |bs| <= |d| && d[at..at + |bs|] == bs
    ensures HoldsAt(d, at, bs)
  {
  }

  /** The match half of the token, and the match length beyond 15. */
  method WriteMatchLength(dst: array<byte>, token: nat, op0: nat, code: nat, oend: nat) returns (op: nat)
    requires token < op0 && op0 + |LenBytes(code)| + 3 <= oend <= dst.Length
    requires dst[token] < 241
    modifies dst
    ensures op == op0 + |LenBytes(code)| && HoldsAt(dst[..], op0, LenBytes(code))
    ensures dst[token] as int == old(dst[token]) as int + Nibble(code)
    ensures forall i :: 0 <= i < dst.Length && i != token && (i < op0 || oend <= i) ==> dst[i] == old(dst[i])
  {
    op := op0;
    if code >= ML_MASK {
      dst[token] := dst[token] + ML_MASK;
      op := WriteMatchExt(dst, op, code - ML_MASK);
    } else {
      dst[token] := dst[token] + code;
    }
  }

  /** The last literals, with their token. */
  method WriteLast(m: seq<byte>, anchor: nat, n: nat, dst: array<byte>, op0: nat) returns (op: nat)
    requires op0 + 1 + |LenBytes(n)| + n <= dst.Length && anchor + n <= |m|
    modifies dst
    ensures op == op0 + 1 + |LenBytes(n)| + n
    ensures HoldsAt(dst[..], op0, SerializeLast(m[anchor..anchor + n], 0))
    ensures OnlyBetween(old(dst[..]), dst[..], op0, op)
  {
    hide LenBytes, HoldsAt;
    var p := WriteLiteralLength(dst, op0, n);
    ghost var d := dst[..];
    CopyIn(dst, p, m, anchor, n);
    op := p + n;
    ghost var lits := m[anchor..anchor + n];
    assert HoldsAt(dst[..], p, lits) by { assert dst[..][p..op] == lits; HoldsHere(dst[..], p, lits); }
    HoldsKept(d, dst[..], op0, [16 * Nibble(n)], p, op);
    HoldsKept(d, dst[..], op0 + 1, LenBytes(n), p, op);
    HoldsConcat(dst[..], op0, [16 * Nibble(n)] + LenBytes(n), lits);
    HoldsConcat(dst[..], op0, [16 * Nibble(n)], LenBytes(n));
    assert [16 * Nibble(n) + 0] + LenBytes(n) + lits == SerializeLast(lits, 0);
  }
}

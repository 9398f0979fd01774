/**
 The LZ4 block format: the sequences of a block, what they mean (an LZ77 expansion over a
 history), the bytes that stand for them, and the parsing restrictions on the end of a block.

 Everything else in the codec is stated against this module: the compressor emits the bytes of a
 conforming block that expands to its input, and the decoders compute the expansion.
 */
module Lz4Format {
  import opened ByteSeq

  const MINMATCH := 4
  const LASTLITERALS := 5
  const MFLIMIT := 12
  const DISTANCE_MAX := 65535
  const RUN_MASK := 15
  const ML_MASK := 15

  /** Literal bytes, then a match of `mlen` bytes found `offset` bytes back. */
  datatype Sequence = Sequence(lits: seq<byte>, offset: nat, mlen: nat)

  /** A block ends in a run of literals; `tag` is the unused low half of its token. */
  datatype Block = Block(seqs: seq<Sequence>, last: seq<byte>, tag: nat)

  // ----- Meaning -------------------------------------------------------------------------------

  /** `w` followed by `n` bytes, each equal to the byte `off` positions before it.
      An offset of zero, which the format forbids, stands for zero bytes. */
  function CopyMatch(w: seq<byte>, off: nat, n: nat): (r: seq<byte>)
    ensures |r| == |w| + n
  {
    if n == 0 then w
    else
      var p := CopyMatch(w, off, n - 1);
      p + [if 1 <= off <= |p| then p[|p| - off] else 0]
  }

  function Size(seqs: seq<Sequence>): nat {
    if seqs == [] then 0
    else
      var s := seqs[|seqs| - 1];
      Size(seqs[..|seqs| - 1]) + |s.lits| + s.mlen
  }

  /** The window after decoding `seqs` on top of the window `w`. */
  function Expand(w: seq<byte>, seqs: seq<Sequence>): (r: seq<byte>)
    ensures |r| == |w| + Size(seqs)
  {
    if seqs == [] then w
    else
      var s := seqs[|seqs| - 1];
      CopyMatch(Expand(w, seqs[..|seqs| - 1]) + s.lits, s.offset, s.mlen)
  }

  function BlockSize(b: Block): nat {
    Size(b.seqs) + |b.last|
  }

  function ExpandBlock(w: seq<byte>, b: Block): (r: seq<byte>)
    ensures |r| == |w| + BlockSize(b)
  {
    Expand(w, b.seqs) + b.last
  }

  // ----- Parsing restrictions ------------------------------------------------------------------

  /** Every offset is 1..65535 and reaches no further back than the start of the history. */
  predicate OffsetsOk(h: nat, seqs: seq<Sequence>) {
    seqs == [] ||
    var s := seqs[|seqs| - 1];
    var front := seqs[..|seqs| - 1];
    && OffsetsOk(h, front)
    && 1 <= s.offset <= DISTANCE_MAX
    && s.offset <= h + Size(front) + |s.lits|
    && MINMATCH <= s.mlen
  }

  /** The last match starts at least 12 bytes before the end, and the last 5 bytes are literals. */
  predicate EndOk(b: Block) {
    b.seqs != [] ==>
      && LASTLITERALS <= |b.last|
      && MFLIMIT <= b.seqs[|b.seqs| - 1].mlen + |b.last|
  }

  predicate Conforming(h: nat, b: Block) {
    OffsetsOk(h, b.seqs) && EndOk(b) && b.tag < 16
  }

  /** The same without the rule that offsets are not zero, which no decoder enforces. */
  predicate Reaching(h: nat, seqs: seq<Sequence>) {
    seqs == [] ||
    var s := seqs[|seqs| - 1];
    var front := seqs[..|seqs| - 1];
    && Reaching(h, front)
    && s.offset <= DISTANCE_MAX
    && s.offset <= h + Size(front) + |s.lits|
    && MINMATCH <= s.mlen
  }

  predicate Fitting(h: nat, b: Block) {
    Reaching(h, b.seqs) && EndOk(b) && b.tag < 16
  }

  // ----- Bytes ---------------------------------------------------------------------------------

  /** The bytes that extend a length of which 15 is already in the token. */
  function Ext(n: nat): (r: seq<byte>)
    ensures |r| == n / 255 + 1
  {
    if n < 255 then [n] else [255] + Ext(n - 255)
  }

  function Nibble(n: nat): (r: nat)
    ensures r <= 15
  {
    if n < 15 then n else 15
  }

  function LenBytes(n: nat): seq<byte> {
    if n < 15 then [] else Ext(n - 15)
  }

  function Token(s: Sequence): byte
    requires MINMATCH <= s.mlen
  {
    16 * Nibble(|s.lits|) + Nibble(s.mlen - MINMATCH)
  }

  function LE16(n: nat): (r: seq<byte>)
    requires n < 65536
    ensures |r| == 2
  {
    [n % 256, n / 256]
  }

  function Serialize1(s: Sequence): seq<byte>
    requires s.offset < 65536 && MINMATCH <= s.mlen
  {
    [Token(s)] + LenBytes(|s.lits|) + s.lits + LE16(s.offset) + LenBytes(s.mlen - MINMATCH)
  }

  predicate Shaped(seqs: seq<Sequence>) {
    forall s :: s in seqs ==> s.offset < 65536 && MINMATCH <= s.mlen
  }

  function SerializeAll(seqs: seq<Sequence>): seq<byte>
    requires Shaped(seqs)
  {
    if seqs == [] then []
    else SerializeAll(seqs[..|seqs| - 1]) + Serialize1(seqs[|seqs| - 1])
  }

  function SerializeLast(last: seq<byte>, tag: nat): seq<byte>
    requires tag < 16
  {
    [16 * Nibble(|last|) + tag] + LenBytes(|last|) + last
  }

  function Serialize(b: Block): seq<byte>
    requires Shaped(b.seqs) && b.tag < 16
  {
    SerializeAll(b.seqs) + SerializeLast(b.last, b.tag)
  }

  // ----- Reading a block back, in the stages at which the decoder can be -----------------------

  function ReadLE16(src: seq<byte>, ip: nat): (r: nat)
    requires ip + 2 <= |src|
    ensures r < 65536
  {
    var lo: int, hi: int := src[ip], src[ip + 1];
    lo + 256 * hi
  }

  datatype Length = NoLength | Length(len: nat, ip: nat)

  function ReadLen(src: seq<byte>, ip: nat, acc: nat): (r: Length)
    ensures r.Length? ==> ip < r.ip <= |src| && acc <= r.len
    decreases |src| - ip
  {
    if ip >= |src| then NoLength
    else if src[ip] == 255 then ReadLen(src, ip + 1, acc + 255)
    else Length(acc + src[ip], ip + 1)
  }

  /** A length whose token half is `nib` and whose extension, if any, is at `ip`. */
  function LenFrom(src: seq<byte>, ip: nat, nib: nat): (r: Length)
    requires ip <= |src|
    ensures r.Length? ==> ip <= r.ip <= |src| && nib <= r.len
  {
    if nib == 15 then ReadLen(src, ip, 15) else Length(nib, ip)
  }

  datatype Parsed = Malformed | Parsed(block: Block)

  /** At a token, the sequences before it being `done`. */
  function ParseFrom(src: seq<byte>, ip: nat, done: seq<Sequence>): Parsed
    decreases |src| - ip, 3
  {
    if ip >= |src| then Malformed
    else
      match LenFrom(src, ip + 1, src[ip] / 16)
      case NoLength => Malformed
      case Length(ll, p) => ParseLits(src, p, ll, src[ip] % 16, done)
  }

  /** At the literals of a sequence. */
  function ParseLits(src: seq<byte>, ip: nat, ll: nat, nib: nat, done: seq<Sequence>): Parsed
    requires ip <= |src|
    decreases |src| - ip, 2
  {
    if ip + ll > |src| then Malformed
    else if ip + ll == |src| then Parsed(Block(done, src[ip..ip + ll], nib))
    else ParseOffset(src, ip + ll, nib, src[ip..ip + ll], done)
  }

  /** At the offset of a sequence. */
  function ParseOffset(src: seq<byte>, ip: nat, nib: nat, lits: seq<byte>, done: seq<Sequence>): Parsed
    requires ip <= |src|
    decreases |src| - ip, 1
  {
    if ip + 2 > |src| then Malformed
    else ParseMatch(src, ip + 2, nib, ReadLE16(src, ip), lits, done)
  }

  /** At the extension of the match length. */
  function ParseMatch(src: seq<byte>, ip: nat, nib: nat, off: nat, lits: seq<byte>, done: seq<Sequence>): Parsed
    requires ip <= |src|
    decreases |src| - ip, 4
  {
    match LenFrom(src, ip, nib)
    case NoLength => Malformed
    case Length(ml, q) => ParseFrom(src, q, done + [Sequence(lits, off, ml + MINMATCH)])
  }

  function Parse(src: seq<byte>): Parsed {
    ParseFrom(src, 0, [])
  }

  // ----- Facts about the meaning ---------------------------------------------------------------

  lemma SizeSnoc(done: seq<Sequence>, s: Sequence)
    ensures Size(done + [s]) == Size(done) + |s.lits| + s.mlen
  {
    assert (done + [s])[..|done|] == done;
  }

  lemma ExpandSnoc(w: seq<byte>, done: seq<Sequence>, s: Sequence)
    ensures Expand(w, done + [s]) == CopyMatch(Expand(w, done) + s.lits, s.offset, s.mlen)
  {
    assert (done + [s])[..|done|] == done;
  }

  lemma {:induction false} CopyMatchKeeps(w: seq<byte>, off: nat, n: nat)
    ensures CopyMatch(w, off, n)[..|w|] == w
  {
    if n > 0 {
      CopyMatchKeeps(w, off, n - 1);
    }
  }

  /** A match is determined by the window it keeps and the period it repeats. */
  lemma {:induction false} CopyMatchUnique(w: seq<byte>, off: nat, n: nat, r: seq<byte>)
    requires off <= |w|
    requires |r| == |w| + n && r[..|w|] == w
    requires forall i :: |w| <= i < |r| ==> r[i] == if off == 0 then 0 else r[i - off]
    ensures r == CopyMatch(w, off, n)
  {
    if n == 0 {
    } else {
      var front := r[..|r| - 1];
      assert front[..|w|] == w;
      CopyMatchUnique(w, off, n - 1, front);
      assert r == front + [r[|r| - 1]];
    }
  }

  /** A match is a byte by byte copy: what the simplest decoder would do. */
  lemma {:induction false} CopyMatchAt(w: seq<byte>, off: nat, n: nat, i: nat)
    requires 1 <= off <= |w| && |w| <= i < |w| + n
    ensures CopyMatch(w, off, n)[i] == CopyMatch(w, off, n)[i - off]
  {
    if i < |w| + n - 1 {
      CopyMatchAt(w, off, n - 1, i);
    }
  }

  lemma {:induction false} CopyMatchPrefix(w: seq<byte>, off: nat, a: nat, n: nat)
    requires a <= n
    ensures CopyMatch(w, off, a) == CopyMatch(w, off, n)[..|w| + a]
  {
    if a < n {
      CopyMatchPrefix(w, off, a, n - 1);
    }
  }

  lemma {:induction false} ExpandPrefix(w: seq<byte>, done: seq<Sequence>, seqs: seq<Sequence>)
    requires done <= seqs
    ensures |w| + Size(done) <= |w| + Size(seqs)
    ensures Expand(w, done) == Expand(w, seqs)[..|w| + Size(done)]
    decreases |seqs|
  {
    if |done| < |seqs| {
      var front := seqs[..|seqs| - 1];
      var s := seqs[|seqs| - 1];
      ExpandPrefix(w, done, front);
      CopyMatchKeeps(Expand(w, front) + s.lits, s.offset, s.mlen);
      var whole := Expand(w, seqs);
      assert whole[..|Expand(w, front) + s.lits|] == Expand(w, front) + s.lits;
      assert whole[..|w| + Size(front)] == Expand(w, front);
      assert whole[..|w| + Size(done)] == Expand(w, front)[..|w| + Size(done)];
    } else {
      assert done == seqs;
    }
  }

  lemma {:induction false} CopyMatchExtend(x: seq<byte>, w: seq<byte>, off: nat, n: nat)
    requires off <= |w|
    ensures CopyMatch(x + w, off, n) == x + CopyMatch(w, off, n)
  {
    if n > 0 {
      CopyMatchExtend(x, w, off, n - 1);
    }
  }

  /** Only the history the offsets reach matters: more history in front changes nothing. */
  lemma {:induction false} ExpandExtend(x: seq<byte>, w: seq<byte>, seqs: seq<Sequence>)
    requires OffsetsOk(|w|, seqs)
    ensures Expand(x + w, seqs) == x + Expand(w, seqs)
  {
    if seqs != [] {
      var front := seqs[..|seqs| - 1];
      var s := seqs[|seqs| - 1];
      ExpandExtend(x, w, front);
      assert (x + Expand(w, front)) + s.lits == x + (Expand(w, front) + s.lits);
      CopyMatchExtend(x, Expand(w, front) + s.lits, s.offset, s.mlen);
    }
  }

  /** A history that no offset can reach beyond is as good as any longer one, whatever the offsets are. */
  lemma {:induction false} ExpandExtendLong(x: seq<byte>, w: seq<byte>, seqs: seq<Sequence>)
    requires Shaped(seqs) && DISTANCE_MAX <= |w|
    ensures Expand(x + w, seqs) == x + Expand(w, seqs)
  {
    if seqs != [] {
      var front := seqs[..|seqs| - 1];
      var s := seqs[|seqs| - 1];
      assert s in seqs;
      ExpandExtendLong(x, w, front);
      assert (x + Expand(w, front)) + s.lits == x + (Expand(w, front) + s.lits);
      CopyMatchExtend(x, Expand(w, front) + s.lits, s.offset, s.mlen);
    }
  }

  lemma {:induction false} OffsetsOkMonotone(h: nat, h': nat, seqs: seq<Sequence>)
    requires h <= h' && OffsetsOk(h, seqs)
    ensures OffsetsOk(h', seqs)
  {
    if seqs != [] {
      OffsetsOkMonotone(h, h', seqs[..|seqs| - 1]);
    }
  }

  /** A block compressed against a history decodes the same against any longer history. */
  lemma BlockExtend(x: seq<byte>, w: seq<byte>, b: Block)
    requires Conforming(|w|, b)
    ensures Conforming(|x + w|, b)
    ensures ExpandBlock(x + w, b) == x + ExpandBlock(w, b)
  {
    ExpandExtend(x, w, b.seqs);
    OffsetsOkMonotone(|w|, |x + w|, b.seqs);
  }

  lemma {:induction false} OffsetsOkPrefix(h: nat, done: seq<Sequence>, seqs: seq<Sequence>)
    requires done <= seqs && OffsetsOk(h, seqs)
    ensures OffsetsOk(h, done)
    decreases |seqs|
  {
    if |done| < |seqs| {
      OffsetsOkPrefix(h, done, seqs[..|seqs| - 1]);
    } else {
      assert done == seqs;
    }
  }

  lemma {:induction false} SizeMonotone(done: seq<Sequence>, seqs: seq<Sequence>)
    requires done <= seqs
    ensures Size(done) <= Size(seqs)
    decreases |seqs|
  {
    if |done| < |seqs| {
      SizeMonotone(done, seqs[..|seqs| - 1]);
    } else {
      assert done == seqs;
    }
  }

  lemma {:induction false} ReachingPrefix(h: nat, done: seq<Sequence>, seqs: seq<Sequence>)
    requires done <= seqs && Reaching(h, seqs)
    ensures Reaching(h, done)
    decreases |seqs|
  {
    if |done| < |seqs| {
      ReachingPrefix(h, done, seqs[..|seqs| - 1]);
    } else {
      assert done == seqs;
    }
  }

  lemma {:induction false} OffsetsOkReach(h: nat, seqs: seq<Sequence>)
    requires OffsetsOk(h, seqs)
    ensures Reaching(h, seqs)
  {
    if seqs != [] {
      OffsetsOkReach(h, seqs[..|seqs| - 1]);
    }
  }

  lemma ConformingFits(h: nat, b: Block)
    requires Conforming(h, b)
    ensures Fitting(h, b)
  {
    OffsetsOkReach(h, b.seqs);
  }

  /** What the parsing restrictions mean for a sequence in the middle of a block. */
  lemma FittingAt(h: nat, b: Block, done: seq<Sequence>, s: Sequence)
    requires Fitting(h, b) && done + [s] <= b.seqs
    ensures s.offset <= DISTANCE_MAX && s.offset <= h + Size(done) + |s.lits|
    ensures MINMATCH <= s.mlen
    ensures Size(done) + |s.lits| + MFLIMIT <= BlockSize(b)
    ensures Size(done) + |s.lits| + s.mlen + LASTLITERALS <= BlockSize(b)
    ensures LASTLITERALS <= |b.last|
  {
    var front := b.seqs[..|b.seqs| - 1];
    var z := b.seqs[|b.seqs| - 1];
    SizeSnoc(done, s);
    ReachingPrefix(h, done + [s], b.seqs);
    assert (done + [s])[..|done|] == done;
    SizeMonotone(done + [s], b.seqs);
    if |done| + 1 < |b.seqs| {
      assert done + [s] <= front;
      SizeMonotone(done + [s], front);
      assert Size(b.seqs) == Size(front) + |z.lits| + z.mlen;
    } else {
      assert done + [s] == b.seqs;
    }
  }

  /** And in a conforming block, the offset is not zero. */
  lemma ConformingAt(h: nat, b: Block, done: seq<Sequence>, s: Sequence)
    requires Conforming(h, b) && done + [s] <= b.seqs
    ensures 1 <= s.offset <= DISTANCE_MAX && s.offset <= h + Size(done) + |s.lits|
    ensures MINMATCH <= s.mlen
    ensures Size(done) + |s.lits| + MFLIMIT <= BlockSize(b)
    ensures Size(done) + |s.lits| + s.mlen + LASTLITERALS <= BlockSize(b)
    ensures LASTLITERALS <= |b.last|
  {
    ConformingFits(h, b);
    FittingAt(h, b, done, s);
    OffsetsOkPrefix(h, done + [s], b.seqs);
  }

  // ----- Parsing and serialising are inverse ---------------------------------------------------

  lemma HoldsConcat5(src: seq<byte>, i: nat, a: seq<byte>, j: nat, b: seq<byte>, k: nat, c: seq<byte>,
                     l: nat, d: seq<byte>, m: nat, e: seq<byte>)
    requires j == i + |a| && k == j + |b| && l == k + |c| && m == l + |d|
    ensures HoldsAt(src, i, a + b + c + d + e) <==>
            HoldsAt(src, i, a) && HoldsAt(src, j, b) && HoldsAt(src, k, c) && HoldsAt(src, l, d) && HoldsAt(src, m, e)
  {
    HoldsConcat(src, i, a + b + c + d, e);
    HoldsConcat(src, i, a + b + c, d);
    HoldsConcat(src, i, a + b, c);
    HoldsConcat(src, i, a, b);
  }

  lemma {:induction false} ReadLenExt(src: seq<byte>, ip: nat, n: nat, acc: nat)
    requires HoldsAt(src, ip, Ext(n))
    ensures ReadLen(src, ip, acc) == Length(acc + n, ip + |Ext(n)|)
    decreases n
  {
    assert src[ip] == Ext(n)[0];
    if n >= 255 {
      HoldsConcat(src, ip, [255], Ext(n - 255));
      ReadLenExt(src, ip + 1, n - 255, acc + 255);
    }
  }

  lemma LenFromBytes(src: seq<byte>, ip: nat, n: nat)
    requires HoldsAt(src, ip, LenBytes(n))
    ensures LenFrom(src, ip, Nibble(n)) == Length(n, ip + |LenBytes(n)|)
  {
    if n >= 15 {
      ReadLenExt(src, ip, n - 15, 15);
    }
  }

  /** Where the five parts of a serialised sequence stand. */
  lemma Layout(src: seq<byte>, ip: nat, s: Sequence)
    requires s.offset < 65536 && MINMATCH <= s.mlen
    ensures HoldsAt(src, ip, Serialize1(s)) <==>
            var p := ip + 1 + |LenBytes(|s.lits|)|;
            && HoldsAt(src, ip, [Token(s)])
            && HoldsAt(src, ip + 1, LenBytes(|s.lits|))
            && HoldsAt(src, p, s.lits)
            && HoldsAt(src, p + |s.lits|, LE16(s.offset))
            && HoldsAt(src, p + |s.lits| + 2, LenBytes(s.mlen - MINMATCH))
    ensures |Serialize1(s)| == 3 + |LenBytes(|s.lits|)| + |s.lits| + |LenBytes(s.mlen - MINMATCH)|
  {
    hide HoldsAt, LenBytes;
    var p := ip + 1 + |LenBytes(|s.lits|)|;
    HoldsConcat5(src, ip, [Token(s)], ip + 1, LenBytes(|s.lits|), p, s.lits,
                 p + |s.lits|, LE16(s.offset), p + |s.lits| + 2, LenBytes(s.mlen - MINMATCH));
  }

  lemma HoldsLE16(src: seq<byte>, ip: nat, n: nat)
    requires n < 65536 && ip + 2 <= |src|
    ensures HoldsAt(src, ip, LE16(n)) <==> ReadLE16(src, ip) == n
  {
    var s := src[ip..ip + 2];
    assert s == [src[ip], src[ip + 1]];
    assert n == n % 256 + 256 * (n / 256);
  }

  lemma HoldsByte(src: seq<byte>, ip: nat, b: byte)
    requires ip < |src|
    ensures HoldsAt(src, ip, [b]) <==> src[ip] == b
  {
    assert src[ip..ip + 1] == [src[ip]];
  }

  lemma ParseStages(src: seq<byte>, ip: nat, done: seq<Sequence>, s: Sequence, p: nat, q: nat)
    requires MINMATCH <= s.mlen
    requires ip < |src| && LenFrom(src, ip + 1, src[ip] / 16) == Length(|s.lits|, p)
    requires HoldsAt(src, p, s.lits)
    requires p + |s.lits| + 2 <= |src| && ReadLE16(src, p + |s.lits|) == s.offset
    requires LenFrom(src, p + |s.lits| + 2, src[ip] % 16) == Length(s.mlen - MINMATCH, q)
    ensures ParseFrom(src, ip, done) == ParseFrom(src, q, done + [s])
  {
    var nib, at := src[ip] % 16, p + |s.lits|;
    assert src[p..at] == s.lits;
    assert ParseFrom(src, ip, done) == ParseLits(src, p, |s.lits|, nib, done);
    assert ParseLits(src, p, |s.lits|, nib, done) == ParseOffset(src, at, nib, s.lits, done);
    assert ParseOffset(src, at, nib, s.lits, done) == ParseMatch(src, at + 2, nib, s.offset, s.lits, done);
    assert Sequence(s.lits, s.offset, s.mlen - MINMATCH + MINMATCH) == s;
  }

  lemma TokenSplit(s: Sequence)
    requires MINMATCH <= s.mlen
    ensures Token(s) / 16 == Nibble(|s.lits|) && Token(s) % 16 == Nibble(s.mlen - MINMATCH)
  {
  }

  /** The five parts of `s` stand at `ip`, its literals at `p` and its end at `q`. */
  predicate PartsAt(src: seq<byte>, ip: nat, s: Sequence, p: nat, q: nat)
    requires s.offset < 65536 && MINMATCH <= s.mlen
  {
    && ip < |src| && src[ip] == Token(s)
    && p == ip + 1 + |LenBytes(|s.lits|)| && HoldsAt(src, ip + 1, LenBytes(|s.lits|))
    && HoldsAt(src, p, s.lits)
    && p + |s.lits| + 2 <= |src| && ReadLE16(src, p + |s.lits|) == s.offset
    && q == p + |s.lits| + 2 + |LenBytes(s.mlen - MINMATCH)|
    && HoldsAt(src, p + |s.lits| + 2, LenBytes(s.mlen - MINMATCH))
  }

  lemma BytesOfParts(src: seq<byte>, ip: nat, s: Sequence, p: nat, q: nat)
    requires s.offset < 65536 && MINMATCH <= s.mlen && PartsAt(src, ip, s, p, q)
    ensures HoldsAt(src, ip, Serialize1(s)) && q == ip + |Serialize1(s)|
  {
    hide HoldsAt, LenBytes, LE16, ReadLE16, Serialize1, Token;
    HoldsByte(src, ip, Token(s));
    HoldsLE16(src, p + |s.lits|, s.offset);
    Layout(src, ip, s);
  }

  lemma PartsOfBytes(src: seq<byte>, ip: nat, s: Sequence)
    requires s.offset < 65536 && MINMATCH <= s.mlen && HoldsAt(src, ip, Serialize1(s))
    ensures PartsAt(src, ip, s, ip + 1 + |LenBytes(|s.lits|)|, ip + |Serialize1(s)|)
  {
    Layout(src, ip, s);
    HoldsByte(src, ip, Token(s));
    HoldsLE16(src, ip + 1 + |LenBytes(|s.lits|)| + |s.lits|, s.offset);
  }

  lemma ParseParts(src: seq<byte>, ip: nat, s: Sequence, done: seq<Sequence>, p: nat, q: nat)
    requires s.offset < 65536 && MINMATCH <= s.mlen && PartsAt(src, ip, s, p, q)
    ensures ParseFrom(src, ip, done) == ParseFrom(src, q, done + [s])
  {
    hide HoldsAt, LenBytes, LenFrom;
    TokenSplit(s);
    LenFromBytes(src, ip + 1, |s.lits|);
    LenFromBytes(src, p + |s.lits| + 2, s.mlen - MINMATCH);
    ParseStages(src, ip, done, s, p, q);
  }

  lemma ParseStep(src: seq<byte>, ip: nat, s: Sequence, done: seq<Sequence>)
    requires s.offset < 65536 && MINMATCH <= s.mlen
    requires HoldsAt(src, ip, Serialize1(s))
    ensures ParseFrom(src, ip, done) == ParseFrom(src, ip + |Serialize1(s)|, done + [s])
  {
    hide *;
    var p, q := ip + 1 + |LenBytes(|s.lits|)|, ip + |Serialize1(s)|;
    PartsOfBytes(src, ip, s);
    ParseParts(src, ip, s, done, p, q);
  }

  lemma ParseLast(src: seq<byte>, ip: nat, last: seq<byte>, tag: nat, done: seq<Sequence>)
    requires tag < 16
    requires HoldsAt(src, ip, SerializeLast(last, tag)) && ip + |SerializeLast(last, tag)| == |src|
    ensures ParseFrom(src, ip, done) == Parsed(Block(done, last, tag))
  {
    hide HoldsAt, LenBytes, LenFrom, ParseFrom;
    var tok := 16 * Nibble(|last|) + tag;
    var p := ip + 1 + |LenBytes(|last|)|;
    HoldsConcat(src, ip, [tok] + LenBytes(|last|), last);
    HoldsConcat(src, ip, [tok], LenBytes(|last|));
    HoldsByte(src, ip, tok);
    LenFromBytes(src, ip + 1, |last|);
    assert tok / 16 == Nibble(|last|) && tok % 16 == tag;
    ParseLastParts(src, ip, last, tag, done, p);
  }

  lemma ParseLastParts(src: seq<byte>, ip: nat, last: seq<byte>, tag: nat, done: seq<Sequence>, p: nat)
    requires ip < |src| && LenFrom(src, ip + 1, src[ip] / 16) == Length(|last|, p) && src[ip] % 16 == tag
    requires HoldsAt(src, p, last) && p + |last| == |src|
    ensures ParseFrom(src, ip, done) == Parsed(Block(done, last, tag))
  {
    hide LenFrom, ParseOffset;
    assert ParseFrom(src, ip, done) == ParseLits(src, p, |last|, tag, done);
  }

  lemma {:induction false} ParseMany(src: seq<byte>, seqs: seq<Sequence>)
    requires Shaped(seqs) && HoldsAt(src, 0, SerializeAll(seqs))
    ensures Parse(src) == ParseFrom(src, |SerializeAll(seqs)|, seqs)
  {
    if seqs != [] {
      var front, s := seqs[..|seqs| - 1], seqs[|seqs| - 1];
      HoldsConcat(src, 0, SerializeAll(front), Serialize1(s));
      ParseMany(src, front);
      ParseStep(src, |SerializeAll(front)|, s, front);
      assert front + [s] == seqs;
    }
  }

  /** Reading back what was written gives the same block: the format is unambiguous. */
  lemma ParseSerialize(b: Block)
    requires Shaped(b.seqs) && b.tag < 16
    ensures Parse(Serialize(b)) == Parsed(b)
  {
    var src := Serialize(b);
    HoldsConcat(src, 0, SerializeAll(b.seqs), SerializeLast(b.last, b.tag));
    ParseMany(src, b.seqs);
    ParseLast(src, |SerializeAll(b.seqs)|, b.last, b.tag, b.seqs);
  }

  lemma {:induction false} ReadLenSound(src: seq<byte>, ip: nat, acc: nat)
    requires ReadLen(src, ip, acc).Length?
    ensures var Length(n, q) := ReadLen(src, ip, acc); src[ip..q] == Ext(n - acc)
    decreases |src| - ip
  {
    if src[ip] == 255 {
      ReadLenSound(src, ip + 1, acc + 255);
      var Length(n, q) := ReadLen(src, ip, acc);
      assert src[ip..q] == [255] + src[ip + 1..q];
    }
  }

  lemma LenFromSound(src: seq<byte>, ip: nat, nib: nat)
    requires ip <= |src| && nib < 16 && LenFrom(src, ip, nib).Length?
    ensures var Length(n, q) := LenFrom(src, ip, nib); src[ip..q] == LenBytes(n) && Nibble(n) == nib
  {
    if nib == 15 {
      ReadLenSound(src, ip, 15);
    }
  }

  lemma ShapedSnoc(done: seq<Sequence>, s: Sequence)
    requires Shaped(done) && s.offset < 65536 && MINMATCH <= s.mlen
    ensures Shaped(done + [s]) && SerializeAll(done + [s]) == SerializeAll(done) + Serialize1(s)
  {
    assert (done + [s])[..|done|] == done;
  }

  lemma ParseSoundParts(src: seq<byte>, ip: nat, s: Sequence, p: nat, q: nat)
    requires s.offset < 65536 && MINMATCH <= s.mlen
    requires ip < |src| && LenFrom(src, ip + 1, src[ip] / 16) == Length(|s.lits|, p)
    requires HoldsAt(src, p, s.lits)
    requires p + |s.lits| + 2 <= |src| && ReadLE16(src, p + |s.lits|) == s.offset
    requires LenFrom(src, p + |s.lits| + 2, src[ip] % 16) == Length(s.mlen - MINMATCH, q)
    ensures PartsAt(src, ip, s, p, q)
  {
    hide LenBytes, LenFrom, ReadLE16, HoldsAt;
    LenFromHolds(src, ip + 1, src[ip] / 16);
    LenFromHolds(src, p + |s.lits| + 2, src[ip] % 16);
  }

  lemma LenFromHolds(src: seq<byte>, ip: nat, nib: nat)
    requires ip <= |src| && nib < 16 && LenFrom(src, ip, nib).Length?
    ensures var Length(n, q) := LenFrom(src, ip, nib);
            HoldsAt(src, ip, LenBytes(n)) && q == ip + |LenBytes(n)| && Nibble(n) == nib
  {
    LenFromSound(src, ip, nib);
  }

  lemma ParseSoundNext(src: seq<byte>, ip: nat, done: seq<Sequence>, s: Sequence, p: nat, q: nat)
    requires s.offset < 65536 && MINMATCH <= s.mlen && PartsAt(src, ip, s, p, q) && q <= |src|
    requires Shaped(done) && src[..ip] == SerializeAll(done)
    ensures Shaped(done + [s]) && src[..q] == SerializeAll(done + [s])
  {
    hide PartsAt, Serialize1, SerializeAll, Shaped;
    BytesOfParts(src, ip, s, p, q);
    ShapedSnoc(done, s);
    assert src[..q] == src[..ip] + src[ip..q];
  }

  /** `src` is the serialisation of the block `r` was parsed to. */
  ghost predicate Faithful(src: seq<byte>, r: Parsed) {
    r.Parsed? ==> Shaped(r.block.seqs) && r.block.tag < 16 && src == Serialize(r.block)
  }

  lemma {:induction false} ParseSoundFrom(src: seq<byte>, ip: nat, done: seq<Sequence>)
    requires ip <= |src| && Shaped(done) && src[..ip] == SerializeAll(done)
    ensures Faithful(src, ParseFrom(src, ip, done))
    decreases |src| - ip
  {
    if ParseFrom(src, ip, done).Parsed? {
      var last, s, p, q := ParseCases(src, ip, done);
      if last {
        ParseSoundLast(src, ip, done, p);
      } else {
        ParseSoundNext(src, ip, done, s, p, q);
        ParseSoundFrom(src, q, done + [s]);
      }
    }
  }

  lemma ParseCases(src: seq<byte>, ip: nat, done: seq<Sequence>) returns (last: bool, s: Sequence, p: nat, q: nat)
    requires ParseFrom(src, ip, done).Parsed?
    ensures ip < |src| && p <= |src|
    ensures last ==> LenFrom(src, ip + 1, src[ip] / 16) == Length(|src| - p, p)
    ensures last ==> ParseFrom(src, ip, done) == Parsed(Block(done, src[p..], src[ip] % 16))
    ensures !last ==> s.offset < 65536 && MINMATCH <= s.mlen && PartsAt(src, ip, s, p, q) && ip < q <= |src|
    ensures !last ==> ParseFrom(src, ip, done) == ParseFrom(src, q, done + [s])
  {
    var Length(ll, p') := LenFrom(src, ip + 1, src[ip] / 16);
    p := p';
    last := p + ll == |src|;
    assert ParseFrom(src, ip, done) == ParseLits(src, p, ll, src[ip] % 16, done);
    if last {
      s, q := Sequence([], 0, 4), 0;
      assert src[p..p + ll] == src[p..];
    } else {
      s, q := ParseFromNext(src, ip, done, ll, p);
      ParseSoundParts(src, ip, s, p, q);
    }
  }

  lemma SerializeLastAt(src: seq<byte>, ip: nat, p: nat)
    requires ip < |src| && p <= |src| && LenFrom(src, ip + 1, src[ip] / 16) == Length(|src| - p, p)
    ensures src[ip..] == SerializeLast(src[p..], src[ip] % 16)
  {
    LenFromSound(src, ip + 1, src[ip] / 16);
    assert src[ip..] == [src[ip]] + src[ip + 1..p] + src[p..];
  }

  lemma ParseSoundLast(src: seq<byte>, ip: nat, done: seq<Sequence>, p: nat)
    requires ip < |src| && p <= |src| && LenFrom(src, ip + 1, src[ip] / 16) == Length(|src| - p, p)
    requires Shaped(done) && src[..ip] == SerializeAll(done)
    ensures src == Serialize(Block(done, src[p..], src[ip] % 16))
  {
    SerializeLastAt(src, ip, p);
    assert src == src[..ip] + src[ip..];
  }

  /** One more sequence of a block that parses and does not end here. */
  lemma ParseFromNext(src: seq<byte>, ip: nat, done: seq<Sequence>, ll: nat, p: nat) returns (s: Sequence, q: nat)
    requires ip < |src| && LenFrom(src, ip + 1, src[ip] / 16) == Length(ll, p) && p + ll != |src|
    requires ParseFrom(src, ip, done).Parsed?
    ensures s.offset < 65536 && MINMATCH <= s.mlen && |s.lits| == ll && ip < q <= |src|
    ensures HoldsAt(src, p, s.lits)
    ensures p + |s.lits| + 2 <= |src| && ReadLE16(src, p + |s.lits|) == s.offset
    ensures LenFrom(src, p + |s.lits| + 2, src[ip] % 16) == Length(s.mlen - MINMATCH, q)
    ensures ParseFrom(src, ip, done) == ParseFrom(src, q, done + [s])
  {
    var nib := src[ip] % 16;
    assert ParseFrom(src, ip, done) == ParseLits(src, p, ll, nib, done);
    var lits, at := src[p..p + ll], p + ll;
    assert ParseLits(src, p, ll, nib, done) == ParseOffset(src, at, nib, lits, done);
    var off := ReadLE16(src, at);
    assert ParseOffset(src, at, nib, lits, done) == ParseMatch(src, at + 2, nib, off, lits, done);
    var Length(ml, q') := LenFrom(src, at + 2, nib);
    s, q := Sequence(lits, off, ml + MINMATCH), q';
  }

  lemma {:induction false} ParseKeepsDone(src: seq<byte>, ip: nat, done: seq<Sequence>)
    requires ParseFrom(src, ip, done).Parsed?
    ensures var b := ParseFrom(src, ip, done).block; done <= b.seqs && ip + 1 + |b.last| <= |src| && b.tag < 16
    decreases |src| - ip
  {
    var Length(ll, p) := LenFrom(src, ip + 1, src[ip] / 16);
    assert ParseFrom(src, ip, done) == ParseLits(src, p, ll, src[ip] % 16, done);
    if p + ll != |src| {
      var s, q := ParseFromNext(src, ip, done, ll, p);
      ParseKeepsDone(src, q, done + [s]);
    }
  }

  /** Whatever parses is the serialisation of what it parses to. */
  lemma ParseSound(src: seq<byte>)
    requires Parse(src).Parsed?
    ensures var b := Parse(src).block; Shaped(b.seqs) && b.tag < 16 && src == Serialize(b)
  {
    ParseSoundFrom(src, 0, []);
  }

  /** `out` is a conforming block that, after the history `hist`, stands for `data`. */
  ghost predicate Encodes(out: seq<byte>, hist: seq<byte>, data: seq<byte>) {
    var p := Parse(out);
    p.Parsed? && p.block.tag == 0 && Conforming(|hist|, p.block) && ExpandBlock(hist, p.block) == hist + data
  }
}

/**
 The states of the block decoder `LZ4_decompress_generic`, and what holds in each of them.

 The decoder is one function whose two loops are joined by gotos. Its program points are the
 constructors of `Pc`; `Good` is the invariant at each point: the bytes read so far are the sequences
 `done`, the bytes written so far are their expansion over the history, and nothing outside the
 output buffer has changed.
 */
module Lz4DecodeState {
  import opened ByteSeq
  import opened Lz4Format
  import opened Lz4Cut

  datatype DictMode = NoDict | WithPrefix64k | UsingExtDict

  /** The arguments of a decoding. The output buffer is `dst..oend` of some memory; history precedes
      it from `lowPrefix` on, and may continue to the left in a separate dictionary. */
  datatype Env = Env(
    src: seq<byte>, dst: nat, oend: nat, partial: bool,
    mode: DictMode, lowPrefix: int, dict: seq<byte>, aarch64: bool)

  predicate ValidEnv(e: Env) {
    && e.dst <= e.oend
    && match e.mode
       case NoDict => 0 <= e.lowPrefix <= e.dst && e.dict == []
       case WithPrefix64k => e.lowPrefix == e.dst - 65536 && 65535 <= e.dst && e.dict == []
       case UsingExtDict => 0 <= e.lowPrefix <= e.dst
  }

  /** The first position of memory that counts as history: in 64 KB prefix mode, the farthest an
      offset can reach. */
  function Low(e: Env): (r: nat)
    requires ValidEnv(e)
    ensures r <= e.dst
  {
    if e.mode == WithPrefix64k then e.dst - 65535 else e.lowPrefix
  }

  function History(e: Env, m: seq<byte>): (r: seq<byte>)
    requires ValidEnv(e) && e.oend <= |m|
    ensures |r| == |e.dict| + e.dst - Low(e)
  {
    e.dict + m[Low(e)..e.dst]
  }

  function Window(e: Env, m: seq<byte>, op: nat): (r: seq<byte>)
    requires ValidEnv(e) && e.dst <= op <= |m|
    ensures |r| == |e.dict| + op - Low(e)
  {
    e.dict + m[Low(e)..op]
  }

  /** A block that fits. A full decoding does not mind offsets that are zero; what a partial one does with
      them is not specified. An empty block, decoded into an empty buffer, has token zero. */
  ghost predicate Acceptable(e: Env, h: nat) {
    var p := Parse(e.src);
    && p.Parsed? && Fitting(h, p.block) && (e.partial ==> Conforming(h, p.block))
    && (e.partial || BlockSize(p.block) <= e.oend - e.dst)
    && (e.partial || e.dst < e.oend || p.block.tag == 0)
  }

  /** A full decoding is right about every block that it accepts; a partial one, about conforming blocks. */
  ghost predicate Claim(e: Env, h: nat) {
    e.partial ==> Acceptable(e, h)
  }

  datatype Pc =
    | Head                                  // at a token
    | LitEarly(token: byte)                 // safe_literal_copy_early: the token is read
    | LitCopy(token: byte, length: nat)     // safe_literal_copy: the literal length is read
    | AtOffset(token: byte)                 // the literals are copied
    | AtMatch(token: byte, offset: nat)     // _copy_match: the offset is read
    | MatchCopy(offset: nat, length: nat)   // safe_match_copy: the match length is read
    | Done
    | Error

  /** What has been read: whole sequences, then the literals of the current one. `cut` marks a
      partial decoding whose output is full in the middle of a match. */
  datatype Trace = Trace(done: seq<Sequence>, lits: seq<byte>, cut: bool)

  predicate Bounds(e: Env, pc: Pc, ip: nat, op: nat) {
    && e.dst <= op <= e.oend && ip <= |e.src|
    && match pc
       case Head => ip < |e.src|
       case LitEarly(token) => 1 <= ip && e.src[ip - 1] == token
       case LitCopy(token, length) => true
       case AtOffset(token) => ip + 2 < |e.src| && (e.partial || op + MFLIMIT <= e.oend)
       case AtMatch(token, offset) => ip < |e.src| && offset < 65536 && (e.partial || op + MFLIMIT <= e.oend)
       case MatchCopy(offset, length) =>
         ip < |e.src| && offset < 65536 && MINMATCH <= length && (e.partial || op + MFLIMIT <= e.oend)
       case Done => true
       case Error => true
  }

  predicate Frame(e: Env, m0: seq<byte>, m: seq<byte>) {
    && |m| == |m0| && e.oend <= |m|
    && (forall i :: 0 <= i < |m| && (i < e.dst || e.oend <= i) ==> m[i] == m0[i])
  }

  /** The window is `full`, or as much of it as fits when the output is full. */
  ghost predicate OutIs(e: Env, m: seq<byte>, op: nat, full: seq<byte>, cut: bool)
    requires ValidEnv(e) && e.dst <= op <= |m|
  {
    var w := Window(e, m, op);
    if cut then e.partial && op == e.oend && |w| <= |full| && w == full[..|w|]
    else w == full
  }

  ghost predicate Content(e: Env, hist: seq<byte>, m: seq<byte>, pc: Pc, ip: nat, op: nat, g: Trace)
    requires ValidEnv(e) && e.oend <= |m| && Bounds(e, pc, ip, op)
  {
    var p := Parse(e.src);
    var w := Expand(hist, g.done);
    match pc
    case Head => ParseFrom(e.src, ip, g.done) == p && OutIs(e, m, op, w, g.cut)
    case LitEarly(token) => ParseFrom(e.src, ip - 1, g.done) == p && OutIs(e, m, op, w, g.cut)
    case LitCopy(token, length) => ParseLits(e.src, ip, length, token % 16, g.done) == p && OutIs(e, m, op, w, g.cut)
    case AtOffset(token) =>
      !g.cut && ParseOffset(e.src, ip, token % 16, g.lits, g.done) == p && OutIs(e, m, op, w + g.lits, false)
    case AtMatch(token, offset) =>
      !g.cut && ParseMatch(e.src, ip, token % 16, offset, g.lits, g.done) == p && OutIs(e, m, op, w + g.lits, false)
    case MatchCopy(offset, length) =>
      && !g.cut && ParseFrom(e.src, ip, g.done + [Sequence(g.lits, offset, length)]) == p
      && OutIs(e, m, op, w + g.lits, false)
    case Done => p.Parsed? && OutIs(e, m, op, ExpandBlock(hist, p.block), e.partial && op == e.oend)
    case Error => true
  }

  /** What can be read of the input, which may be cut off, has offsets that lead into the history. */
  ghost predicate Cutable(e: Env, h: nat) {
    e.partial && OffsetsOk(h, Cut(e.src).seqs)
  }

  /** The same as `Content`, for a partial decoding of input that may be cut off. */
  ghost predicate CutContent(e: Env, hist: seq<byte>, m: seq<byte>, pc: Pc, ip: nat, op: nat, g: Trace)
    requires ValidEnv(e) && e.oend <= |m| && Bounds(e, pc, ip, op)
  {
    var b := Cut(e.src);
    var w := Expand(hist, g.done);
    match pc
    case Head => CutFrom(e.src, ip, g.done) == b && OutIs(e, m, op, w, g.cut)
    case LitEarly(token) => CutFrom(e.src, ip - 1, g.done) == b && OutIs(e, m, op, w, g.cut)
    case LitCopy(token, length) => CutLits(e.src, ip, length, token % 16, g.done) == b && OutIs(e, m, op, w, g.cut)
    case AtOffset(token) =>
      !g.cut && CutOffset(e.src, ip, token % 16, g.lits, g.done) == b && OutIs(e, m, op, w + g.lits, false)
    case AtMatch(token, offset) =>
      !g.cut && CutMatch(e.src, ip, token % 16, offset, g.lits, g.done) == b && OutIs(e, m, op, w + g.lits, false)
    case MatchCopy(offset, length) =>
      && !g.cut && CutFrom(e.src, ip, g.done + [Sequence(g.lits, offset, length)]) == b
      && OutIs(e, m, op, w + g.lits, false)
    case Done => OutIs(e, m, op, ExpandBlock(hist, b), op == e.oend)
    case Error => true
  }

  ghost predicate Good(e: Env, m0: seq<byte>, m: seq<byte>, pc: Pc, ip: nat, op: nat, g: Trace) {
    && ValidEnv(e) && e.oend <= |m| && Frame(e, m0, m) && Bounds(e, pc, ip, op)
    && (Claim(e, |History(e, m0)|) ==> Content(e, History(e, m0), m, pc, ip, op, g))
    && (Cutable(e, |History(e, m0)|) ==> CutContent(e, History(e, m0), m, pc, ip, op, g))
    && (pc == Error ==> !Acceptable(e, |History(e, m0)|))
  }

  lemma Fail(e: Env, m0: seq<byte>, m: seq<byte>, pc: Pc, ip: nat, op: nat, g: Trace, ip': nat)
    requires Good(e, m0, m, pc, ip, op, g) && !Acceptable(e, |History(e, m0)|) && ip' <= |e.src|
    ensures Good(e, m0, m, Error, ip', op, g)
  {
  }

  /** `m'` is `m` with some bytes of the output from `op` on changed. */
  predicate WritesOnly(e: Env, op: nat, m: seq<byte>, m': seq<byte>) {
    |m'| == |m| && forall i :: 0 <= i < |m| && (i < op || e.oend <= i) ==> m'[i] == m[i]
  }

  lemma FrameKept(e: Env, m0: seq<byte>, m: seq<byte>, m': seq<byte>, op: nat)
    requires ValidEnv(e) && Frame(e, m0, m) && e.dst <= op <= e.oend && WritesOnly(e, op, m, m')
    ensures Frame(e, m0, m') && Window(e, m', op) == Window(e, m, op)
  {
    assert m'[Low(e)..op] == m[Low(e)..op];
  }

  // ----- Reading the token and the literals ----------------------------------------------------

  lemma TokenRead(e: Env, m0: seq<byte>, m: seq<byte>, ip: nat, op: nat, g: Trace)
    requires Good(e, m0, m, Head, ip, op, g)
    ensures Good(e, m0, m, LitEarly(e.src[ip]), ip + 1, op, g)
  {
  }

  lemma LitLengthRead(e: Env, m0: seq<byte>, m: seq<byte>, token: byte, ip: nat, op: nat, g: Trace, length: nat,
                      ip': nat)
    requires Good(e, m0, m, LitEarly(token), ip, op, g)
    requires LenFrom(e.src, ip, token / 16) == Length(length, ip')
    ensures Good(e, m0, m, LitCopy(token, length), ip', op, g)
  {
    hide OutIs, Expand, Acceptable;
  }

  /** An acceptable block has room for its literals, in the input and in the output. */
  lemma AcceptableLits(e: Env, m0: seq<byte>, m: seq<byte>, token: byte, length: nat, ip: nat, op: nat, g: Trace)
    requires Good(e, m0, m, LitCopy(token, length), ip, op, g) && Acceptable(e, |History(e, m0)|)
    ensures ip + length <= |e.src|
    ensures ip + length < |e.src| ==> ip + length + 8 <= |e.src|
    ensures !e.partial && ip + length < |e.src| ==> op + length + MFLIMIT <= e.oend
    ensures !e.partial && ip + length == |e.src| ==> op + length <= e.oend
  {
    hide Expand, Conforming, Fitting;
    var h := |History(e, m0)|;
    var b := Parse(e.src).block;
    assert ParseLits(e.src, ip, length, token % 16, g.done) == Parsed(b);
    if ip + length < |e.src| {
      var lits, at := e.src[ip..ip + length], ip + length;
      assert ParseOffset(e.src, at, token % 16, lits, g.done) == Parsed(b);
      var s, q := SequenceAhead(e.src, at, token % 16, lits, g.done);
      ParseKeepsDone(e.src, q, g.done + [s]);
      FittingAt(h, b, g.done, s);
    } else if ip + length == |e.src| {
      assert b.seqs == g.done && |b.last| == length;
    }
  }

  lemma LitLengthError(e: Env, m0: seq<byte>, m: seq<byte>, token: byte, ip: nat, op: nat, g: Trace)
    requires Good(e, m0, m, LitEarly(token), ip, op, g)
    requires var r := LenFrom(e.src, ip, token / 16); r.NoLength? || r.ip > |e.src| - 15
    requires token / 16 == 15
    ensures !Acceptable(e, |History(e, m0)|)
  {
    hide Expand, Conforming, Fitting;
    var r := LenFrom(e.src, ip, token / 16);
    if Acceptable(e, |History(e, m0)|) && r.Length? {
      LitLengthRead(e, m0, m, token, ip, op, g, r.len, r.ip);
      AcceptableLits(e, m0, m, token, r.len, r.ip, op, g);
    }
  }

  /** The literals are in place and more input follows. */
  lemma LitsCopied(e: Env, m0: seq<byte>, m: seq<byte>, m': seq<byte>, token: byte, length: nat, ip: nat, op: nat,
                   g: Trace)
    requires Good(e, m0, m, LitCopy(token, length), ip, op, g) && WritesOnly(e, op, m, m')
    requires ip + length + 2 < |e.src| && op + length < e.oend && (e.partial || op + length + MFLIMIT <= e.oend)
    requires length > 0 ==> op < e.oend
    requires m'[op..op + length] == e.src[ip..ip + length]
    ensures Good(e, m0, m', AtOffset(token), ip + length, op + length, g.(lits := e.src[ip..ip + length]))
  {
    hide Expand, Acceptable, ParseOffset;
    FrameKept(e, m0, m, m', op);
    assert Window(e, m', op + length) == Window(e, m', op) + m'[op..op + length];
  }

  /** The last literals of a block: the whole input is used. */
  lemma LastLitsCopied(e: Env, m0: seq<byte>, m: seq<byte>, m': seq<byte>, token: byte, length: nat, ip: nat, op: nat,
                       g: Trace)
    requires Good(e, m0, m, LitCopy(token, length), ip, op, g) && WritesOnly(e, op, m, m')
    requires !e.partial && ip + length == |e.src| && op + length <= e.oend
    requires m'[op..op + length] == e.src[ip..ip + length]
    ensures Good(e, m0, m', Done, ip + length, op + length, g)
  {
    hide Expand, Acceptable;
    FrameKept(e, m0, m, m', op);
    assert Window(e, m', op + length) == Window(e, m', op) + m'[op..op + length];
  }

  /** A partial decoding that ends in literals: the output is full, or the input is used up. */
  lemma PartialLitsCopied(e: Env, m0: seq<byte>, m: seq<byte>, m': seq<byte>, token: byte, length: nat, n: nat,
                          ip: nat, op: nat, g: Trace)
    requires Good(e, m0, m, LitCopy(token, length), ip, op, g) && WritesOnly(e, op, m, m')
    requires e.partial && n <= length && ip + n <= |e.src| && op + n <= e.oend
    requires n == length || ip + n == |e.src| || op + n == e.oend
    requires op + n == e.oend || ip + n >= |e.src| - 2
    requires m'[op..op + n] == e.src[ip..ip + n]
    ensures Good(e, m0, m', Done, ip + n, op + n, g)
  {
    hide Content, CutContent, Cutable, Claim, Acceptable;
    FrameKept(e, m0, m, m', op);
    if Claim(e, |History(e, m0)|) {
      PartialClaim(e, |History(e, m0)|);
      AcceptableLits(e, m0, m, token, length, ip, op, g);
      PartialLitsContent(e, m0, m, m', token, length, n, ip, op, g);
    }
    if Cutable(e, |History(e, m0)|) {
      PartialLitsCut(e, m0, m, m', token, length, n, ip, op, g);
    }
  }

  lemma PartialClaim(e: Env, h: nat)
    requires e.partial && Claim(e, h)
    ensures Acceptable(e, h)
  {
  }

  lemma PartialLitsCut(e: Env, m0: seq<byte>, m: seq<byte>, m': seq<byte>, token: byte, length: nat, n: nat,
                       ip: nat, op: nat, g: Trace)
    requires Good(e, m0, m, LitCopy(token, length), ip, op, g) && WritesOnly(e, op, m, m')
    requires Cutable(e, |History(e, m0)|) && n <= length && ip + n <= |e.src| && op + n <= e.oend
    requires n == length || ip + n == |e.src| || op + n == e.oend
    requires op + n == e.oend || ip + n >= |e.src| - 2
    requires m'[op..op + n] == e.src[ip..ip + n]
    ensures CutContent(e, History(e, m0), m', Done, ip + n, op + n, g)
  {
    hide Expand, Content, OffsetsOk, CutLits, CutFrom, OutIs;
    FrameKept(e, m0, m, m', op);
    var hist, b := History(e, m0), Cut(e.src);
    var there := e.src[ip..if ip + length <= |e.src| then ip + length else |e.src|];
    assert e.src[ip..ip + n] == there[..n];
    CutWholeAhead(e.src, hist, ip, length, token % 16, g.done, there);
    PartialLitsOut(e, m, m', Expand(hist, g.done), ExpandBlock(hist, b), there, n, op, g.cut);
  }

  lemma PartialLitsContent(e: Env, m0: seq<byte>, m: seq<byte>, m': seq<byte>, token: byte, length: nat, n: nat,
                           ip: nat, op: nat, g: Trace)
    requires Good(e, m0, m, LitCopy(token, length), ip, op, g) && WritesOnly(e, op, m, m')
    requires e.partial && Acceptable(e, |History(e, m0)|)
    requires n <= length && ip + length <= |e.src| && op + n <= e.oend
    requires n == length || op + n == e.oend
    requires op + n == e.oend || ip + n == |e.src|
    requires m'[op..op + n] == e.src[ip..ip + n]
    ensures Content(e, History(e, m0), m', Done, ip + n, op + n, g)
  {
    hide Expand, Conforming, Fitting, ParseLits, OutIs;
    FrameKept(e, m0, m, m', op);
    var hist, b := History(e, m0), Parse(e.src).block;
    WholeAhead(e.src, hist, ip, length, token % 16, g.done);
    PartialLitsOut(e, m, m', Expand(hist, g.done), ExpandBlock(hist, b), e.src[ip..ip + length], n, op, g.cut);
  }

  lemma PartialLitsOut(e: Env, m: seq<byte>, m': seq<byte>, w: seq<byte>, full: seq<byte>, lits: seq<byte>, n: nat,
                       op: nat, cut: bool)
    requires ValidEnv(e) && e.dst <= op <= op + n <= e.oend <= |m| && |m'| == |m|
    requires e.partial && OutIs(e, m, op, w, cut) && Window(e, m', op) == Window(e, m, op)
    requires |w + lits| <= |full| && full[..|w + lits|] == w + lits
    requires n <= |lits| && m'[op..op + n] == lits[..n]
    requires op + n == e.oend || (n == |lits| && |full| == |w + lits|)
    ensures OutIs(e, m', op + n, full, op + n == e.oend)
  {
    assert Window(e, m', op + n) == Window(e, m', op) + m'[op..op + n];
    if cut {
      assert n == 0;
      PrefixOfPrefix(full, w + lits, w, |Window(e, m', op)|);
    } else {
      PrefixOfPrefix(full, w + lits, w + lits, |w| + n);
      assert (w + lits)[..|w| + n] == w + lits[..n];
      assert full[..|full|] == full;
    }
  }

  // ----- Reading the offset and the match ------------------------------------------------------

  lemma OffsetRead(e: Env, m0: seq<byte>, m: seq<byte>, token: byte, ip: nat, op: nat, g: Trace)
    requires Good(e, m0, m, AtOffset(token), ip, op, g)
    ensures Good(e, m0, m, AtMatch(token, ReadLE16(e.src, ip)), ip + 2, op, g)
  {
    hide OutIs, Expand, Acceptable;
  }

  lemma MatchLengthRead(e: Env, m0: seq<byte>, m: seq<byte>, token: byte, offset: nat, ip: nat, op: nat, g: Trace,
                        ml: nat, ip': nat)
    requires Good(e, m0, m, AtMatch(token, offset), ip, op, g)
    requires LenFrom(e.src, ip, token % 16) == Length(ml, ip') && ip' < |e.src|
    ensures Good(e, m0, m, MatchCopy(offset, ml + MINMATCH), ip', op, g)
  {
    hide OutIs, Expand, Acceptable;
  }

  /** After an acceptable match, a token and 5 literals remain in the input. */
  lemma MatchLengthError(e: Env, m0: seq<byte>, m: seq<byte>, token: byte, offset: nat, ip: nat, op: nat, g: Trace)
    requires Good(e, m0, m, AtMatch(token, offset), ip, op, g)
    requires var r := LenFrom(e.src, ip, token % 16); r.NoLength? || r.ip > |e.src| - 6
    ensures !Acceptable(e, |History(e, m0)|)
  {
    hide Expand, Conforming, Fitting;
    var r := LenFrom(e.src, ip, token % 16);
    var h := |History(e, m0)|;
    if Acceptable(e, h) {
      var b := Parse(e.src).block;
      assert ParseMatch(e.src, ip, token % 16, offset, g.lits, g.done) == Parsed(b);
      var s := Sequence(g.lits, offset, r.len + MINMATCH);
      ParseKeepsDone(e.src, r.ip, g.done + [s]);
      FittingAt(h, b, g.done, s);
    }
  }

  lemma AcceptableMatch(e: Env, m0: seq<byte>, m: seq<byte>, offset: nat, length: nat, ip: nat, op: nat, g: Trace)
    requires Good(e, m0, m, MatchCopy(offset, length), ip, op, g) && Acceptable(e, |History(e, m0)|)
    ensures offset <= |e.dict| + op - Low(e) && (e.partial ==> 1 <= offset)
    ensures !e.partial ==> op + length + LASTLITERALS <= e.oend
    ensures Size(g.done) + |g.lits| == op - e.dst
    ensures g.done + [Sequence(g.lits, offset, length)] <= Parse(e.src).block.seqs
  {
    hide Expand, Conforming, Fitting;
    var b := Parse(e.src).block;
    var s := Sequence(g.lits, offset, length);
    ParseKeepsDone(e.src, ip, g.done + [s]);
    FittingAt(|History(e, m0)|, b, g.done, s);
    if e.partial {
      ConformingAt(|History(e, m0)|, b, g.done, s);
    }
  }

  lemma CutableMatch(e: Env, m0: seq<byte>, m: seq<byte>, offset: nat, length: nat, ip: nat, op: nat, g: Trace)
    requires Good(e, m0, m, MatchCopy(offset, length), ip, op, g) && Cutable(e, |History(e, m0)|)
    ensures 1 <= offset && g.done + [Sequence(g.lits, offset, length)] <= Cut(e.src).seqs
  {
    hide Expand, Content, OutIs;
    var s := Sequence(g.lits, offset, length);
    CutKeepsDone(e.src, ip, g.done + [s]);
    OffsetsOkPrefix(|History(e, m0)|, g.done + [s], Cut(e.src).seqs);
    assert (g.done + [s])[|g.done + [s]| - 1] == s;
  }

  /** The byte `off` positions before position `i` of the output, in the prefix or the dictionary. */
  function MatchByte(e: Env, m: seq<byte>, off: nat, i: nat): byte
    requires ValidEnv(e) && e.dst <= i < |m| && off <= |e.dict| + i - Low(e)
  {
    if off == 0 then 0
    else if Low(e) <= i - off then m[i - off]
    else e.dict[|e.dict| - (Low(e) - (i - off))]
  }

  /** The bytes from `op` on are those of a match. */
  predicate MatchBytes(e: Env, m: seq<byte>, op: nat, n: nat, off: nat)
    requires ValidEnv(e) && e.dst <= op && op + n <= |m|
  {
    && off <= |e.dict| + op - Low(e)
    && forall i {:trigger m[i]} :: op <= i < op + n ==> m[i] == MatchByte(e, m, off, i)
  }

  lemma MatchOut(e: Env, m: seq<byte>, m': seq<byte>, w: seq<byte>, off: nat, n: nat, op: nat)
    requires ValidEnv(e) && e.dst <= op <= op + n <= e.oend <= |m| && |m'| == |m|
    requires Window(e, m', op) == Window(e, m, op) == w && MatchBytes(e, m', op, n, off)
    ensures Window(e, m', op + n) == CopyMatch(w, off, n)
  {
    var r := Window(e, m', op + n);
    var lo, x := Low(e), m'[Low(e)..op + n];
    assert x[..op - lo] == m'[lo..op];
    assert r[..|w|] == w;
    forall i | |w| <= i < |r|
      ensures r[i] == if off == 0 then 0 else r[i - off]
    {
      var j := i - |e.dict| + lo;
      assert r[i] == x[j - lo] == m'[j];
      if off > 0 {
        if lo <= j - off {
          assert r[i - off] == x[j - off - lo] == m'[j - off];
        } else {
          assert r[i - off] == e.dict[i - off];
        }
      }
    }
    CopyMatchUnique(w, off, n, r);
  }

  lemma MatchCopied(e: Env, m0: seq<byte>, m: seq<byte>, m': seq<byte>, offset: nat, length: nat,
                    ip: nat, op: nat, g: Trace)
    requires Good(e, m0, m, MatchCopy(offset, length), ip, op, g) && WritesOnly(e, op, m, m')
    requires op + length <= e.oend
    requires MatchBytes(e, m', op, length, offset) || (e.partial && offset == 0)
    ensures Good(e, m0, m', Head, ip, op + length, Trace(g.done + [Sequence(g.lits, offset, length)], [], false))
  {
    hide Expand, Conforming, Fitting, Parse, ParseFrom, MatchBytes, Cut, CutFrom, OffsetsOk;
    FrameKept(e, m0, m, m', op);
    var hist := History(e, m0);
    if Claim(e, |hist|) || Cutable(e, |hist|) {
      if Claim(e, |hist|) && e.partial {
        AcceptableMatch(e, m0, m, offset, length, ip, op, g);
      }
      if Cutable(e, |hist|) {
        CutableMatch(e, m0, m, offset, length, ip, op, g);
      }
      MatchOut(e, m, m', Expand(hist, g.done) + g.lits, offset, length, op);
      ExpandSnoc(hist, g.done, Sequence(g.lits, offset, length));
    }
  }

  /** A partial decoding whose output is full inside a match, or exactly at its end. */
  lemma PartialMatchCopied(e: Env, m0: seq<byte>, m: seq<byte>, m': seq<byte>, offset: nat, length: nat, n: nat,
                           ip: nat, op: nat, g: Trace)
    requires Good(e, m0, m, MatchCopy(offset, length), ip, op, g) && WritesOnly(e, op, m, m')
    requires e.partial && n <= length && op + n == e.oend
    requires MatchBytes(e, m', op, n, offset) || offset == 0
    ensures Good(e, m0, m', Done, ip, e.oend, g)
    ensures Good(e, m0, m', Head, ip, e.oend, Trace(g.done + [Sequence(g.lits, offset, length)], [], true))
  {
    hide Parse, ParseFrom, Expand, ExpandBlock, Acceptable, MatchBytes, OutIs, Cut, CutFrom, Cutable;
    FrameKept(e, m0, m, m', op);
    var hist := History(e, m0);
    if Cutable(e, |hist|) {
      CutableMatch(e, m0, m, offset, length, ip, op, g);
      var s, b := Sequence(g.lits, offset, length), Cut(e.src);
      LitsAhead(hist, g.done, s, b);
      ExpandSnoc(hist, g.done, s);
      PartialMatchOut(e, m, m', Expand(hist, g.done) + g.lits, ExpandBlock(hist, b), offset, length, n, op);
    }
    if Claim(e, |hist|) {
      AcceptableMatch(e, m0, m, offset, length, ip, op, g);
      var s := Sequence(g.lits, offset, length);
      AcceptableParses(e, |hist|);
      var b := Parse(e.src).block;
      LitsAhead(hist, g.done, s, b);
      ExpandSnoc(hist, g.done, s);
      PartialMatchOut(e, m, m', Expand(hist, g.done) + g.lits, ExpandBlock(hist, b), offset, length, n, op);
    }
  }

  lemma PartialMatchOut(e: Env, m: seq<byte>, m': seq<byte>, w: seq<byte>, full: seq<byte>, off: nat, length: nat,
                        n: nat, op: nat)
    requires ValidEnv(e) && e.dst <= op <= op + n == e.oend <= |m| && |m'| == |m| && e.partial && n <= length
    requires OutIs(e, m, op, w, false) && Window(e, m', op) == Window(e, m, op) && MatchBytes(e, m', op, n, off)
    requires var x := CopyMatch(w, off, length); |x| <= |full| && full[..|x|] == x
    ensures OutIs(e, m', e.oend, CopyMatch(w, off, length), true) && OutIs(e, m', e.oend, full, true)
  {
    hide MatchBytes, CopyMatch;
    MatchOut(e, m, m', w, off, n, op);
    CopyMatchPrefix(w, off, n, length);
    var x := CopyMatch(w, off, length);
    PrefixOfPrefix(full, x, x, |w| + n);
  }

  lemma AcceptableParses(e: Env, h: nat)
    requires Acceptable(e, h)
    ensures Parse(e.src).Parsed?
  {
  }
}

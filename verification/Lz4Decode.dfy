/**
 The LZ4 block decoder `LZ4_decompress_generic`: a fast loop, a two-stage shortcut and a safe loop,
 joined by gotos. Each method below runs from one program point to the next.
 */
module Lz4Decode {
  import opened ByteSeq
  import opened Lz4Format
  import opened Lz4Copy
  import opened Lz4Cut
  import opened Lz4DecodeState

  const FASTLOOP_SAFE_DISTANCE := 64
  const MATCH_SAFEGUARD_DISTANCE := 12
  const WILDCOPYLENGTH := 8

  // ----- Reading lengths and copying literals --------------------------------------------------

  /** Adds the extension of a length to the 15 in the token; no byte from `ilimit` on is read. */
  method ReadVariableLength(src: seq<byte>, ip0: nat, ilimit: int) returns (ok: bool, length: nat, ip: nat)
    requires ip0 <= |src| && ilimit <= |src|
    ensures ip0 <= ip <= |src|
    ensures ok <==> ReadLen(src, ip0, 15).Length? && ReadLen(src, ip0, 15).ip <= ilimit
    ensures ok ==> ReadLen(src, ip0, 15) == Length(length, ip)
  {
    ip, length, ok := ip0, 15, false;
    if ip >= ilimit {
      return;
    }
    var s: int := src[ip];
    ip := ip + 1;
    length := length + s;
    while s == 255
      invariant ip0 < ip <= ilimit && 15 <= length && 0 <= s <= 255
      invariant ReadLen(src, ip0, 15) == if s == 255 then ReadLen(src, ip, length) else Length(length, ip)
      decreases |src| - ip, s
    {
      if ip >= ilimit {
        return;
      }
      s := src[ip];
      ip := ip + 1;
      length := length + s;
    }
    ok := true;
  }

  /** `memcpy` or `memmove` from the input. */
  method CopyIn(mem: array<byte>, d: nat, src: seq<byte>, s: nat, n: nat)
    requires d + n <= mem.Length && s + n <= |src|
    modifies mem
    ensures forall i :: 0 <= i < mem.Length && !(d <= i < d + n) ==> mem[i] == old(mem[i])
    ensures forall i :: d <= i < d + n ==> mem[i] == src[i - d + s]
  {
    forall i | d <= i < d + n {
      mem[i] := src[i - d + s];
    }
  }

  /** Copies from the input in steps of `step` bytes; may read and write up to `step - 1` bytes too many. */
  method WildCopyIn(mem: array<byte>, d: nat, src: seq<byte>, s: nat, e: nat, step: nat)
    requires 1 <= step && d <= e && d + step <= mem.Length && e + step - 1 <= mem.Length
    requires s + step <= |src| && s + (e - d) + step - 1 <= |src|
    modifies mem
    ensures forall i :: 0 <= i < mem.Length && (i < d || (d + step <= i && e + step - 1 <= i)) ==> mem[i] == old(mem[i])
    ensures mem[d..e] == src[s..s + (e - d)]
  {
    CopyIn(mem, d, src, s, step);
    var p := d + step;
    while p < e
      invariant d + step <= p && (p == d + step || p < e + step)
      invariant forall i :: 0 <= i < mem.Length && (i < d || p <= i) ==> mem[i] == old(mem[i])
      invariant forall i :: d <= i < p ==> mem[i] == src[i - d + s]
    {
      CopyIn(mem, p, src, s + (p - d), step);
      p := p + step;
    }
  }

  /** Puts `length` literals at `op`, in steps of `step` bytes. */
  method WildLits(e: Env, mem: array<byte>, ip: nat, op: nat, length: nat, step: nat)
    requires 8 <= step && op + step <= e.oend && op + length + step - 1 <= e.oend <= mem.Length
    requires ip + step <= |e.src| && ip + length + step - 1 <= |e.src|
    modifies mem
    ensures WritesOnly(e, op, old(mem[..]), mem[..])
    ensures mem[op..op + length] == e.src[ip..ip + length]
  {
    WildCopyIn(mem, op, e.src, ip, op + length, step);
  }

  /** Puts up to `n` literals at `op` by copying exactly `n` bytes. */
  method ShortLits(e: Env, mem: array<byte>, ip: nat, op: nat, length: nat, n: nat)
    requires length <= n && op + n <= e.oend <= mem.Length && ip + n <= |e.src|
    modifies mem
    ensures WritesOnly(e, op, old(mem[..]), mem[..])
    ensures mem[op..op + length] == e.src[ip..ip + length]
  {
    CopyIn(mem, op, e.src, ip, n);
  }

  /** The literal length, as both loops read it: at safe_literal_copy_early, or before it in the fast loop. */
  method LiteralLength(e: Env, ghost m: seq<byte>, token: byte, ip0: nat, op: nat, ghost m0: seq<byte>, ghost g: Trace)
    returns (pc: Pc, ip: nat)
    requires Good(e, m0, m, LitEarly(token), ip0, op, g)
    ensures Good(e, m0, m, pc, ip, op, g) && ip0 <= ip
    ensures pc == Error
            || (pc.LitCopy? && pc.token == token && (token / 16 != RUN_MASK ==> pc.length == token / 16 && ip == ip0))
  {
    hide Content, CutContent, Acceptable, Claim, Cutable, Frame, History, LenFrom;
    var length: nat := token / 16;
    ip := ip0;
    if length == RUN_MASK {
      var ok, n, q := ReadVariableLength(e.src, ip, |e.src| - RUN_MASK);
      LenFromLong(e.src, ip);
      if !ok {
        LitLengthError(e, m0, m, token, ip, op, g);
        Fail(e, m0, m, LitEarly(token), ip, op, g, q);
        return Error, q;
      }
      length, ip := n, q;
    } else {
      LenFromShort(e.src, ip, length);
    }
    LitLengthRead(e, m0, m, token, ip0, op, g, length, ip);
    pc := LitCopy(token, length);
  }

  // ----- The fast loop -------------------------------------------------------------------------

  method FastLiterals(e: Env, mem: array<byte>, ip0: nat, op: nat, ghost m0: seq<byte>, ghost g: Trace)
    returns (pc: Pc, ip: nat, op': nat, ghost g': Trace)
    requires Good(e, m0, mem[..], Head, ip0, op, g) && op + FASTLOOP_SAFE_DISTANCE <= e.oend
    modifies mem
    ensures Good(e, m0, mem[..], pc, ip, op', g') && ip0 < ip
    ensures pc.AtOffset? || pc.LitEarly? || pc.LitCopy? || pc.Error?
    ensures pc.AtOffset? ==> op' + 32 <= e.oend
  {
    hide Content, CutContent, Acceptable, Claim, Cutable, Frame, LenFrom, History, WritesOnly, ValidEnv;
    ghost var m := mem[..];
    var iend := |e.src|;
    var token := e.src[ip0];
    TokenRead(e, m0, m, ip0, op, g);
    ip, op', g' := ip0 + 1, op, g;
    if ip > iend - 17 {
      pc := LitEarly(token);
      return;
    }
    pc, ip := LiteralLength(e, m, token, ip, op, m0, g);
    if pc == Error {
      return;
    }
    var length := pc.length;
    if token / 16 == RUN_MASK {
      var step := if e.aarch64 then 64 else 32;
      if op + length > e.oend - step || ip + length > iend - step {
        return;
      }
      WildLits(e, mem, ip, op, length, step);
    } else {
      ShortLits(e, mem, ip, op, length, 16);
    }
    LitsCopied(e, m0, m, mem[..], token, length, ip, op, g);
    g' := g.(lits := e.src[ip..ip + length]);
    pc, ip, op' := AtOffset(token), ip + length, op + length;
  }

  // ----- Copying matches -----------------------------------------------------------------------

  /** Copies a match that starts before the prefix: from the dictionary, then from the prefix on. */
  method ExtCopy(e: Env, mem: array<byte>, offset: nat, n: nat, op: nat)
    requires ValidEnv(e) && e.mode == UsingExtDict && e.dst <= op && op + n <= e.oend <= mem.Length
    requires op - offset < e.lowPrefix && offset <= |e.dict| + op - Low(e)
    modifies mem
    ensures WritesOnly(e, op, old(mem[..]), mem[..])
    ensures MatchBytes(e, mem[..], op, n, offset)
  {
    var copySize := e.lowPrefix - (op - offset);
    var from := |e.dict| - copySize;
    if n <= copySize {
      CopyIn(mem, op, e.dict, from, n);
    } else {
      CopyIn(mem, op, e.dict, from, copySize);
      var rest, mid := n - copySize, op + copySize;
      if rest > mid - e.lowPrefix {
        var p := mid;
        while p < mid + rest
          invariant mid <= p <= mid + rest
          invariant forall i :: 0 <= i < mem.Length && (i < op || op + n <= i) ==> mem[i] == old(mem[i])
          invariant forall i :: op <= i < mid ==> mem[i] == e.dict[i - op + from]
          invariant forall i :: mid <= i < p ==> mem[i] == mem[i - offset]
        {
          mem[p] := mem[p - offset];
          p := p + 1;
        }
      } else {
        Memcpy(mem, mid, e.lowPrefix, rest);
      }
    }
  }

  /** The branch of both loops for a match that starts in the external dictionary. */
  method ExtDictMatch(e: Env, mem: array<byte>, offset: nat, length: nat, ip: nat, op: nat, ghost m0: seq<byte>,
                      ghost g: Trace)
    returns (pc: Pc, op': nat, ghost g': Trace)
    requires Good(e, m0, mem[..], MatchCopy(offset, length), ip, op, g)
    requires e.mode == UsingExtDict && op - offset < e.lowPrefix && offset <= |e.dict| + op - Low(e)
    modifies mem
    ensures Good(e, m0, mem[..], pc, ip, op', g')
    ensures pc == Head || pc == Error
    ensures pc == Head && op + length <= e.oend ==> op' == op + length
  {
    hide Content, CutContent, Acceptable, Claim, Cutable, Frame, History, WritesOnly, MatchBytes;
    ghost var m := mem[..];
    var n := length;
    op', g' := op, g;
    if op + length > e.oend - LASTLITERALS {
      if e.partial {
        n := if length < e.oend - op then length else e.oend - op;
      } else {
        MatchEndError(e, m0, m, offset, length, ip, op, g);
        Fail(e, m0, m, MatchCopy(offset, length), ip, op, g, ip);
        pc := Error;
        return;
      }
    }
    ExtCopy(e, mem, offset, n, op);
    if n < length {
      PartialMatchCopied(e, m0, m, mem[..], offset, length, n, ip, op, g);
    } else {
      MatchCopied(e, m0, m, mem[..], offset, length, ip, op, g);
    }
    pc, op', g' := Head, op + n, Trace(g.done + [Sequence(g.lits, offset, length)], [], n < length);
  }

  lemma MatchEndError(e: Env, m0: seq<byte>, m: seq<byte>, offset: nat, length: nat, ip: nat, op: nat, g: Trace)
    requires Good(e, m0, m, MatchCopy(offset, length), ip, op, g)
    requires !e.partial && op + length > e.oend - LASTLITERALS
    ensures !Acceptable(e, |History(e, m0)|)
  {
    if Acceptable(e, |History(e, m0)|) {
      AcceptableMatch(e, m0, m, offset, length, ip, op, g);
    }
  }

  lemma OffsetError(e: Env, m0: seq<byte>, m: seq<byte>, offset: nat, length: nat, ip: nat, op: nat, g: Trace)
    requires Good(e, m0, m, MatchCopy(offset, length), ip, op, g)
    requires op - offset + |e.dict| < e.lowPrefix
    ensures !Acceptable(e, |History(e, m0)|)
  {
    if Acceptable(e, |History(e, m0)|) {
      AcceptableMatch(e, m0, m, offset, length, ip, op, g);
    }
  }

  /** `checkOffset`: a match must not start before the prefix and the dictionary together. A dictionary
      of 64 KB or more makes the test unnecessary. */
  predicate OutsideBuffers(e: Env, offset: nat, op: nat) {
    |e.dict| < 65536 && op - offset + |e.dict| < e.lowPrefix
  }

  lemma InsideBuffers(e: Env, offset: nat, op: nat)
    requires ValidEnv(e) && e.dst <= op && offset < 65536 && !OutsideBuffers(e, offset, op)
    ensures offset <= |e.dict| + op - Low(e)
    ensures !(e.mode == UsingExtDict && op - offset < e.lowPrefix) ==> offset <= op - Low(e)
  {
  }

  /** A repeating stretch of the output is a match that starts in the prefix. */
  lemma RepeatsIsMatch(e: Env, m: seq<byte>, op: nat, n: nat, off: nat)
    requires ValidEnv(e) && e.dst <= op && op + n <= |m| && off <= op - Low(e)
    requires Repeats(m, op, op + n, off)
    ensures MatchBytes(e, m, op, n, off)
  {
  }

  /** The 18 bytes copied for a short match with an offset of at least 8. */
  method Copy18(e: Env, mem: array<byte>, offset: nat, length: nat, op: nat)
    requires 8 <= offset <= op && length <= 18 && op + 18 <= e.oend <= mem.Length
    modifies mem
    ensures WritesOnly(e, op, old(mem[..]), mem[..])
    ensures Repeats(mem[..], op, op + length, offset)
  {
    Memcpy(mem, op, op - offset, 8);
    Memcpy(mem, op + 8, op + 8 - offset, 8);
    Memcpy(mem, op + 16, op + 16 - offset, 2);
  }

  /** The copy of the fast loop: pattern, 32-byte or 64-byte stripes, according to the offset. */
  method FastCopy(e: Env, mem: array<byte>, offset: nat, length: nat, op: nat)
    requires offset <= op && MINMATCH <= length && op + length + FASTLOOP_SAFE_DISTANCE <= e.oend <= mem.Length
    modifies mem
    ensures WritesOnly(e, op, old(mem[..]), mem[..])
    ensures Repeats(mem[..], op, op + length, offset)
  {
    var cpy := op + length;
    if offset < 16 {
      MemcpyUsingOffset(mem, op, offset, cpy);
    } else if e.aarch64 && offset >= 64 {
      WildCopy64(mem, op, offset, cpy);
    } else {
      WildCopy32(mem, op, offset, cpy);
    }
  }

  method FastMatch(e: Env, mem: array<byte>, token: byte, ip0: nat, op: nat, ghost m0: seq<byte>, ghost g: Trace)
    returns (pc: Pc, ip: nat, op': nat, ghost g': Trace)
    requires Good(e, m0, mem[..], AtOffset(token), ip0, op, g) && op + 32 <= e.oend
    modifies mem
    ensures Good(e, m0, mem[..], pc, ip, op', g') && ip0 < ip
    ensures pc == Head || pc.MatchCopy? || pc == Error
    ensures pc == Head ==> op' + FASTLOOP_SAFE_DISTANCE <= e.oend
  {
    hide Content, CutContent, Acceptable, Claim, Cutable, Frame, History, WritesOnly, MatchBytes, LenFrom, Repeats;
    ghost var m := mem[..];
    var length, offset;
    pc, ip, length, offset := FastMatchHeader(e, m, token, ip0, op, m0, g);
    op', g' := op, g;
    if pc == Error || op + length >= e.oend - FASTLOOP_SAFE_DISTANCE {
      return;
    }
    var s := Sequence(g.lits, offset, length);
    if (e.mode == WithPrefix64k || op - offset >= e.lowPrefix) && offset >= 8 && token % 16 != ML_MASK {
      Copy18(e, mem, offset, length, op);
      RepeatsIsMatch(e, mem[..], op, length, offset);
    } else if OutsideBuffers(e, offset, op) {
      OffsetError(e, m0, m, offset, length, ip, op, g);
      Fail(e, m0, m, pc, ip, op, g, ip);
      pc := Error;
      return;
    } else {
      InsideBuffers(e, offset, op);
      if e.mode == UsingExtDict && op - offset < e.lowPrefix {
        pc, op', g' := ExtDictMatch(e, mem, offset, length, ip, op, m0, g);
        return;
      }
      FastCopy(e, mem, offset, length, op);
      RepeatsIsMatch(e, mem[..], op, length, offset);
    }
    MatchCopied(e, m0, m, mem[..], offset, length, ip, op, g);
    pc, op', g' := Head, op + length, Trace(g.done + [s], [], false);
  }

  /** The offset and the length of a match, as the fast loop reads them. */
  method FastMatchHeader(e: Env, ghost m: seq<byte>, token: byte, ip0: nat, op: nat, ghost m0: seq<byte>,
                         ghost g: Trace)
    returns (pc: Pc, ip: nat, length: nat, offset: nat)
    requires Good(e, m0, m, AtOffset(token), ip0, op, g)
    ensures Good(e, m0, m, pc, ip, op, g) && ip0 < ip
    ensures pc == Error || pc == MatchCopy(offset, length)
    ensures pc != Error && token % 16 != ML_MASK ==> length <= 18
  {
    hide Content, CutContent, Acceptable, Claim, Cutable, Frame, History, LenFrom;
    offset := ReadLE16(e.src, ip0);
    OffsetRead(e, m0, m, token, ip0, op, g);
    ip := ip0 + 2;
    pc, length, ip := ReadMatchLength(e, m, token, offset, ip, op, m0, g);
  }

  method ReadMatchLength(e: Env, ghost m: seq<byte>, token: byte, offset: nat, ip0: nat, op: nat, ghost m0: seq<byte>,
                         ghost g: Trace)
    returns (pc: Pc, length: nat, ip: nat)
    requires Good(e, m0, m, AtMatch(token, offset), ip0, op, g)
    ensures Good(e, m0, m, pc, ip, op, g) && ip0 <= ip
    ensures pc == Error || pc == MatchCopy(offset, length)
    ensures pc != Error && token % 16 != ML_MASK ==> length <= 18
  {
    hide Content, CutContent, Acceptable, Claim, Cutable, Frame, History, LenFrom;
    length, ip := token % 16, ip0;
    if length == ML_MASK {
      var ok, n, q := ReadVariableLength(e.src, ip, |e.src| - (1 + LASTLITERALS));
      LenFromLong(e.src, ip);
      if !ok {
        MatchLengthError(e, m0, m, token, offset, ip, op, g);
        Fail(e, m0, m, AtMatch(token, offset), ip, op, g, q);
        pc, ip := Error, q;
        return;
      }
      length, ip := n, q;
    } else {
      LenFromShort(e.src, ip, length);
    }
    MatchLengthRead(e, m0, m, token, offset, ip0, op, g, length, ip);
    length := length + MINMATCH;
    pc := MatchCopy(offset, length);
  }

  // ----- The safe loop -------------------------------------------------------------------------

  /** The shortcut: short literals and a short match, when both ends are far enough away. */
  method SafeHead(e: Env, mem: array<byte>, ip0: nat, op: nat, ghost m0: seq<byte>, ghost g: Trace)
    returns (pc: Pc, ip: nat, op': nat, ghost g': Trace)
    requires Good(e, m0, mem[..], Head, ip0, op, g)
    modifies mem
    ensures Good(e, m0, mem[..], pc, ip, op', g') && ip0 < ip
    ensures pc == Head || pc.LitEarly? || pc.AtMatch?
  {
    hide Content, CutContent, Acceptable, Claim, Cutable, Frame, History, WritesOnly, MatchBytes, LenFrom, Repeats;
    var token := e.src[ip0];
    TokenRead(e, m0, mem[..], ip0, op, g);
    ip, op', g', pc := ip0 + 1, op, g, LitEarly(token);
    var length := token / 16;
    if length != RUN_MASK && ip < |e.src| - 16 && op <= e.oend - 32 {
      var offset;
      pc, offset, ip, op', g' := ShortcutLiterals(e, mem, token, ip, op, m0, g);
      length := token % 16;
      if length != ML_MASK && offset >= 8 && (e.mode == WithPrefix64k || op' - offset >= e.lowPrefix) {
        ghost var m := mem[..];
        LenFromShort(e.src, ip, length);
        MatchLengthRead(e, m0, m, token, offset, ip, op', g', length, ip);
        Copy18(e, mem, offset, length + MINMATCH, op');
        RepeatsIsMatch(e, mem[..], op', length + MINMATCH, offset);
        MatchCopied(e, m0, m, mem[..], offset, length + MINMATCH, ip, op', g');
        pc := Head;
        g' := Trace(g'.done + [Sequence(g'.lits, offset, length + MINMATCH)], [], false);
        op' := op' + length + MINMATCH;
      }
    }
  }

  method ShortcutLiterals(e: Env, mem: array<byte>, token: byte, ip0: nat, op: nat, ghost m0: seq<byte>, ghost g: Trace)
    returns (pc: Pc, offset: nat, ip: nat, op': nat, ghost g': Trace)
    requires Good(e, m0, mem[..], LitEarly(token), ip0, op, g)
    requires token / 16 != RUN_MASK && ip0 < |e.src| - 16 && op <= e.oend - 32
    modifies mem
    ensures pc == AtMatch(token, offset) && Good(e, m0, mem[..], pc, ip, op', g') && ip0 < ip
    ensures op' + 18 <= e.oend
  {
    hide Content, CutContent, Acceptable, Claim, Cutable, Frame, History, WritesOnly, LenFrom, ReadLE16;
    ghost var m := mem[..];
    var length := token / 16;
    LenFromShort(e.src, ip0, length);
    LitLengthRead(e, m0, m, token, ip0, op, g, length, ip0);
    ShortLits(e, mem, ip0, op, length, 16);
    LitsCopied(e, m0, m, mem[..], token, length, ip0, op, g);
    op', ip, g' := op + length, ip0 + length, g.(lits := e.src[ip0..ip0 + length]);
    offset := ReadLE16(e.src, ip);
    OffsetRead(e, m0, mem[..], token, ip, op', g');
    ip := ip + 2;
    pc := AtMatch(token, offset);
  }

  /** safe_literal_copy: literals in the middle of a block, or the last ones of it. */
  method SafeLiterals(e: Env, mem: array<byte>, token: byte, length: nat, ip0: nat, op: nat, ghost m0: seq<byte>,
                      ghost g: Trace)
    returns (pc: Pc, ip: nat, op': nat, ghost g': Trace)
    requires Good(e, m0, mem[..], LitCopy(token, length), ip0, op, g)
    modifies mem
    ensures Good(e, m0, mem[..], pc, ip, op', g') && ip0 <= ip
    ensures pc.AtOffset? || pc == Done || pc == Error
  {
    hide Content, CutContent, Acceptable, Claim, Cutable, Frame, History, WritesOnly;
    ghost var m := mem[..];
    var iend := |e.src|;
    if op + length > e.oend - MFLIMIT || ip0 + length > iend - (2 + 1 + LASTLITERALS) {
      if e.partial {
        pc, ip, op', g' := PartialLiterals(e, mem, token, length, ip0, op, m0, g);
        return;
      }
      if ip0 + length != iend || op + length > e.oend {
        LiteralsError(e, m0, m, token, length, ip0, op, g);
        Fail(e, m0, m, LitCopy(token, length), ip0, op, g, ip0);
        return Error, ip0, op, g;
      }
      ShortLits(e, mem, ip0, op, length, length);
      LastLitsCopied(e, m0, m, mem[..], token, length, ip0, op, g);
      return Done, ip0 + length, op + length, g;
    }
    WildLits(e, mem, ip0, op, length, WILDCOPYLENGTH);
    LitsCopied(e, m0, m, mem[..], token, length, ip0, op, g);
    return AtOffset(token), ip0 + length, op + length, g.(lits := e.src[ip0..ip0 + length]);
  }

  lemma LiteralsError(e: Env, m0: seq<byte>, m: seq<byte>, token: byte, length: nat, ip: nat, op: nat, g: Trace)
    requires Good(e, m0, m, LitCopy(token, length), ip, op, g) && !e.partial
    requires op + length > e.oend - MFLIMIT || ip + length > |e.src| - (2 + 1 + LASTLITERALS)
    requires ip + length != |e.src| || op + length > e.oend
    ensures !Acceptable(e, |History(e, m0)|)
  {
    if Acceptable(e, |History(e, m0)|) {
      AcceptableLits(e, m0, m, token, length, ip, op, g);
    }
  }

  /** Partial decoding near either end: copies what there is, and stops unless a match can follow. */
  method PartialLiterals(e: Env, mem: array<byte>, token: byte, length: nat, ip0: nat, op: nat, ghost m0: seq<byte>,
                         ghost g: Trace)
    returns (pc: Pc, ip: nat, op': nat, ghost g': Trace)
    requires Good(e, m0, mem[..], LitCopy(token, length), ip0, op, g) && e.partial
    modifies mem
    ensures Good(e, m0, mem[..], pc, ip, op', g') && ip0 <= ip
    ensures ip - ip0 == op' - op && mem[op..op'] == e.src[ip0..ip]
    ensures ip - ip0 == length || (ip - ip0 < length && (ip == |e.src| || op' == e.oend))
    ensures pc == if op' == e.oend || ip >= |e.src| - 2 then Done else AtOffset(token)
  {
    hide Content, CutContent, Acceptable, Claim, Cutable, Frame, History, WritesOnly;
    ghost var m := mem[..];
    var iend, n, cpy := |e.src|, length, op + length;
    if ip0 + n > iend {
      n := iend - ip0;
      cpy := op + n;
    }
    if cpy > e.oend {
      cpy := e.oend;
      n := e.oend - op;
    }
    ShortLits(e, mem, ip0, op, n, n);
    ip, op', g' := ip0 + n, op + n, g.(lits := e.src[ip0..ip0 + n]);
    if cpy == e.oend || ip >= iend - 2 {
      PartialLitsCopied(e, m0, m, mem[..], token, length, n, ip0, op, g);
      pc, g' := Done, g;
    } else {
      LitsCopied(e, m0, m, mem[..], token, length, ip0, op, g);
      pc := AtOffset(token);
    }
  }

  /** The first 8 bytes of a match in the safe loop; the rest follows at distance `dist`. */
  method FirstEight(mem: array<byte>, op: nat, offset: nat) returns (dist: nat)
    requires offset <= op && op + 8 <= mem.Length
    modifies mem
    ensures forall i :: 0 <= i < mem.Length && !(op <= i < op + 8) ==> mem[i] == old(mem[i])
    ensures Repeats(mem[..], op, op + 8, offset)
    ensures dist == (if offset < 8 then Stretch(offset) else offset) && 8 <= dist <= op + 8
  {
    if offset < 8 {
      SafeFirst4(mem, op, offset);
      Next4(mem, op, offset);
      StretchBounds(offset);
      dist := Stretch(offset);
    } else {
      Memcpy(mem, op, op - offset, 8);
      dist := offset;
    }
  }

  /** The rest of a match in the safe loop: 8-byte steps, then single bytes near the end of the buffer. */
  method SafeTail(mem: array<byte>, oend: nat, dist: nat, length: nat, op: nat) returns (ok: bool)
    requires 8 <= dist <= op + 8 && MINMATCH <= length && op + MFLIMIT <= oend <= mem.Length
    modifies mem
    ensures forall i :: 0 <= i < mem.Length && (i < op + 8 || oend <= i) ==> mem[i] == old(mem[i])
    ensures ok <==> op + length <= oend - LASTLITERALS
    ensures ok ==> forall i :: op + 8 <= i < op + length ==> mem[i] == mem[i - dist]
  {
    var cpy, p := op + length, op + 8;
    if cpy > oend - MATCH_SAFEGUARD_DISTANCE {
      var oCopyLimit := oend - (WILDCOPYLENGTH - 1);
      if cpy > oend - LASTLITERALS {
        return false;
      }
      if p < oCopyLimit {
        WildCopy8(mem, p, dist, oCopyLimit);
        p := oCopyLimit;
      }
      while p < cpy
        invariant op + 8 <= p <= oend
        invariant forall i :: 0 <= i < mem.Length && (i < op + 8 || oend <= i) ==> mem[i] == old(mem[i])
        invariant forall i :: op + 8 <= i < p ==> mem[i] == mem[i - dist]
      {
        mem[p] := mem[p - dist];
        p := p + 1;
      }
    } else {
      Memcpy(mem, p, p - dist, 8);
      if length > 16 {
        WildCopy8(mem, p + 8, dist, cpy);
      }
    }
    ok := true;
  }

  method SafeCopy(e: Env, mem: array<byte>, offset: nat, length: nat, op: nat) returns (ok: bool)
    requires offset <= op && MINMATCH <= length && op + MFLIMIT <= e.oend <= mem.Length
    modifies mem
    ensures WritesOnly(e, op, old(mem[..]), mem[..])
    ensures ok <==> op + length <= e.oend - LASTLITERALS
    ensures ok ==> Repeats(mem[..], op, op + length, offset)
  {
    var dist := FirstEight(mem, op, offset);
    ghost var m := mem[..];
    ok := SafeTail(mem, e.oend, dist, length, op);
    if ok {
      assert Repeats(mem[..], op, op + 8, offset) by {
        assert forall i :: 0 <= i < op + 8 ==> mem[..][i] == m[i];
      }
      FinishCopy(mem[..], op, op + length, offset, dist);
    }
  }

  lemma FinishCopy(m: seq<byte>, op: nat, cpy: nat, offset: nat, dist: nat)
    requires offset <= op && op + 8 <= |m| && cpy <= |m| && Repeats(m, op, op + 8, offset)
    requires dist == (if offset < 8 then Stretch(offset) else offset) && 8 <= dist <= op + 8
    requires forall i :: op + 8 <= i < cpy ==> m[i] == m[i - dist]
    ensures Repeats(m, op, cpy, offset)
  {
    if offset < 8 {
      FinishStretch(m, op, cpy, offset);
    }
  }

  /** A match at the end of a partial decoding: only as many bytes as fit. */
  method PartialMatch(e: Env, mem: array<byte>, offset: nat, n: nat, op: nat)
    requires offset <= op && op + n <= e.oend <= mem.Length
    modifies mem
    ensures WritesOnly(e, op, old(mem[..]), mem[..])
    ensures offset > 0 ==> Repeats(mem[..], op, op + n, offset)
  {
    if op - offset + n > op {
      var p := op;
      while p < op + n
        invariant op <= p <= op + n
        invariant forall i :: 0 <= i < mem.Length && (i < op || op + n <= i) ==> mem[i] == old(mem[i])
        invariant offset > 0 ==> forall i :: op <= i < p ==> mem[i] == mem[i - offset]
      {
        mem[p] := mem[p - offset];
        p := p + 1;
      }
    } else {
      Memcpy(mem, op, op - offset, n);
    }
  }

  /** safe_match_copy. */
  method SafeMatch(e: Env, mem: array<byte>, offset: nat, length: nat, ip: nat, op: nat, ghost m0: seq<byte>,
                   ghost g: Trace)
    returns (pc: Pc, op': nat, ghost g': Trace)
    requires Good(e, m0, mem[..], MatchCopy(offset, length), ip, op, g)
    modifies mem
    ensures Good(e, m0, mem[..], pc, ip, op', g')
    ensures pc == Head || pc == Done || pc == Error
  {
    hide Content, CutContent, Acceptable, Claim, Cutable, Frame, History, WritesOnly, MatchBytes, Repeats;
    ghost var m := mem[..];
    op', g' := op, g;
    if OutsideBuffers(e, offset, op) {
      OffsetError(e, m0, m, offset, length, ip, op, g);
      Fail(e, m0, m, MatchCopy(offset, length), ip, op, g, ip);
      return Error, op, g;
    }
    InsideBuffers(e, offset, op);
    if e.mode == UsingExtDict && op - offset < e.lowPrefix {
      pc, op', g' := ExtDictMatch(e, mem, offset, length, ip, op, m0, g);
    } else if e.partial && op + length > e.oend - MATCH_SAFEGUARD_DISTANCE {
      pc, op', g' := PartialSafeMatch(e, mem, offset, length, ip, op, m0, g);
    } else {
      var ok := SafeCopy(e, mem, offset, length, op);
      if !ok {
        MatchEndError(e, m0, m, offset, length, ip, op, g);
        FrameKept(e, m0, m, mem[..], op);
        FailLate(e, m0, m, mem[..], ip, op, g, MatchCopy(offset, length));
        return Error, op, g;
      }
      RepeatsIsMatch(e, mem[..], op, length, offset);
      MatchCopied(e, m0, m, mem[..], offset, length, ip, op, g);
      pc, op', g' := Head, op + length, Trace(g.done + [Sequence(g.lits, offset, length)], [], false);
    }
  }

  lemma FailLate(e: Env, m0: seq<byte>, m: seq<byte>, m': seq<byte>, ip: nat, op: nat, g: Trace, pc: Pc)
    requires Good(e, m0, m, pc, ip, op, g) && !Acceptable(e, |History(e, m0)|) && Frame(e, m0, m') && |m'| == |m|
    ensures Good(e, m0, m', Error, ip, op, g)
  {
  }

  method PartialSafeMatch(e: Env, mem: array<byte>, offset: nat, length: nat, ip: nat, op: nat, ghost m0: seq<byte>,
                          ghost g: Trace)
    returns (pc: Pc, op': nat, ghost g': Trace)
    requires Good(e, m0, mem[..], MatchCopy(offset, length), ip, op, g)
    requires e.partial && offset <= op - Low(e)
    modifies mem
    ensures Good(e, m0, mem[..], pc, ip, op', g')
    ensures pc == Head || pc == Done
  {
    hide Content, CutContent, Acceptable, Claim, Cutable, Frame, History, WritesOnly, MatchBytes, Repeats;
    ghost var m := mem[..];
    var n := if length < e.oend - op then length else e.oend - op;
    PartialMatch(e, mem, offset, n, op);
    if offset > 0 {
      RepeatsIsMatch(e, mem[..], op, n, offset);
    }
    op', g' := op + n, Trace(g.done + [Sequence(g.lits, offset, length)], [], false);
    if op' == e.oend {
      PartialMatchCopied(e, m0, m, mem[..], offset, length, n, ip, op, g);
      pc, g' := Done, g;
    } else {
      MatchCopied(e, m0, m, mem[..], offset, length, ip, op, g);
      pc := Head;
    }
  }

  // ----- The whole decoder ---------------------------------------------------------------------

  /** Orders the program points between two reads of the input. */
  function Rank(pc: Pc): nat {
    match pc
    case Done => 0
    case Error => 0
    case Head => 1
    case MatchCopy(_, _) => 2
    case AtMatch(_, _) => 3
    case AtOffset(_) => 4
    case LitCopy(_, _) => 5
    case LitEarly(_) => 6
  }

  /** Runs the fast loop until it leaves for some point of the safe loop. */
  method FastLoop(e: Env, mem: array<byte>, op0: nat, ghost m0: seq<byte>, ghost g0: Trace)
    returns (pc: Pc, ip: nat, op: nat, ghost g: Trace)
    requires Good(e, m0, mem[..], Head, 0, op0, g0) && op0 + FASTLOOP_SAFE_DISTANCE <= e.oend
    modifies mem
    ensures Good(e, m0, mem[..], pc, ip, op, g)
  {
    hide Good;
    pc, ip, op, g := Head, 0, op0, g0;
    InBounds(e, m0, mem[..], pc, ip, op, g);
    while pc == Head
      invariant Good(e, m0, mem[..], pc, ip, op, g) && ip <= |e.src|
      invariant pc == Head ==> op + FASTLOOP_SAFE_DISTANCE <= e.oend
      decreases |e.src| - ip, Rank(pc)
    {
      pc, ip, op, g := FastLiterals(e, mem, ip, op, m0, g);
      InBounds(e, m0, mem[..], pc, ip, op, g);
      if pc.AtOffset? {
        pc, ip, op, g := FastMatch(e, mem, pc.token, ip, op, m0, g);
        InBounds(e, m0, mem[..], pc, ip, op, g);
      }
    }
  }

  /** One step of the safe loop, from any of its points. */
  method SafeStep(e: Env, mem: array<byte>, pc0: Pc, ip0: nat, op0: nat, ghost m0: seq<byte>, ghost g0: Trace)
    returns (pc: Pc, ip: nat, op: nat, ghost g: Trace)
    requires pc0 != Done && pc0 != Error && Good(e, m0, mem[..], pc0, ip0, op0, g0)
    modifies mem
    ensures Good(e, m0, mem[..], pc, ip, op, g)
    ensures ip0 < ip || (ip0 == ip && Rank(pc) < Rank(pc0))
  {
    hide Good;
    ip, op, g := ip0, op0, g0;
    match pc0 {
      case Head => pc, ip, op, g := SafeHead(e, mem, ip0, op0, m0, g0);
      case LitEarly(token) => pc, ip := LiteralLength(e, mem[..], token, ip0, op0, m0, g0);
      case LitCopy(token, length) => pc, ip, op, g := SafeLiterals(e, mem, token, length, ip0, op0, m0, g0);
      case AtOffset(token) => pc, ip := SafeOffset(e, mem[..], token, ip0, op0, m0, g0);
      case AtMatch(token, offset) =>
        var length;
        pc, length, ip := ReadMatchLength(e, mem[..], token, offset, ip0, op0, m0, g0);
      case MatchCopy(offset, length) => pc, op, g := SafeMatch(e, mem, offset, length, ip0, op0, m0, g0);
    }
  }

  method SafeOffset(e: Env, ghost m: seq<byte>, token: byte, ip0: nat, op: nat, ghost m0: seq<byte>, ghost g: Trace)
    returns (pc: Pc, ip: nat)
    requires Good(e, m0, m, AtOffset(token), ip0, op, g)
    ensures pc.AtMatch? && ip0 < ip && Good(e, m0, m, pc, ip, op, g)
  {
    hide Content, CutContent, Acceptable, Claim, Cutable, Frame, History, ReadLE16;
    OffsetRead(e, m0, m, token, ip0, op, g);
    pc, ip := AtMatch(token, ReadLE16(e.src, ip0)), ip0 + 2;
  }

  lemma InBounds(e: Env, m0: seq<byte>, m: seq<byte>, pc: Pc, ip: nat, op: nat, g: Trace)
    requires Good(e, m0, m, pc, ip, op, g)
    ensures e.dst <= op <= e.oend <= |m| && ip <= |e.src| && Frame(e, m0, m) && ValidEnv(e)
  {
    hide Content;
  }

  lemma Start(e: Env, m: seq<byte>)
    requires ValidEnv(e) && e.oend <= |m| && e.src != []
    ensures Good(e, m, m, Head, 0, e.dst, Trace([], [], false))
  {
  }

  /** The history and what has been decoded after it. */
  function Output(e: Env, m0: seq<byte>, m: seq<byte>, r: nat): seq<byte>
    requires ValidEnv(e) && e.oend <= |m0| && e.dst + r <= |m|
  {
    History(e, m0) + m[e.dst..e.dst + r]
  }

  /** What the result of a decoding says. Full: success means that the input is a block, and the
      output its expansion, and every acceptable block succeeds. Partial: of an acceptable block, as
      much as fits; and of input that is cut off, as much as fits of what can be read, or an error. */
  ghost predicate Decoded(e: Env, m0: seq<byte>, m: seq<byte>, r: int)
    requires ValidEnv(e) && e.oend <= |m0| == |m| && r <= e.oend - e.dst
  {
    var p := Parse(e.src);
    var hist := History(e, m0);
    && (Acceptable(e, |hist|) ==> 0 <= r)
    && (0 <= r && (e.partial ==> Acceptable(e, |hist|)) ==>
          && p.Parsed?
          && r == (if e.partial && e.oend - e.dst < BlockSize(p.block) then e.oend - e.dst else BlockSize(p.block))
          && Output(e, m0, m, r) == ExpandBlock(hist, p.block)[..|hist| + r])
    && (0 <= r && Cutable(e, |hist|) ==>
          var b := Cut(e.src);
          && r == (if e.oend - e.dst < BlockSize(b) then e.oend - e.dst else BlockSize(b))
          && Output(e, m0, m, r) == ExpandBlock(hist, b)[..|hist| + r])
  }

  lemma FinishDone(e: Env, m0: seq<byte>, m: seq<byte>, ip: nat, op: nat, g: Trace)
    requires Good(e, m0, m, Done, ip, op, g)
    ensures Decoded(e, m0, m, op - e.dst)
  {
    hide Parse, Conforming, Fitting, ExpandBlock, BlockSize;
    var hist := History(e, m0);
    assert m[Low(e)..e.dst] == m0[Low(e)..e.dst];
    assert Window(e, m, op) == Output(e, m0, m, op - e.dst) by {
      assert m[Low(e)..op] == m[Low(e)..e.dst] + m[e.dst..op];
    }
    if Claim(e, |hist|) {
      var full := ExpandBlock(hist, Parse(e.src).block);
      assert full[..|full|] == full;
    }
    if Cutable(e, |hist|) {
      var full := ExpandBlock(hist, Cut(e.src));
      assert full[..|full|] == full;
    }
  }

  lemma FinishError(e: Env, m0: seq<byte>, m: seq<byte>, ip: nat, op: nat, g: Trace, r: int)
    requires Good(e, m0, m, Error, ip, op, g) && r < 0
    ensures Decoded(e, m0, m, r)
  {
  }

  lemma EmptyOutput(e: Env, m: seq<byte>)
    requires ValidEnv(e) && e.oend <= |m| && e.dst == e.oend
    ensures Decoded(e, m, m, if e.partial || e.src == [0] then 0 else -1)
  {
    hide Conforming, Fitting, ParseFrom;
    var hist := History(e, m);
    if e.src == [0] {
      ParseLast(e.src, 0, [], 0, []);
      assert Output(e, m, m, 0) == hist;
      assert ExpandBlock(hist, Block([], [], 0)) == hist;
    }
    if Acceptable(e, |hist|) {
      var b := Parse(e.src).block;
      assert ExpandBlock(hist, b)[..|hist|] == hist by {
        ExpandPrefix(hist, [], b.seqs);
      }
      assert Output(e, m, m, 0) == hist;
      if !e.partial {
        EmptyBlock(e.src, |hist|);
      }
    }
    if Cutable(e, |hist|) {
      ExpandPrefix(hist, [], Cut(e.src).seqs);
      assert ExpandBlock(hist, Cut(e.src))[..|hist|] == hist == Output(e, m, m, 0);
    }
  }

  lemma EmptyBlock(src: seq<byte>, h: nat)
    requires Parse(src).Parsed? && Fitting(h, Parse(src).block)
    requires BlockSize(Parse(src).block) == 0 && Parse(src).block.tag == 0
    ensures src == [0]
  {
    var b := Parse(src).block;
    ParseSound(src);
    assert b.seqs == [] && b.last == [];
    assert Serialize(b) == SerializeLast([], 0) == [0];
  }

  lemma NoInput(e: Env, m: seq<byte>)
    requires ValidEnv(e) && e.oend <= |m| && e.src == []
    ensures Decoded(e, m, m, -1)
  {
  }

  /** `LZ4_decompress_generic`. */
  method DecompressGeneric(e: Env, mem: array<byte>) returns (r: int)
    requires ValidEnv(e) && e.oend <= mem.Length
    modifies mem
    ensures -|e.src| - 1 <= r <= e.oend - e.dst
    ensures Frame(e, old(mem[..]), mem[..])
    ensures Decoded(e, old(mem[..]), mem[..], r)
  {
    hide Good, Decoded, Frame;
    ghost var m0 := mem[..];
    if e.dst == e.oend {
      EmptyOutput(e, m0);
      r := if e.partial || e.src == [0] then 0 else -1;
      assert Frame(e, m0, m0) by { SameFrame(e, m0); }
      return;
    }
    if e.src == [] {
      NoInput(e, m0);
      assert Frame(e, m0, m0) by { SameFrame(e, m0); }
      return -1;
    }
    Start(e, m0);
    var pc, ip, op: nat := Head, 0, e.dst;
    ghost var g := Trace([], [], false);
    if e.dst + FASTLOOP_SAFE_DISTANCE <= e.oend {
      pc, ip, op, g := FastLoop(e, mem, op, m0, g);
    }
    InBounds(e, m0, mem[..], pc, ip, op, g);
    while pc != Done && pc != Error
      invariant Good(e, m0, mem[..], pc, ip, op, g)
      invariant e.dst <= op <= e.oend && ip <= |e.src| && Frame(e, m0, mem[..])
      decreases |e.src| - ip, Rank(pc)
    {
      pc, ip, op, g := SafeStep(e, mem, pc, ip, op, m0, g);
      InBounds(e, m0, mem[..], pc, ip, op, g);
    }
    if pc == Done {
      FinishDone(e, m0, mem[..], ip, op, g);
      r := op - e.dst;
    } else {
      r := -ip - 1;
      FinishError(e, m0, mem[..], ip, op, g, r);
    }
  }

  lemma SameFrame(e: Env, m: seq<byte>)
    requires e.oend <= |m|
    ensures Frame(e, m, m)
  {
  }

  lemma LenFromLong(src: seq<byte>, ip: nat)
    requires ip <= |src|
    ensures LenFrom(src, ip, 15) == ReadLen(src, ip, 15)
  {
  }

  lemma LenFromShort(src: seq<byte>, ip: nat, nib: nat)
    requires ip <= |src| && nib != 15
    ensures LenFrom(src, ip, nib) == Length(nib, ip)
  {
  }
}

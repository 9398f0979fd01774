/**
 The reference decoder `LZ4_decompress_unsafe_generic`, behind the deprecated `LZ4_decompress_fast`
 family. It moves one byte at a time, knows the decoded size, and does not know where its input ends.
 */
module Lz4DecodeReference {
  import opened ByteSeq
  import opened Lz4Format
  import opened Lz4DecodeState
  import opened Lz4Decode

  /** -1; the number of bytes read; or, where the original would read past its input buffer, `Overrun`. */
  datatype Outcome = Refused | Read(n: nat) | Overrun

  /** The first `n` bytes are the block `b`, which fits the history and fills the output exactly. */
  ghost predicate BlockHere(src: seq<byte>, n: nat, h: nat, cap: nat, b: Block) {
    && Shaped(b.seqs) && Fitting(h, b) && BlockSize(b) == cap
    && HoldsAt(src, 0, Serialize(b)) && n == |Serialize(b)|
  }

  predicate Nonzero(seqs: seq<Sequence>) {
    forall s :: s in seqs ==> 1 <= s.offset
  }

  /** Whatever such block there is begins with these sequences. */
  ghost predicate Leads(src: seq<byte>, h: nat, cap: nat, done: seq<Sequence>) {
    forall n, b {:trigger BlockHere(src, n, h, cap, b)} :: BlockHere(src, n, h, cap, b) ==> done <= b.seqs
  }

  ghost predicate NoBlock(src: seq<byte>, h: nat, cap: nat) {
    forall n, b {:trigger BlockHere(src, n, h, cap, b)} :: !BlockHere(src, n, h, cap, b)
  }

  // ----- Reading -------------------------------------------------------------------------------

  /** Reads an extended length, unless the input ends in it. */
  method ReadLongLengthNoCheck(src: seq<byte>, ip0: nat) returns (ok: bool, l: nat, ip: nat)
    requires ip0 <= |src|
    ensures ok <==> ReadLen(src, ip0, 15).Length?
    ensures ok ==> ReadLen(src, ip0, 15) == Length(15 + l, ip)
  {
    ok, l, ip := false, 0, ip0;
    var b: int := 255;
    while b == 255
      invariant ip <= |src| && 0 <= b <= 255
      invariant ReadLen(src, ip0, 15) == if b == 255 then ReadLen(src, ip, 15 + l) else Length(15 + l, ip)
      decreases |src| - ip, b
    {
      if ip == |src| {
        return;
      }
      b := src[ip];
      ip := ip + 1;
      l := l + b;
    }
    ok := true;
  }

  /** A token half and its extension. */
  method ReadLength(src: seq<byte>, ip0: nat, nib: nat) returns (ok: bool, l: nat, ip: nat)
    requires ip0 <= |src|
    ensures ok <==> LenFrom(src, ip0, nib).Length?
    ensures ok ==> LenFrom(src, ip0, nib) == Length(l, ip)
  {
    ok, l, ip := true, nib, ip0;
    if nib == 15 {
      var more;
      ok, more, ip := ReadLongLengthNoCheck(src, ip0);
      l := l + more;
    }
  }

  // ----- What follows in a block ---------------------------------------------------------------

  lemma {:induction false} SerializePrefix(done: seq<Sequence>, seqs: seq<Sequence>)
    requires Shaped(seqs) && done <= seqs
    ensures Shaped(done) && SerializeAll(done) <= SerializeAll(seqs)
    decreases |seqs|
  {
    if |done| < |seqs| {
      SerializePrefix(done, seqs[..|seqs| - 1]);
    } else {
      assert done == seqs;
    }
  }

  lemma HoldsPrefix(src: seq<byte>, ip: nat, a: seq<byte>, b: seq<byte>)
    requires HoldsAt(src, ip, b) && a <= b
    ensures HoldsAt(src, ip, a)
  {
    assert b == a + b[|a|..];
    HoldsConcat(src, ip, a, b[|a|..]);
  }

  /** After its first sequences, a block goes on with another sequence or with its last literals. */
  lemma Continues(src: seq<byte>, n: nat, b: Block, done: seq<Sequence>, ip: nat)
    requires Shaped(b.seqs) && b.tag < 16 && HoldsAt(src, 0, Serialize(b)) && n == |Serialize(b)|
    requires done <= b.seqs && Shaped(done) && ip == |SerializeAll(done)|
    ensures done == b.seqs ==>
              HoldsAt(src, ip, SerializeLast(b.last, b.tag)) && ip + |SerializeLast(b.last, b.tag)| == n
    ensures |done| < |b.seqs| ==>
              var s := b.seqs[|done|];
              s.offset < 65536 && MINMATCH <= s.mlen && HoldsAt(src, ip, Serialize1(s)) && done + [s] <= b.seqs
  {
    hide HoldsAt, SerializeLast, Serialize1, Shaped, SerializeAll;
    HoldsConcat(src, 0, SerializeAll(b.seqs), SerializeLast(b.last, b.tag));
    if |done| < |b.seqs| {
      NextStands(src, b.seqs, done, ip);
    }
  }

  lemma NextStands(src: seq<byte>, seqs: seq<Sequence>, done: seq<Sequence>, ip: nat)
    requires Shaped(seqs) && HoldsAt(src, 0, SerializeAll(seqs))
    requires done <= seqs && |done| < |seqs| && Shaped(done) && ip == |SerializeAll(done)|
    ensures var s := seqs[|done|];
            s.offset < 65536 && MINMATCH <= s.mlen && HoldsAt(src, ip, Serialize1(s)) && done + [s] <= seqs
  {
    hide HoldsAt, Serialize1, SerializeAll;
    var s := seqs[|done|];
    assert s in seqs && done + [s] <= seqs;
    SerializeNext(seqs, done, s);
    HoldsPrefix(src, 0, SerializeAll(done + [s]), SerializeAll(seqs));
    HoldsConcat(src, 0, SerializeAll(done), Serialize1(s));
  }

  lemma SerializeNext(seqs: seq<Sequence>, done: seq<Sequence>, s: Sequence)
    requires Shaped(seqs) && Shaped(done) && done + [s] <= seqs && s.offset < 65536 && MINMATCH <= s.mlen
    ensures Shaped(done + [s]) && SerializeAll(done + [s]) <= SerializeAll(seqs)
    ensures SerializeAll(done + [s]) == SerializeAll(done) + Serialize1(s)
  {
    hide Shaped, SerializeAll, Serialize1;
    SerializePrefix(done + [s], seqs);
    ShapedSnoc(done, s);
  }

  lemma LastReads(src: seq<byte>, ip: nat, last: seq<byte>, tag: nat)
    requires tag < 16 && HoldsAt(src, ip, SerializeLast(last, tag))
    ensures ip < |src| && LenFrom(src, ip + 1, src[ip] / 16) == Length(|last|, ip + |SerializeLast(last, tag)| - |last|)
    ensures ip + |SerializeLast(last, tag)| <= |src|
  {
    hide HoldsAt, LenBytes, LenFrom;
    var tok := 16 * Nibble(|last|) + tag;
    HoldsConcat(src, ip, [tok] + LenBytes(|last|), last);
    HoldsConcat(src, ip, [tok], LenBytes(|last|));
    InInput(src, ip, [tok] + LenBytes(|last|) + last);
    HoldsByte(src, ip, tok);
    LenFromBytes(src, ip + 1, |last|);
    assert tok / 16 == Nibble(|last|);
  }

  lemma InInput(src: seq<byte>, ip: nat, bs: seq<byte>)
    requires HoldsAt(src, ip, bs)
    ensures ip + |bs| <= |src|
  {
  }

  lemma SequenceReads(src: seq<byte>, ip: nat, s: Sequence)
    requires s.offset < 65536 && MINMATCH <= s.mlen && HoldsAt(src, ip, Serialize1(s))
    ensures ip < |src| && LenFrom(src, ip + 1, src[ip] / 16).Length?
    ensures var Length(ll, p) := LenFrom(src, ip + 1, src[ip] / 16);
            && ll == |s.lits| && p + ll + 2 <= |src| && src[p..p + ll] == s.lits && ReadLE16(src, p + ll) == s.offset
            && LenFrom(src, p + ll + 2, src[ip] % 16) == Length(s.mlen - MINMATCH, ip + |Serialize1(s)|)
  {
    hide LenBytes, LenFrom, Serialize1, ReadLE16;
    PartsOfBytes(src, ip, s);
    TokenSplit(s);
    var p := ip + 1 + |LenBytes(|s.lits|)|;
    LenFromBytes(src, ip + 1, |s.lits|);
    LenFromBytes(src, p + |s.lits| + 2, s.mlen - MINMATCH);
  }

  /** The sequence that is read when a token and the lengths after it are taken at their word. */
  function SequenceAt(src: seq<byte>, ip: nat): Sequence
    requires ip < |src| && LenFrom(src, ip + 1, src[ip] / 16).Length?
    requires var Length(ll, p) := LenFrom(src, ip + 1, src[ip] / 16);
             p + ll + 2 <= |src| && LenFrom(src, p + ll + 2, src[ip] % 16).Length?
  {
    var Length(ll, p) := LenFrom(src, ip + 1, src[ip] / 16);
    Sequence(src[p..p + ll], ReadLE16(src, p + ll), LenFrom(src, p + ll + 2, src[ip] % 16).len + MINMATCH)
  }

  /** What a block that is there makes the decoder read next, and that no check can fail on it. */
  lemma Expected(src: seq<byte>, n: nat, h: nat, cap: nat, b: Block, done: seq<Sequence>, ip: nat)
    requires BlockHere(src, n, h, cap, b) && done <= b.seqs && Shaped(done) && ip == |SerializeAll(done)|
    ensures ip < |src| && LenFrom(src, ip + 1, src[ip] / 16).Length?
    ensures var Length(ll, p) := LenFrom(src, ip + 1, src[ip] / 16);
            if done == b.seqs then Size(done) + ll == cap && ll == |b.last| && p + ll == n <= |src|
            else
              && Size(done) + ll + MFLIMIT <= cap && p + ll + 2 <= |src|
              && LenFrom(src, p + ll + 2, src[ip] % 16).Length?
              && var s := SequenceAt(src, ip);
                 Size(done) + ll + s.mlen + LASTLITERALS <= cap && s.offset <= h + Size(done) + ll
                   && done + [s] <= b.seqs
  {
    hide HoldsAt, Serialize, SerializeAll, SerializeLast, Serialize1, Fitting, LenFrom, ReadLE16, Shaped;
    FittingTag(h, b);
    Continues(src, n, b, done, ip);
    if done == b.seqs {
      LastReads(src, ip, b.last, b.tag);
    } else {
      var s := b.seqs[|done|];
      SequenceReads(src, ip, s);
      FittingAt(h, b, done, s);
      assert SequenceAt(src, ip) == s;
    }
  }

  lemma FittingTag(h: nat, b: Block)
    requires Fitting(h, b)
    ensures b.tag < 16
  {
  }

  // ----- The state of a decoding ---------------------------------------------------------------

  /** At a token: the sequences `done` have been read, and if their offsets are not zero, the output is their
      expansion. */
  ghost predicate AtToken(e: Env, m0: seq<byte>, m: seq<byte>, ip: nat, op: nat, done: seq<Sequence>) {
    && ValidEnv(e) && e.mode != WithPrefix64k && Frame(e, m0, m)
    && Shaped(done) && Reaching(|History(e, m0)|, done)
    && HoldsAt(e.src, 0, SerializeAll(done)) && ip == |SerializeAll(done)|
    && op == e.dst + Size(done) && op <= e.oend
    && (done != [] ==> op + LASTLITERALS <= e.oend && op - done[|done| - 1].mlen + MFLIMIT <= e.oend)
    && (Nonzero(done) ==> Window(e, m, op) == Expand(History(e, m0), done))
    && Leads(e.src, |History(e, m0)|, e.oend - e.dst, done)
  }

  /** The literals of a sequence are in place. */
  ghost predicate AtMatch(e: Env, m0: seq<byte>, m: seq<byte>, ip: nat, op: nat, done: seq<Sequence>, ll: nat, p: nat) {
    && ValidEnv(e) && e.mode != WithPrefix64k && Frame(e, m0, m)
    && ip < |e.src| && LenFrom(e.src, ip + 1, e.src[ip] / 16) == Length(ll, p) && p + ll <= |e.src|
    && e.dst + Size(done) + ll == op && op + MFLIMIT <= e.oend
    && (Nonzero(done) ==> Window(e, m, op) == Expand(History(e, m0), done) + e.src[p..p + ll])
  }

  lemma Begin(e: Env, m: seq<byte>)
    requires ValidEnv(e) && e.mode != WithPrefix64k && e.oend <= |m|
    ensures AtToken(e, m, m, 0, e.dst, [])
  {
    assert SerializeAll([]) == [];
  }

  /** A token, a length or literals that no block could have here. */
  lemma LiteralsRefused(e: Env, m0: seq<byte>, m: seq<byte>, ip: nat, op: nat, done: seq<Sequence>)
    requires AtToken(e, m0, m, ip, op, done)
    requires ip >= |e.src| || LenFrom(e.src, ip + 1, e.src[ip] / 16).NoLength? ||
             var Length(ll, p) := LenFrom(e.src, ip + 1, e.src[ip] / 16);
             op + ll > e.oend || p + ll > |e.src| || (op + ll != e.oend && op + ll + MFLIMIT > e.oend)
    ensures NoBlock(e.src, |History(e, m0)|, e.oend - e.dst)
  {
    hide BlockHere, LenFrom, Reaching, SerializeAll, Expand, SequenceAt;
    var h, cap := |History(e, m0)|, e.oend - e.dst;
    forall n, b
      ensures !BlockHere(e.src, n, h, cap, b)
    {
      if BlockHere(e.src, n, h, cap, b) {
        Expected(e.src, n, h, cap, b, done, ip);
        assert false;
      }
    }
  }

  /** An offset or a match length that no block could have here. */
  lemma MatchRefused(e: Env, m0: seq<byte>, m: seq<byte>, m': seq<byte>, ip: nat, op: nat, done: seq<Sequence>,
                     ll: nat, p: nat)
    requires AtToken(e, m0, m, ip, op, done) && AtMatch(e, m0, m', ip, op + ll, done, ll, p)
    requires p + ll + 2 > |e.src| || LenFrom(e.src, p + ll + 2, e.src[ip] % 16).NoLength? ||
             var s := SequenceAt(e.src, ip);
             op + ll + s.mlen + LASTLITERALS > e.oend || s.offset > |History(e, m0)| + (op - e.dst) + ll
    ensures NoBlock(e.src, |History(e, m0)|, e.oend - e.dst)
  {
    hide BlockHere, LenFrom, Reaching, SerializeAll, Expand, SequenceAt;
    var h, cap := |History(e, m0)|, e.oend - e.dst;
    forall n, b
      ensures !BlockHere(e.src, n, h, cap, b)
    {
      if BlockHere(e.src, n, h, cap, b) {
        Expected(e.src, n, h, cap, b, done, ip);
        assert false;
      }
    }
  }

  lemma LiteralsTaken(e: Env, m0: seq<byte>, m: seq<byte>, m': seq<byte>, ip: nat, op: nat, done: seq<Sequence>,
                      ll: nat, p: nat)
    requires AtToken(e, m0, m, ip, op, done) && ip < |e.src|
    requires LenFrom(e.src, ip + 1, e.src[ip] / 16) == Length(ll, p) && p + ll <= |e.src| && op + ll <= e.oend
    requires WritesOnly(e, op, m, m') && m'[op..op + ll] == e.src[p..p + ll]
    ensures Frame(e, m0, m')
    ensures Nonzero(done) ==> Window(e, m', op + ll) == Expand(History(e, m0), done) + e.src[p..p + ll]
    ensures op + ll + MFLIMIT <= e.oend ==> AtMatch(e, m0, m', ip, op + ll, done, ll, p)
  {
    hide LenFrom, Reaching, SerializeAll, Expand, Leads, Shaped, HoldsAt, Nonzero;
    FrameKept(e, m0, m, m', op);
    assert Window(e, m', op + ll) == Window(e, m', op) + m'[op..op + ll];
  }

  /** With the whole sequence copied, the decoder is at the next token. */
  lemma SequenceTaken(e: Env, m0: seq<byte>, m: seq<byte>, m1: seq<byte>, m': seq<byte>, ip: nat, op: nat,
                      done: seq<Sequence>, ll: nat, p: nat, q: nat, s: Sequence)
    requires AtToken(e, m0, m, ip, op, done) && AtMatch(e, m0, m1, ip, op + ll, done, ll, p) && p + ll + 2 <= |e.src|
    requires LenFrom(e.src, p + ll + 2, e.src[ip] % 16).Length? && s == SequenceAt(e.src, ip)
    requires q == LenFrom(e.src, p + ll + 2, e.src[ip] % 16).ip
    requires op + ll + s.mlen + LASTLITERALS <= e.oend && s.offset <= |History(e, m0)| + (op - e.dst) + ll
    requires WritesOnly(e, op + ll, m1, m') && (1 <= s.offset ==> MatchBytes(e, m', op + ll, s.mlen, s.offset))
    ensures AtToken(e, m0, m', q, op + ll + s.mlen, done + [s])
  {
    hide LenFrom, Reaching, SerializeAll, Expand, Leads, Shaped, HoldsAt, Nonzero, Serialize1, SequenceAt, MatchBytes;
    hide Window, Size;
    FrameKept(e, m0, m1, m', op + ll);
    SequenceLits(e.src, ip, ll, p);
    SequenceRead(e.src, ip, done, ll, p, q);
    ReachingSnoc(|History(e, m0)|, done, s, ll, op - e.dst);
    SizeSnoc(done, s);
    LeadsOn(e, m0, m, ip, op, done, ll, p);
    NonzeroSnoc(done, s);
    if Nonzero(done + [s]) {
      MatchOut(e, m1, m', Expand(History(e, m0), done) + s.lits, s.offset, s.mlen, op + ll);
      ExpandSnoc(History(e, m0), done, s);
    }
  }

  lemma SequenceLits(src: seq<byte>, ip: nat, ll: nat, p: nat)
    requires ip < |src| && LenFrom(src, ip + 1, src[ip] / 16) == Length(ll, p) && p + ll + 2 <= |src|
    requires LenFrom(src, p + ll + 2, src[ip] % 16).Length?
    ensures SequenceAt(src, ip).lits == src[p..p + ll] && SequenceAt(src, ip).offset < 65536
    ensures SequenceAt(src, ip).mlen == LenFrom(src, p + ll + 2, src[ip] % 16).len + MINMATCH
    ensures SequenceAt(src, ip).offset == ReadLE16(src, p + ll)
  {
  }

  /** What was read is the serialisation of the sequence. */
  lemma SequenceRead(src: seq<byte>, ip: nat, done: seq<Sequence>, ll: nat, p: nat, q: nat)
    requires Shaped(done) && HoldsAt(src, 0, SerializeAll(done)) && ip == |SerializeAll(done)|
    requires ip < |src| && LenFrom(src, ip + 1, src[ip] / 16) == Length(ll, p) && p + ll + 2 <= |src|
    requires LenFrom(src, p + ll + 2, src[ip] % 16).Length? && q == LenFrom(src, p + ll + 2, src[ip] % 16).ip
    ensures var s := SequenceAt(src, ip);
            && s.offset < 65536 && MINMATCH <= s.mlen && Shaped(done + [s])
            && HoldsAt(src, 0, SerializeAll(done + [s])) && q == |SerializeAll(done + [s])|
  {
    hide LenFrom, SerializeAll, Serialize1, ReadLE16, SequenceAt, Shaped;
    var s := SequenceAt(src, ip);
    SequenceLits(src, ip, ll, p);
    ParseSoundParts(src, ip, s, p, q);
    BytesOfParts(src, ip, s, p, q);
    ShapedSnoc(done, s);
    HoldsConcat(src, 0, SerializeAll(done), Serialize1(s));
  }

  lemma ReachingSnoc(h: nat, done: seq<Sequence>, s: Sequence, ll: nat, size: nat)
    requires Reaching(h, done) && s.offset < 65536 && MINMATCH <= s.mlen && ll == |s.lits| && size == Size(done)
    requires s.offset <= h + size + ll
    ensures Reaching(h, done + [s])
  {
    assert (done + [s])[..|done|] == done;
  }

  lemma NonzeroSnoc(done: seq<Sequence>, s: Sequence)
    ensures Nonzero(done + [s]) <==> Nonzero(done) && 1 <= s.offset
  {
    assert forall x :: x in done + [s] <==> x in done || x == s;
  }

  lemma LeadsOn(e: Env, m0: seq<byte>, m: seq<byte>, ip: nat, op: nat, done: seq<Sequence>, ll: nat, p: nat)
    requires AtToken(e, m0, m, ip, op, done)
    requires ip < |e.src| && LenFrom(e.src, ip + 1, e.src[ip] / 16) == Length(ll, p) && p + ll + 2 <= |e.src|
    requires LenFrom(e.src, p + ll + 2, e.src[ip] % 16).Length? && op + ll + MFLIMIT <= e.oend
    ensures Leads(e.src, |History(e, m0)|, e.oend - e.dst, done + [SequenceAt(e.src, ip)])
  {
    hide BlockHere, LenFrom, Reaching, SerializeAll, Expand, SequenceAt;
    var h, cap := |History(e, m0)|, e.oend - e.dst;
    forall n, b | BlockHere(e.src, n, h, cap, b)
      ensures done + [SequenceAt(e.src, ip)] <= b.seqs
    {
      Expected(e.src, n, h, cap, b, done, ip);
    }
  }

  /** Literals that fill the output complete a block, and the only one there is. */
  lemma Completed(e: Env, m0: seq<byte>, m: seq<byte>, ip: nat, op: nat, done: seq<Sequence>, ll: nat, p: nat)
    requires AtToken(e, m0, m, ip, op, done) && ip < |e.src|
    requires LenFrom(e.src, ip + 1, e.src[ip] / 16) == Length(ll, p) && p + ll <= |e.src| && op + ll == e.oend
    ensures var h, cap, b := |History(e, m0)|, e.oend - e.dst, Block(done, e.src[p..p + ll], e.src[ip] % 16);
            && BlockHere(e.src, p + ll, h, cap, b)
            && forall n, b' {:trigger BlockHere(e.src, n, h, cap, b')} ::
                 BlockHere(e.src, n, h, cap, b') ==> n == p + ll && b' == b
  {
    hide BlockHere, LenFrom, Reaching, SerializeAll, Expand, SequenceAt, HoldsAt;
    var h, cap, b := |History(e, m0)|, e.oend - e.dst, Block(done, e.src[p..p + ll], e.src[ip] % 16);
    BlockIsHere(e.src, h, cap, done, ip, ll, p);
    forall n, b' | BlockHere(e.src, n, h, cap, b')
      ensures n == p + ll && b' == b
    {
      Expected(e.src, n, h, cap, b', done, ip);
      SameEnd(e.src, n, h, cap, p + ll, b, b');
    }
  }

  lemma SameEnd(src: seq<byte>, n: nat, h: nat, cap: nat, n': nat, b: Block, b': Block)
    requires BlockHere(src, n', h, cap, b) && BlockHere(src, n, h, cap, b') && n == n'
    ensures b == b'
  {
    hide Fitting, Shaped, Serialize, Parse;
    FittingTag(h, b);
    FittingTag(h, b');
    assert Serialize(b) == src[0..n] == Serialize(b');
    ParseSerialize(b);
    ParseSerialize(b');
  }

  lemma BlockIsHere(src: seq<byte>, h: nat, cap: nat, done: seq<Sequence>, ip: nat, ll: nat, p: nat)
    requires Shaped(done) && Reaching(h, done) && HoldsAt(src, 0, SerializeAll(done)) && ip == |SerializeAll(done)|
    requires ip < |src| && LenFrom(src, ip + 1, src[ip] / 16) == Length(ll, p) && p + ll <= |src|
    requires Size(done) + ll == cap
    requires done != [] ==> LASTLITERALS <= ll && MFLIMIT <= done[|done| - 1].mlen + ll
    ensures BlockHere(src, p + ll, h, cap, Block(done, src[p..p + ll], src[ip] % 16))
  {
    hide LenFrom, Reaching, SerializeAll, HoldsAt, LenBytes, Shaped;
    var last, tag := src[p..p + ll], src[ip] % 16;
    var tok := 16 * Nibble(ll) + tag;
    LenFromHolds(src, ip + 1, src[ip] / 16);
    HoldsByte(src, ip, tok);
    HoldsConcat(src, ip, [tok], LenBytes(ll));
    HoldsItself(src, p, ll);
    HoldsConcat(src, ip, [tok] + LenBytes(ll), last);
    HoldsConcat(src, 0, SerializeAll(done), SerializeLast(last, tag));
  }

  lemma HoldsItself(src: seq<byte>, p: nat, n: nat)
    requires p + n <= |src|
    ensures HoldsAt(src, p, src[p..p + n])
  {
  }

  // ----- Copying a match -----------------------------------------------------------------------

  /** Copies a match a byte at a time, after the part of it that lies in the dictionary. */
  method UnsafeCopy(e: Env, mem: array<byte>, offset: nat, ml0: nat, op0: nat)
    requires ValidEnv(e) && e.mode != WithPrefix64k && offset <= |e.dict| + op0 - Low(e)
    requires e.dst <= op0 && op0 + ml0 <= e.oend <= mem.Length
    modifies mem
    ensures WritesOnly(e, op0, old(mem[..]), mem[..])
    ensures 1 <= offset ==> MatchBytes(e, mem[..], op0, ml0, offset)
  {
    var op, ml, match_ := op0, ml0, op0 - offset;
    if offset > op - e.lowPrefix {
      var extMatch := |e.dict| - (offset - (op - e.lowPrefix));
      var extml := |e.dict| - extMatch;
      if extml > ml {
        CopyIn(mem, op, e.dict, extMatch, ml);
        op := op + ml;
        ml := 0;
      } else {
        CopyIn(mem, op, e.dict, extMatch, extml);
        op := op + extml;
        ml := ml - extml;
      }
      match_ := e.lowPrefix;
    }
    UnsafeBytes(e, mem, offset, ml, op, match_, op0);
  }

  /** The slow loop, which supports overlap. With offset zero it copies every byte onto itself. */
  method UnsafeBytes(e: Env, mem: array<byte>, offset: nat, ml: nat, op: nat, match_: int, op0: nat)
    requires ValidEnv(e) && offset <= |e.dict| + op0 - Low(e) && e.dst <= op0 <= op && op + ml <= e.oend <= mem.Length
    requires ml > 0 ==> match_ == op - offset && Low(e) <= match_
    requires 1 <= offset ==> MatchBytes(e, mem[..], op0, op - op0, offset)
    modifies mem
    ensures forall i :: 0 <= i < mem.Length && !(op <= i < op + ml) ==> mem[i] == old(mem[i])
    ensures 1 <= offset ==> MatchBytes(e, mem[..], op0, op - op0 + ml, offset)
  {
    var u := 0;
    while u < ml
      invariant u <= ml
      invariant forall i :: 0 <= i < mem.Length && !(op <= i < op + u) ==> mem[i] == old(mem[i])
      invariant 1 <= offset ==> MatchBytes(e, mem[..], op0, op - op0 + u, offset)
    {
      ghost var m := mem[..];
      mem[op + u] := mem[match_ + u];
      if 1 <= offset {
        MatchBytesStep(e, m, mem[..], op0, op + u, offset);
      }
      u := u + 1;
    }
  }

  lemma MatchBytesStep(e: Env, m: seq<byte>, m': seq<byte>, op0: nat, i: nat, off: nat)
    requires ValidEnv(e) && e.dst <= op0 <= i < |m| == |m'| && 1 <= off
    requires MatchBytes(e, m, op0, i - op0, off)
    requires Low(e) <= i - off && m' == m[i := m[i - off]]
    ensures MatchBytes(e, m', op0, i - op0 + 1, off)
  {
  }

  // ----- The decoder ---------------------------------------------------------------------------

  datatype Step = Stop(outcome: Outcome) | GoOn

  /** The literals of a sequence. */
  method UnsafeLiterals(e: Env, mem: array<byte>, ip: nat, op: nat, ghost m0: seq<byte>, ghost done: seq<Sequence>)
    returns (step: Step, ll: nat, p: nat, ghost last: Block)
    requires AtToken(e, m0, mem[..], ip, op, done)
    modifies mem
    ensures Frame(e, m0, mem[..])
    ensures step.GoOn? ==>
              AtToken(e, m0, old(mem[..]), ip, op, done) && AtMatch(e, m0, mem[..], ip, op + ll, done, ll, p)
    ensures step.Stop? ==> Answer(e, m0, mem[..], step.outcome, last)
  {
    hide AtToken, AtMatch, Frame, BlockHere, NoBlock, Leads, LenFrom, History, Expand, WritesOnly, Window;
    ghost var m := mem[..];
    last, ll, p := Block(done, [], 0), 0, 0;
    TokenState(e, m0, m, ip, op, done);
    if ip >= |e.src| {
      LiteralsRefused(e, m0, m, ip, op, done);
      return Stop(Overrun), ll, p, last;
    }
    var ok;
    ok, ll, p := ReadLength(e.src, ip + 1, e.src[ip] / 16);
    if !ok {
      LiteralsRefused(e, m0, m, ip, op, done);
      return Stop(Overrun), ll, p, last;
    }
    if e.oend - op < ll {
      LiteralsRefused(e, m0, m, ip, op, done);
      return Stop(Refused), ll, p, last;
    }
    if p + ll > |e.src| {
      LiteralsRefused(e, m0, m, ip, op, done);
      return Stop(Overrun), ll, p, last;
    }
    ShortLits(e, mem, p, op, ll, ll);
    LiteralsTaken(e, m0, m, mem[..], ip, op, done, ll, p);
    if e.oend - (op + ll) < MFLIMIT {
      if op + ll == e.oend {
        last := Block(done, e.src[p..p + ll], e.src[ip] % 16);
        Completed(e, m0, m, ip, op, done, ll, p);
        OutputIs(e, m0, mem[..], last);
        return Stop(Read(p + ll)), ll, p, last;
      }
      LiteralsRefused(e, m0, m, ip, op, done);
      return Stop(Refused), ll, p, last;
    }
    step := GoOn;
  }

  /** What an outcome says. */
  ghost predicate Answer(e: Env, m0: seq<byte>, m: seq<byte>, r: Outcome, b: Block) {
    && ValidEnv(e) && Frame(e, m0, m)
    && var hist := History(e, m0);
       var cap := e.oend - e.dst;
       if r.Read? then
         && BlockHere(e.src, r.n, |hist|, cap, b)
         && (forall n, b' {:trigger BlockHere(e.src, n, |hist|, cap, b')} ::
               BlockHere(e.src, n, |hist|, cap, b') ==> n == r.n && b' == b)
         && (Nonzero(b.seqs) ==> Output(e, m0, m, cap) == ExpandBlock(hist, b))
       else NoBlock(e.src, |hist|, cap)
  }

  lemma TokenState(e: Env, m0: seq<byte>, m: seq<byte>, ip: nat, op: nat, done: seq<Sequence>)
    requires AtToken(e, m0, m, ip, op, done)
    ensures ValidEnv(e) && e.mode != WithPrefix64k && Frame(e, m0, m) && e.oend <= |m| == |m0| && ip <= |e.src|
    ensures e.dst <= op <= e.oend && op == e.dst + Size(done)
  {
  }

  lemma OutputIs(e: Env, m0: seq<byte>, m: seq<byte>, b: Block)
    requires ValidEnv(e) && Frame(e, m0, m)
    requires Nonzero(b.seqs) ==> Window(e, m, e.oend) == Expand(History(e, m0), b.seqs) + b.last
    ensures Nonzero(b.seqs) ==> Output(e, m0, m, e.oend - e.dst) == ExpandBlock(History(e, m0), b)
  {
    hide Nonzero, Expand;
    assert m[Low(e)..e.dst] == m0[Low(e)..e.dst];
    assert m[Low(e)..e.oend] == m[Low(e)..e.dst] + m[e.dst..e.oend];
    assert Window(e, m, e.oend) == History(e, m0) + m[e.dst..e.oend];
  }

  /** The match of a sequence. */
  method UnsafeMatch(e: Env, mem: array<byte>, ip: nat, op: nat, ll: nat, p: nat,
                     ghost m0: seq<byte>, ghost m: seq<byte>, ghost done: seq<Sequence>)
    returns (step: Step, ip': nat, op': nat, ghost done': seq<Sequence>)
    requires AtToken(e, m0, m, ip, op, done) && AtMatch(e, m0, mem[..], ip, op + ll, done, ll, p)
    modifies mem
    ensures Frame(e, m0, mem[..])
    ensures step.GoOn? ==> ip < ip' && AtToken(e, m0, mem[..], ip', op', done')
    ensures step.Stop? ==> !step.outcome.Read? && NoBlock(e.src, |History(e, m0)|, e.oend - e.dst)
  {
    hide AtToken, BlockHere, NoBlock, Leads, LenFrom, Expand, WritesOnly, MatchBytes, Window, ReadLE16, SequenceAt;
    ghost var m1 := mem[..];
    ip', op', done' := ip, op, done;
    TokenState(e, m0, m, ip, op, done);
    if p + ll + 2 > |e.src| {
      MatchRefused(e, m0, m, m1, ip, op, done, ll, p);
      return Stop(Overrun), ip', op', done';
    }
    var offset := ReadLE16(e.src, p + ll);
    var ok, ml, q := ReadLength(e.src, p + ll + 2, e.src[ip] % 16);
    if !ok {
      MatchRefused(e, m0, m, m1, ip, op, done, ll, p);
      return Stop(Overrun), ip', op', done';
    }
    SequenceLits(e.src, ip, ll, p);
    ml := ml + MINMATCH;
    var at := op + ll;
    if e.oend - at < ml || offset > at - e.lowPrefix + |e.dict| {
      MatchRefused(e, m0, m, m1, ip, op, done, ll, p);
      return Stop(Refused), ip', op', done';
    }
    UnsafeCopy(e, mem, offset, ml, at);
    FrameKept(e, m0, m1, mem[..], at);
    if e.oend - (at + ml) < LASTLITERALS {
      MatchRefused(e, m0, m, m1, ip, op, done, ll, p);
      return Stop(Refused), ip', op', done';
    }
    SequenceTaken(e, m0, m, m1, mem[..], ip, op, done, ll, p, q, SequenceAt(e.src, ip));
    SequenceLength(e.src, ip, ll, p);
    step, ip', op', done' := GoOn, q, at + ml, done + [SequenceAt(e.src, ip)];
  }

  lemma SequenceLength(src: seq<byte>, ip: nat, ll: nat, p: nat)
    requires ip < |src| && LenFrom(src, ip + 1, src[ip] / 16) == Length(ll, p) && p + ll + 2 <= |src|
    requires LenFrom(src, p + ll + 2, src[ip] % 16).Length?
    ensures ip < LenFrom(src, p + ll + 2, src[ip] % 16).ip <= |src|
  {
  }

  /** On any input: it succeeds exactly when the input begins with a block that fits the history and fills the
      output, and then returns the size of that block; if no offset is zero, the output is its expansion. */
  method DecompressUnsafeGeneric(e: Env, mem: array<byte>) returns (r: Outcome, ghost block: Block)
    requires ValidEnv(e) && e.mode != WithPrefix64k && e.oend <= mem.Length
    modifies mem
    ensures Answer(e, old(mem[..]), mem[..], r, block)
  {
    hide AtToken, AtMatch, Frame, BlockHere, NoBlock, History, Answer;
    ghost var m0 := mem[..];
    var ip, op := 0, e.dst;
    ghost var done: seq<Sequence> := [];
    Begin(e, m0);
    while true
      invariant AtToken(e, m0, mem[..], ip, op, done) && ip <= |e.src|
      decreases |e.src| - ip
    {
      ghost var m := mem[..];
      var step, ll, p;
      step, ll, p, block := UnsafeLiterals(e, mem, ip, op, m0, done);
      if step.Stop? {
        return step.outcome, block;
      }
      step, ip, op, done := UnsafeMatch(e, mem, ip, op, ll, p, m0, m, done);
      if step.Stop? {
        Nothing(e, m0, mem[..], step.outcome, block);
        return step.outcome, block;
      }
      TokenState(e, m0, mem[..], ip, op, done);
    }
  }

  lemma Nothing(e: Env, m0: seq<byte>, m: seq<byte>, r: Outcome, b: Block)
    requires ValidEnv(e) && Frame(e, m0, m) && !r.Read? && NoBlock(e.src, |History(e, m0)|, e.oend - e.dst)
    ensures Answer(e, m0, m, r, b)
  {
  }

  /** A block that a compressor wrote against the history, at the beginning of the input. */
  lemma EncodesIsHere(src: seq<byte>, n: nat, hist: seq<byte>, data: seq<byte>) returns (b: Block)
    requires n <= |src| && Encodes(src[..n], hist, data)
    ensures BlockHere(src, n, |hist|, |data|, b) && Nonzero(b.seqs) && ExpandBlock(hist, b) == hist + data
  {
    hide Parse, Expand, SerializeAll, Reaching, EndOk;
    b := Parse(src[..n]).block;
    ParseSound(src[..n]);
    ConformingFits(|hist|, b);
    OffsetsNonzero(|hist|, b.seqs);
    assert src[0..n] == src[..n];
    assert |ExpandBlock(hist, b)| == |hist| + BlockSize(b);
  }

  lemma {:induction false} OffsetsNonzero(h: nat, seqs: seq<Sequence>)
    requires OffsetsOk(h, seqs)
    ensures Nonzero(seqs)
  {
    if seqs != [] {
      OffsetsNonzero(h, seqs[..|seqs| - 1]);
      NonzeroSnoc(seqs[..|seqs| - 1], seqs[|seqs| - 1]);
      assert seqs == seqs[..|seqs| - 1] + [seqs[|seqs| - 1]];
    }
  }
}

/**
 Input that is cut off: what can be read of a block of which only the first bytes are there. Partial
 decoding goes that far.
 */
module Lz4Cut {
  import opened ByteSeq
  import opened Lz4Format

  // ----- Reading as far as there is input ------------------------------------------------------

  /** At a token. */
  function CutFrom(src: seq<byte>, ip: nat, done: seq<Sequence>): Block
    decreases |src| - ip, 3
  {
    if ip >= |src| then Block(done, [], 0)
    else
      match LenFrom(src, ip + 1, src[ip] / 16)
      case NoLength => Block(done, [], 0)
      case Length(ll, p) => CutLits(src, p, ll, src[ip] % 16, done)
  }

  /** At the literals of a sequence: those that are there, and nothing more if no offset can follow and a token
      behind it. */
  function CutLits(src: seq<byte>, ip: nat, ll: nat, nib: nat, done: seq<Sequence>): Block
    requires ip <= |src|
    decreases |src| - ip, 2
  {
    if ip + ll > |src| then Block(done, src[ip..], nib)
    else if ip + ll + 2 >= |src| then Block(done, src[ip..ip + ll], nib)
    else CutOffset(src, ip + ll, nib, src[ip..ip + ll], done)
  }

  function CutOffset(src: seq<byte>, ip: nat, nib: nat, lits: seq<byte>, done: seq<Sequence>): Block
    requires ip + 2 <= |src|
    decreases |src| - ip, 1
  {
    CutMatch(src, ip + 2, nib, ReadLE16(src, ip), lits, done)
  }

  /** At the extension of the match length. */
  function CutMatch(src: seq<byte>, ip: nat, nib: nat, off: nat, lits: seq<byte>, done: seq<Sequence>): Block
    requires ip <= |src|
    decreases |src| - ip, 4
  {
    match LenFrom(src, ip, nib)
    case NoLength => Block(done, lits, nib)
    case Length(ml, q) => CutFrom(src, q, done + [Sequence(lits, off, ml + MINMATCH)])
  }

  /** What can be read of the input. */
  function Cut(src: seq<byte>): Block {
    CutFrom(src, 0, [])
  }

  lemma {:induction false} CutKeepsDone(src: seq<byte>, ip: nat, done: seq<Sequence>)
    ensures done <= CutFrom(src, ip, done).seqs
    decreases |src| - ip
  {
    if ip < |src| {
      match LenFrom(src, ip + 1, src[ip] / 16)
      case NoLength =>
      case Length(ll, p) =>
        assert CutFrom(src, ip, done) == CutLits(src, p, ll, src[ip] % 16, done);
        CutLitsKeepsDone(src, p, ll, src[ip] % 16, done);
    }
  }

  lemma {:induction false} CutLitsKeepsDone(src: seq<byte>, ip: nat, ll: nat, nib: nat, done: seq<Sequence>)
    requires ip <= |src|
    ensures done <= CutLits(src, ip, ll, nib, done).seqs
    decreases |src| - ip
  {
    if ip + ll + 2 < |src| {
      var s, q := CutAhead(src, ip + ll, nib, src[ip..ip + ll], done);
      if q != 0 {
        CutKeepsDone(src, q, done + [s]);
      }
    }
  }

  /** Behind literals: a sequence and the position after it, or nothing but the literals (`q` is 0). */
  lemma CutAhead(src: seq<byte>, at: nat, nib: nat, lits: seq<byte>, done: seq<Sequence>)
    returns (s: Sequence, q: nat)
    requires at + 2 <= |src|
    ensures s.lits == lits && s.offset == ReadLE16(src, at) && MINMATCH <= s.mlen
    ensures LenFrom(src, at + 2, nib).Length? ==>
              && at + 2 <= q <= |src| && LenFrom(src, at + 2, nib) == Length(s.mlen - MINMATCH, q)
              && CutOffset(src, at, nib, lits, done) == CutFrom(src, q, done + [s])
    ensures LenFrom(src, at + 2, nib).NoLength? ==>
              q == 0 && CutOffset(src, at, nib, lits, done) == Block(done, lits, nib)
  {
    var off := ReadLE16(src, at);
    assert CutOffset(src, at, nib, lits, done) == CutMatch(src, at + 2, nib, off, lits, done);
    match LenFrom(src, at + 2, nib)
    case NoLength => s, q := Sequence(lits, off, MINMATCH), 0;
    case Length(ml, q') => s, q := Sequence(lits, off, ml + MINMATCH), q';
  }

  // ----- What lies ahead -----------------------------------------------------------------------

  lemma SequenceAhead(src: seq<byte>, at: nat, nib: nat, lits: seq<byte>, done: seq<Sequence>)
    returns (s: Sequence, q: nat)
    requires at <= |src| && ParseOffset(src, at, nib, lits, done).Parsed?
    ensures s.lits == lits && at + 2 <= q <= |src|
    ensures ParseOffset(src, at, nib, lits, done) == ParseFrom(src, q, done + [s])
  {
    var off := ReadLE16(src, at);
    assert ParseOffset(src, at, nib, lits, done) == ParseMatch(src, at + 2, nib, off, lits, done);
    var Length(ml, q') := LenFrom(src, at + 2, nib);
    s, q := Sequence(lits, off, ml + MINMATCH), q';
  }

  lemma LitsAhead(hist: seq<byte>, done: seq<Sequence>, s: Sequence, b: Block)
    requires done + [s] <= b.seqs
    ensures var w := Expand(hist, done) + s.lits; |w| <= |ExpandBlock(hist, b)| && ExpandBlock(hist, b)[..|w|] == w
    ensures var w := Expand(hist, done + [s]); |w| <= |ExpandBlock(hist, b)| && ExpandBlock(hist, b)[..|w|] == w
  {
    hide Expand;
    var w := Expand(hist, done) + s.lits;
    ExpandSnoc(hist, done, s);
    var x := Expand(hist, done + [s]);
    CopyMatchKeeps(w, s.offset, s.mlen);
    ExpandPrefix(hist, done + [s], b.seqs);
    SizeMonotone(done + [s], b.seqs);
    var y := Expand(hist, b.seqs);
    assert x == y[..|x|];
    assert ExpandBlock(hist, b)[..|x|] == x;
    assert ExpandBlock(hist, b)[..|w|] == x[..|w|];
  }

  /** The block that parses from here begins with the literals at hand. */
  lemma WholeAhead(src: seq<byte>, hist: seq<byte>, ip: nat, ll: nat, nib: nat, done: seq<Sequence>)
    requires ip + ll <= |src| && ParseLits(src, ip, ll, nib, done).Parsed?
    ensures var b := ParseLits(src, ip, ll, nib, done).block;
            var w := Expand(hist, done) + src[ip..ip + ll];
            |w| <= |ExpandBlock(hist, b)| && ExpandBlock(hist, b)[..|w|] == w
    ensures ip + ll == |src| ==>
              |ExpandBlock(hist, ParseLits(src, ip, ll, nib, done).block)| == |hist| + Size(done) + ll
  {
    hide Expand;
    var b := ParseLits(src, ip, ll, nib, done).block;
    if ip + ll < |src| {
      var lits := src[ip..ip + ll];
      var s, q := SequenceAhead(src, ip + ll, nib, lits, done);
      ParseKeepsDone(src, q, done + [s]);
      LitsAhead(hist, done, s, b);
    }
  }

  lemma PrefixOfPrefix(full: seq<byte>, w: seq<byte>, v: seq<byte>, n: nat)
    requires |w| <= |full| && full[..|w|] == w
    requires |v| <= |w| && w[..|v|] == v && n <= |v|
    ensures full[..n] == v[..n]
  {
    assert full[..n] == full[..|w|][..|v|][..n];
  }

  /** The same for input that is cut off: what there is of the literals at hand. */
  lemma CutWholeAhead(src: seq<byte>, hist: seq<byte>, ip: nat, ll: nat, nib: nat, done: seq<Sequence>, lits: seq<byte>)
    requires ip <= |src| && lits == src[ip..if ip + ll <= |src| then ip + ll else |src|]
    ensures var b := CutLits(src, ip, ll, nib, done);
            var w := Expand(hist, done) + lits;
            && |w| <= |ExpandBlock(hist, b)| && ExpandBlock(hist, b)[..|w|] == w
            && (ip + ll + 2 >= |src| ==> |ExpandBlock(hist, b)| == |w|)
  {
    hide Expand;
    var b := CutLits(src, ip, ll, nib, done);
    if ip + ll + 2 < |src| {
      var s, q := CutAhead(src, ip + ll, nib, lits, done);
      if q != 0 {
        CutKeepsDone(src, q, done + [s]);
        LitsAhead(hist, done, s, b);
      }
    }
  }

  // ----- Cutting a block -----------------------------------------------------------------------

  lemma {:induction false} ReadLenLonger(src: seq<byte>, full: seq<byte>, ip: nat, acc: nat)
    requires src <= full && ReadLen(src, ip, acc).Length?
    ensures ReadLen(full, ip, acc) == ReadLen(src, ip, acc)
    decreases |src| - ip
  {
    if src[ip] == 255 {
      ReadLenLonger(src, full, ip + 1, acc + 255);
    }
  }

  lemma LenFromLonger(src: seq<byte>, full: seq<byte>, ip: nat, nib: nat)
    requires src <= full && ip <= |src| && LenFrom(src, ip, nib).Length?
    ensures LenFrom(full, ip, nib) == LenFrom(src, ip, nib)
  {
    if nib == 15 {
      ReadLenLonger(src, full, ip, 15);
    }
  }

  /** `b` stands for the beginning of what `whole` stands for. */
  predicate Begins(hist: seq<byte>, b: Block, whole: Block) {
    && b.seqs <= whole.seqs && |ExpandBlock(hist, b)| <= |ExpandBlock(hist, whole)|
    && ExpandBlock(hist, whole)[..|ExpandBlock(hist, b)|] == ExpandBlock(hist, b)
  }

  /** What can be read of the first bytes of a block stands for the beginning of what the block stands for. */
  lemma {:induction false} CutOfPrefix(src: seq<byte>, full: seq<byte>, hist: seq<byte>, ip: nat, done: seq<Sequence>)
    requires src <= full && ParseFrom(full, ip, done).Parsed?
    ensures Begins(hist, CutFrom(src, ip, done), ParseFrom(full, ip, done).block)
    decreases |src| - ip
  {
    hide Expand, Begins;
    var whole := ParseFrom(full, ip, done).block;
    if ip >= |src| || LenFrom(src, ip + 1, src[ip] / 16).NoLength? {
      ParseKeepsDone(full, ip, done);
      DoneBegins(hist, done, 0, whole);
    } else {
      var Length(ll, p) := LenFrom(src, ip + 1, src[ip] / 16);
      LenFromLonger(src, full, ip + 1, src[ip] / 16);
      assert ParseFrom(full, ip, done) == ParseLits(full, p, ll, src[ip] % 16, done);
      CutOfLits(src, full, hist, p, ll, src[ip] % 16, done);
    }
  }

  lemma {:induction false} CutOfLits(src: seq<byte>, full: seq<byte>, hist: seq<byte>, ip: nat, ll: nat, nib: nat,
                                     done: seq<Sequence>)
    requires src <= full && ip <= |src| && ParseLits(full, ip, ll, nib, done).Parsed?
    ensures Begins(hist, CutLits(src, ip, ll, nib, done), ParseLits(full, ip, ll, nib, done).block)
    decreases |src| - ip
  {
    hide Expand, Begins, ParseOffset, CutOffset;
    var whole := ParseLits(full, ip, ll, nib, done).block;
    WholeAhead(full, hist, ip, ll, nib, done);
    ParseLitsKeepsDone(full, ip, ll, nib, done);
    var there := src[ip..if ip + ll <= |src| then ip + ll else |src|];
    ThereOf(src, full, ip, ip + |there|, ip + ll);
    LitsBegin(hist, done, full[ip..ip + ll], there, nib, whole);
    if ip + ll + 2 >= |src| {
      CutLitsShort(src, ip, ll, nib, done);
    } else {
      var s, q := BothGoOn(src, full, ip, ll, nib, done);
      if q != 0 {
        CutOfPrefix(src, full, hist, q, done + [s]);
      }
    }
  }

  lemma BothGoOn(src: seq<byte>, full: seq<byte>, ip: nat, ll: nat, nib: nat, done: seq<Sequence>)
    returns (s: Sequence, q: nat)
    requires src <= full && ip <= |src| && ip + ll + 2 < |src|
    ensures q == 0 ==> CutLits(src, ip, ll, nib, done) == Block(done, src[ip..ip + ll], nib)
    ensures q != 0 ==>
              && ip < q <= |src| && CutLits(src, ip, ll, nib, done) == CutFrom(src, q, done + [s])
              && ParseLits(full, ip, ll, nib, done) == ParseFrom(full, q, done + [s])
  {
    hide CutOffset, CutFrom, ParseFrom, LenFrom;
    var at := ip + ll;
    var lits := src[ip..at];
    ThereOf(src, full, ip, at, at);
    assert full[ip..at][..ll] == full[ip..at] == lits;
    s, q := CutAhead(src, at, nib, lits, done);
    if q != 0 {
      LenFromLonger(src, full, at + 2, nib);
      assert ReadLE16(full, at) == ReadLE16(src, at);
      assert ParseLits(full, ip, ll, nib, done) == ParseOffset(full, at, nib, lits, done);
      assert ParseOffset(full, at, nib, lits, done) == ParseMatch(full, at + 2, nib, s.offset, lits, done);
    }
  }

  lemma ThereOf(src: seq<byte>, full: seq<byte>, a: nat, b: nat, c: nat)
    requires src <= full && a <= b <= |src| && b <= c <= |full|
    ensures src[a..b] == full[a..c][..b - a]
  {
    assert src == full[..|src|];
    assert full[..|src|][a..b] == full[a..b] == full[a..c][..b - a];
  }

  lemma CutLitsShort(src: seq<byte>, ip: nat, ll: nat, nib: nat, done: seq<Sequence>)
    requires ip <= |src| && ip + ll + 2 >= |src|
    ensures CutLits(src, ip, ll, nib, done) == Block(done, src[ip..if ip + ll <= |src| then ip + ll else |src|], nib)
  {
    assert src[ip..] == src[ip..|src|];
  }

  lemma ParseLitsKeepsDone(src: seq<byte>, ip: nat, ll: nat, nib: nat, done: seq<Sequence>)
    requires ip <= |src| && ParseLits(src, ip, ll, nib, done).Parsed?
    ensures done <= ParseLits(src, ip, ll, nib, done).block.seqs
  {
    if ip + ll < |src| {
      var s, q := SequenceAhead(src, ip + ll, nib, src[ip..ip + ll], done);
      ParseKeepsDone(src, q, done + [s]);
    }
  }

  lemma DoneBegins(hist: seq<byte>, done: seq<Sequence>, tag: nat, whole: Block)
    requires done <= whole.seqs
    ensures Begins(hist, Block(done, [], tag), whole)
  {
    hide Expand;
    ExpandPrefix(hist, done, whole.seqs);
    SizeMonotone(done, whole.seqs);
    var x, y := Expand(hist, done), Expand(hist, whole.seqs);
    assert x + [] == x && (y + whole.last)[..|x|] == y[..|x|];
  }

  lemma LitsBegin(hist: seq<byte>, done: seq<Sequence>, lits: seq<byte>, there: seq<byte>, nib: nat, whole: Block)
    requires done <= whole.seqs && |there| <= |lits| && there == lits[..|there|]
    requires var w := Expand(hist, done) + lits;
             |w| <= |ExpandBlock(hist, whole)| && ExpandBlock(hist, whole)[..|w|] == w
    ensures Begins(hist, Block(done, there, nib), whole)
  {
    hide Expand;
    var w, x := Expand(hist, done) + lits, Expand(hist, done) + there;
    assert w[..|x|] == x;
    assert ExpandBlock(hist, whole)[..|x|] == ExpandBlock(hist, whole)[..|w|][..|x|];
  }
}

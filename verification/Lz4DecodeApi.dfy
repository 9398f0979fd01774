/**
 The decoding entry points: which history each hands to `LZ4_decompress_generic`, and what they give
 back for a block that some compressor wrote against that history.
 */
module Lz4DecodeApi {
  import opened ByteSeq
  import opened Lz4Format
  import opened Lz4Cut
  import opened Lz4DecodeState
  import opened Lz4Decode

  // ----- Histories -----------------------------------------------------------------------------

  /** How much of a history an offset can reach. */
  function Reach(hist: seq<byte>): (k: nat)
    ensures k <= |hist|
  {
    if |hist| < DISTANCE_MAX then |hist| else DISTANCE_MAX
  }

  /** What was written against `hist` can be read against `h`: they end alike, as far as offsets reach. */
  predicate Covers(h: seq<byte>, hist: seq<byte>) {
    Reach(hist) <= |h| && h[|h| - Reach(hist)..] == hist[|hist| - Reach(hist)..]
  }

  lemma {:induction false} OffsetsOkWindow(h: nat, h': nat, seqs: seq<Sequence>)
    requires OffsetsOk(h, seqs) && DISTANCE_MAX <= h'
    ensures OffsetsOk(h', seqs)
  {
    if seqs != [] {
      OffsetsOkWindow(h, h', seqs[..|seqs| - 1]);
    }
  }

  lemma EncodesLonger(out: seq<byte>, x: seq<byte>, w: seq<byte>, data: seq<byte>)
    requires Encodes(out, w, data)
    ensures Encodes(out, x + w, data)
  {
    hide ExpandBlock, Conforming, Parse;
    BlockExtend(x, w, Parse(out).block);
    assert x + (w + data) == (x + w) + data;
  }

  lemma EncodesShorter(out: seq<byte>, x: seq<byte>, w: seq<byte>, data: seq<byte>)
    requires Encodes(out, x + w, data) && DISTANCE_MAX <= |w|
    ensures Encodes(out, w, data)
  {
    hide ExpandBlock, OffsetsOk, Parse;
    var b := Parse(out).block;
    OffsetsOkWindow(|x + w|, |w|, b.seqs);
    BlockExtend(x, w, b);
    assert x + ExpandBlock(w, b) == x + (w + data);
    assert ExpandBlock(w, b) == (x + ExpandBlock(w, b))[|x|..];
    assert w + data == (x + (w + data))[|x|..];
  }

  /** What a block stands for depends only on the history its offsets can reach. */
  lemma EncodesCovered(out: seq<byte>, hist: seq<byte>, h: seq<byte>, data: seq<byte>)
    requires Encodes(out, hist, data) && Covers(h, hist)
    ensures Encodes(out, h, data)
  {
    hide Encodes;
    var k := Reach(hist);
    var w := hist[|hist| - k..];
    assert hist == hist[..|hist| - k] + w;
    if k < |hist| {
      EncodesShorter(out, hist[..|hist| - k], w, data);
    } else {
      assert w == hist;
    }
    assert h == h[..|h| - k] + w;
    EncodesLonger(out, h[..|h| - k], w, data);
  }

  /** A block has one meaning. */
  lemma EncodesUnique(out: seq<byte>, hist: seq<byte>, data: seq<byte>, data': seq<byte>)
    requires Encodes(out, hist, data) && Encodes(out, hist, data')
    ensures data == data'
  {
    assert data == (hist + data)[|hist|..];
    assert data' == (hist + data')[|hist|..];
  }

  // ----- What a decoding gives back ------------------------------------------------------------

  /** The input is a block, and `out` what it stands for after `hist`; offsets that are zero stand for zeros. */
  predicate Stands(src: seq<byte>, hist: seq<byte>, out: seq<byte>) {
    Parse(src).Parsed? && hist + out == ExpandBlock(hist, Parse(src).block)
  }

  /** The input is a block that keeps the rules for decoders and has room. In no room at all, the token of an
      empty block must be zero. */
  predicate Fits(src: seq<byte>, h: nat, cap: int) {
    var p := Parse(src);
    p.Parsed? && Fitting(h, p.block) && BlockSize(p.block) <= cap && (0 < cap || p.block.tag == 0)
  }

  /** A full decoding returns exactly the data a block stands for, when there is room for it. For any input, it
      accepts what fits; and what it accepts is a block, and what it returns is the expansion of that. */
  ghost predicate GivesBack(src: seq<byte>, hist: seq<byte>, cap: int, m: seq<byte>, dst: nat, r: int) {
    && (forall data {:trigger Encodes(src, hist, data)} ::
          Encodes(src, hist, data) && |data| <= cap ==> r == |data| && dst + r <= |m| && m[dst..dst + r] == data)
    && (Fits(src, |hist|, cap) ==> 0 <= r)
    && (0 <= r ==> dst + r <= |m| && Stands(src, hist, m[dst..dst + r]))
  }

  /** So input that is no block, or has no room, is rejected. */
  lemma AcceptedIsBlock(src: seq<byte>, hist: seq<byte>, cap: int, m: seq<byte>, dst: nat, r: int)
    requires GivesBack(src, hist, cap, m, dst, r) && r <= cap
    ensures 0 <= r ==> Parse(src).Parsed? && BlockSize(Parse(src).block) == r <= cap
    ensures Fits(src, |hist|, cap) ==> r == BlockSize(Parse(src).block)
  {
    hide Encodes, Parse, Expand;
    if 0 <= r {
      assert |hist + m[dst..dst + r]| == |hist| + r;
    }
  }

  /** A partial decoding returns as much of the data as there is room for. Of a block that is cut off it returns
      an error, or as much as there is room for of what can be read. */
  ghost predicate GivesPart(src: seq<byte>, hist: seq<byte>, cap: int, m: seq<byte>, dst: nat, r: int) {
    && (forall data {:trigger Encodes(src, hist, data)} ::
          Encodes(src, hist, data) && 0 <= cap ==>
            r == (if |data| <= cap then |data| else cap) && dst + r <= |m| && m[dst..dst + r] == data[..r])
    && (forall whole, data {:trigger Encodes(whole, hist, data)} ::
          Encodes(whole, hist, data) && src <= whole && 0 <= cap && 0 <= r ==>
            && r == (if BlockSize(Cut(src)) <= cap then BlockSize(Cut(src)) else cap)
            && r <= |data| && dst + r <= |m| && m[dst..dst + r] == data[..r])
  }

  lemma DecodedGives(e: Env, m0: seq<byte>, m: seq<byte>, r: int, hist: seq<byte>, data: seq<byte>)
    requires ValidEnv(e) && e.oend <= |m0| == |m| && r <= e.oend - e.dst && Decoded(e, m0, m, r)
    requires Covers(History(e, m0), hist) && Encodes(e.src, hist, data)
    requires e.partial || |data| <= e.oend - e.dst
    ensures var cap := e.oend - e.dst; r == if |data| <= cap then |data| else cap
    ensures m[e.dst..e.dst + r] == data[..r]
  {
    hide ExpandBlock, Parse, Conforming, Fitting, Covers;
    var h := History(e, m0);
    EncodesCovered(e.src, hist, h, data);
    ConformingFits(|h|, Parse(e.src).block);
    var b := Parse(e.src).block;
    assert |ExpandBlock(h, b)| == |h| + BlockSize(b) == |h| + |data|;
    var out := Output(e, m0, m, r);
    assert m[e.dst..e.dst + r] == out[|h|..];
    assert data[..r] == (h + data)[..|h| + r][|h|..];
  }

  /** All of a history, or the end of it that no offset can reach beyond. */
  predicate Enough(h: seq<byte>, hist: seq<byte>) {
    |h| <= |hist| && hist[|hist| - |h|..] == h && (|h| == |hist| || DISTANCE_MAX <= |h|)
  }

  lemma EnoughCovers(h: seq<byte>, hist: seq<byte>)
    requires Enough(h, hist)
    ensures Covers(h, hist)
  {
    var k := Reach(hist);
    assert h[|h| - k..] == hist[|hist| - |h|..][|h| - k..];
  }

  lemma StandsLonger(src: seq<byte>, h: seq<byte>, hist: seq<byte>, out: seq<byte>)
    requires Stands(src, h, out) && Enough(h, hist)
    ensures Stands(src, hist, out)
  {
    hide Expand, Parse;
    var x := hist[..|hist| - |h|];
    assert hist == x + h;
    if x == [] {
      assert hist == h;
    } else {
      ParseSound(src);
      ExpandExtendLong(x, h, Parse(src).block.seqs);
      StandsJoin(x, h, out, Parse(src).block);
    }
  }

  lemma {:induction false} ReachingWindow(h: nat, h': nat, seqs: seq<Sequence>)
    requires Reaching(h, seqs) && DISTANCE_MAX <= h'
    ensures Reaching(h', seqs)
  {
    if seqs != [] {
      ReachingWindow(h, h', seqs[..|seqs| - 1]);
    }
  }

  lemma FitsShorter(src: seq<byte>, h: seq<byte>, hist: seq<byte>, cap: int)
    requires Fits(src, |hist|, cap) && Enough(h, hist)
    ensures Fits(src, |h|, cap)
  {
    hide Parse, Reaching;
    if |h| != |hist| {
      ReachingWindow(|hist|, |h|, Parse(src).block.seqs);
    }
  }

  lemma StandsJoin(x: seq<byte>, h: seq<byte>, out: seq<byte>, b: Block)
    requires h + out == ExpandBlock(h, b) && Expand(x + h, b.seqs) == x + Expand(h, b.seqs)
    ensures (x + h) + out == ExpandBlock(x + h, b)
  {
    hide Expand;
    assert (x + h) + out == x + (h + out);
    assert x + (Expand(h, b.seqs) + b.last) == (x + Expand(h, b.seqs)) + b.last;
  }

  lemma DecodedStands(e: Env, m0: seq<byte>, m: seq<byte>, r: int)
    requires ValidEnv(e) && e.oend <= |m0| == |m| && 0 <= r <= e.oend - e.dst && Decoded(e, m0, m, r) && !e.partial
    ensures Stands(e.src, History(e, m0), m[e.dst..e.dst + r])
  {
    hide Parse, Expand, Acceptable, History;
    var h := History(e, m0);
    var x := ExpandBlock(h, Parse(e.src).block);
    assert x[..|x|] == x;
  }

  lemma FitsAccepted(e: Env, m0: seq<byte>, m: seq<byte>, r: int)
    requires ValidEnv(e) && e.oend <= |m0| == |m| && r <= e.oend - e.dst && Decoded(e, m0, m, r) && !e.partial
    requires Fits(e.src, |History(e, m0)|, e.oend - e.dst)
    ensures 0 <= r
  {
    hide Parse, Reaching, EndOk, History;
  }

  lemma FullGives(e: Env, m0: seq<byte>, m: seq<byte>, r: int, hist: seq<byte>)
    requires ValidEnv(e) && e.oend <= |m0| == |m| && r <= e.oend - e.dst && Decoded(e, m0, m, r)
    requires !e.partial && Enough(History(e, m0), hist)
    ensures GivesBack(e.src, hist, e.oend - e.dst, m, e.dst, r)
  {
    hide Encodes, Decoded, Covers, History, Stands, Enough, Fits;
    EnoughCovers(History(e, m0), hist);
    if Fits(e.src, |hist|, e.oend - e.dst) {
      FitsShorter(e.src, History(e, m0), hist, e.oend - e.dst);
      FitsAccepted(e, m0, m, r);
    }
    if 0 <= r {
      DecodedStands(e, m0, m, r);
      StandsLonger(e.src, History(e, m0), hist, m[e.dst..e.dst + r]);
    }
    forall data | Encodes(e.src, hist, data) && |data| <= e.oend - e.dst
      ensures r == |data| && m[e.dst..e.dst + r] == data
    {
      DecodedGives(e, m0, m, r, hist, data);
      assert data[..|data|] == data;
    }
  }

  lemma CutGives(e: Env, m0: seq<byte>, m: seq<byte>, r: int, hist: seq<byte>, whole: seq<byte>, data: seq<byte>)
    requires ValidEnv(e) && e.oend <= |m0| == |m| && 0 <= r <= e.oend - e.dst && Decoded(e, m0, m, r) && e.partial
    requires Covers(History(e, m0), hist) && Encodes(whole, hist, data) && e.src <= whole
    ensures var cap, n := e.oend - e.dst, BlockSize(Cut(e.src)); r == if n <= cap then n else cap
    ensures r <= |data| && m[e.dst..e.dst + r] == data[..r]
  {
    hide Covers, Parse, ParseFrom, Cut, CutFrom, Expand, OffsetsOk, Acceptable, History;
    var h := History(e, m0);
    EncodesCovered(whole, hist, h, data);
    var b, all := Cut(e.src), Parse(whole).block;
    CutIs(e.src, whole, h);
    OffsetsOkPrefix(|h|, b.seqs, all.seqs);
    assert Cutable(e, |h|);
    Beginning(h, ExpandBlock(h, b), data, Output(e, m0, m, r), m[e.dst..e.dst + r]);
  }

  lemma CutIs(src: seq<byte>, whole: seq<byte>, h: seq<byte>)
    requires src <= whole && Parse(whole).Parsed?
    ensures Begins(h, Cut(src), Parse(whole).block)
  {
    hide Begins;
    CutOfPrefix(src, whole, h, 0, []);
  }

  lemma Beginning(h: seq<byte>, part: seq<byte>, data: seq<byte>, output: seq<byte>, out: seq<byte>)
    requires |part| <= |h + data| && (h + data)[..|part|] == part
    requires output == h + out && |output| <= |part| && part[..|output|] == output
    ensures |out| <= |data| && out == data[..|out|]
  {
    assert (h + data)[..|output|] == part[..|output|];
    assert out == output[|h|..] && data[..|out|] == (h + data)[|h|..|output|];
  }

  lemma PartGives(e: Env, m0: seq<byte>, m: seq<byte>, r: int, hist: seq<byte>)
    requires ValidEnv(e) && e.oend <= |m0| == |m| && r <= e.oend - e.dst && Decoded(e, m0, m, r)
    requires e.partial && Covers(History(e, m0), hist)
    ensures GivesPart(e.src, hist, e.oend - e.dst, m, e.dst, r)
  {
    hide Encodes, Decoded, Covers, History, Cut;
    var cap := e.oend - e.dst;
    forall whole, data | Encodes(whole, hist, data) && e.src <= whole && 0 <= r
      ensures r == (if BlockSize(Cut(e.src)) <= cap then BlockSize(Cut(e.src)) else cap)
      ensures r <= |data| && m[e.dst..e.dst + r] == data[..r]
    {
      CutGives(e, m0, m, r, hist, whole, data);
    }
    forall data | Encodes(e.src, hist, data)
      ensures r == (if |data| <= cap then |data| else cap) && m[e.dst..e.dst + r] == data[..r]
    {
      DecodedGives(e, m0, m, r, hist, data);
    }
  }

  // ----- Entry points --------------------------------------------------------------------------

  /** Nothing outside the output buffer changes. */
  predicate Kept(m0: seq<byte>, m: seq<byte>, dst: nat, cap: int) {
    |m| == |m0| && forall i :: 0 <= i < |m| && (i < dst || dst + cap <= i) ==> m[i] == m0[i]
  }

  /** One call of the generic decoder, for a history given in three parts. */
  method DecompressWith(src: seq<byte>, mem: array<byte>, dst: nat, cap: int, partial: bool, mode: DictMode,
                        lowPrefix: int, dict: seq<byte>, aarch64: bool) returns (r: int)
    requires 0 <= cap ==>
               dst + cap <= mem.Length && ValidEnv(Env(src, dst, dst + cap, partial, mode, lowPrefix, dict, aarch64))
    modifies mem
    ensures r <= cap || r == -1
    ensures Kept(old(mem[..]), mem[..], dst, cap)
    ensures cap < 0 ==> r == -1
    ensures 0 <= cap ==>
              Decoded(Env(src, dst, dst + cap, partial, mode, lowPrefix, dict, aarch64), old(mem[..]), mem[..], r)
  {
    hide Decoded;
    if cap < 0 {
      return -1;
    }
    r := DecompressGeneric(Env(src, dst, dst + cap, partial, mode, lowPrefix, dict, aarch64), mem);
  }

  /** The history of a call: a dictionary elsewhere in memory, then the prefix right before the output. */
  function HistoryAt(m: seq<byte>, dst: nat, prefixSize: nat, dictStart: nat, dictSize: nat): seq<byte>
    requires prefixSize <= dst <= |m| && dictStart + dictSize <= |m|
  {
    m[dictStart..dictStart + dictSize] + m[dst - prefixSize..dst]
  }

  /** `LZ4_decompress_safe`: no history. */
  method DecompressSafe(src: seq<byte>, mem: array<byte>, dst: nat, cap: int, aarch64: bool) returns (r: int)
    requires dst <= mem.Length && (0 <= cap ==> dst + cap <= mem.Length)
    modifies mem
    ensures (r <= cap || r == -1) && Kept(old(mem[..]), mem[..], dst, cap)
    ensures GivesBack(src, [], cap, mem[..], dst, r)
  {
    hide Decoded, GivesBack, Kept;
    ghost var m0 := mem[..];
    r := DecompressWith(src, mem, dst, cap, false, NoDict, dst, [], aarch64);
    if 0 <= cap {
      FullGives(Env(src, dst, dst + cap, false, NoDict, dst, [], aarch64), m0, mem[..], r, []);
    } else {
      NoRoomGivesBack(src, [], cap, mem[..], dst, r);
    }
  }

  lemma NoRoomGivesBack(src: seq<byte>, hist: seq<byte>, cap: int, m: seq<byte>, dst: nat, r: int)
    requires cap < 0 && r < 0
    ensures GivesBack(src, hist, cap, m, dst, r)
    ensures GivesPart(src, hist, cap, m, dst, r)
  {
  }

  /** A history of 64 KB or more right before the output needs no check of offsets. */
  function PrefixEnv(src: seq<byte>, dst: nat, oend: nat, partial: bool, prefixSize: nat, aarch64: bool): Env {
    if prefixSize >= 65536 - 1 then Env(src, dst, oend, partial, WithPrefix64k, dst - 65536, [], aarch64)
    else Env(src, dst, oend, partial, NoDict, dst - prefixSize, [], aarch64)
  }

  lemma PrefixEnvValid(src: seq<byte>, dst: nat, oend: nat, partial: bool, prefixSize: nat, aarch64: bool)
    requires prefixSize <= dst <= oend
    ensures var e := PrefixEnv(src, dst, oend, partial, prefixSize, aarch64);
            && ValidEnv(e) && e.src == src && e.dst == dst && e.oend == oend && e.partial == partial && e.dict == []
            && Low(e) == if prefixSize >= DISTANCE_MAX then dst - DISTANCE_MAX else dst - prefixSize
  {
  }

  /** `LZ4_decompress_safe_withPrefix64k` and `LZ4_decompress_safe_withSmallPrefix`: the history is right
      before the output. */
  method DecompressSafeWithPrefix(src: seq<byte>, mem: array<byte>, dst: nat, cap: int, prefixSize: nat, aarch64: bool)
    returns (r: int)
    requires prefixSize <= dst <= mem.Length && (0 <= cap ==> dst + cap <= mem.Length)
    modifies mem
    ensures (r <= cap || r == -1) && Kept(old(mem[..]), mem[..], dst, cap)
    ensures GivesBack(src, old(mem[dst - prefixSize..dst]), cap, mem[..], dst, r)
  {
    hide Decoded, GivesBack, Kept, Covers, Enough, Frame, History, PrefixEnv, ValidEnv, Low;
    ghost var m0 := mem[..];
    ghost var hist := mem[dst - prefixSize..dst];
    if cap < 0 {
      NoRoomGivesBack(src, hist, cap, m0, dst, -1);
      KeptItself(m0, dst, cap);
      return -1;
    }
    var e := PrefixEnv(src, dst, dst + cap, false, prefixSize, aarch64);
    PrefixEnvValid(src, dst, dst + cap, false, prefixSize, aarch64);
    PrefixCovers(e, m0, prefixSize);
    r := DecompressGeneric(e, mem);
    FullGives(e, m0, mem[..], r, hist);
    FrameIsKept(e, m0, mem[..]);
  }

  lemma PrefixCovers(e: Env, m0: seq<byte>, prefixSize: nat)
    requires ValidEnv(e) && e.oend <= |m0| && prefixSize <= e.dst && e.dict == []
    requires Low(e) == if prefixSize >= DISTANCE_MAX then e.dst - DISTANCE_MAX else e.dst - prefixSize
    ensures Enough(History(e, m0), m0[e.dst - prefixSize..e.dst])
    ensures Covers(History(e, m0), m0[e.dst - prefixSize..e.dst])
  {
    hide Covers;
    var h, hist := History(e, m0), m0[e.dst - prefixSize..e.dst];
    assert h == m0[Low(e)..e.dst];
    SliceOfSlice(m0, e.dst - prefixSize, e.dst, prefixSize - |h|, prefixSize);
    EnoughCovers(h, hist);
  }

  /** `LZ4_decompress_safe_forceExtDict` and `LZ4_decompress_safe_doubleDict`: part of the history is
      elsewhere in memory, out of the way of the output. */
  method DecompressSafeDoubleDict(src: seq<byte>, mem: array<byte>, dst: nat, cap: int, prefixSize: nat,
                                  dictStart: nat, dictSize: nat, aarch64: bool) returns (r: int)
    requires prefixSize <= dst <= mem.Length && (0 <= cap ==> dst + cap <= mem.Length)
    requires dictStart + dictSize <= mem.Length
    requires 0 < cap ==> dictStart + dictSize <= dst || dst + cap <= dictStart
    modifies mem
    ensures (r <= cap || r == -1) && Kept(old(mem[..]), mem[..], dst, cap)
    ensures GivesBack(src, HistoryAt(old(mem[..]), dst, prefixSize, dictStart, dictSize), cap, mem[..], dst, r)
  {
    hide Decoded, GivesBack, Kept, Covers;
    ghost var m0 := mem[..];
    ghost var hist := HistoryAt(m0, dst, prefixSize, dictStart, dictSize);
    var dict := mem[dictStart..dictStart + dictSize];
    r := DecompressWith(src, mem, dst, cap, false, UsingExtDict, dst - prefixSize, dict, aarch64);
    if 0 <= cap {
      var e := Env(src, dst, dst + cap, false, UsingExtDict, dst - prefixSize, dict, aarch64);
      assert History(e, m0) == hist;
      CoversItself(hist);
      FullGives(e, m0, mem[..], r, hist);
    } else {
      NoRoomGivesBack(src, hist, cap, mem[..], dst, r);
    }
  }

  lemma CoversItself(h: seq<byte>)
    ensures Covers(h, h) && Enough(h, h)
  {
    assert h[0..] == h;
  }

  /** `LZ4_decompress_safe_usingDict`: the same result wherever the dictionary lies. */
  method DecompressSafeUsingDict(src: seq<byte>, mem: array<byte>, dst: nat, cap: int, dictStart: nat, dictSize: nat,
                                 aarch64: bool) returns (r: int)
    requires dst <= mem.Length && (0 <= cap ==> dst + cap <= mem.Length) && dictStart + dictSize <= mem.Length
    requires dictStart + dictSize <= dst || dst + cap <= dictStart
    modifies mem
    ensures (r <= cap || r == -1) && Kept(old(mem[..]), mem[..], dst, cap)
    ensures GivesBack(src, old(mem[dictStart..dictStart + dictSize]), cap, mem[..], dst, r)
  {
    hide GivesBack, Kept;
    ghost var hist := mem[dictStart..dictStart + dictSize];
    if dictSize == 0 {
      assert hist == [];
      r := DecompressSafe(src, mem, dst, cap, aarch64);
    } else if dictStart + dictSize == dst {
      r := DecompressSafeWithPrefix(src, mem, dst, cap, dictSize, aarch64);
    } else {
      assert HistoryAt(mem[..], dst, 0, dictStart, dictSize) == hist + [] == hist;
      r := DecompressSafeDoubleDict(src, mem, dst, cap, 0, dictStart, dictSize, aarch64);
    }
  }

  /** `LZ4_decompress_safe_partial`. */
  method DecompressSafePartial(src: seq<byte>, mem: array<byte>, dst: nat, targetOutputSize: int, dstCapacity: int,
                               aarch64: bool)
    returns (r: int)
    requires dst <= mem.Length && (0 <= dstCapacity ==> dst + dstCapacity <= mem.Length)
    modifies mem
    ensures var cap := if targetOutputSize < dstCapacity then targetOutputSize else dstCapacity;
            (r <= cap || r == -1) && Kept(old(mem[..]), mem[..], dst, cap) && GivesPart(src, [], cap, mem[..], dst, r)
  {
    hide Decoded, GivesPart, Kept, Covers, History;
    ghost var m0 := mem[..];
    var cap := if targetOutputSize < dstCapacity then targetOutputSize else dstCapacity;
    r := DecompressWith(src, mem, dst, cap, true, NoDict, dst, [], aarch64);
    if 0 <= cap {
      NoDictCovers(src, m0, dst, dst + cap, aarch64);
      PartGives(Env(src, dst, dst + cap, true, NoDict, dst, [], aarch64), m0, mem[..], r, []);
    } else {
      NoRoomGivesBack(src, [], cap, mem[..], dst, r);
    }
  }

  /** The three ways in which a dictionary becomes the history of a call. */
  function DictEnv(src: seq<byte>, m: seq<byte>, dst: nat, oend: nat, dictStart: nat, dictSize: nat, aarch64: bool): Env
    requires dictStart + dictSize <= |m|
  {
    if dictSize == 0 then Env(src, dst, oend, true, NoDict, dst, [], aarch64)
    else if dictStart + dictSize == dst then
      PrefixEnv(src, dst, oend, true, dictSize, aarch64)
    else Env(src, dst, oend, true, UsingExtDict, dst, m[dictStart..dictStart + dictSize], aarch64)
  }

  lemma DictEnvCovers(src: seq<byte>, m: seq<byte>, dst: nat, oend: nat, dictStart: nat, dictSize: nat, aarch64: bool)
    requires dictStart + dictSize <= |m| && dst <= oend <= |m|
    ensures var e := DictEnv(src, m, dst, oend, dictStart, dictSize, aarch64);
            ValidEnv(e) && Covers(History(e, m), m[dictStart..dictStart + dictSize])
  {
    hide Covers, History;
    var hist := m[dictStart..dictStart + dictSize];
    if dictSize == 0 {
      NoDictCovers(src, m, dst, oend, aarch64);
      assert hist == [];
    } else if dictStart + dictSize == dst {
      PrefixEnvValid(src, dst, oend, true, dictSize, aarch64);
      PrefixCovers(PrefixEnv(src, dst, oend, true, dictSize, aarch64), m, dictSize);
    } else {
      ExtDictCovers(src, m, dst, oend, hist, aarch64);
    }
  }

  lemma NoDictCovers(src: seq<byte>, m: seq<byte>, dst: nat, oend: nat, aarch64: bool)
    requires dst <= oend <= |m|
    ensures Covers(History(Env(src, dst, oend, true, NoDict, dst, [], aarch64), m), [])
  {
    assert m[dst..dst] == [];
  }

  lemma ExtDictCovers(src: seq<byte>, m: seq<byte>, dst: nat, oend: nat, dict: seq<byte>, aarch64: bool)
    requires dst <= oend <= |m|
    ensures Covers(History(Env(src, dst, oend, true, UsingExtDict, dst, dict, aarch64), m), dict)
  {
    assert History(Env(src, dst, oend, true, UsingExtDict, dst, dict, aarch64), m) == dict;
    CoversItself(dict);
  }

  /** `LZ4_decompress_safe_partial_usingDict`. */
  method DecompressSafePartialUsingDict(src: seq<byte>, mem: array<byte>, dst: nat, targetOutputSize: int,
                                        dstCapacity: int, dictStart: nat, dictSize: nat, aarch64: bool) returns (r: int)
    requires dst <= mem.Length && (0 <= dstCapacity ==> dst + dstCapacity <= mem.Length)
             && dictStart + dictSize <= mem.Length
    requires dictStart + dictSize <= dst || dst + dstCapacity <= dictStart
    modifies mem
    ensures var cap := if targetOutputSize < dstCapacity then targetOutputSize else dstCapacity;
            && (r <= cap || r == -1) && Kept(old(mem[..]), mem[..], dst, cap)
            && GivesPart(src, old(mem[dictStart..dictStart + dictSize]), cap, mem[..], dst, r)
  {
    hide Decoded, GivesPart, Kept, Covers, History, DictEnv, Frame;
    ghost var m0 := mem[..];
    var cap := if targetOutputSize < dstCapacity then targetOutputSize else dstCapacity;
    ghost var hist := mem[dictStart..dictStart + dictSize];
    if cap < 0 {
      NoRoomGivesBack(src, hist, cap, m0, dst, -1);
      KeptItself(m0, dst, cap);
      return -1;
    }
    DictEnvCovers(src, m0, dst, dst + cap, dictStart, dictSize, aarch64);
    DictEnvFields(src, m0, dst, dst + cap, dictStart, dictSize, aarch64);
    var e := DictEnv(src, mem[..], dst, dst + cap, dictStart, dictSize, aarch64);
    r := DecompressGeneric(e, mem);
    PartGives(e, m0, mem[..], r, hist);
    FrameIsKept(e, m0, mem[..]);
  }

  lemma DictEnvFields(src: seq<byte>, m: seq<byte>, dst: nat, oend: nat, dictStart: nat, dictSize: nat, aarch64: bool)
    requires dictStart + dictSize <= |m|
    ensures var e := DictEnv(src, m, dst, oend, dictStart, dictSize, aarch64);
            e.src == src && e.dst == dst && e.oend == oend && e.partial
  {
  }

  lemma KeptItself(m: seq<byte>, dst: nat, cap: int)
    ensures Kept(m, m, dst, cap)
  {
  }

  lemma FrameIsKept(e: Env, m0: seq<byte>, m: seq<byte>)
    requires Frame(e, m0, m) && e.dst <= e.oend
    ensures Kept(m0, m, e.dst, e.oend - e.dst)
  {
  }

  // ----- What is read ----------------------------------------------------------------------------

  /** The generic decoder in a memory that holds nothing but the history before the output and the output
      itself: it reads and writes nothing else, in any mode and for any input. */
  method DecompressConfined(src: seq<byte>, mode: DictMode, prefix: seq<byte>, dict: seq<byte>, cap: nat, partial: bool,
                            aarch64: bool) returns (r: int, output: seq<byte>)
    requires mode != UsingExtDict ==> dict == []
    requires mode == WithPrefix64k ==> |prefix| == DISTANCE_MAX
    ensures -|src| - 1 <= r <= cap && (0 <= r ==> |output| == r)
    ensures !partial ==> forall data {:trigger Encodes(src, dict + prefix, data)} ::
              Encodes(src, dict + prefix, data) && |data| <= cap ==> r == |data| && output == data
    ensures !partial && 0 <= r ==> Stands(src, dict + prefix, output)
    ensures partial ==> forall data {:trigger Encodes(src, dict + prefix, data)} ::
              Encodes(src, dict + prefix, data) ==> r == (if |data| <= cap then |data| else cap) && output == data[..r]
  {
    hide Decoded, Encodes, Frame, Covers, Enough, Stands, History;
    var dst := |prefix|;
    var mem := new byte[dst + cap](i => if 0 <= i < |prefix| then prefix[i] else 0);
    ghost var m0 := mem[..];
    var e := Env(src, dst, dst + cap, partial, mode, if mode == WithPrefix64k then dst - 65536 else 0, dict, aarch64);
    WholeHistory(e, m0, prefix);
    CoversItself(dict + prefix);
    r := DecompressGeneric(e, mem);
    output := if 0 <= r then mem[dst..dst + r] else [];
    if partial {
      PartGives(e, m0, mem[..], r, dict + prefix);
    } else {
      FullGives(e, m0, mem[..], r, dict + prefix);
    }
  }

  lemma WholeHistory(e: Env, m: seq<byte>, prefix: seq<byte>)
    requires ValidEnv(e) && e.dst == |prefix| && e.oend <= |m| && m[..e.dst] == prefix && Low(e) == 0
    ensures History(e, m) == e.dict + prefix
  {
    assert m[0..e.dst] == m[..e.dst];
  }
}

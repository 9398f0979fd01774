/**
 What compressor and decompressors are for: whatever is compressed comes back. Each method here runs
 one side after the other, on every input, and says what the caller ends up with.
 */
module Lz4RoundTrip {
  import opened ByteSeq
  import opened Lz4Format
  import opened Lz4Cut
  import opened Lz4Job
  import opened Lz4Context
  import opened Lz4OneShot
  import opened Lz4DecodeApi
  import opened Lz4Streaming
  import opened Lz4StreamDecode
  import DecodeState = Lz4DecodeState
  import opened Lz4DecodeReference

  // ----- Single blocks -------------------------------------------------------------------------

  /** `LZ4_compress_fast`, with an output buffer of its own. */
  method CompressText(text: seq<byte>, capacity: nat, acceleration: int) returns (block: seq<byte>)
    ensures |block| <= capacity
    ensures |text| > LZ4_MAX_INPUT_SIZE ==> block == []
    ensures |text| <= LZ4_MAX_INPUT_SIZE && PlainSize(|text|) <= capacity ==> block != []
    ensures block != [] ==> Encodes(block, [], text)
    ensures Shrinks(text, 0, |text|, |block|, capacity)
  {
    hide Encodes;
    var dst := new byte[capacity];
    var r := CompressFast(text, 0, |text|, dst, 0, capacity, acceleration);
    block := dst[..r];
    assert dst[0..0 + r] == block && Bytes(text, 0, |text|) == text;
  }

  /** One-shot round trip: `LZ4_compress_fast`, then `LZ4_decompress_safe` into any room that is enough. */
  method OneShotRoundTrip(text: seq<byte>, capacity: nat, acceleration: int, room: nat, aarch64: bool)
    returns (block: seq<byte>, r: int, output: seq<byte>)
    ensures |block| <= capacity
    ensures |text| <= LZ4_MAX_INPUT_SIZE && PlainSize(|text|) <= capacity ==> block != []
    ensures block != [] ==> Encodes(block, [], text)
    ensures block != [] && |text| <= room ==> r == |text| && output == text
  {
    hide Encodes, Kept;
    block := CompressText(text, capacity, acceleration);
    var mem := new byte[room];
    r := DecompressSafe(block, mem, 0, room, aarch64);
    output := if 0 <= r then mem[..r] else [];
    assert 0 <= r ==> mem[0..0 + r] == output;
  }

  /** Partial decoding: the first bytes of the text, as many as were asked for or there are. */
  method PartialRoundTrip(text: seq<byte>, capacity: nat, acceleration: int, target: nat, room: nat, aarch64: bool)
    returns (block: seq<byte>, r: int, output: seq<byte>)
    ensures |text| <= LZ4_MAX_INPUT_SIZE && PlainSize(|text|) <= capacity ==> block != []
    ensures block != [] ==> 0 <= r <= |text| && output == text[..r]
    ensures block != [] ==> r == |text| || (r == target && target <= room) || (r == room && room <= target)
    ensures block != [] ==> r <= target && r <= room
  {
    hide Encodes, Kept;
    block := CompressText(text, capacity, acceleration);
    var mem := new byte[room];
    r := DecompressSafePartial(block, mem, 0, target, room, aarch64);
    output := if 0 <= r then mem[..r] else [];
    assert 0 <= r ==> mem[0..0 + r] == output;
  }

  /** Partial decoding of a block of which only the first bytes arrived: an error, or the beginning of the text, as
      far as there is room for what can be read. */
  method CutRoundTrip(text: seq<byte>, capacity: nat, acceleration: int, arrived: nat, target: nat, room: nat,
                      aarch64: bool)
    returns (block: seq<byte>, r: int, output: seq<byte>)
    ensures |text| <= LZ4_MAX_INPUT_SIZE && PlainSize(|text|) <= capacity ==> block != []
    ensures arrived <= |block| && 0 <= r ==> r <= |text| && output == text[..r]
    ensures arrived <= |block| && block != [] && 0 <= r ==>
              var there := BlockSize(Cut(block[..arrived]));
              r == if there <= target && there <= room then there else if target <= room then target else room
  {
    hide Encodes, Kept, Cut;
    block := CompressText(text, capacity, acceleration);
    r, output := -1, [];
    if arrived <= |block| && block != [] {
      var mem := new byte[room];
      r := DecompressSafePartial(block[..arrived], mem, 0, target, room, aarch64);
      output := if 0 <= r then mem[..r] else [];
      assert 0 <= r ==> mem[0..0 + r] == output;
      assert block[..arrived] <= block;
    }
  }

  /** The call that `LZ4_decompress_fast` makes. */
  function FastEnv(src: seq<byte>, dst: nat, originalSize: nat): DecodeState.Env {
    DecodeState.Env(src, dst, dst + originalSize, false, DecodeState.NoDict, dst, [], false)
  }

  /** `LZ4_decompress_fast`, on any input: it reads exactly the block of that size that the input begins with,
      and refuses or overruns the input when there is none. */
  method DecompressFast(src: seq<byte>, mem: array<byte>, dst: nat, originalSize: nat)
    returns (r: Outcome, ghost block: Block)
    requires dst + originalSize <= mem.Length
    modifies mem
    ensures Kept(old(mem[..]), mem[..], dst, originalSize)
    ensures r.Read? ==> BlockHere(src, r.n, 0, originalSize, block)
    ensures r.Read? && Nonzero(block.seqs) ==> mem[dst..dst + originalSize] == ExpandBlock([], block)
    ensures !r.Read? ==> NoBlock(src, 0, originalSize)
    ensures forall n: nat, data {:trigger Encodes(src[..n], [], data)} ::
              n <= |src| && |data| == originalSize && Encodes(src[..n], [], data) ==>
                r == Read(n) && mem[dst..dst + originalSize] == data
  {
    hide Encodes, BlockHere, Nonzero, NoBlock, Expand;
    ghost var m0 := mem[..];
    assert DecodeState.History(FastEnv(src, dst, originalSize), m0) == [];
    r, block := DecompressUnsafeGeneric(FastEnv(src, dst, originalSize), mem);
    assert [] + mem[dst..dst + originalSize] == mem[dst..dst + originalSize];
    forall n: nat, data | n <= |src| && |data| == originalSize && Encodes(src[..n], [], data)
      ensures r == Read(n) && mem[dst..dst + originalSize] == data
    {
      var b := EncodesIsHere(src, n, [], data);
      FoundIs(src, originalSize, r, n, b);
    }
  }

  lemma FoundIs(src: seq<byte>, size: nat, r: Outcome, n: nat, b: Block)
    requires BlockHere(src, n, 0, size, b) && (!r.Read? ==> NoBlock(src, 0, size))
    ensures r.Read?
  {
    hide BlockHere;
  }

  lemma HereFits(src: seq<byte>, size: nat, b: Block)
    requires BlockHere(src, |src|, 0, size, b) && (0 < size || b.tag == 0)
    ensures Fits(src, 0, size) && Parse(src) == Parsed(b) && BlockSize(b) == size
  {
    hide Parse, Serialize, Reaching, EndOk;
    assert src[0..|src|] == src;
    ParseSerialize(b);
  }

  /** `LZ4_decompress_fast` and `LZ4_decompress_safe` side by side, on any input: whatever the former reads to
      the last byte, the latter accepts, and they write the same. */
  method BothDecoders(src: seq<byte>, size: nat, aarch64: bool)
    returns (safe: int, output: seq<byte>, fast: Outcome, reference: seq<byte>, ghost block: Block)
    ensures fast == Read(|src|) && (0 < size || block.tag == 0) ==> safe == size
    ensures fast == Read(|src|) && (0 < size || block.tag == 0) && Nonzero(block.seqs) ==> output == reference
    ensures forall data {:trigger Encodes(src, [], data)} :: Encodes(src, [], data) && |data| == size ==>
              safe == size && fast == Read(|src|) && output == reference == data
  {
    hide Encodes, Kept, BlockHere, Nonzero, NoBlock, Fits, Parse, Expand;
    var mem := new byte[size];
    safe := DecompressSafe(src, mem, 0, size, aarch64);
    output := if 0 <= safe then mem[..safe] else [];
    assert 0 <= safe ==> mem[0..0 + safe] == output;
    AcceptedIsBlock(src, [], size, mem[..], 0, safe);
    var mem' := new byte[size];
    fast, block := DecompressFast(src, mem', 0, size);
    reference := mem'[..];
    assert mem'[0..0 + size] == reference;
    if fast == Read(|src|) && (0 < size || block.tag == 0) {
      HereFits(src, size, block);
      assert [] + output == output;
    }
    assert src[..|src|] == src;
  }

  /** The reference decoder agrees with `LZ4_decompress_safe` on every block that `LZ4_compress_fast` emits, and
      reads it to its last byte. */
  method FastRefinesSimple(text: seq<byte>, capacity: nat, acceleration: int, aarch64: bool)
    returns (block: seq<byte>, safe: int, output: seq<byte>, fast: Outcome, reference: seq<byte>)
    ensures |text| <= LZ4_MAX_INPUT_SIZE && PlainSize(|text|) <= capacity ==> block != []
    ensures block != [] ==> safe == |text| && fast == Read(|block|) && output == reference == text
  {
    hide Encodes;
    block := CompressText(text, capacity, acceleration);
    ghost var b;
    safe, output, fast, reference, b := BothDecoders(block, |text|, aarch64);
  }

  /** `LZ4_compress_destSize`: the block fits the target, and both decoders give back, in a buffer of exactly the
      consumed size, that much of the text. */
  method DestSizeRoundTrip(text: seq<byte>, target: nat, aarch64: bool)
    returns (block: seq<byte>, consumed: int, r: int, output: seq<byte>, fast: Outcome, reference: seq<byte>)
    ensures |block| <= target && (block != [] <==> |text| <= LZ4_MAX_INPUT_SIZE && 1 <= target)
    ensures block != [] ==> 0 <= consumed <= |text| && r == consumed && output == text[..consumed]
    ensures block != [] ==> fast == Read(|block|) && reference == output
    ensures block != [] && consumed < |text| ==> target - 1 <= |block|
    ensures block != [] && PlainSize(|text|) <= target ==> consumed == |text|
  {
    hide Encodes;
    var dst := new byte[target];
    var n;
    n, consumed := CompressDestSize(text, 0, |text|, dst, 0, target);
    block, r, output, fast, reference := dst[..n], 0, [], Refused, [];
    if n == 0 {
      return;
    }
    assert dst[0..0 + n] == block && Bytes(text, 0, consumed) == text[..consumed];
    ghost var b;
    r, output, fast, reference, b := BothDecoders(block, consumed, aarch64);
  }

  // ----- One state for many blocks -------------------------------------------------------------

  /** A call of `LZ4_compress_fast_extState`, or of its `_fastReset` variant. */
  datatype Call = Call(text: seq<byte>, capacity: nat, acceleration: int, fastReset: bool)

  /** A block that came out of a call stands for its text alone, whatever the state was used for before. */
  ghost predicate Answered(call: Call, block: seq<byte>) {
    && |block| <= call.capacity
    && (|call.text| <= LZ4_MAX_INPUT_SIZE && PlainSize(|call.text|) <= call.capacity ==> block != [])
    && (block != [] ==> Encodes(block, [], call.text))
  }

  /** State reuse: any run of calls on one state, failed ones included. */
  method ReuseState(c: Context, calls: seq<Call>) returns (blocks: seq<seq<byte>>)
    requires Clean(c.tableType, c.currentOffset, c.hashTable[..])
    modifies c, c.hashTable
    ensures Clean(c.tableType, c.currentOffset, c.hashTable[..])
    ensures |blocks| == |calls| && forall i :: 0 <= i < |calls| ==> Answered(calls[i], blocks[i])
  {
    hide Clean, Encodes;
    blocks := [];
    while |blocks| < |calls|
      invariant Clean(c.tableType, c.currentOffset, c.hashTable[..]) && |blocks| <= |calls|
      invariant forall i :: 0 <= i < |blocks| ==> Answered(calls[i], blocks[i])
    {
      var block := CompressWithState(c, calls[|blocks|]);
      blocks := blocks + [block];
    }
  }

  method CompressWithState(c: Context, call: Call) returns (block: seq<byte>)
    requires Clean(c.tableType, c.currentOffset, c.hashTable[..])
    modifies c, c.hashTable
    ensures Clean(c.tableType, c.currentOffset, c.hashTable[..])
    ensures Answered(call, block)
  {
    hide Clean, Encodes, Unused;
    CleanTable(c);
    var dst := new byte[call.capacity];
    var r;
    if call.fastReset {
      r := CompressFastExtStateFastReset(c, call.text, 0, |call.text|, dst, 0, call.capacity, call.acceleration);
    } else {
      r := CompressFastExtState(c, call.text, 0, |call.text|, dst, 0, call.capacity, call.acceleration);
    }
    block := dst[..r];
    assert dst[0..0 + r] == block && Bytes(call.text, 0, |call.text|) == call.text;
  }

  lemma CleanTable(c: Context)
    requires Clean(c.tableType, c.currentOffset, c.hashTable[..])
    ensures c.hashTable.Length == 8192 && !Unused(c.tableType, c.currentOffset, c.hashTable[..])
  {
  }

  // ----- Dictionaries --------------------------------------------------------------------------

  /** `LZ4_loadDict` or `LZ4_loadDictSlow`, then one block. */
  method CompressWithDict(m: seq<byte>, dictionary: nat, dictSize: nat, slow: bool, source: nat, size: nat,
                          capacity: nat, acceleration: int) returns (block: seq<byte>)
    requires dictionary + dictSize <= |m| && source + size <= |m| && size < GB2
    requires dictionary + dictSize <= source || source + size <= dictionary
    ensures size <= LZ4_MAX_INPUT_SIZE && PlainSize(size) <= capacity ==> block != []
    ensures block != [] ==> Encodes(block, m[dictionary..dictionary + dictSize], m[source..source + size])
  {
    hide Encodes, Covers, StreamOk, LaidOut, Intact, Bytes, Suffix;
    ghost var dict := m[dictionary..dictionary + dictSize];
    var c := new Context();
    var n := LoadDict(c, m, dictionary, dictSize, slow);
    BytesAre(m, dictionary, dictSize);
    LoadedCovers(c, m, source, size, dictionary, dictSize, dict);
    var out := new byte[capacity];
    var k := CompressFastContinue(c, m, source, size, out, 0, capacity, acceleration, dict);
    block := out[..k];
    assert out[0..0 + k] == block;
  }

  /** Dictionary round trip: a block compressed with a dictionary comes back through
      `LZ4_decompress_safe_usingDict` with a copy of the dictionary anywhere clear of the output, right
      before it included. */
  method DictRoundTrip(m: seq<byte>, dictionary: nat, dictSize: nat, slow: bool, source: nat, size: nat,
                       capacity: nat, acceleration: int,
                       mem: array<byte>, dictStart: nat, dst: nat, room: nat, aarch64: bool)
    returns (block: seq<byte>, r: int)
    requires dictionary + dictSize <= |m| && source + size <= |m| && size < GB2
    requires dictionary + dictSize <= source || source + size <= dictionary
    requires dst + room <= mem.Length && dictStart + dictSize <= mem.Length
    requires dictStart + dictSize <= dst || dst + room <= dictStart
    requires mem[dictStart..dictStart + dictSize] == m[dictionary..dictionary + dictSize]
    modifies mem
    ensures size <= LZ4_MAX_INPUT_SIZE && PlainSize(size) <= capacity ==> block != []
    ensures block != [] && size <= room ==> r == size && mem[dst..dst + size] == m[source..source + size]
    ensures Kept(old(mem[..]), mem[..], dst, room)
  {
    hide Encodes, Kept, PlainSize;
    block := CompressWithDict(m, dictionary, dictSize, slow, source, size, capacity, acceleration);
    r := DecompressSafeUsingDict(block, mem, dst, room, dictStart, dictSize, aarch64);
  }

  lemma BytesAre(m: seq<byte>, p: nat, n: nat)
    requires p + n <= |m|
    ensures Bytes(m, p, n) == m[p..p + n]
  {
  }

  /** The history loaded from a dictionary that the source leaves alone. */
  lemma LoadedCovers(c: Context, m: seq<byte>, source: nat, size: nat, dictionary: nat, dictSize: nat, dict: seq<byte>)
    requires StreamOk(c, m) && Suffix(HistoryOf(c, m), dict)
    requires c.dictSize <= dictSize && (0 < c.dictSize ==> c.dictionary == dictionary + dictSize - c.dictSize)
    requires dictionary + dictSize <= source || source + size <= dictionary
    ensures LaidOut(c, source, size) && Covers(dict, Intact(c, m, source + size))
  {
    hide Covers, Suffix, Settled;
    CoversItself(dict);
    CoversEnd(dict, dict, HistoryOf(c, m));
  }

  // ----- Streams -------------------------------------------------------------------------------

  /** The first `i` sizes together. */
  function Total(sizes: seq<nat>, i: nat): nat
    requires i <= |sizes|
  {
    if i == 0 then 0 else Total(sizes, i - 1) + sizes[i - 1]
  }

  lemma {:induction false} TotalMonotone(sizes: seq<nat>, i: nat, k: nat)
    requires i <= k <= |sizes|
    ensures Total(sizes, i) <= Total(sizes, k)
  {
    if i < k {
      TotalMonotone(sizes, i, k - 1);
    }
  }

  /** Block `i` of a stream stands for piece `i` of the text, after all that went before. */
  ghost predicate StandsFor(blocks: seq<seq<byte>>, past: seq<byte>, text: seq<byte>, sizes: seq<nat>, i: nat)
    requires i < |sizes| && i < |blocks|
  {
    && Total(sizes, i + 1) <= |text|
    && Encodes(blocks[i], past + text[..Total(sizes, i)], text[Total(sizes, i)..Total(sizes, i + 1)])
  }

  ghost predicate Chain(blocks: seq<seq<byte>>, past: seq<byte>, text: seq<byte>, sizes: seq<nat>) {
    && |blocks| <= |sizes|
    && forall i :: 0 <= i < |blocks| ==> StandsFor(blocks, past, text, sizes, i)
  }

  lemma ChainSnoc(blocks: seq<seq<byte>>, past: seq<byte>, text: seq<byte>, sizes: seq<nat>, block: seq<byte>)
    requires Chain(blocks, past, text, sizes) && |blocks| < |sizes| && Total(sizes, |blocks| + 1) <= |text|
    requires Encodes(block, past + text[..Total(sizes, |blocks|)],
                     text[Total(sizes, |blocks|)..Total(sizes, |blocks| + 1)])
    ensures Chain(blocks + [block], past, text, sizes)
  {
    hide Encodes;
    var all := blocks + [block];
    forall i | 0 <= i < |all|
      ensures StandsFor(all, past, text, sizes, i)
    {
      if i < |blocks| {
        assert StandsFor(blocks, past, text, sizes, i);
      }
    }
  }

  lemma ChainAt(blocks: seq<seq<byte>>, past: seq<byte>, text: seq<byte>, sizes: seq<nat>, i: nat)
    requires Chain(blocks, past, text, sizes) && i < |blocks|
    ensures Total(sizes, i + 1) <= |text|
    ensures Encodes(blocks[i], past + text[..Total(sizes, i)], text[Total(sizes, i)..Total(sizes, i + 1)])
  {
    hide Encodes;
    assert StandsFor(blocks, past, text, sizes, i);
  }

  lemma ChainEmpty(past: seq<byte>, text: seq<byte>, sizes: seq<nat>)
    ensures Chain([], past, text, sizes) && past + text[..0] == past
  {
  }

  /** The history is out of the way of what is still to come, or right before it. */
  predicate Clear(c: Context, from: nat, to: nat)
    reads c
  {
    0 < c.dictSize ==> c.dictionary + c.dictSize <= from || to <= c.dictionary
  }

  /** The compressor remembers the end of `past`, out of the way of what it has still to read. */
  ghost predicate Compressing(c: Context, m: seq<byte>, past: seq<byte>, from: nat, to: nat)
    reads c, c.hashTable
  {
    StreamOk(c, m) && Suffix(HistoryOf(c, m), past) && Clear(c, from, to)
  }

  /** And it remembers what was compressed from `start` to `at` without a gap: all of it, or 64 KB or more. */
  predicate Remembers(c: Context, start: nat, at: nat)
    reads c
  {
    start < at ==> c.dictionary + c.dictSize == at && (at - start <= c.dictSize || 65536 <= c.dictSize)
  }

  /** The decompressor remembers the end of `past`, out of the way of where it is to write. */
  ghost predicate Decompressing(d: StreamDecode, m: seq<byte>, past: seq<byte>, dst: nat, cap: int)
    reads d
  {
    d.Valid(|m|) && d.OutOfTheWay(dst, cap) && Covers(d.History(m, dst), past)
  }

  /** Where every stream can start. */
  lemma FreshStream(c: Context, m: seq<byte>, from: nat, to: nat, d: StreamDecode, mem: seq<byte>, dst: nat, cap: int)
    requires c.Initial() && d.externalDict == d.extDictSize == d.prefixEnd == d.prefixSize == 0
    ensures Compressing(c, m, [], from, to) && Decompressing(d, mem, [], dst, cap)
  {
    hide Compressing, Decompressing;
    FreshCompressor(c, m, from, to);
    FreshDecompressor(d, mem, dst, cap);
  }

  lemma FreshCompressor(c: Context, m: seq<byte>, from: nat, to: nat)
    requires c.Initial()
    ensures Compressing(c, m, [], from, to)
  {
    hide Suffix, StreamOk;
    InitialIsOk(c, m);
    NothingIsSuffix([]);
  }

  lemma FreshDecompressor(d: StreamDecode, mem: seq<byte>, dst: nat, cap: int)
    requires d.externalDict == d.extDictSize == d.prefixEnd == d.prefixSize == 0
    ensures Decompressing(d, mem, [], dst, cap)
  {
    hide Covers;
    CoversNothing(d.History(mem, dst));
  }

  predicate Ints32(sizes: seq<nat>) {
    forall i :: 0 <= i < |sizes| ==> sizes[i] < GB2
  }

  /** No block can be too large, for the codec or for its buffer. */
  predicate AllFit(sizes: seq<nat>, capacity: nat) {
    forall i :: 0 <= i < |sizes| ==> sizes[i] <= LZ4_MAX_INPUT_SIZE && PlainSize(sizes[i]) <= capacity
  }

  /** One step of a stream: a block that stands for the source after `past`, and a state that remembers the
      end of both. */
  method CompressNext(c: Context, m: seq<byte>, at: nat, size: nat, ghost to: nat, capacity: nat, acceleration: int,
                      ghost past: seq<byte>) returns (block: seq<byte>)
    requires Compressing(c, m, past, at, to) && at + size <= to <= |m| && size < GB2
    modifies c, c.hashTable
    ensures size <= LZ4_MAX_INPUT_SIZE ==> Compressing(c, m, past + m[at..at + size], at + size, to)
    ensures forall start: nat {:trigger Remembers(c, start, at + size)} ::
              start <= at && old(Remembers(c, start, at)) && size <= LZ4_MAX_INPUT_SIZE ==>
                Remembers(c, start, at + size)
    ensures block != [] ==> size <= LZ4_MAX_INPUT_SIZE && Encodes(block, past, m[at..at + size])
    ensures size <= LZ4_MAX_INPUT_SIZE && PlainSize(size) <= capacity ==> block != []
  {
    hide Encodes, Covers, Settled, PlainSize, Suffix, HistoryOf;
    ghost var hist, kept := HistoryOf(c, m), if Behind(c, at) then Renormed(c, size) else 0;
    SuffixCovers(past, hist);
    ClearIsLaidOut(c, m, at, size, to);
    assert kept <= |hist| && (0 < kept ==> |hist| <= at && m[at - |hist|..at] == hist) by { HistoryBefore(c, m, at); }
    var dst := new byte[capacity];
    var r := CompressFastContinue(c, m, at, size, dst, 0, capacity, acceleration, past);
    block := dst[..r];
    assert dst[0..0 + r] == block;
    if size <= LZ4_MAX_INPUT_SIZE {
      HistoryNow(c, m, at + size);
      NowSuffix(m, hist, past, kept, at, size);
    }
  }

  lemma RemembersNone(c: Context, at: nat)
    ensures Remembers(c, at, at)
  {
  }

  lemma HistoryBefore(c: Context, m: seq<byte>, at: nat)
    requires StreamOk(c, m)
    ensures 0 < c.dictSize ==> 0 <= c.dictionary && c.dictionary + c.dictSize <= |m|
    ensures |HistoryOf(c, m)| == c.dictSize
    ensures Behind(c, at) ==> c.dictSize <= at <= |m| && m[at - c.dictSize..at] == HistoryOf(c, m)
  {
  }

  lemma HistoryNow(c: Context, m: seq<byte>, end: nat)
    requires StreamOk(c, m) && c.dictionary + c.dictSize == end
    ensures c.dictSize <= end + 1 && (0 < c.dictSize ==> c.dictSize <= end <= |m|)
    ensures HistoryOf(c, m) == if c.dictSize == 0 then [] else m[end - c.dictSize..end]
  {
  }

  lemma NowSuffix(m: seq<byte>, hist: seq<byte>, past: seq<byte>, kept: nat, at: nat, size: nat)
    requires Suffix(hist, past) && kept <= |hist| && at + size <= |m| && kept <= at
    requires 0 < kept ==> |hist| <= at && m[at - |hist|..at] == hist
    ensures Suffix(m[at - kept..at + size], past + m[at..at + size])
  {
    var data := m[at..at + size];
    SliceJoin(m, at - kept, at, at + size);
    if 0 < kept {
      assert m[at - kept..at] == hist[|hist| - kept..];
    }
    assert m[at - kept..at] == past[|past| - kept..];
    assert (past + data)[|past| - kept..] == past[|past| - kept..] + data;
  }

  /** Compresses consecutive pieces of memory, as far as every block fits in `capacity`. */
  method CompressStream(c: Context, m: seq<byte>, source: nat, sizes: seq<nat>, capacity: nat, acceleration: int,
                        ghost past: seq<byte>)
    returns (ok: bool, blocks: seq<seq<byte>>)
    requires source + Total(sizes, |sizes|) <= |m| && Ints32(sizes)
    requires Compressing(c, m, past, source, source + Total(sizes, |sizes|))
    modifies c, c.hashTable
    ensures ok ==> |blocks| == |sizes| && Chain(blocks, past, m[source..source + Total(sizes, |sizes|)], sizes)
    ensures ok ==> var end := source + Total(sizes, |sizes|);
                   Compressing(c, m, past + m[source..end], end, end) && Remembers(c, source, end)
    ensures AllFit(sizes, capacity) ==> ok
  {
    hide Encodes, Chain, PlainSize, Compressing, Remembers;
    ghost var text := m[source..source + Total(sizes, |sizes|)];
    blocks := [];
    var at := source;
    ChainEmpty(past, text, sizes);
    RemembersNone(c, source);
    while |blocks| < |sizes|
      invariant |blocks| <= |sizes| && at == source + Total(sizes, |blocks|) <= source + |text|
      invariant Compressing(c, m, past + text[..Total(sizes, |blocks|)], at, source + |text|)
      invariant Remembers(c, source, at)
      invariant Chain(blocks, past, text, sizes)
    {
      var i := |blocks|;
      TotalMonotone(sizes, i + 1, |sizes|);
      ghost var k, size := Total(sizes, i), sizes[i];
      SliceOfSlice(m, source, source + |text|, k, k + size);
      JoinPiece(past, text, k, size);
      var block := CompressNext(c, m, at, sizes[i], source + |text|, capacity, acceleration, past + text[..k]);
      if block == [] {
        return false, blocks;
      }
      ChainSnoc(blocks, past, text, sizes, block);
      blocks := blocks + [block];
      at := at + sizes[i];
    }
    assert text[..|text|] == text;
    ok := true;
  }

  /** A stream of pieces, and then `LZ4_saveDict`: it saves as much of the end of the text as was asked for and
      as there is, up to 64 KB. */
  method SaveAfterStream(mem: array<byte>, source: nat, sizes: seq<nat>, capacity: nat, acceleration: int,
                         safeBuffer: nat, dictSize: int)
    returns (ok: bool, n: nat)
    requires source + Total(sizes, |sizes|) <= mem.Length && Ints32(sizes)
    requires safeBuffer + (if 0 <= dictSize <= 65536 then dictSize else 65536) <= mem.Length
    modifies mem
    ensures AllFit(sizes, capacity) ==> ok
    ensures ok ==>
              var total, most := Total(sizes, |sizes|), if 0 <= dictSize <= 65536 then dictSize else 65536;
              && n == (if most < total then most else total)
              && mem[safeBuffer..safeBuffer + n] == old(mem[source + total - n..source + total])
  {
    hide Chain, AllFit, Compressing, Remembers;
    ghost var m, end := mem[..], source + Total(sizes, |sizes|);
    var c := new Context();
    var blocks;
    n := 0;
    FreshCompressor(c, m, source, end);
    ok, blocks := CompressStream(c, mem[..], source, sizes, capacity, acceleration, []);
    if ok {
      assert [] + m[source..end] == m[source..end];
      n := SaveRemembered(c, mem, safeBuffer, dictSize, source, end);
    }
  }

  method SaveRemembered(c: Context, mem: array<byte>, safeBuffer: nat, dictSize: int, ghost start: nat, ghost end: nat)
    returns (n: nat)
    requires c.hashTable as object != mem as object && start <= end <= mem.Length
    requires Compressing(c, mem[..], mem[..][start..end], end, end) && Remembers(c, start, end)
    requires safeBuffer + (if 0 <= dictSize <= 65536 then dictSize else 65536) <= mem.Length
    modifies c, mem
    ensures var total, most := end - start, if 0 <= dictSize <= 65536 then dictSize else 65536;
            && n == (if most < total then most else total)
            && mem[..][safeBuffer..safeBuffer + n] == old(mem[..])[end - n..end]
  {
    hide Suffix, Compressing, Remembers, StreamOk, HistoryOf;
    ghost var m := mem[..];
    Remembered(c, m, start, end);
    HistoryBefore(c, m, end);
    ghost var hist := HistoryOf(c, m);
    n := SaveDict(c, mem, safeBuffer, dictSize);
    SavedText(c, m, mem[..], start, end, hist, safeBuffer, n);
  }

  lemma SavedText(c: Context, m0: seq<byte>, m: seq<byte>, start: nat, end: nat, hist: seq<byte>, place: nat, n: nat)
    requires StreamOk(c, m) && c.dictionary == place && c.dictSize == n && start <= end <= |m0|
    requires Suffix(HistoryOf(c, m), hist) && Suffix(hist, m0[start..end])
    ensures place + n <= |m| && n <= end - start && m[place..place + n] == m0[end - n..end]
  {
    hide Suffix, StreamOk, HistoryOf;
    HistoryPlace(c, m);
    SavedEnd(m0[start..end], hist, m[place..place + n], n);
    SliceOfSlice(m0, start, end, end - start - n, end - start);
  }

  lemma HistoryPlace(c: Context, m: seq<byte>)
    requires StreamOk(c, m) && 0 <= c.dictionary
    ensures c.dictionary + c.dictSize <= |m| && HistoryOf(c, m) == m[c.dictionary..c.dictionary + c.dictSize]
  {
  }

  lemma Remembered(c: Context, m: seq<byte>, start: nat, end: nat)
    requires start <= end <= |m| && Compressing(c, m, m[start..end], end, end) && Remembers(c, start, end)
    ensures StreamOk(c, m) && Suffix(HistoryOf(c, m), m[start..end])
    ensures c.dictSize <= end - start && (c.dictSize == end - start || 65536 <= c.dictSize)
  {
    hide Settled, Zeroed, HistoryOf, Suffix, StreamOk;
    HistoryBefore(c, m, end);
    SuffixLength(HistoryOf(c, m), m[start..end]);
  }

  lemma SuffixLength(h: seq<byte>, past: seq<byte>)
    requires Suffix(h, past)
    ensures |h| <= |past|
  {
  }

  lemma SavedEnd(text: seq<byte>, h: seq<byte>, saved: seq<byte>, n: nat)
    requires Suffix(h, text) && Suffix(saved, h) && n == |saved|
    ensures n <= |text| && saved == text[|text| - n..]
  {
  }

  lemma ClearIsLaidOut(c: Context, m: seq<byte>, at: nat, size: nat, to: nat)
    requires StreamOk(c, m) && Clear(c, at, to) && at + size <= to
    ensures LaidOut(c, at, size) && Intact(c, m, at + size) == HistoryOf(c, m)
  {
  }

  lemma JoinPiece(past: seq<byte>, text: seq<byte>, k: nat, size: nat)
    requires k + size <= |text|
    ensures (past + text[..k]) + text[k..k + size] == past + text[..k + size]
  {
    assert text[..k] + text[k..k + size] == text[..k + size];
  }

  /** Decompresses the blocks of a stream one behind the other: each piece has its exact size, and
      together they are the text. */
  method DecompressStream(d: StreamDecode, blocks: seq<seq<byte>>, mem: array<byte>, dst: nat, oend: nat, aarch64: bool,
                          ghost past: seq<byte>, ghost text: seq<byte>, ghost sizes: seq<nat>)
    returns (rs: seq<int>)
    requires dst <= oend <= mem.Length && Decompressing(d, mem[..], past, dst, oend - dst)
    requires |blocks| == |sizes| && Chain(blocks, past, text, sizes)
    requires |text| == Total(sizes, |sizes|) && dst + |text| <= oend
    modifies d, mem
    ensures |rs| == |sizes| && forall i :: 0 <= i < |sizes| ==> rs[i] == sizes[i]
    ensures mem[dst..dst + |text|] == text
    ensures Kept(old(mem[..]), mem[..], dst, oend - dst)
    ensures Decompressing(d, mem[..], past + text, dst + |text|, oend - dst - |text|)
  {
    hide Encodes, Chain, Kept, Decompressing;
    ghost var m0 := mem[..];
    rs := [];
    var op := dst;
    KeptItself(m0, dst, oend - dst);
    ChainEmpty(past, text, sizes);
    while |rs| < |blocks|
      invariant |rs| <= |blocks| && op == dst + Total(sizes, |rs|) <= dst + |text|
      invariant Decompressing(d, mem[..], past + text[..op - dst], op, oend - op)
      invariant forall i :: 0 <= i < |rs| ==> rs[i] == sizes[i]
      invariant mem[dst..op] == text[..op - dst] && Kept(m0, mem[..], dst, oend - dst)
    {
      var i := |rs|;
      ghost var m, k, size := mem[..], op - dst, sizes[i];
      TotalMonotone(sizes, i + 1, |sizes|);
      ChainAt(blocks, past, text, sizes, i);
      JoinPiece(past, text, k, size);
      var r := DecompressNext(d, blocks[i], mem, op, oend - op, aarch64, past + text[..k], text[k..k + size]);
      NextPiece(m0, m, mem[..], dst, op, oend, r, text);
      rs := rs + [r];
      op := op + r;
    }
    assert text[..|text|] == text;
  }

  /** One step of a stream, wherever its output goes: a block that stands for `data` after `past` gives
      `data` to a decoder that remembers the end of `past`, and leaves it with the end of `past + data`. */
  method DecompressNext(d: StreamDecode, block: seq<byte>, mem: array<byte>, dst: nat, cap: nat, aarch64: bool,
                        ghost past: seq<byte>, ghost data: seq<byte>) returns (r: int)
    requires dst + cap <= mem.Length && Decompressing(d, mem[..], past, dst, cap)
    requires Encodes(block, past, data) && |data| <= cap
    modifies d, mem
    ensures r == |data| && mem[dst..dst + r] == data && Kept(old(mem[..]), mem[..], dst, cap)
    ensures Decompressing(d, mem[..], past + data, dst + r, cap - r)
  {
    hide Encodes, Covers, GivesBack, Kept;
    ghost var hist := d.History(mem[..], dst);
    EncodesCovered(block, past, hist, data);
    r := d.SafeContinue(block, mem, dst, cap, aarch64);
    Given(block, hist, cap, mem[..], dst, r, data);
    CoversAppend(hist, past, data);
  }

  lemma Given(src: seq<byte>, hist: seq<byte>, cap: int, m: seq<byte>, dst: nat, r: int, data: seq<byte>)
    requires GivesBack(src, hist, cap, m, dst, r) && Encodes(src, hist, data) && |data| <= cap
    ensures r == |data| && dst + r <= |m| && m[dst..dst + r] == data
  {
    hide Encodes;
  }

  /** What was decoded before stays, and the new piece joins it. */
  lemma NextPiece(m0: seq<byte>, m: seq<byte>, m': seq<byte>, dst: nat, op: nat, oend: nat, r: nat, text: seq<byte>)
    requires Kept(m0, m, dst, oend - dst) && Kept(m, m', op, oend - op) && dst <= op <= op + r <= oend <= |m0|
    requires op + r - dst <= |text|
    requires m[dst..op] == text[..op - dst] && m'[op..op + r] == text[op - dst..op + r - dst]
    ensures m'[dst..op + r] == text[..op + r - dst] && Kept(m0, m', dst, oend - dst)
  {
    assert m'[dst..op] == m[dst..op];
    assert m'[dst..op + r] == m'[dst..op] + m'[op..op + r];
    assert text[..op + r - dst] == text[..op - dst] + text[op - dst..op + r - dst];
  }

  /** Streaming round trip: any number of blocks laid end to end, compressed and decompressed with what
      either side remembers of the same past, a renormalised table included. */
  method StreamRoundTrip(c: Context, m: seq<byte>, source: nat, sizes: seq<nat>, capacity: nat, acceleration: int,
                         d: StreamDecode, mem: array<byte>, dst: nat, oend: nat, aarch64: bool, ghost past: seq<byte>)
    returns (ok: bool, rs: seq<int>)
    requires source + Total(sizes, |sizes|) <= |m| && Ints32(sizes)
    requires Compressing(c, m, past, source, source + Total(sizes, |sizes|))
    requires c.hashTable as object != mem as object
    requires dst + Total(sizes, |sizes|) <= oend <= mem.Length && Decompressing(d, mem[..], past, dst, oend - dst)
    modifies c, c.hashTable, d, mem
    ensures AllFit(sizes, capacity) ==> ok
    ensures ok ==> |rs| == |sizes| && forall i :: 0 <= i < |sizes| ==> rs[i] == sizes[i]
    ensures ok ==> mem[dst..dst + Total(sizes, |sizes|)] == m[source..source + Total(sizes, |sizes|)]
    ensures ok ==> var n := Total(sizes, |sizes|);
                   && Compressing(c, m, past + m[source..source + n], source + n, source + n)
                   && Decompressing(d, mem[..], past + m[source..source + n], dst + n, oend - dst - n)
  {
    hide Chain, AllFit, Kept, Compressing, Decompressing;
    var blocks;
    rs := [];
    ok, blocks := CompressStream(c, m, source, sizes, capacity, acceleration, past);
    if ok {
      ghost var text := m[source..source + Total(sizes, |sizes|)];
      rs := DecompressStream(d, blocks, mem, dst, oend, aarch64, past, text, sizes);
    }
  }

  /** Both sides of a stream take the same dictionary. */
  method OpenWithDict(c: Context, m: seq<byte>, dictionary: nat, dictSize: nat, slow: bool, source: nat, to: nat,
                      d: StreamDecode, ghost mem: seq<byte>, dictStart: nat, dst: nat, cap: nat)
    requires c.hashTable.Length == 8192 && dictionary + dictSize <= |m| && source <= to
    requires dictionary + dictSize <= source || to <= dictionary
    requires dictStart + dictSize <= |mem|
             && mem[dictStart..dictStart + dictSize] == m[dictionary..dictionary + dictSize]
    requires dictStart + dictSize <= dst || dst + cap <= dictStart
    modifies c, c.hashTable, d
    ensures var dict := m[dictionary..dictionary + dictSize];
            Compressing(c, m, dict, source, to) && Decompressing(d, mem, dict, dst, cap)
  {
    hide Covers, Settled, Bytes, Suffix, StreamDecode.History, StreamDecode.Valid, StreamDecode.OutOfTheWay;
    ghost var dict := m[dictionary..dictionary + dictSize];
    var n := LoadDict(c, m, dictionary, dictSize, slow);
    BytesAre(m, dictionary, dictSize);
    LoadedCovers(c, m, source, to - source, dictionary, dictSize, dict);
    CoversItself(dict);
    CoversEnd(dict, dict, HistoryOf(c, m));
    d.SetStreamDecode(dictStart, dictSize);
    assert d.History(mem, dst) == dict;
  }

  /** Streaming round trip after a dictionary, for any number of blocks. */
  method DictStreamRoundTrip(m: seq<byte>, dictionary: nat, dictSize: nat, slow: bool, source: nat, sizes: seq<nat>,
                             capacity: nat, acceleration: int,
                             mem: array<byte>, dictStart: nat, dst: nat, oend: nat, aarch64: bool)
    returns (ok: bool, rs: seq<int>)
    requires source + Total(sizes, |sizes|) <= |m| && Ints32(sizes)
    requires dictionary + dictSize <= source || source + Total(sizes, |sizes|) <= dictionary
    requires dictionary + dictSize <= |m| && dictStart + dictSize <= mem.Length
    requires mem[dictStart..dictStart + dictSize] == m[dictionary..dictionary + dictSize]
    requires dst + Total(sizes, |sizes|) <= oend <= mem.Length
    requires dictStart + dictSize <= dst || oend <= dictStart
    modifies mem
    ensures AllFit(sizes, capacity) ==> ok
    ensures ok ==> |rs| == |sizes| && forall i :: 0 <= i < |sizes| ==> rs[i] == sizes[i]
    ensures ok ==> mem[dst..dst + Total(sizes, |sizes|)] == m[source..source + Total(sizes, |sizes|)]
  {
    hide AllFit, Compressing, Decompressing;
    var c := new Context();
    var d := new StreamDecode();
    OpenWithDict(c, m, dictionary, dictSize, slow, source, source + Total(sizes, |sizes|), d, mem[..], dictStart, dst,
      oend - dst);
    ok, rs := StreamRoundTrip(c, m, source, sizes, capacity, acceleration, d, mem, dst, oend, aarch64,
                              m[dictionary..dictionary + dictSize]);
  }
}

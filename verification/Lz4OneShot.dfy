/**
 Single blocks: compression with a fresh, a reset or a reused state, and into a fixed space.
 */
module Lz4OneShot {
  import opened ByteSeq
  import opened Lz4Format
  import opened Lz4Emit
  import opened Lz4Job
  import opened Lz4Compress
  import opened Lz4Context

  /** The nearest acceleration in range. */
  function ClampAcceleration(a: int): (r: nat)
    ensures 1 <= r <= 65537 && (1 <= a <= 65537 ==> r == a) && (a < 1 ==> r == 1) && (65537 < a ==> r == 65537)
  {
    if a < 1 then LZ4_ACCELERATION_DEFAULT else if a > LZ4_ACCELERATION_MAX then LZ4_ACCELERATION_MAX else a
  }

  /** The first `n` bytes at `source`; a source of no bytes may be anywhere. */
  function Bytes(m: seq<byte>, source: nat, n: int): seq<byte>
    requires n <= 0 || source + n <= |m|
  {
    if n <= 0 then [] else m[source..source + n]
  }

  /** A state that single-block calls leave behind, failed ones included: what is in a used table lies
      at least 12 below `currentOffset`. */
  ghost predicate Clean(tableType: TableType, currentOffset: nat, t: seq<nat>) {
    && |t| == 8192
    && (tableType == ClearedTable ==> Zeroed(t) && currentOffset == 0)
    && currentOffset + 4096 <= TWO32
    && (forall h :: 0 <= h < TableSize(tableType) ==> t[h] == 0 || t[h] + MFLIMIT <= currentOffset)
  }

  /** A table that was never used, at an offset that a dictionary too small to load or a reset left behind. */
  ghost predicate Unused(tableType: TableType, currentOffset: nat, t: seq<nat>) {
    && |t| == 8192 && tableType == ClearedTable && Zeroed(t)
    && KB64 <= currentOffset <= GB2
  }

  /** What part of the output buffer a call uses: never more than the worst case of its source. */
  function Room(srcSize: int, maxOutputSize: int): (r: nat)
    ensures r <= AtLeast0(maxOutputSize)
  {
    if !(0 <= srcSize <= 0x7E00_0000) then 0
    else if maxOutputSize >= srcSize + srcSize / 255 + 16 then srcSize + srcSize / 255 + 16
    else AtLeast0(maxOutputSize)
  }

  /** The size of a block of `n` literals and nothing else. */
  function PlainSize(n: nat): nat {
    n + 1 + if n < 15 then 0 else (n - 15) / 255 + 1
  }

  lemma BoundIsPlain(n: nat)
    requires n <= LZ4_MAX_INPUT_SIZE
    ensures PlainSize(n) <= CompressBound(n) == n + n / 255 + 16
  {
  }

  lemma PlainSizeIs(data: seq<byte>)
    ensures PlainSize(|data|) == |Serialize(Block([], data, 0))| && Encodes(Serialize(Block([], data, 0)), [], data)
  {
    hide Parse, LenBytes;
    var b := Block([], data, 0);
    LastSize(data);
    ParseSerialize(b);
    assert SerializeAll([]) == [];
    assert Expand([], []) == [];
  }

  /** What a call without history promises: a block that stands for the whole source, or 0; and not 0 when the
      block of nothing but literals would fit. */
  ghost predicate OneShot(m: seq<byte>, source: nat, srcSize: int, out: seq<byte>, r: nat, maxOutputSize: int)
    requires srcSize <= 0 || source + srcSize <= |m|
  {
    && r == |out| && r <= Room(srcSize, maxOutputSize)
    && (!(0 <= srcSize <= 0x7E00_0000) ==> r == 0)
    && (0 <= srcSize <= 0x7E00_0000 && PlainSize(srcSize) <= maxOutputSize ==> r > 0)
    && (r > 0 ==> Encodes(out, [], Bytes(m, source, srcSize)))
  }

  /** `n` times the same byte, enough of them for a match. */
  predicate OneByte(m: seq<byte>, source: nat, n: int) {
    13 <= n <= 0x7E00_0000 && source + n <= |m| && forall i :: source <= i < source + n ==> m[i] == m[source]
  }

  /** Such a source comes down to the first byte, a match, and the last five bytes. */
  predicate Shrinks(m: seq<byte>, source: nat, n: int, r: nat, maxOutputSize: int) {
    OneByte(m, source, n) ==>
      var size := 10 + if n < 25 then 0 else (n - 25) / 255 + 1;
      r == if size <= maxOutputSize then size else 0
  }

  lemma EmptyBlockEncodes(out: seq<byte>)
    requires out == [0]
    ensures Encodes(out, [], [])
  {
    ParseLast(out, 0, [], 0, []);
  }

  /** A clean state can take a block without history, provided 16-bit indexes stay small and a used
      table is guarded by `dictSmall`. */
  lemma CleanIsUsable(j: Job, tableType: TableType, t: seq<nat>)
    requires Clean(tableType, j.startIndex, t) && (tableType == ClearedTable || tableType == j.table)
    requires !j.ext && j.dictSize == 0 && 1 <= j.size <= LZ4_MAX_INPUT_SIZE && IEnd(j) <= |j.m|
    requires j.table != ClearedTable && 1 <= j.accel && j.dst <= j.dstEnd
    requires j.table == ByU16 ==> j.size < LZ4_64Klimit && j.startIndex + j.size <= 65547
    requires j.out == NotLimited ==> j.dst + CompressBound(j.size) <= j.dstEnd
    requires j.out == FillOutput ==> j.startIndex == 0 && j.dst < j.dstEnd
    requires j.startIndex == 0 || (j.small && j.size < 4096)
    ensures Usable(j, t)
  {
  }

  /** So can one whose table was never used: its empty slots are too far back, or ruled out by `dictSmall`. */
  lemma UnusedIsUsable(j: Job, tableType: TableType, t: seq<nat>)
    requires Unused(tableType, j.startIndex, t)
    requires !j.ext && j.dictSize == 0 && 1 <= j.size <= LZ4_MAX_INPUT_SIZE && IEnd(j) <= |j.m|
    requires j.table != ClearedTable && 1 <= j.accel && j.dst <= j.dstEnd && j.out != FillOutput
    requires if j.table == ByU16 then j.small && j.size < LZ4_64Klimit else KB64 < j.startIndex
    requires j.out == NotLimited ==> j.dst + CompressBound(j.size) <= j.dstEnd
    ensures Usable(j, t)
  {
    assert j.startIndex + j.size < TWO32;
  }

  /** And is clean afterwards, whether the call succeeded or not. */
  lemma CleanAfter(j: Job, tableType: TableType, t0: seq<nat>, t: seq<nat>)
    requires ValidJob(j) && (Clean(tableType, j.startIndex, t0) || Unused(tableType, j.startIndex, t0))
    requires TableAfter(j, t0, t) && (tableType == ClearedTable || tableType == j.table)
    requires j.startIndex + j.size + 4096 <= TWO32
    ensures Clean(j.table, j.startIndex + j.size, t)
  {
    if j.size < LZ4_minLength {
      if tableType == ClearedTable {
        assert forall h :: 0 <= h < TableSize(j.table) ==> t[h] == 0;
      }
    }
  }

  /** The two output modes of a block call: the limit is not looked at when the bound fits. */
  function ModeFor(srcSize: int, maxOutputSize: int): OutputMode {
    if maxOutputSize >= CompressBound(srcSize) then NotLimited else LimitedOutput
  }

  function WidthFor(srcSize: int): TableType {
    if srcSize < LZ4_64Klimit then ByU16 else ByU32
  }

  /** A state that `LZ4_prepareTable` has made fit for a block, or one just initialised. */
  ghost predicate Prepared(tableType: TableType, currentOffset: nat, t: seq<nat>, srcSize: int, small: bool) {
    if Unused(tableType, currentOffset, t) then if WidthFor(srcSize) == ByU16 then small else KB64 < currentOffset
    else
      && Clean(tableType, currentOffset, t) && (tableType == ClearedTable || tableType == WidthFor(srcSize))
      && (currentOffset != 0 ==> small && (srcSize < 0 || (srcSize < 4096 && currentOffset + srcSize < 0xFFFF)))
  }

  lemma PreparedIsUsable(j: Job, tableType: TableType, t: seq<nat>)
    requires Prepared(tableType, j.startIndex, t, j.size, j.small) && j.table == WidthFor(j.size)
    requires !j.ext && j.dictSize == 0 && 1 <= j.size <= LZ4_MAX_INPUT_SIZE && IEnd(j) <= |j.m|
    requires 1 <= j.accel && j.dst <= j.dstEnd && j.out != FillOutput
    requires j.out == NotLimited ==> j.dst + CompressBound(j.size) <= j.dstEnd
    ensures Usable(j, t) && j.startIndex + j.size + 4096 <= TWO32
    ensures Clean(tableType, j.startIndex, t) || Unused(tableType, j.startIndex, t)
    ensures tableType == ClearedTable || tableType == j.table
  {
    hide ValidJob, Entries;
    if Unused(tableType, j.startIndex, t) {
      UnusedIsUsable(j, tableType, t);
    } else {
      CleanIsUsable(j, tableType, t);
    }
  }

  predicate FillsRun(j: Job) {
    13 <= j.size && j.dst + 13 <= j.dstEnd && j.dst + RunSize(j.size) <= j.dstEnd
  }

  lemma IsRun(j: Job)
    requires ValidJob(j) && !j.ext && j.dictSize == 0
    ensures LZ4_minLength <= j.size && j.startIndex < 65536 && (j.out == FillOutput ==> FillsRun(j)) ==>
              (Run(j) <==> forall i :: j.source <= i < j.source + j.size ==> j.m[i] == j.m[j.source])
    ensures LZ4_minLength <= j.size ==> RunSize(j.size) <= CompressBound(j.size)
  {
  }

  /** A single block on a state that has been prepared for it. */
  method CompressPrepared(c: Context, m: seq<byte>, source: nat, srcSize: int, dst: array<byte>, d: nat,
                          maxOutputSize: int, small: bool, accel: nat) returns (r: nat)
    requires c.hashTable as object != dst as object && d + AtLeast0(maxOutputSize) <= dst.Length
    requires srcSize <= 0 || source + srcSize <= |m|
    requires Prepared(c.tableType, c.currentOffset, c.hashTable[..], srcSize, small) && c.dictSize == 0 && 1 <= accel
    modifies c, c.hashTable, dst
    ensures 0 < srcSize <= LZ4_MAX_INPUT_SIZE ==> Clean(c.tableType, c.currentOffset, c.hashTable[..])
    ensures 0 < srcSize <= LZ4_MAX_INPUT_SIZE ==> c.tableType == if srcSize < 65547 then ByU16 else ByU32
    ensures !(0 < srcSize <= LZ4_MAX_INPUT_SIZE) ==>
              c.hashTable[..] == old(c.hashTable[..]) && c.tableType == old(c.tableType)
              && c.currentOffset == old(c.currentOffset)
    ensures OnlyBetween(old(dst[..]), dst[..], d, d + Room(srcSize, maxOutputSize))
    ensures r <= Room(srcSize, maxOutputSize) && OneShot(m, source, srcSize, dst[d..d + r], r, maxOutputSize)
    ensures old(c.currentOffset) < 65536 ==> Shrinks(m, source, srcSize, r, maxOutputSize)
  {
    hide Clean, Unused, Prepared, ValidJob, TableAfter, Entries, Encodes, Usable, Run;
    var out, table := ModeFor(srcSize, maxOutputSize), WidthFor(srcSize);
    var room := Room(srcSize, maxOutputSize);
    ghost var t0, tt := c.hashTable[..], c.tableType;
    ghost var j := JobOf(c, m, source, AtLeast0(srcSize), NoDict, small, out, table, accel, d, d + room);
    if 0 < srcSize <= LZ4_MAX_INPUT_SIZE {
      PreparedIsUsable(j, tt, t0);
    }
    var consumed;
    r, consumed := CompressGeneric(c, m, source, srcSize, dst, d, room, maxOutputSize, out, table, NoDict, small,
      accel);
    if 0 < srcSize <= LZ4_MAX_INPUT_SIZE {
      CleanAfter(j, tt, t0, c.hashTable[..]);
      assert Hist(j) == [];
      IsRun(j);
    } else if r > 0 {
      assert dst[d..d + 1] == [0];
      EmptyBlockEncodes([0]);
    }
  }

  /** `LZ4_compress_fast_extState`. */
  method CompressFastExtState(c: Context, m: seq<byte>, source: nat, srcSize: int, dst: array<byte>, d: nat,
                              maxOutputSize: int, acceleration: int) returns (r: nat)
    requires c.hashTable as object != dst as object && c.hashTable.Length == 8192
    requires d + AtLeast0(maxOutputSize) <= dst.Length && (srcSize <= 0 || source + srcSize <= |m|)
    modifies c, c.hashTable, dst
    ensures Clean(c.tableType, c.currentOffset, c.hashTable[..])
    ensures OnlyBetween(old(dst[..]), dst[..], d, d + Room(srcSize, maxOutputSize))
    ensures r <= Room(srcSize, maxOutputSize) && OneShot(m, source, srcSize, dst[d..d + r], r, maxOutputSize)
    ensures Shrinks(m, source, srcSize, r, maxOutputSize)
    ensures 0 < srcSize <= LZ4_MAX_INPUT_SIZE ==> c.tableType == if srcSize < 65547 then ByU16 else ByU32
  {
    c.InitStream();
    r := CompressPrepared(c, m, source, srcSize, dst, d, maxOutputSize, false, ClampAcceleration(acceleration));
  }

  /** A state that `LZ4_compress_fast_extState_fastReset` takes: last used for single blocks, or for streaming. */
  ghost predicate Resettable(tableType: TableType, currentOffset: nat, t: seq<nat>) {
    || Clean(tableType, currentOffset, t)
    || (tableType == ByU32 && |t| == 8192)
    || (Unused(tableType, currentOffset, t) && currentOffset + KB64 <= GB2)
  }

  /** `LZ4_compress_fast_extState_fastReset`: the state is kept when its table can be. */
  method CompressFastExtStateFastReset(c: Context, m: seq<byte>, source: nat, srcSize: int, dst: array<byte>, d: nat,
                                       maxOutputSize: int, acceleration: int) returns (r: nat)
    requires c.hashTable as object != dst as object && Resettable(c.tableType, c.currentOffset, c.hashTable[..])
    requires d + AtLeast0(maxOutputSize) <= dst.Length && (srcSize <= 0 || source + srcSize <= |m|)
    modifies c, c.hashTable, dst
    ensures 0 < srcSize <= LZ4_MAX_INPUT_SIZE || !old(Unused(c.tableType, c.currentOffset, c.hashTable[..])) ==>
              Clean(c.tableType, c.currentOffset, c.hashTable[..])
    ensures !(0 < srcSize <= LZ4_MAX_INPUT_SIZE) && old(Unused(c.tableType, c.currentOffset, c.hashTable[..])) ==>
              && Unused(c.tableType, c.currentOffset, c.hashTable[..])
              && c.currentOffset == old(c.currentOffset) + if srcSize <= 0 then 0 else KB64
    ensures OnlyBetween(old(dst[..]), dst[..], d, d + Room(srcSize, maxOutputSize))
    ensures r <= Room(srcSize, maxOutputSize) && OneShot(m, source, srcSize, dst[d..d + r], r, maxOutputSize)
    ensures !old(Unused(c.tableType, c.currentOffset, c.hashTable[..])) ==>
              Shrinks(m, source, srcSize, r, maxOutputSize)
    ensures 0 < srcSize <= LZ4_MAX_INPUT_SIZE ==> c.tableType == if srcSize < 65547 then ByU16 else ByU32
  {
    c.PrepareTable(srcSize, WidthFor(srcSize));
    var small := WidthFor(srcSize) == ByU16 && c.currentOffset != 0;
    r := CompressPrepared(c, m, source, srcSize, dst, d, maxOutputSize, small, ClampAcceleration(acceleration));
  }

  /** `LZ4_compress_fast`. */
  method CompressFast(m: seq<byte>, source: nat, srcSize: int, dst: array<byte>, d: nat, maxOutputSize: int,
                      acceleration: int)
    returns (r: nat)
    requires d + AtLeast0(maxOutputSize) <= dst.Length && (srcSize <= 0 || source + srcSize <= |m|)
    modifies dst
    ensures OnlyBetween(old(dst[..]), dst[..], d, d + Room(srcSize, maxOutputSize))
    ensures r <= Room(srcSize, maxOutputSize) && OneShot(m, source, srcSize, dst[d..d + r], r, maxOutputSize)
    ensures Shrinks(m, source, srcSize, r, maxOutputSize)
  {
    var c := new Context();
    r := CompressFastExtState(c, m, source, srcSize, dst, d, maxOutputSize, acceleration);
  }

  /** `LZ4_compress_destSize`: as much of the source as fits in `targetDstSize` bytes. */
  method CompressDestSize(m: seq<byte>, source: nat, srcSize: int, dst: array<byte>, d: nat, targetDstSize: int)
    returns (r: nat, consumed: int)
    requires d + AtLeast0(targetDstSize) <= dst.Length && (srcSize <= 0 || source + srcSize <= |m|)
    modifies dst
    ensures OnlyBetween(old(dst[..]), dst[..], d, d + Room(srcSize, targetDstSize))
    ensures r <= Room(srcSize, targetDstSize)
    ensures r > 0 <==> 0 <= srcSize <= LZ4_MAX_INPUT_SIZE && 1 <= targetDstSize
    ensures r > 0 ==> 0 <= consumed <= srcSize && Encodes(dst[d..d + r], [], Bytes(m, source, consumed))
    ensures 0 <= srcSize <= LZ4_MAX_INPUT_SIZE && PlainSize(srcSize) <= targetDstSize ==> consumed == srcSize
    ensures r > 0 && consumed < srcSize ==> targetDstSize - 1 <= r
    ensures OneByte(m, source, srcSize) && 13 <= targetDstSize ==>
              var size := 10 + if srcSize < 25 then 0 else (srcSize - 25) / 255 + 1;
              size <= targetDstSize ==> r == size && consumed == srcSize
  {
    hide Clean, ValidJob, Entries, Encodes, Usable, Run;
    var c := new Context();
    consumed := srcSize;
    if targetDstSize >= CompressBound(srcSize) {
      r := CompressFastExtState(c, m, source, srcSize, dst, d, targetDstSize, 1);
      return;
    }
    var room := AtLeast0(targetDstSize);
    ghost var j := JobOf(c, m, source, AtLeast0(srcSize), NoDict, false, FillOutput, WidthFor(srcSize), 1, d, d + room);
    if 0 < srcSize <= LZ4_MAX_INPUT_SIZE && 1 <= targetDstSize {
      InitialIsClean(c.hashTable[..]);
      CleanIsUsable(j, ClearedTable, c.hashTable[..]);
    }
    r, consumed := CompressGeneric(c, m, source, srcSize, dst, d, room, targetDstSize, FillOutput, WidthFor(srcSize),
      NoDict, false, 1);
    if 0 < srcSize <= LZ4_MAX_INPUT_SIZE && 1 <= targetDstSize {
      assert Hist(j) == [];
      IsRun(j);
    } else if r > 0 {
      assert dst[d..d + 1] == [0];
      EmptyBlockEncodes([0]);
    }
  }

  lemma InitialIsClean(t: seq<nat>)
    requires |t| == 8192 && Zeroed(t)
    ensures Clean(ClearedTable, 0, t)
  {
  }
}

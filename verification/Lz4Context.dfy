/**
 The compression state, and what all entry points do with it: `LZ4_initStream`, `LZ4_prepareTable` and
 `LZ4_compress_generic`.
 */
module Lz4Context {
  import opened ByteSeq
  import opened Lz4Format
  import opened Lz4Emit
  import opened Lz4Job
  import opened Lz4Compress

  const NULL := -1
  const KB64 := 0x1_0000
  const GB1 := 0x4000_0000
  const GB2 := 0x8000_0000
  const LZ4_ACCELERATION_DEFAULT := 1
  const LZ4_ACCELERATION_MAX := 65537

  datatype DictDirective = NoDict | WithPrefix64k | UsingExtDict

  /** `LZ4_stream_t_internal`. The 16 KB table has 8192 slots of 16 bits, or 4096 of 32 bits, which
      are here the first 4096; it is never read in one width after being written in the other.
      `dictionary` is a position in memory, or `NULL`. */
  class Context {
    const hashTable: array<nat>
    var dictionary: int
    var dictSize: nat
    var currentOffset: nat
    var tableType: TableType

    constructor ()
      ensures fresh(hashTable) && Initial()
    {
      hashTable := new nat[8192](_ => 0);
      dictionary, dictSize, currentOffset, tableType := NULL, 0, 0, ClearedTable;
    }

    /** As after `LZ4_initStream`. */
    ghost predicate Initial()
      reads this, hashTable
    {
      && hashTable.Length == 8192 && Zeroed(hashTable[..])
      && dictionary == NULL && dictSize == 0 && currentOffset == 0 && tableType == ClearedTable
    }

    /** `LZ4_initStream`, `LZ4_resetStream`: all of it set to zero. */
    method InitStream()
      requires hashTable.Length == 8192
      modifies this, hashTable
      ensures Initial()
    {
      ClearTable();
      dictionary, dictSize, currentOffset, tableType := NULL, 0, 0, ClearedTable;
    }

    method ClearTable()
      modifies hashTable
      ensures Zeroed(hashTable[..])
    {
      forall i | 0 <= i < hashTable.Length {
        hashTable[i] := 0;
      }
    }

    /** `LZ4_prepareTable`: keep the table if its indexes stay usable, else clear it; then forget history. */
    method PrepareTable(inputSize: int, table: TableType)
      requires hashTable.Length == 8192 && table != ClearedTable
      modifies this, hashTable
      ensures dictionary == NULL && dictSize == 0
      ensures old(tableType) != ClearedTable ==>
                (tableType == ClearedTable <==>
                   || old(tableType) != table || inputSize >= 4096
                   || (table == ByU16 && (old(currentOffset) + inputSize) % 0x1_0000_0000 >= 65535)
                   || (table == ByU32 && old(currentOffset) > 0x4000_0000))
      ensures MustReset(old(tableType), old(currentOffset), inputSize, table) ==>
                Zeroed(hashTable[..]) && tableType == ClearedTable && currentOffset == 0
      ensures !MustReset(old(tableType), old(currentOffset), inputSize, table) ==>
                && hashTable[..] == old(hashTable[..]) && tableType == old(tableType)
                && currentOffset == Gapped(old(currentOffset), table)
    {
      if MustReset(tableType, currentOffset, inputSize, table) {
        ClearTable();
        currentOffset := 0;
        tableType := ClearedTable;
      }
      if currentOffset != 0 && table == ByU32 {
        currentOffset := (currentOffset + KB64) % TWO32;
      }
      dictionary, dictSize := NULL, 0;
    }
  }

  predicate Zeroed(t: seq<nat>) {
    forall h :: 0 <= h < |t| ==> t[h] == 0
  }

  /** When a used table cannot be carried over to an input of this size and width. */
  predicate MustReset(tableType: TableType, currentOffset: nat, inputSize: int, table: TableType) {
    && tableType != ClearedTable
    && (|| tableType != table
        || (table == ByU16 && (currentOffset + inputSize) % TWO32 >= 0xFFFF)
        || (table == ByU32 && currentOffset > GB1)
        || inputSize >= 4096)
  }

  /** A gap of 64 KB puts all earlier 32-bit entries too far back to be used. */
  function Gapped(currentOffset: nat, table: TableType): nat {
    if currentOffset != 0 && table == ByU32 then (currentOffset + KB64) % TWO32 else currentOffset
  }

  /** The job that `LZ4_compress_generic` hands to the block compressor. */
  function JobOf(c: Context, m: seq<byte>, source: nat, size: nat, dir: DictDirective, small: bool,
                 out: OutputMode, table: TableType, accel: nat, dst: nat, dstEnd: nat): Job
    reads c
  {
    Job(m, source, size, c.currentOffset, AtLeast0(c.dictionary), c.dictSize,
        dir == UsingExtDict, small, out, table, accel, dst, dstEnd)
  }

  function AtLeast0(x: int): nat {
    if x < 0 then 0 else x
  }

  /** The room that may be used: what the caller says there is, or in `NotLimited` mode what there is. */
  function Limit(out: OutputMode, room: nat, maxOutputSize: int): nat {
    if out == NotLimited then room else AtLeast0(maxOutputSize)
  }

  /** The calls that return 0 before they touch anything. */
  predicate Refused(srcSize: int, out: OutputMode, maxOutputSize: int) {
    || srcSize < 0 || srcSize > LZ4_MAX_INPUT_SIZE
    || (srcSize == 0 && out != NotLimited && maxOutputSize <= 0)
    || (srcSize > 0 && out == FillOutput && maxOutputSize < 1)
  }

  /** What a call needs of the state: a job whose table entries can be trusted. */
  ghost predicate Usable(j: Job, t: seq<nat>) {
    ValidJob(j) && Entries(j, t, j.startIndex + 1)
  }

  /** `LZ4_compress_generic`. `room` is what the output buffer really holds from `d` on;
      `maxOutputSize` is what the caller says it holds, which `NotLimited` mode ignores. */
  method CompressGeneric(c: Context, m: seq<byte>, source: nat, srcSize: int, dst: array<byte>, d: nat,
                         room: nat, maxOutputSize: int, out: OutputMode, table: TableType,
                         dir: DictDirective, small: bool, accel: nat)
    returns (r: nat, consumed: nat)
    requires c.hashTable as object != dst as object && d + room <= dst.Length
    requires out != NotLimited ==> maxOutputSize <= room
    requires out == NotLimited && srcSize == 0 ==> 1 <= room
    requires dir == NoDict ==> c.dictSize == 0
    requires !Refused(srcSize, out, maxOutputSize) && srcSize > 0 ==>
               Usable(JobOf(c, m, source, srcSize, dir, small, out, table, accel, d,
                 d + Limit(out, room, maxOutputSize)), c.hashTable[..])
    modifies c, c.hashTable, dst
    ensures c.dictionary == old(c.dictionary)
    ensures OnlyBetween(old(dst[..]), dst[..], d, d + Limit(out, room, maxOutputSize))
    ensures Refused(srcSize, out, maxOutputSize) ==> r == 0
    ensures !Refused(srcSize, out, maxOutputSize) && srcSize == 0 ==> r == 1 && consumed == 0 && dst[d] == 0
    ensures Refused(srcSize, out, maxOutputSize) || srcSize == 0 ==>
              && c.hashTable[..] == old(c.hashTable[..]) && c.tableType == old(c.tableType)
              && c.dictSize == old(c.dictSize) && c.currentOffset == old(c.currentOffset)
    ensures !Refused(srcSize, out, maxOutputSize) && srcSize > 0 ==>
              var j := old(JobOf(c, m, source, srcSize, dir, small, out, table, accel, d,
                d + Limit(out, room, maxOutputSize)));
              && ValidJob(j)
              && c.dictSize == j.dictSize + srcSize && c.currentOffset == j.startIndex + srcSize && c.tableType == table
              && TableAfter(j, old(c.hashTable[..]), c.hashTable[..])
              && (r == 0 ==> out == LimitedOutput && Limit(out, room, maxOutputSize) < 1 + ExtLen(srcSize) + srcSize)
              && (Run(j) ==>
                    r == (if RunSize(srcSize) <= Limit(out, room, maxOutputSize) then RunSize(srcSize) else 0)
                    && (r > 0 ==> consumed == srcSize))
              && (r > 0 && consumed < srcSize ==>
                    Limit(out, room, maxOutputSize) <= r + 1
                    && Limit(out, room, maxOutputSize) < 1 + ExtLen(srcSize) + srcSize)
              && (r > 0 ==> r <= Limit(out, room, maxOutputSize) && consumed <= srcSize
                            && (out != FillOutput ==> consumed == srcSize)
                            && Encodes(dst[d..d + r], Hist(j), m[source..source + consumed]))
  {
    hide Encodes, Entries, TableAfter, ValidJob, Run;
    r, consumed := 0, 0;
    OnlyBetweenSame(dst[..], d, d + Limit(out, room, maxOutputSize));
    if srcSize < 0 || srcSize > LZ4_MAX_INPUT_SIZE {
      return;
    }
    if srcSize == 0 {
      if out != NotLimited && maxOutputSize <= 0 {
        return;
      }
      dst[d] := 0;
      return 1, 0;
    }
    if out == FillOutput && maxOutputSize < 1 {
      return;
    }
    var j := JobOf(c, m, source, srcSize, dir, small, out, table, accel, d, d + Limit(out, room, maxOutputSize));
    c.dictSize := c.dictSize + srcSize;
    c.currentOffset := c.currentOffset + srcSize;
    c.tableType := table;
    var end;
    r, end := CompressGenericValidated(j, c.hashTable, dst);
    consumed := if r == 0 then 0 else end - source;
  }
}

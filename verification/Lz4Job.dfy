/**
 One call of the block compressor: its arguments, the stream of bytes its table indexes stand for,
 and what the hash table may hold.

 A table index is a position in one unbroken stream, even when history and source lie apart in
 memory. `Stream` is that stream as far as this call can see it: the history, then the source.
 */
module Lz4Job {
  import opened ByteSeq
  import opened Lz4Format
  import opened Lz4Count

  const LZ4_MAX_INPUT_SIZE := 0x7E000000
  const LZ4_64Klimit := 65536 + 11
  const LZ4_minLength := 13

  datatype OutputMode = NotLimited | LimitedOutput | FillOutput
  datatype TableType = ClearedTable | ByU32 | ByU16

  function CompressBound(size: int): (r: nat) {
    if size < 0 || size > LZ4_MAX_INPUT_SIZE then 0 else size + size / 255 + 16
  }

  // ----- Hashing -------------------------------------------------------------------------------

  const TWO32 := 0x1_0000_0000
  const TWO64 := 0x1_0000_0000_0000_0000

  function TableSize(t: TableType): nat {
    if t == ByU16 then 8192 else 4096
  }

  function ReadLE32(m: seq<byte>, p: nat): nat
    requires p + 4 <= |m|
  {
    ReadLE16(m, p) + 65536 * ReadLE16(m, p + 2)
  }

  function ReadLE64(m: seq<byte>, p: nat): nat
    requires p + 8 <= |m|
  {
    ReadLE32(m, p) + TWO32 * ReadLE32(m, p + 4)
  }

  /** `LZ4_hash4` into the 8192 slots of the 16-bit table. */
  function Hash4(s: nat): (h: nat)
    ensures h < 8192
  {
    s * 2654435761 % TWO32 / 0x8_0000
  }

  /** `LZ4_hash5` into the 4096 slots of the 32-bit table. */
  function Hash5(s: nat): (h: nat)
    ensures h < 4096
  {
    s * 0x100_0000 % TWO64 * 889523592379 % TWO64 / 0x10_0000_0000_0000
  }

  function HashPosition(m: seq<byte>, p: nat, t: TableType): (h: nat)
    requires p + 8 <= |m|
    ensures h < TableSize(t)
  {
    if t == ByU16 then Hash4(ReadLE32(m, p)) else Hash5(ReadLE64(m, p))
  }

  // ----- A call --------------------------------------------------------------------------------

  /** `m` is memory; `source` and `dictionary` are positions in it. `ext` tells the two dictionary
      modes apart: history right before the source, or elsewhere. `dstEnd` is the end of the output
      buffer; in `NotLimited` mode the code never looks at it. `small` is `dictSmall`. */
  datatype Job = Job(
    m: seq<byte>, source: nat, size: nat,
    startIndex: nat, dictionary: nat, dictSize: nat, ext: bool, small: bool,
    out: OutputMode, table: TableType, accel: nat,
    dst: nat, dstEnd: nat)

  function IEnd(j: Job): nat {
    j.source + j.size
  }

  /** The index of the first byte of history: `prefixIdxLimit`. */
  function LowIndex(j: Job): int {
    j.startIndex - j.dictSize
  }

  function DictEnd(j: Job): nat {
    j.dictionary + j.dictSize
  }

  predicate ValidJob(j: Job) {
    && 1 <= j.size <= LZ4_MAX_INPUT_SIZE && IEnd(j) <= |j.m|
    && j.dictSize <= j.startIndex && j.startIndex + j.size < TWO32
    && (if j.ext then DictEnd(j) <= |j.m| && (DictEnd(j) <= j.source || IEnd(j) <= j.dictionary)
                  && j.dictionary != j.source
        else j.dictSize <= j.source)
    && j.table != ClearedTable && 1 <= j.accel && j.dst <= j.dstEnd
    && (j.table == ByU16 ==> !j.ext && j.dictSize == 0 && j.size < LZ4_64Klimit
                             && (j.startIndex + j.size <= 65547 || (j.small && 0x1_0000 <= j.startIndex)))
    && (j.out == NotLimited ==> j.dst + CompressBound(j.size) <= j.dstEnd)
    && (j.out == FillOutput ==> j.startIndex == 0 && j.dst < j.dstEnd)
  }

  function Hist(j: Job): (r: seq<byte>)
    requires ValidJob(j)
    ensures |r| == j.dictSize
  {
    if j.ext then j.m[j.dictionary..DictEnd(j)] else j.m[j.source - j.dictSize..j.source]
  }

  function Source(j: Job): (r: seq<byte>)
    requires ValidJob(j)
    ensures |r| == j.size
  {
    j.m[j.source..IEnd(j)]
  }

  function Stream(j: Job): (r: seq<byte>)
    requires ValidJob(j)
    ensures |r| == j.dictSize + j.size
  {
    Hist(j) + Source(j)
  }

  /** The position in `Stream` of the source byte at `ip`. */
  function At(j: Job, ip: nat): int {
    j.dictSize + (ip - j.source)
  }

  function IndexOf(j: Job, ip: nat): int {
    j.startIndex + (ip - j.source)
  }

  /** Where the byte with index `i` lies in memory. */
  function Address(j: Job, i: int): int {
    if j.ext && i < j.startIndex then DictEnd(j) - (j.startIndex - i) else j.source + (i - j.startIndex)
  }

  /** The stream is in memory where the indexes say, as long as one does not cross from dictionary to source. */
  lemma StreamSlice(j: Job, i: int, n: nat)
    requires ValidJob(j) && LowIndex(j) <= i && i + n <= j.startIndex + j.size
    requires !j.ext || j.startIndex <= i || i + n <= j.startIndex
    ensures 0 <= Address(j, i) && Address(j, i) + n <= |j.m|
    ensures var v := i - LowIndex(j); Stream(j)[v..v + n] == j.m[Address(j, i)..Address(j, i) + n]
  {
    if !j.ext {
      StreamSliceJoined(j, i, n);
    } else if j.startIndex <= i {
      StreamSliceSource(j, i, n);
    } else {
      StreamSliceDict(j, i, n);
    }
  }

  lemma StreamJoined(j: Job)
    requires ValidJob(j) && !j.ext
    ensures Stream(j) == j.m[j.source - j.dictSize..IEnd(j)]
  {
    SliceJoin(j.m, j.source - j.dictSize, j.source, IEnd(j));
  }

  lemma StreamSliceJoined(j: Job, i: int, n: nat)
    requires ValidJob(j) && LowIndex(j) <= i && i + n <= j.startIndex + j.size && !j.ext
    ensures 0 <= Address(j, i) && Address(j, i) + n <= |j.m|
    ensures var v := i - LowIndex(j); Stream(j)[v..v + n] == j.m[Address(j, i)..Address(j, i) + n]
  {
    hide Stream;
    var v := i - LowIndex(j);
    StreamJoined(j);
    SliceOfSlice(j.m, j.source - j.dictSize, IEnd(j), v, v + n);
  }

  lemma StreamSliceSource(j: Job, i: int, n: nat)
    requires ValidJob(j) && j.startIndex <= i && i + n <= j.startIndex + j.size
    ensures 0 <= Address(j, i) && Address(j, i) + n <= |j.m|
    ensures var v := i - LowIndex(j); Stream(j)[v..v + n] == j.m[Address(j, i)..Address(j, i) + n]
  {
    hide Hist;
    var v := i - j.startIndex;
    SliceOfRight(Hist(j), Source(j), v, n);
    SliceOfSlice(j.m, j.source, IEnd(j), v, v + n);
  }

  lemma StreamSliceDict(j: Job, i: int, n: nat)
    requires ValidJob(j) && LowIndex(j) <= i < j.startIndex && i + n <= j.startIndex && j.ext
    ensures 0 <= Address(j, i) && Address(j, i) + n <= |j.m|
    ensures var v := i - LowIndex(j); Stream(j)[v..v + n] == j.m[Address(j, i)..Address(j, i) + n]
  {
    hide Source;
    var v := i - LowIndex(j);
    SliceOfLeft(Hist(j), Source(j), v, n);
    SliceOfSlice(j.m, j.dictionary, DictEnd(j), v, v + n);
  }

  lemma SliceOfLeft(x: seq<byte>, y: seq<byte>, a: nat, n: nat)
    requires a + n <= |x|
    ensures (x + y)[a..a + n] == x[a..a + n]
  {
  }

  lemma SliceOfRight(x: seq<byte>, y: seq<byte>, a: nat, n: nat)
    requires a + n <= |y|
    ensures (x + y)[|x| + a..|x| + a + n] == y[a..a + n]
  {
  }

  /** Comparing in memory is comparing in the stream. */
  lemma StreamSame(j: Job, i: int, k: int, n: nat)
    requires ValidJob(j) && LowIndex(j) <= i && i + n <= j.startIndex + j.size
    requires LowIndex(j) <= k && k + n <= j.startIndex + j.size
    requires !j.ext || j.startIndex <= i || i + n <= j.startIndex
    requires !j.ext || j.startIndex <= k || k + n <= j.startIndex
    ensures 0 <= Address(j, i) && Address(j, i) + n <= |j.m| && 0 <= Address(j, k) && Address(j, k) + n <= |j.m|
    ensures Same(j.m, Address(j, i), Address(j, k), n) <==> Same(Stream(j), i - LowIndex(j), k - LowIndex(j), n)
  {
    hide Stream, Address;
    StreamSlice(j, i, n);
    StreamSlice(j, k, n);
  }

  lemma StreamByte(j: Job, i: int)
    requires ValidJob(j) && LowIndex(j) <= i < j.startIndex + j.size
    ensures 0 <= Address(j, i) < |j.m| && Stream(j)[i - LowIndex(j)] == j.m[Address(j, i)]
  {
    StreamSlice(j, i, 1);
    assert Stream(j)[i - LowIndex(j)] == Stream(j)[i - LowIndex(j)..i - LowIndex(j) + 1][0];
  }

  // ----- The hash table ------------------------------------------------------------------------

  /** The tests an index must pass to be tried as a match of position `current`. */
  predicate Tried(j: Job, i: int, current: int) {
    (j.small ==> LowIndex(j) <= i) && (j.table != ByU16 ==> current <= i + DISTANCE_MAX)
  }

  /** Entries are below `next`; those left from earlier calls, if they can be tried, are in the history. */
  predicate Entries(j: Job, t: seq<nat>, next: int) {
    && |t| == 8192
    && (forall h :: 0 <= h < TableSize(j.table) ==> t[h] < next)
    && (forall h :: 0 <= h < TableSize(j.table) && t[h] < j.startIndex && Tried(j, t[h], j.startIndex) ==>
          LowIndex(j) <= t[h] && (j.ext ==> t[h] + MINMATCH <= j.startIndex))
  }

  /** Entries made in this call are in the slot of their hash. */
  predicate Hashed(j: Job, t: seq<nat>)
    requires ValidJob(j)
  {
    |t| == 8192 && forall h :: 0 <= h < TableSize(j.table) && j.startIndex < t[h] ==>
      Address(j, t[h]) + 8 <= |j.m| && HashPosition(j.m, Address(j, t[h]), j.table) == h
  }

  /** `LZ4_putIndexOnHash`: what a slot of the table keeps of an index. */
  function Stored(t: TableType, idx: nat): nat {
    if t == ByU16 then idx % 0x1_0000 else idx % TWO32
  }

  /** No index is cut off, in a 16-bit table because of `LZ4_64Klimit`; unless the call starts at 64 KB or
      above, where the rest of an index is too low to be tried. */
  lemma IndexFits(j: Job, ip: nat)
    requires ValidJob(j) && j.source <= ip && ip + MFLIMIT <= IEnd(j)
    ensures var i := Stored(j.table, IndexOf(j, ip)); i == IndexOf(j, ip) || (j.small && i < LowIndex(j))
  {
  }

  lemma PutIndex(j: Job, t: seq<nat>, next: int, ip: nat, next': int)
    requires ValidJob(j) && Entries(j, t, next) && Hashed(j, t)
    requires j.source <= ip && ip + MFLIMIT <= IEnd(j) && IndexOf(j, ip) < next' && next <= next'
    ensures var h := HashPosition(j.m, ip, j.table); h < |t|
    ensures var t' := t[HashPosition(j.m, ip, j.table) := Stored(j.table, IndexOf(j, ip))];
            Entries(j, t', next') && Hashed(j, t')
  {
    hide HashPosition, Stored;
    IndexFits(j, ip);
  }

  lemma EntriesMonotone(j: Job, t: seq<nat>, next: int, next': int)
    requires Entries(j, t, next) && next <= next'
    ensures Entries(j, t, next')
  {
  }

  /** An entry that passes the tests is a place to look: in the stream, and no more than 65535 back. */
  lemma TriedIsNear(j: Job, t: seq<nat>, next: int, h: nat, ip: nat)
    requires ValidJob(j) && Entries(j, t, next) && h < TableSize(j.table)
    requires j.source < ip && ip + MFLIMIT <= IEnd(j) && next <= IndexOf(j, ip)
    requires Tried(j, t[h], IndexOf(j, ip))
    ensures LowIndex(j) <= t[h] < IndexOf(j, ip) <= t[h] + DISTANCE_MAX
    ensures j.ext && t[h] < j.startIndex ==> t[h] + MINMATCH <= j.startIndex
  {
  }
}

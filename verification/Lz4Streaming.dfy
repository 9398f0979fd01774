/**
 Streaming compression: blocks that may refer to earlier ones. Between calls the compressor keeps its
 hash table and the place of its history.
 */
module Lz4Streaming {
  import opened ByteSeq
  import opened Lz4Format
  import opened Lz4Emit
  import opened Lz4Job
  import opened Lz4Compress
  import opened Lz4Context
  import opened Lz4OneShot
  import opened Lz4DecodeApi

  /** What the compressor can refer to. */
  function HistoryOf(c: Context, m: seq<byte>): seq<byte>
    requires 0 < c.dictSize ==> 0 <= c.dictionary && c.dictionary + c.dictSize <= |m|
    reads c
  {
    if c.dictSize == 0 then [] else m[c.dictionary..c.dictionary + c.dictSize]
  }

  /** Indexes in the table lie at least 8 below `currentOffset`; zero stands for an empty slot. */
  predicate Settled(t: seq<nat>, currentOffset: nat) {
    |t| == 8192 && forall h :: 0 <= h < 4096 ==> t[h] == 0 || t[h] + 8 <= currentOffset
  }

  /** A state between streaming calls. */
  ghost predicate StreamOk(c: Context, m: seq<byte>)
    reads c, c.hashTable
  {
    && c.tableType != ByU16 && c.dictSize <= c.currentOffset <= GB2
    && NULL <= c.dictionary && c.dictionary + c.dictSize <= |m| && (0 < c.dictSize ==> 0 <= c.dictionary)
    && c.hashTable.Length == 8192 && Settled(c.hashTable[..], c.currentOffset)
    && (c.tableType == ClearedTable ==> Zeroed(c.hashTable[..]) && (c.currentOffset == 0 || KB64 <= c.currentOffset))
  }

  /** `h` ends `past`. */
  predicate Suffix(h: seq<byte>, past: seq<byte>) {
    |h| <= |past| && past[|past| - |h|..] == h
  }

  lemma SuffixSelf(h: seq<byte>)
    ensures Suffix(h, h)
  {
  }

  lemma NothingIsSuffix(h: seq<byte>)
    ensures Suffix([], h)
  {
  }

  lemma SuffixSlice(m: seq<byte>, a: nat, b: nat, c: nat)
    requires a <= b <= c <= |m|
    ensures Suffix(m[b..c], m[a..c])
  {
    assert m[a..c][b - a..] == m[b..c];
  }

  /** The end of a history is as good, for what was written against it, as anything that covers it all. */
  lemma CoversEnd(past: seq<byte>, h: seq<byte>, g: seq<byte>)
    requires Covers(past, h) && Suffix(g, h)
    ensures Covers(past, g)
  {
    var k, n := Reach(g), Reach(h);
    assert past[|past| - k..] == past[|past| - n..][n - k..];
    assert g[|g| - k..] == h[|h| - k..] == h[|h| - n..][n - k..];
  }

  lemma SuffixCovers(past: seq<byte>, h: seq<byte>)
    requires Suffix(h, past)
    ensures Covers(past, h)
  {
    CoversItself(past);
    CoversEnd(past, past, h);
  }

  lemma CoversNothing(past: seq<byte>)
    ensures Covers(past, [])
  {
  }

  lemma CoversAppend(h: seq<byte>, hist: seq<byte>, data: seq<byte>)
    requires Covers(h, hist)
    ensures Covers(h + data, hist + data)
  {
    var k, n := Reach(hist + data), Reach(hist);
    if k <= |data| {
      EndOfBoth(h, data, k);
      EndOfBoth(hist, data, k);
    } else {
      EndAlike(h, hist, data, n, k - |data|);
    }
  }

  lemma EndAlike(h: seq<byte>, hist: seq<byte>, data: seq<byte>, n: nat, x: nat)
    requires x <= n <= |h| && n <= |hist| && h[|h| - n..] == hist[|hist| - n..]
    ensures (h + data)[|h + data| - (x + |data|)..] == (hist + data)[|hist + data| - (x + |data|)..]
  {
    EndAcross(h, data, n, x);
    EndAcross(hist, data, n, x);
  }

  lemma EndOfBoth(h: seq<byte>, data: seq<byte>, k: nat)
    requires k <= |data|
    ensures (h + data)[|h + data| - k..] == data[|data| - k..]
  {
  }

  lemma EndAcross(h: seq<byte>, data: seq<byte>, n: nat, x: nat)
    requires x <= n <= |h|
    ensures (h + data)[|h + data| - (x + |data|)..] == h[|h| - n..][n - x..] + data
  {
  }

  lemma InitialIsOk(c: Context, m: seq<byte>)
    requires c.Initial()
    ensures StreamOk(c, m) && HistoryOf(c, m) == []
  {
  }

  /** `LZ4_resetStream_fast`, for a state last used for streaming or for single blocks of either width. */
  method ResetStreamFast(c: Context, m: seq<byte>)
    requires (StreamOk(c, m) && (c.tableType == ClearedTable ==> c.currentOffset + KB64 <= GB2))
             || Clean(c.tableType, c.currentOffset, c.hashTable[..])
    modifies c, c.hashTable
    ensures StreamOk(c, m) && c.dictSize == 0 && HistoryOf(c, m) == []
    ensures old(c.tableType) == ByU32 && old(c.currentOffset) <= 0x4000_0000 ==>
              && c.hashTable[..] == old(c.hashTable[..]) && c.tableType == ByU32
              && c.currentOffset == old(c.currentOffset) + (if old(c.currentOffset) == 0 then 0 else 65536)
  {
    c.PrepareTable(0, ByU32);
  }

  /** And a state last used for streaming is one that `LZ4_compress_fast_extState_fastReset` takes. */
  lemma StreamIsResettable(c: Context, m: seq<byte>)
    requires StreamOk(c, m) && (c.tableType == ClearedTable ==> c.currentOffset + KB64 <= GB2)
    ensures Resettable(c.tableType, c.currentOffset, c.hashTable[..])
  {
  }

  /** A distance that a match may have survives renormalisation; a slot that is given up is too far to use. */
  predicate DistancesKept(t: seq<nat>, offset: nat, t': seq<nat>, offset': nat) {
    && |t| == |t'| == 8192
    && forall h :: 0 <= h < 4096 ==>
         if t[h] + KB64 >= offset then offset' - t'[h] == offset - t[h] else t'[h] + DISTANCE_MAX < offset'
  }

  /** `LZ4_renormDictT`: when indexes would pass 2 GB, they are shifted down to start at 64 KB. */
  method RenormDictT(c: Context, m: seq<byte>, nextSize: nat)
    requires StreamOk(c, m) && nextSize < GB2
    modifies c, c.hashTable
    ensures StreamOk(c, m) && c.tableType == old(c.tableType)
    ensures nextSize <= LZ4_MAX_INPUT_SIZE ==> c.currentOffset + nextSize <= GB2
    ensures Suffix(HistoryOf(c, m), old(HistoryOf(c, m)))
    ensures nextSize <= LZ4_MAX_INPUT_SIZE && old(c.currentOffset) + nextSize > GB2 ==>
              DistancesKept(old(c.hashTable[..]), old(c.currentOffset), c.hashTable[..], KB64)
    ensures old(c.currentOffset) + nextSize > GB2 ==> c.currentOffset == KB64
    ensures old(c.currentOffset) + nextSize <= GB2 ==>
              c.hashTable[..] == old(c.hashTable[..]) && c.currentOffset == old(c.currentOffset)
              && c.dictSize == old(c.dictSize) && c.dictionary == old(c.dictionary)
    ensures c.dictionary + c.dictSize == old(c.dictionary) + old(c.dictSize)
    ensures c.dictSize == if old(c.currentOffset) + nextSize > GB2 && old(c.dictSize) > KB64 then KB64
            else old(c.dictSize)
  {
    hide Settled, Suffix, DistancesKept;
    ghost var h0, t0, offset0 := HistoryOf(c, m), c.hashTable[..], c.currentOffset;
    SuffixSelf(h0);
    NothingIsSuffix(h0);
    if c.currentOffset + nextSize > GB2 {
      var delta := (c.currentOffset - KB64) % TWO32;
      var dictEnd := c.dictionary + c.dictSize;
      RescaleTable(c.hashTable, delta);
      Rescaled(t0, offset0, delta, c.hashTable[..]);
      c.currentOffset := KB64;
      if c.dictSize > KB64 {
        c.dictSize := KB64;
      }
      c.dictionary := dictEnd - c.dictSize;
      if c.dictSize > 0 {
        SuffixSlice(m, old(c.dictionary), c.dictionary, dictEnd);
      }
    }
  }

  lemma Rescaled(t: seq<nat>, offset: nat, delta: nat, t': seq<nat>)
    requires Settled(t, offset) && offset <= GB2 && delta == (offset - KB64) % TWO32 && |t'| == 8192
    requires forall h :: 0 <= h < 4096 ==> t'[h] == if t[h] < delta then 0 else t[h] - delta
    ensures Settled(t', KB64)
    ensures KB64 <= offset ==> DistancesKept(t, offset, t', KB64)
  {
    assert delta == if KB64 <= offset then offset - KB64 else offset - KB64 + TWO32;
  }

  method RescaleTable(tab: array<nat>, delta: nat)
    requires tab.Length == 8192
    modifies tab
    ensures var t := old(tab[..]); forall h :: 0 <= h < 4096 ==> tab[..][h] == if t[h] < delta then 0 else t[h] - delta
    ensures forall h :: 4096 <= h < 8192 ==> tab[h] == old(tab[h])
  {
    var i := 0;
    while i < 4096
      invariant 0 <= i <= 4096
      invariant forall h :: 0 <= h < i ==> tab[h] == if old(tab[h]) < delta then 0 else old(tab[h]) - delta
      invariant forall h :: i <= h < 8192 ==> tab[h] == old(tab[h])
    {
      tab[i] := if tab[i] < delta then 0 else tab[i] - delta;
      i := i + 1;
    }
  }

  /** What is in the table are positions of the dictionary, in the slots of their hashes. */
  predicate Indexed(m: seq<byte>, t: seq<nat>, p0: nat, dictEnd: nat, idx0: nat)
    requires dictEnd <= |m| && |t| == 8192
  {
    forall h :: 0 <= h < 4096 && t[h] != 0 ==>
      && idx0 <= t[h] && p0 + (t[h] - idx0) + 8 <= dictEnd
      && HashPosition(m, p0 + (t[h] - idx0), ByU32) == h
  }

  /** The positions that are looked at: all of them, or every third. */
  predicate Visited(p0: nat, p: nat, slow: bool)
    requires p0 <= p
  {
    slow || (p - p0) % 3 == 0
  }

  /** The hash of a visited position before `end` finds something. Index 0 stands for nothing. */
  predicate Findable(m: seq<byte>, t: seq<nat>, p0: nat, end: nat, idx0: nat, slow: bool)
    requires |t| == 8192
  {
    forall p {:trigger HashPosition(m, p, ByU32)} :: p0 <= p < end && p + 8 <= |m| && Visited(p0, p, slow) ==>
      t[HashPosition(m, p, ByU32)] != 0 || idx0 + (p - p0) == 0
  }

  lemma IndexOne(m: seq<byte>, t: seq<nat>, t': seq<nat>, p0: nat, p: nat, dictEnd: nat, idx0: nat, slow: bool)
    requires dictEnd <= |m| && p0 <= p && p + 8 <= dictEnd && |t| == 8192 && Visited(p0, p, slow)
    requires Indexed(m, t, p0, dictEnd, idx0) && Settled(t, idx0 + (dictEnd - p0))
    requires Findable(m, t, p0, p, idx0, slow)
    requires var h := HashPosition(m, p, ByU32);
             t' == t[h := idx0 + (p - p0)] || (t' == t && t[h] != 0)
    ensures Indexed(m, t', p0, dictEnd, idx0) && Settled(t', idx0 + (dictEnd - p0))
    ensures Findable(m, t', p0, if slow then p + 1 else p + 3, idx0, slow)
  {
    hide HashPosition;
  }

  lemma FindableLess(m: seq<byte>, t: seq<nat>, p0: nat, end: nat, less: nat, idx0: nat, slow: bool)
    requires |t| == 8192 && Findable(m, t, p0, end, idx0, slow) && less <= end
    ensures Findable(m, t, p0, less, idx0, slow)
  {
    hide HashPosition, Visited;
  }

  /** Puts the positions from `p0` on in the table, every third of them; or, to fill up, every position
      whose slot is still empty. */
  method IndexDictionary(tab: array<nat>, m: seq<byte>, p0: nat, dictEnd: nat, idx0: nat, slow: bool)
    requires p0 + 8 <= dictEnd <= |m| && tab.Length == 8192 && idx0 + (dictEnd - p0) <= GB2
    requires Settled(tab[..], idx0 + (dictEnd - p0)) && Indexed(m, tab[..], p0, dictEnd, idx0)
    modifies tab
    ensures Settled(tab[..], idx0 + (dictEnd - p0)) && Indexed(m, tab[..], p0, dictEnd, idx0)
    ensures Findable(m, tab[..], p0, dictEnd - 7, idx0, slow)
  {
    hide HashPosition, Settled, Indexed, Findable;
    var p: nat, idx: nat := p0, idx0;
    NothingYet(m, tab[..], p0, idx0, slow);
    while p <= dictEnd - 8
      invariant p0 <= p && idx - idx0 == p - p0 && Visited(p0, p, slow)
      invariant Settled(tab[..], idx0 + (dictEnd - p0)) && Indexed(m, tab[..], p0, dictEnd, idx0)
      invariant Findable(m, tab[..], p0, p, idx0, slow)
      decreases dictEnd - p
    {
      ghost var t := tab[..];
      var h := HashPosition(m, p, ByU32);
      if !slow || tab[h] == 0 {
        tab[h] := Stored(ByU32, idx);
        assert tab[..] == t[h := idx];
      }
      IndexOne(m, t, tab[..], p0, p, dictEnd, idx0, slow);
      p, idx := if slow then p + 1 else p + 3, if slow then idx + 1 else idx + 3;
    }
    FindableLess(m, tab[..], p0, p, dictEnd - 7, idx0, slow);
  }

  lemma NothingYet(m: seq<byte>, t: seq<nat>, p0: nat, idx0: nat, slow: bool)
    requires |t| == 8192
    ensures Findable(m, t, p0, p0, idx0, slow)
  {
  }

  lemma BytesSlice(m: seq<byte>, p: nat, n: nat)
    requires 0 < n && p + n <= |m|
    ensures Bytes(m, p, n) == m[p..p + n]
  {
  }

  lemma ZeroedIsSettled(m: seq<byte>, t: seq<nat>)
    requires |t| == 8192 && Zeroed(t)
    ensures Settled(t, KB64)
    ensures forall p0: nat, dictEnd: nat, idx0: nat :: dictEnd <= |m| ==> Indexed(m, t, p0, dictEnd, idx0)
  {
  }

  /** `LZ4_loadDict` and `LZ4_loadDictSlow`: the history becomes the last 64 KB of a dictionary. */
  method LoadDict(c: Context, m: seq<byte>, dictionary: nat, dictSize: int, slow: bool) returns (n: nat)
    requires c.hashTable.Length == 8192 && (0 < dictSize ==> dictionary + dictSize <= |m|)
    modifies c, c.hashTable
    ensures StreamOk(c, m) && n == c.dictSize && c.currentOffset == KB64
    ensures n == if dictSize < 8 then 0 else if dictSize > KB64 then KB64 else dictSize
    ensures 0 < n ==> c.dictionary == dictionary + dictSize - n
    ensures Suffix(HistoryOf(c, m), Bytes(m, dictionary, dictSize))
    ensures n == 0 ==> Zeroed(c.hashTable[..])
    ensures 0 < n ==> Indexed(m, c.hashTable[..], dictionary + dictSize - n, dictionary + dictSize, KB64 - n)
    ensures 0 < n ==> Findable(m, c.hashTable[..], dictionary + dictSize - n, dictionary + dictSize - 7, KB64 - n, slow)
  {
    hide Suffix, Zeroed, Settled, Bytes, Indexed, Findable;
    c.InitStream();
    ZeroedIsSettled(m, c.hashTable[..]);
    c.currentOffset := c.currentOffset + KB64;
    if dictSize < 8 {
      NothingIsSuffix(Bytes(m, dictionary, dictSize));
      assert StreamOk(c, m);
      return 0;
    }
    var p, dictEnd := dictionary, dictionary + dictSize;
    if dictEnd - p > KB64 {
      p := dictEnd - KB64;
    }
    c.dictionary := p;
    c.dictSize := dictEnd - p;
    c.tableType := ByU32;
    SuffixSlice(m, dictionary, p, dictEnd);
    BytesSlice(m, dictionary, dictSize);
    IndexDictionary(c.hashTable, m, p, dictEnd, c.currentOffset - c.dictSize, false);
    if slow {
      IndexDictionary(c.hashTable, m, p, dictEnd, c.currentOffset - c.dictSize, true);
    }
    n := c.dictSize;
  }

  /** The part of the history that a source of this size leaves in place: a source that ends inside the
      history has overwritten what is before its end. */
  function Intact(c: Context, m: seq<byte>, sourceEnd: nat): seq<byte>
    requires 0 < c.dictSize ==> 0 <= c.dictionary && c.dictionary + c.dictSize <= |m|
    reads c
  {
    IntactPart(m, c.dictionary, c.dictSize, sourceEnd)
  }

  function IntactPart(m: seq<byte>, dictionary: int, dictSize: nat, sourceEnd: nat): seq<byte>
    requires 0 < dictSize ==> 0 <= dictionary && dictionary + dictSize <= |m|
  {
    if dictSize == 0 then []
    else if dictionary < sourceEnd < dictionary + dictSize then m[sourceEnd..dictionary + dictSize]
    else m[dictionary..dictionary + dictSize]
  }

  lemma IntactShrinks(m: seq<byte>, dictionary: int, dictSize: nat, dictSize': nat, sourceEnd: nat)
    requires 0 < dictSize ==> 0 <= dictionary && dictionary + dictSize <= |m|
    requires dictSize' <= dictSize
    ensures Suffix(IntactPart(m, dictionary + dictSize - dictSize', dictSize', sourceEnd),
                   IntactPart(m, dictionary, dictSize, sourceEnd))
  {
    hide Suffix, IntactPart;
    var dictEnd := dictionary + dictSize;
    var whole := IntactPart(m, dictionary, dictSize, sourceEnd);
    IntactEnds(m, dictionary, dictSize, sourceEnd);
    IntactEnds(m, dictEnd - dictSize', dictSize', sourceEnd);
    if dictSize' == 0 {
      NothingIsSuffix(whole);
    } else {
      var part := IntactPart(m, dictEnd - dictSize', dictSize', sourceEnd);
      SuffixSlice(m, dictEnd - |whole|, dictEnd - |part|, dictEnd);
    }
  }

  lemma IntactEnds(m: seq<byte>, dictionary: int, dictSize: nat, sourceEnd: nat)
    requires 0 < dictSize ==> 0 <= dictionary && dictionary + dictSize <= |m|
    ensures var n, end := |IntactPart(m, dictionary, dictSize, sourceEnd)|, dictionary + dictSize;
            && n == (if dictSize > 0 && dictionary < sourceEnd < end then end - sourceEnd else dictSize)
            && (0 < dictSize ==> IntactPart(m, dictionary, dictSize, sourceEnd) == m[end - n..end])
            && (dictSize == 0 ==> IntactPart(m, dictionary, dictSize, sourceEnd) == [])
  {
  }

  /** The source lies after the history, before it, or over the beginning of it. */
  predicate LaidOut(c: Context, source: nat, inputSize: nat)
    reads c
  {
    0 < c.dictSize ==> c.dictionary + c.dictSize <= source || source + inputSize < c.dictionary + c.dictSize
  }

  /** What `LZ4_compress_fast_continue` does to the history before it compresses: a history that is too
      small to be found is forgotten, and one that the source overlaps is cut down to the rest. */
  method AdjustDict(c: Context, m: seq<byte>, source: nat, inputSize: nat, dictEnd0: int) returns (dictEnd: int)
    requires StreamOk(c, m) && LaidOut(c, source, inputSize) && source + inputSize <= |m|
    requires dictEnd0 == if c.dictSize == 0 then NULL else c.dictionary + c.dictSize
    modifies c
    ensures StreamOk(c, m) && c.currentOffset == old(c.currentOffset) && c.tableType == old(c.tableType)
    ensures Suffix(HistoryOf(c, m), old(Intact(c, m, source + inputSize)))
    ensures c.dictSize == old(
              if c.dictSize < 4 && dictEnd0 != source && inputSize > 0 then 0
              else if c.dictionary < source + inputSize < dictEnd0 then
                var left := dictEnd0 - (source + inputSize);
                if left < 4 then 0 else if left > 65536 then 65536 else left
              else c.dictSize)
    ensures c.dictSize > 0 ==> c.dictionary + c.dictSize == dictEnd0
    ensures dictEnd == source <==> dictEnd0 == source || (old(c.dictSize) < 4 && inputSize > 0)
    ensures dictEnd == source ==> c.dictionary + c.dictSize == source
    ensures dictEnd != source && 0 < inputSize ==>
              && 0 <= c.dictionary && (c.dictSize == 0 ==> 0 < c.currentOffset) && (4 <= c.dictSize || c.dictSize == 0)
              && (c.dictionary + c.dictSize <= source || source + inputSize <= c.dictionary) && c.dictionary != source
  {
    hide Settled, Suffix, Intact;
    ghost var intact := Intact(c, m, source + inputSize);
    dictEnd := dictEnd0;
    if c.dictSize < 4 && dictEnd != source && inputSize > 0 {
      NothingIsSuffix(intact);
      c.dictSize := 0;
      c.dictionary := source;
      dictEnd := source;
    }
    var sourceEnd := source + inputSize;
    if sourceEnd > c.dictionary && sourceEnd < dictEnd {
      TrimDict(c, m, sourceEnd, dictEnd);
    } else {
      IntactWhole(c, m, sourceEnd);
      SuffixSelf(HistoryOf(c, m));
    }
  }

  /** What is not overlapped is intact. */
  lemma IntactWhole(c: Context, m: seq<byte>, sourceEnd: nat)
    requires StreamOk(c, m)
    requires c.dictSize == 0 || !(c.dictionary < sourceEnd < c.dictionary + c.dictSize)
    ensures Intact(c, m, sourceEnd) == HistoryOf(c, m)
  {
  }

  /** What remains of a history that the source overlaps, if that is enough to be found. */
  method TrimDict(c: Context, m: seq<byte>, sourceEnd: nat, dictEnd: nat)
    requires StreamOk(c, m) && dictEnd == c.dictionary + c.dictSize && c.dictionary < sourceEnd < dictEnd
             && 0 < c.dictSize
    modifies c
    ensures StreamOk(c, m) && c.currentOffset == old(c.currentOffset) && c.tableType == old(c.tableType)
    ensures Suffix(HistoryOf(c, m), old(Intact(c, m, sourceEnd)))
    ensures var left := dictEnd - sourceEnd; c.dictSize == if left < 4 then 0 else if left > 65536 then 65536 else left
    ensures c.dictionary + c.dictSize == dictEnd && sourceEnd <= c.dictionary
    ensures 0 < c.currentOffset && (4 <= c.dictSize || c.dictSize == 0)
  {
    hide Settled, Suffix;
    NothingIsSuffix(Intact(c, m, sourceEnd));
    c.dictSize := dictEnd - sourceEnd;
    if c.dictSize > KB64 {
      c.dictSize := KB64;
    }
    if c.dictSize < 4 {
      c.dictSize := 0;
    }
    c.dictionary := dictEnd - c.dictSize;
    SuffixSlice(m, sourceEnd, c.dictionary, dictEnd);
  }

  /** Old entries either pass no test or lie in the history. */
  lemma StreamUsable(j: Job, t: seq<nat>)
    requires j.dictSize <= j.startIndex <= j.startIndex + j.size <= GB2 && Settled(t, j.startIndex)
    requires j.small == (j.dictSize < KB64 && j.dictSize < j.startIndex)
    requires j.ext ==> 4 <= j.dictSize || (j.dictSize == 0 && 0 < j.startIndex)
    requires j.table == ByU32 && ValidJob(j)
    ensures Usable(j, t)
  {
  }

  lemma SettledAfter(j: Job, t0: seq<nat>, t: seq<nat>)
    requires j.table == ByU32 && TableAfter(j, t0, t) && Settled(t0, j.startIndex)
    ensures Settled(t, j.startIndex + j.size)
  {
  }

  /** The job of a streaming call can trust the table, and its history is that of the state. */
  lemma StreamJob(c: Context, m: seq<byte>, source: nat, size: nat, dir: DictDirective, accel: nat, d: nat, room: nat)
    requires StreamOk(c, m) && source + size <= |m| && Placed(c, source, size, dir) && dir != NoDict
    requires 1 <= size <= LZ4_MAX_INPUT_SIZE && c.currentOffset + size <= GB2 && 1 <= accel
    ensures var j := JobOf(c, m, source, size, dir, SmallDict(c), LimitedOutput, ByU32, accel, d, d + room);
            Usable(j, c.hashTable[..]) && Hist(j) == HistoryOf(c, m)
  {
    hide Settled;
    var j := JobOf(c, m, source, size, dir, SmallDict(c), LimitedOutput, ByU32, accel, d, d + room);
    assert ValidJob(j);
    StreamUsable(j, c.hashTable[..]);
  }

  /** `dictSmall`: the table may hold entries from before the history. */
  predicate SmallDict(c: Context)
    reads c
  {
    c.dictSize < KB64 && c.dictSize < c.currentOffset
  }

  /** The history is right before the source, or out of its way and not too small. */
  predicate Placed(c: Context, source: nat, size: nat, dir: DictDirective)
    reads c
  {
    && (dir == WithPrefix64k ==> c.dictionary + c.dictSize == source)
    && (dir == UsingExtDict && 0 < size ==>
          && 0 <= c.dictionary && (c.dictSize == 0 ==> 0 < c.currentOffset) && (4 <= c.dictSize || c.dictSize == 0)
          && (c.dictionary + c.dictSize <= source || source + size <= c.dictionary) && c.dictionary != source)
  }

  /** What a streaming call promises: a block that stands for the whole source after `past`, or 0. */
  ghost predicate StreamResult(m: seq<byte>, source: nat, size: nat, out: seq<byte>, maxOutputSize: int,
                               past: seq<byte>)
    requires source + size <= |m|
  {
    && (size > LZ4_MAX_INPUT_SIZE ==> out == [])
    && (size <= LZ4_MAX_INPUT_SIZE && PlainSize(size) <= maxOutputSize ==> out != [])
    && (out != [] ==> Encodes(out, past, m[source..source + size]))
  }

  /** Both ways of calling `LZ4_compress_generic` for a stream. */
  method CompressStreamed(c: Context, m: seq<byte>, source: nat, inputSize: nat, dst: array<byte>, d: nat,
                          maxOutputSize: int, dir: DictDirective, accel: nat, ghost past: seq<byte>)
    returns (r: nat)
    requires c.hashTable as object != dst as object && d + AtLeast0(maxOutputSize) <= dst.Length
    requires StreamOk(c, m) && source + inputSize <= |m| && 1 <= accel && dir != NoDict
    requires inputSize <= LZ4_MAX_INPUT_SIZE ==> c.currentOffset + inputSize <= GB2
    requires Covers(past, HistoryOf(c, m)) && Placed(c, source, inputSize, dir)
    modifies c, c.hashTable, dst
    ensures OnlyBetween(old(dst[..]), dst[..], d, d + AtLeast0(maxOutputSize))
    ensures r <= AtLeast0(maxOutputSize) && StreamResult(m, source, inputSize, dst[d..d + r], maxOutputSize, past)
    ensures c.dictionary == old(c.dictionary)
    ensures if 0 < inputSize <= LZ4_MAX_INPUT_SIZE then c.tableType == ByU32
            else c.tableType == old(c.tableType) && c.hashTable[..] == old(c.hashTable[..])
    ensures inputSize <= LZ4_MAX_INPUT_SIZE ==>
              && c.dictSize == old(c.dictSize) + inputSize && c.currentOffset == old(c.currentOffset) + inputSize
              && Settled(c.hashTable[..], c.currentOffset)
  {
    hide Encodes, Entries, TableAfter, ValidJob, Settled, Usable, Covers, OnlyBetween, Hist, HistoryOf;
    var small := SmallDict(c);
    var room := AtLeast0(maxOutputSize);
    ghost var t0 := c.hashTable[..];
    ghost var j := JobOf(c, m, source, inputSize, dir, small, LimitedOutput, ByU32, accel, d, d + room);
    ghost var hist := HistoryOf(c, m);
    if 0 < inputSize <= LZ4_MAX_INPUT_SIZE {
      StreamJob(c, m, source, inputSize, dir, accel, d, room);
    }
    var consumed;
    r, consumed := CompressGeneric(c, m, source, inputSize, dst, d, room, maxOutputSize, LimitedOutput, ByU32, dir,
      small, accel);
    if 0 < inputSize <= LZ4_MAX_INPUT_SIZE {
      SettledAfter(j, t0, c.hashTable[..]);
      if r > 0 {
        EncodesCovered(dst[d..d + r], hist, past, m[source..source + inputSize]);
      }
    } else if r > 0 {
      assert dst[d..d + 1] == [0];
      EmptyBlockEncodes([0]);
      CoversNothing(past);
      EncodesCovered([0], [], past, []);
      assert m[source..source + inputSize] == [];
    }
    assert |dst[d..d + r]| == r;
  }

  /** The source follows the history. */
  predicate Behind(c: Context, source: nat)
    reads c
  {
    c.dictSize > 0 && c.dictionary + c.dictSize == source
  }

  /** What renormalisation leaves of the history. */
  function Renormed(c: Context, inputSize: nat): nat
    reads c
  {
    if c.currentOffset + inputSize > 0x8000_0000 && c.dictSize > 65536 then 65536 else c.dictSize
  }

  /** What a source that ends at `sourceEnd` leaves of the last `size` bytes of history: all of them, or what lies
      behind it, unless that is too small to be found. */
  function Spared(c: Context, sourceEnd: nat, size: nat): nat
    reads c
  {
    var dictEnd := c.dictionary + c.dictSize;
    if !(dictEnd - size < sourceEnd < dictEnd) then size
    else if dictEnd - sourceEnd < 4 then 0
    else if dictEnd - sourceEnd > 65536 then 65536
    else dictEnd - sourceEnd
  }

  /** Brings index and history into shape for a call. */
  method PrepareStream(c: Context, m: seq<byte>, source: nat, inputSize: nat, ghost past: seq<byte>)
    returns (prefix: bool)
    requires StreamOk(c, m) && source + inputSize <= |m| && inputSize < GB2
    requires LaidOut(c, source, inputSize) && Covers(past, Intact(c, m, source + inputSize))
    modifies c, c.hashTable
    ensures StreamOk(c, m) && Covers(past, HistoryOf(c, m))
    ensures old(Behind(c, source)) ==> prefix && c.dictSize == old(Renormed(c, inputSize))
    ensures !old(Behind(c, source)) ==>
              && (prefix <==> old(c.dictSize) < 4 && inputSize > 0)
              && c.dictSize == old(if c.dictSize < 4 && inputSize > 0 then 0
                                   else Spared(c, source + inputSize, Renormed(c, inputSize)))
    ensures c.dictSize > 0 ==> c.dictionary + c.dictSize == old(c.dictionary + c.dictSize)
    ensures inputSize <= LZ4_MAX_INPUT_SIZE ==> c.currentOffset + inputSize <= GB2
    ensures Placed(c, source, inputSize, if prefix then WithPrefix64k else UsingExtDict)
  {
    hide Settled, Suffix, Covers, IntactPart, HistoryOf, DistancesKept;
    var dictEnd := if c.dictSize == 0 then NULL else c.dictionary + c.dictSize;
    ghost var dictionary0, dictSize0 := c.dictionary, c.dictSize;
    RenormDictT(c, m, inputSize);
    IntactShrinks(m, dictionary0, dictSize0, c.dictSize, source + inputSize);
    CoversEnd(past, IntactPart(m, dictionary0, dictSize0, source + inputSize), Intact(c, m, source + inputSize));
    ghost var intact := Intact(c, m, source + inputSize);
    dictEnd := AdjustDict(c, m, source, inputSize, dictEnd);
    CoversEnd(past, intact, HistoryOf(c, m));
    prefix := dictEnd == source;
  }

  /** `LZ4_compress_fast_continue`. `past` is everything compressed so far. Its last 64 KB must still be
      where the state remembers them, as far as the source does not overlap them. */
  method CompressFastContinue(c: Context, m: seq<byte>, source: nat, inputSize: nat, dst: array<byte>, d: nat,
                              maxOutputSize: int, acceleration: int, ghost past: seq<byte>) returns (r: nat)
    requires c.hashTable as object != dst as object && d + AtLeast0(maxOutputSize) <= dst.Length
    requires StreamOk(c, m) && source + inputSize <= |m| && inputSize < GB2
    requires LaidOut(c, source, inputSize) && Covers(past, Intact(c, m, source + inputSize))
    modifies c, c.hashTable, dst
    ensures OnlyBetween(old(dst[..]), dst[..], d, d + AtLeast0(maxOutputSize))
    ensures r <= AtLeast0(maxOutputSize) && StreamResult(m, source, inputSize, dst[d..d + r], maxOutputSize, past)
    ensures inputSize <= LZ4_MAX_INPUT_SIZE ==>
              && StreamOk(c, m) && Covers(past + m[source..source + inputSize], HistoryOf(c, m))
              && c.dictionary + c.dictSize == source + inputSize
              && c.dictSize == inputSize + old(if Behind(c, source) then Renormed(c, inputSize) else 0)
  {
    hide Encodes, Settled, Covers, StreamResult, Intact, LaidOut, Placed, OnlyBetween, HistoryOf;
    var prefix := PrepareStream(c, m, source, inputSize, past);
    var accel := ClampAcceleration(acceleration);
    ghost var hist, data := HistoryOf(c, m), m[source..source + inputSize];
    if prefix {
      CoversAppend(past, hist, data);
      PlacedPrefix(c, m, source, inputSize);
      r := CompressStreamed(c, m, source, inputSize, dst, d, maxOutputSize, WithPrefix64k, accel, past);
      if inputSize <= LZ4_MAX_INPUT_SIZE {
        HistoryGrew(c, m, source, inputSize, hist);
      }
    } else {
      CoversNothing(past);
      CoversAppend(past, [], data);
      r := CompressStreamed(c, m, source, inputSize, dst, d, maxOutputSize, UsingExtDict, accel, past);
      c.dictionary := source;
      c.dictSize := inputSize;
      HistoryGrew(c, m, source, inputSize, []);
    }
  }

  /** After a call, the history ends with the source. */
  lemma HistoryGrew(c: Context, m: seq<byte>, source: nat, size: nat, hist: seq<byte>)
    requires source + size <= |m| && c.dictSize == |hist| + size && c.dictionary + c.dictSize == source + size
    requires |hist| <= source && m[source - |hist|..source] == hist
    ensures HistoryOf(c, m) == hist + m[source..source + size]
  {
    SliceJoin(m, source - |hist|, source, source + size);
  }

  lemma PlacedPrefix(c: Context, m: seq<byte>, source: nat, size: nat)
    requires StreamOk(c, m) && Placed(c, source, size, WithPrefix64k)
    ensures c.dictionary + c.dictSize == source <= |m|
    ensures |HistoryOf(c, m)| == c.dictSize <= source && m[source - c.dictSize..source] == HistoryOf(c, m)
  {
  }

  /** `memmove`: the two places may overlap. */
  method MoveBytes(mem: array<byte>, to: nat, from: nat, n: nat)
    requires to + n <= mem.Length && from + n <= mem.Length
    modifies mem
    ensures mem[to..to + n] == old(mem[from..from + n])
    ensures forall i :: 0 <= i < mem.Length && (i < to || to + n <= i) ==> mem[i] == old(mem[i])
  {
    forall i | to <= i < to + n {
      mem[i] := mem[from + (i - to)];
    }
  }

  /** Moves the last `n` bytes of a history. */
  method MoveHistory(mem: array<byte>, safeBuffer: nat, dictionary: nat, dictSize: nat, n: nat)
    requires safeBuffer + n <= mem.Length && dictionary + dictSize <= mem.Length && n <= dictSize
    modifies mem
    ensures Suffix(mem[safeBuffer..safeBuffer + n], old(mem[dictionary..dictionary + dictSize]))
    ensures forall i :: 0 <= i < mem.Length && (i < safeBuffer || safeBuffer + n <= i) ==> mem[i] == old(mem[i])
  {
    hide Suffix;
    var from := dictionary + dictSize - n;
    SuffixSlice(mem[..], dictionary, from, from + n);
    MoveBytes(mem, safeBuffer, from, n);
  }

  /** `LZ4_saveDict`: moves the end of the history to `safeBuffer`, where it can stay. */
  method SaveDict(c: Context, mem: array<byte>, safeBuffer: nat, dictSize: int) returns (n: nat)
    requires c.hashTable as object != mem as object && StreamOk(c, mem[..])
    requires safeBuffer + AtLeast0(if 0 <= dictSize <= KB64 then dictSize else KB64) <= mem.Length
    modifies c, mem
    ensures n == c.dictSize && c.dictionary == safeBuffer
    ensures var most := if 0 <= dictSize <= KB64 then dictSize else KB64;
            n == if most < old(c.dictSize) then most else old(c.dictSize)
    ensures StreamOk(c, mem[..]) && Suffix(HistoryOf(c, mem[..]), old(HistoryOf(c, mem[..])))
    ensures forall i :: 0 <= i < mem.Length && (i < safeBuffer || safeBuffer + n <= i) ==> mem[i] == old(mem[i])
  {
    hide Settled, Suffix;
    ghost var h0, t0 := HistoryOf(c, mem[..]), c.hashTable[..];
    NothingIsSuffix(h0);
    n := if 0 <= dictSize <= KB64 then dictSize else KB64;
    if n > c.dictSize {
      n := c.dictSize;
    }
    if n > 0 {
      MoveHistory(mem, safeBuffer, c.dictionary, c.dictSize, n);
    }
    c.dictionary := safeBuffer;
    c.dictSize := n;
    assert c.hashTable[..] == t0;
  }
}

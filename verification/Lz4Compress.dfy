/**
 The block compressor `LZ4_compress_generic_validated`: find a match through the hash table, extend
 it both ways, write the sequence, and repeat until the end of the source is too near.
 */
module Lz4Compress {
  import opened ByteSeq
  import opened Lz4Format
  import opened Lz4Count
  import opened Lz4Emit
  import opened Lz4Job

  // ----- Finding a match -----------------------------------------------------------------------

  /** The byte positions `mflimitPlusOne` and `matchlimit` of the source. */
  function MFLimitPlusOne(j: Job): int {
    IEnd(j) - MFLIMIT + 1
  }

  function MatchLimit(j: Job): int {
    IEnd(j) - LASTLITERALS
  }

  /** No index from here on is put in the table. */
  function EndIndex(j: Job): int {
    j.startIndex + j.size - MFLIMIT + 1
  }

  /** Where a match of the byte at `ip` lies `offset` bytes back, and how far left it may grow. */
  predicate LocatedAt(j: Job, ip: nat, offset: nat, match_: int, lowLimit: int) {
    var i := IndexOf(j, ip) - offset;
    && match_ == Address(j, i)
    && lowLimit == if j.ext then (if i < j.startIndex then j.dictionary else j.source) else j.source - j.dictSize
  }

  /** A match in the dictionary has its first 4 bytes there. */
  predicate Located(j: Job, ip: nat, offset: nat) {
    var i := IndexOf(j, ip) - offset;
    j.ext && i < j.startIndex ==> i + MINMATCH <= j.startIndex
  }

  /** `n` bytes at `ip` are those `offset` bytes back in the stream. */
  predicate MatchesBack(j: Job, ip: nat, offset: nat, n: nat)
    requires ValidJob(j)
  {
    && j.source <= ip && ip + n <= IEnd(j) && 1 <= offset <= DISTANCE_MAX && offset <= At(j, ip)
    && Same(Stream(j), At(j, ip), At(j, ip) - offset, n)
  }

  /** The candidate in the slot of `ip` passes the tests and shares 4 bytes with it. */
  predicate Hit(j: Job, t: seq<nat>, ip: nat)
    requires ValidJob(j) && |t| == 8192 && ip + 8 <= |j.m|
  {
    var i := t[HashPosition(j.m, ip, j.table)];
    var a := Address(j, i);
    Tried(j, i, IndexOf(j, ip)) && 0 <= a && a + 4 <= |j.m| && Same(j.m, ip, a, 4)
  }

  /** The table with the index of `ip` in its slot. */
  function Put(j: Job, t: seq<nat>, ip: nat): (t': seq<nat>)
    requires |t| == 8192 && j.source <= ip
    ensures |t'| == 8192
  {
    if ip + 8 <= |j.m| then t[HashPosition(j.m, ip, j.table) := Stored(j.table, IndexOf(j, ip))] else t
  }

  /** Where a search from `ip0` looks for the `k`-th time: at every position, then at steps that grow by one in
      64 attempts, from the acceleration on. */
  function ProbeAt(j: Job, ip0: nat, k: nat): (ip: nat)
    ensures ip0 <= ip
  {
    if k == 0 then ip0 else ProbeAt(j, ip0, k - 1) + if k == 1 then 1 else (j.accel * 64 + k - 2) / 64
  }

  /** The table after `k` attempts. */
  function Probed(j: Job, t: seq<nat>, ip0: nat, k: nat): (t': seq<nat>)
    requires |t| == 8192 && j.source <= ip0
    ensures |t'| == 8192
  {
    if k == 0 then t else Put(j, Probed(j, t, ip0, k - 1), ProbeAt(j, ip0, k - 1))
  }

  predicate HitAt(j: Job, t: seq<nat>, ip0: nat, k: nat)
    requires ValidJob(j) && |t| == 8192 && j.source <= ip0
  {
    ProbeAt(j, ip0, k) + 8 <= |j.m| && Hit(j, Probed(j, t, ip0, k), ProbeAt(j, ip0, k))
  }

  /** The outcome of a search: the first hit, unless the attempt after it would be past `mflimitPlusOne`. */
  ghost predicate Searched(j: Job, t: seq<nat>, ip0: nat, k: nat, found: bool)
    requires ValidJob(j) && |t| == 8192 && j.source <= ip0
  {
    && (forall i :: 0 <= i < k ==> !HitAt(j, t, ip0, i))
    && if found then ProbeAt(j, ip0, k + 1) <= MFLimitPlusOne(j) && HitAt(j, t, ip0, k)
       else ProbeAt(j, ip0, k + 1) > MFLimitPlusOne(j)
  }

  /** Reads the candidate of slot `h` for position `ip` and puts `ip` in its place. A candidate that
      passes the tests and shares 4 bytes with `ip` is a match. */
  method TryCandidate(j: Job, tab: array<nat>, h: nat, ip: nat)
    returns (found: bool, offset: nat, match_: int, lowLimit: int)
    requires ValidJob(j) && Entries(j, tab[..], IndexOf(j, ip)) && Hashed(j, tab[..])
    requires j.source < ip < MFLimitPlusOne(j) && h == HashPosition(j.m, ip, j.table)
    modifies tab
    ensures Entries(j, tab[..], IndexOf(j, ip) + 1) && Hashed(j, tab[..])
    ensures |old(tab[..])| == 8192 && tab[..] == Put(j, old(tab[..]), ip)
    ensures found <==> Hit(j, old(tab[..]), ip)
    ensures found ==> offset == IndexOf(j, ip) - old(tab[..])[h]
    ensures found ==>
              && MatchesBack(j, ip, offset, MINMATCH) && LocatedAt(j, ip, offset, match_, lowLimit)
              && Located(j, ip, offset)
  {
    hide HashPosition, Same, Entries, Hashed, Stream;
    assert tab.Length == 8192 by { TableLength(j, tab[..], IndexOf(j, ip)); }
    var current: nat := IndexOf(j, ip);
    assert h < |tab[..]| && h < TableSize(j.table) by { PutIndex(j, tab[..], current, ip, current + 1); }
    var matchIndex := tab[h];
    ghost var t := tab[..];
    match_ := Address(j, matchIndex);
    lowLimit := if j.ext then (if matchIndex < j.startIndex then j.dictionary else j.source) else j.source - j.dictSize;
    PutIndex(j, t, current, ip, current + 1);
    tab[h] := Stored(j.table, current);
    assert tab[..] == t[h := Stored(j.table, current)];
    found, offset := false, 0;
    if (j.small && matchIndex < LowIndex(j)) || (j.table != ByU16 && matchIndex + DISTANCE_MAX < current) {
      return;
    }
    TriedIsNear(j, t, current, h, ip);
    StreamSame(j, current, matchIndex, MINMATCH);
    if Same(j.m, ip, match_, MINMATCH) {
      found, offset := true, current - matchIndex;
    }
  }

  lemma TableLength(j: Job, t: seq<nat>, next: int)
    requires Entries(j, t, next)
    ensures |t| == 8192
  {
  }

  /** The search loop: larger steps the longer nothing is found. */
  method Search(j: Job, tab: array<nat>, ip0: nat, forwardH0: nat)
    returns (found: bool, ip: nat, offset: nat, match_: int, lowLimit: int, ghost k: nat)
    requires ValidJob(j) && Entries(j, tab[..], IndexOf(j, ip0)) && Hashed(j, tab[..])
    requires j.source < ip0 <= MFLimitPlusOne(j) && forwardH0 == HashPosition(j.m, ip0, j.table)
    modifies tab
    ensures |old(tab[..])| == 8192 && Searched(j, old(tab[..]), ip0, k, found)
    ensures tab[..] == Probed(j, old(tab[..]), ip0, if found then k + 1 else k)
    ensures found ==>
              ip == ProbeAt(j, ip0, k)
              && offset == IndexOf(j, ip) - Probed(j, old(tab[..]), ip0, k)[HashPosition(j.m, ip, j.table)]
    ensures Hashed(j, tab[..])
    ensures found ==> Entries(j, tab[..], IndexOf(j, ip) + 1)
    ensures !found ==> Entries(j, tab[..], EndIndex(j))
    ensures found ==> ip0 <= ip < MFLimitPlusOne(j)
    ensures found ==>
              && MatchesBack(j, ip, offset, MINMATCH) && LocatedAt(j, ip, offset, match_, lowLimit)
              && Located(j, ip, offset)
  {
    hide HashPosition, Entries, Hashed, MatchesBack, LocatedAt, Located, Hit, Put;
    TableLength(j, tab[..], IndexOf(j, ip0));
    ghost var t := tab[..];
    k := 0;
    var forwardIp, step, searchMatchNb, forwardH := ip0, 1, j.accel * 64, forwardH0;
    while true
      invariant ip0 <= forwardIp <= MFLimitPlusOne(j) && 1 <= step && 64 <= searchMatchNb
      invariant forwardIp == ProbeAt(j, ip0, k) && searchMatchNb == j.accel * 64 + k
      invariant step == if k == 0 then 1 else (j.accel * 64 + k - 1) / 64
      invariant tab[..] == Probed(j, t, ip0, k) && forall i :: 0 <= i < k ==> !HitAt(j, t, ip0, i)
      invariant forwardH == HashPosition(j.m, forwardIp, j.table)
      invariant Entries(j, tab[..], IndexOf(j, forwardIp)) && Hashed(j, tab[..])
      decreases MFLimitPlusOne(j) - forwardIp
    {
      var h := forwardH;
      ip := forwardIp;
      forwardIp := forwardIp + step;
      step := searchMatchNb / 64;
      searchMatchNb := searchMatchNb + 1;
      if forwardIp > MFLimitPlusOne(j) {
        EntriesMonotone(j, tab[..], IndexOf(j, ip), EndIndex(j));
        return false, ip, 0, 0, 0, k;
      }
      forwardH := HashPosition(j.m, forwardIp, j.table);
      found, offset, match_, lowLimit := TryCandidate(j, tab, h, ip);
      if found {
        return;
      }
      EntriesMonotone(j, tab[..], IndexOf(j, ip) + 1, IndexOf(j, forwardIp));
      k := k + 1;
    }
  }

  /** Grows a match to the left, over bytes not yet emitted. */
  method CatchUp(j: Job, ip0: nat, match0: int, anchor: nat, offset: nat, lowLimit: int, ghost n0: nat)
    returns (ip: nat, match_: int, ghost n: nat)
    requires ValidJob(j) && j.source <= anchor < ip0
    requires MatchesBack(j, ip0, offset, n0) && LocatedAt(j, ip0, offset, match0, lowLimit) && Located(j, ip0, offset)
    ensures anchor <= ip <= ip0 && n == n0 + (ip0 - ip)
    ensures MatchesBack(j, ip, offset, n) && LocatedAt(j, ip, offset, match_, lowLimit) && Located(j, ip, offset)
    ensures ip == anchor || match_ <= lowLimit || (0 < match_ <= |j.m| && j.m[ip - 1] != j.m[match_ - 1])
  {
    hide Same, Stream;
    ip, match_, n := ip0, match0, n0;
    while ip > anchor && match_ > lowLimit && j.m[ip - 1] == j.m[match_ - 1]
      invariant anchor <= ip <= ip0 && n == n0 + (ip0 - ip)
      invariant MatchesBack(j, ip, offset, n) && LocatedAt(j, ip, offset, match_, lowLimit)
      invariant lowLimit < match_ ==> 0 <= match_ - 1 < |j.m|
    {
      OneMoreBack(j, ip, offset, n, match_, lowLimit);
      ip, match_, n := ip - 1, match_ - 1, n + 1;
    }
  }

  lemma OneMoreBack(j: Job, ip: nat, offset: nat, n: nat, match_: int, lowLimit: int)
    requires ValidJob(j) && j.source < ip && lowLimit < match_
    requires MatchesBack(j, ip, offset, n) && LocatedAt(j, ip, offset, match_, lowLimit)
    requires 0 <= match_ - 1 < |j.m| && j.m[ip - 1] == j.m[match_ - 1]
    ensures MatchesBack(j, ip - 1, offset, n + 1) && LocatedAt(j, ip - 1, offset, match_ - 1, lowLimit)
  {
    hide Same, Stream;
    var i := IndexOf(j, ip) - 1;
    StreamByte(j, i);
    StreamByte(j, i - offset);
    Same1(Stream(j), At(j, ip) - 1, At(j, ip) - 1 - offset);
    SameMore(Stream(j), At(j, ip) - 1, At(j, ip) - 1 - offset, 1, n);
  }

  // ----- Measuring a match ---------------------------------------------------------------------

  /** The match cannot be longer: it ends at the match limit or at a difference. */
  predicate Maximal(j: Job, ip: nat, offset: nat, n: nat)
    requires ValidJob(j)
  {
    && j.source <= ip && ip + n <= MatchLimit(j) && 1 <= offset <= At(j, ip)
    && (ip + n == MatchLimit(j) || Stream(j)[At(j, ip) + n] != Stream(j)[At(j, ip) + n - offset])
  }

  lemma MaximalIsLongest(j: Job, ip: nat, offset: nat, n: nat, known: nat)
    requires ValidJob(j) && Maximal(j, ip, offset, n)
    requires MatchesBack(j, ip, offset, known) && ip + known <= MatchLimit(j)
    ensures known <= n
  {
    hide Stream, Same;
    if n < known {
      SameIndex(Stream(j), At(j, ip), At(j, ip) - offset, known, n);
    }
  }

  lemma Extended(j: Job, ip: nat, offset: nat, n: nat, k: nat)
    requires ValidJob(j) && MatchesBack(j, ip, offset, n) && ip + n + k <= IEnd(j)
    requires Same(Stream(j), At(j, ip) + n, At(j, ip) + n - offset, k)
    ensures MatchesBack(j, ip, offset, n + k)
  {
    hide Same, Stream;
    SameMore(Stream(j), At(j, ip), At(j, ip) - offset, n, k);
  }

  /** Counting from `ip + n` against the segment that holds the match there, up to `limit`. */
  method CountFrom(j: Job, ip: nat, offset: nat, n: nat, match_: int, limit: nat) returns (k: nat)
    requires ValidJob(j) && MatchesBack(j, ip, offset, n) && ip + n <= limit <= MatchLimit(j)
    requires var i := IndexOf(j, ip) + n - offset;
             limit == ip + n
               || (match_ == Address(j, i) && (!j.ext || j.startIndex <= i || i + (limit - ip - n) <= j.startIndex))
    requires 0 <= match_ && match_ + (limit - ip - n) <= |j.m|
    ensures ip + n + k <= limit && MatchesBack(j, ip, offset, n + k)
    ensures ip + n + k < limit ==> Stream(j)[At(j, ip) + n + k] != Stream(j)[At(j, ip) + n + k - offset]
  {
    hide Same, Stream;
    k := Count(j.m, ip + n, match_, limit);
    ghost var i := IndexOf(j, ip) + n;
    if limit == ip + n {
      SameNone(Stream(j), At(j, ip) + n, At(j, ip) + n - offset);
    } else {
      StreamSame(j, i, i - offset, k);
      if ip + n + k < limit {
        StreamByte(j, i + k);
        StreamByte(j, i + k - offset);
      }
    }
    Extended(j, ip, offset, n, k);
  }

  /** The match length beyond 4: `LZ4_count`, twice when the match starts in the dictionary and
      reaches its end. */
  method MatchCode(j: Job, ip0: nat, offset: nat, match_: int, lowLimit: int, ghost n: nat) returns (code: nat, ip: nat)
    requires ValidJob(j) && MINMATCH <= n && ip0 + n <= MatchLimit(j)
    requires MatchesBack(j, ip0, offset, n) && LocatedAt(j, ip0, offset, match_, lowLimit)
    requires Located(j, ip0, offset)
    ensures ip == ip0 + code + MINMATCH && n <= code + MINMATCH && ip <= MatchLimit(j)
    ensures MatchesBack(j, ip0, offset, code + MINMATCH) && Maximal(j, ip0, offset, code + MINMATCH)
  {
    hide Same, Stream;
    MatchesFewer(j, ip0, offset, n, MINMATCH);
    if j.ext && lowLimit == j.dictionary {
      var limit := ip0 + (DictEnd(j) - match_);
      if limit > MatchLimit(j) {
        limit := MatchLimit(j);
      }
      code := CountFrom(j, ip0, offset, MINMATCH, match_ + MINMATCH, limit);
      ip := ip0 + code + MINMATCH;
      if ip == limit {
        var more := CountFrom(j, ip0, offset, code + MINMATCH, j.source, MatchLimit(j));
        code := code + more;
        ip := ip + more;
      }
    } else {
      code := CountFrom(j, ip0, offset, MINMATCH, match_ + MINMATCH, MatchLimit(j));
      ip := ip0 + code + MINMATCH;
    }
    MaximalIsLongest(j, ip0, offset, code + MINMATCH, n);
  }

  lemma MatchesFewer(j: Job, ip: nat, offset: nat, n: nat, k: nat)
    requires ValidJob(j) && MatchesBack(j, ip, offset, n) && k <= n
    ensures MatchesBack(j, ip, offset, k)
  {
    hide Same, Stream;
    SameMore(Stream(j), At(j, ip), At(j, ip) - offset, k, n - k);
  }

  // ----- What has been written -----------------------------------------------------------------

  /** The number of bytes that extend a length. */
  function ExtLen(n: nat): nat {
    if n < 15 then 0 else (n - 15) / 255 + 1
  }

  lemma LenBytesSize(n: nat)
    ensures |LenBytes(n)| == ExtLen(n)
  {
  }

  /** The output buffer is large enough for a block of nothing but literals. */
  predicate Roomy(j: Job) {
    j.dst + 1 + ExtLen(j.size) + j.size <= j.dstEnd
  }

  lemma UnlimitedIsRoomy(j: Job)
    requires ValidJob(j) && j.out == NotLimited
    ensures Roomy(j)
  {
  }

  /** Extension bytes of parts are no more than those of the whole, or one less than needed for each. */
  lemma ExtLenParts(a: nat, n: nat)
    ensures a / 255 + ExtLen(n) <= ExtLen(a + n)
    ensures ExtLen(a) + ExtLen(n) <= ExtLen(a + n) + 1
  {
    if n >= 15 {
      Quotients(a, n - 15);
      if a >= 15 {
        Quotients(a - 15, n - 15);
      }
    }
  }

  lemma Quotients(a: nat, b: nat)
    ensures a / 255 + b / 255 <= (a + b) / 255
  {
  }

  lemma Grown(e: int, a: nat)
    requires 255 * e <= 256 * a
    ensures e <= a + a / 255
  {
  }

  /** What keeps room for the end of the block when the output is bounded. */
  predicate RoomLeft(j: Job, op: int, done: seq<Sequence>) {
    && (j.out != NotLimited && done != [] ==> op + 1 + LASTLITERALS <= j.dstEnd)
    && (j.out == FillOutput ==> op < j.dstEnd)
    && (j.out == FillOutput && done != [] ==> 19 <= done[|done| - 1].mlen || op + 9 <= j.dstEnd)
  }

  /** The last match is far enough from the end of the source. */
  predicate EndRespected(j: Job, anchor: nat, done: seq<Sequence>) {
    done != [] ==> anchor <= MatchLimit(j) && anchor - done[|done| - 1].mlen + MFLIMIT <= IEnd(j)
  }

  /** The output up to `op` is the sequences `done`, which expand to the source up to `anchor`; and it
      has not grown by more than one byte in 255. */
  ghost predicate Emitted(j: Job, d: seq<byte>, op: nat, anchor: nat, done: seq<Sequence>) {
    && ValidJob(j) && j.dst <= op && j.dstEnd <= |d| && j.source <= anchor <= IEnd(j)
    && OffsetsOk(j.dictSize, done) && Shaped(done)
    && HoldsAt(d, j.dst, SerializeAll(done)) && op == j.dst + |SerializeAll(done)|
    && Expand(Hist(j), done) == Stream(j)[..At(j, anchor)]
    && 255 * (op - j.dst) <= 256 * (anchor - j.source)
    && EndRespected(j, anchor, done) && RoomLeft(j, op, done)
  }

  lemma EmittedKept(j: Job, d: seq<byte>, d': seq<byte>, op: nat, anchor: nat, done: seq<Sequence>)
    requires Emitted(j, d, op, anchor, done) && |d'| == |d| && forall i :: j.dst <= i < op ==> d'[i] == d[i]
    ensures Emitted(j, d', op, anchor, done)
  {
    hide Expand, OffsetsOk, Shaped, SerializeAll, Stream, ValidJob, Hist;
    assert HoldsAt(d', j.dst, SerializeAll(done)) by {
      assert d'[j.dst..op] == d[j.dst..op];
    }
  }

  /** The match bytes of a sequence are the source bytes it replaces. */
  lemma MatchExpands(j: Job, anchor: nat, ip: nat, offset: nat, n: nat)
    requires ValidJob(j) && j.source <= anchor <= ip && MatchesBack(j, ip, offset, n)
    ensures Stream(j)[..At(j, anchor)] + j.m[anchor..ip] == Stream(j)[..At(j, ip)]
    ensures CopyMatch(Stream(j)[..At(j, ip)], offset, n) == Stream(j)[..At(j, ip + n)]
  {
    hide Stream, Same;
    var s, v := Stream(j), At(j, ip);
    StreamSlice(j, IndexOf(j, anchor), ip - anchor);
    SliceJoin(s, 0, At(j, anchor), v);
    PeriodIsCopy(s, v, offset, n);
  }

  lemma PeriodIsCopy(s: seq<byte>, v: nat, offset: nat, n: nat)
    requires 1 <= offset <= v && v + n <= |s| && Same(s, v, v - offset, n)
    ensures CopyMatch(s[..v], offset, n) == s[..v + n]
  {
    hide Same, CopyMatch;
    var r := s[..v + n];
    assert r[..v] == s[..v];
    forall i | v <= i < v + n
      ensures r[i] == r[i - offset]
    {
      SameIndex(s, v, v - offset, n, i - v);
    }
    CopyMatchUnique(s[..v], offset, n, r);
  }

  lemma OffsetsSnoc(h: nat, done: seq<Sequence>, s: Sequence)
    requires OffsetsOk(h, done) && 1 <= s.offset <= DISTANCE_MAX && MINMATCH <= s.mlen
    requires s.offset <= h + Size(done) + |s.lits|
    ensures OffsetsOk(h, done + [s])
  {
    assert (done + [s])[..|done|] == done;
  }

  /** Appending a sequence to the output and to the list. */
  lemma SequenceEmitted(j: Job, d: seq<byte>, token: nat, anchor: nat, done: seq<Sequence>,
                        ip: nat, offset: nat, n: nat, op: nat)
    requires Emitted(j, d, token, anchor, done) && anchor <= ip && ip + MFLIMIT <= IEnd(j)
    requires MatchesBack(j, ip, offset, n) && MINMATCH <= n && ip + n <= MatchLimit(j)
    requires var s := Sequence(j.m[anchor..ip], offset, n);
             HoldsAt(d, token, Serialize1(s)) && op == token + |Serialize1(s)|
    requires RoomLeft(j, op, done + [Sequence(j.m[anchor..ip], offset, n)])
    ensures Emitted(j, d, op, ip + n, done + [Sequence(j.m[anchor..ip], offset, n)])
  {
    hide Expand, OffsetsOk, Shaped, SerializeAll, Stream, HoldsAt, Serialize1, Same, LenBytes;
    var s := Sequence(j.m[anchor..ip], offset, n);
    MatchExpands(j, anchor, ip, offset, n);
    ExpandSnoc(Hist(j), done, s);
    assert j.dictSize + Size(done) == At(j, anchor);
    OffsetsSnoc(j.dictSize, done, s);
    ShapedSnoc(done, s);
    HoldsConcat(d, j.dst, SerializeAll(done), Serialize1(s));
    SequenceSize(s);
    SequenceCost(ip - anchor, n);
  }

  lemma SequenceSize(s: Sequence)
    requires s.offset < 65536 && MINMATCH <= s.mlen
    ensures |Serialize1(s)| == 3 + ExtLen(|s.lits|) + |s.lits| + ExtLen(s.mlen - MINMATCH)
  {
    LenBytesSize(|s.lits|);
    LenBytesSize(s.mlen - MINMATCH);
  }

  /** A sequence costs at most one byte in 255 more than it stands for. */
  lemma SequenceCost(ll: nat, ml: nat)
    requires MINMATCH <= ml
    ensures 255 * (3 + ExtLen(ll) + ll + ExtLen(ml - MINMATCH)) <= 256 * (ll + ml)
  {
  }

  // ----- Writing a sequence --------------------------------------------------------------------

  datatype Next = Find | NextMatch | LastLiterals | Failed

  /** Where nothing but literals would fit, the shortest sequence with these literals fits, and the end behind it. */
  lemma LiteralsFitBound(j: Job, token: nat, anchor: nat, ip: nat)
    requires ValidJob(j) && Roomy(j) && j.dst <= token && j.source <= anchor <= ip && ip + MFLIMIT <= IEnd(j)
    requires 255 * (token - j.dst) <= 256 * (anchor - j.source)
    ensures var ll := ip - anchor; token + 3 + ExtLen(ll) + ll + 1 + LASTLITERALS <= j.dstEnd
  {
    var a, ll := anchor - j.source, ip - anchor;
    Grown(token - j.dst, a);
    ExtLenParts(a, ll);
    ExtLenParts(0, j.size);
    ExtLenParts(j.size - a - ll, a + ll);
  }

  lemma MatchFitsBound(j: Job, token: nat, anchor: nat, ip: nat, ml: nat)
    requires ValidJob(j) && Roomy(j) && j.dst <= token && j.source <= anchor <= ip && ip + ml <= MatchLimit(j)
    requires MINMATCH <= ml && 255 * (token - j.dst) <= 256 * (anchor - j.source)
    ensures var ll := ip - anchor;
            token + 3 + ExtLen(ll) + ll + ExtLen(ml - MINMATCH) + 1 + LASTLITERALS <= j.dstEnd
  {
    var a, ll := anchor - j.source, ip - anchor;
    Grown(token - j.dst, a);
    ExtLenParts(a, ll);
    ExtLenParts(a + ll, ml - MINMATCH);
    ExtLenParts(j.size - a - ll, a + ll);
  }

  /** Writes the token and the literals, unless even the shortest sequence with them, and what must follow it,
      does not fit in the output. */
  method EncodeLiterals(j: Job, dst: array<byte>, token: nat, anchor: nat, ip: nat, ghost done: seq<Sequence>)
    returns (next: Next, op: nat)
    requires Emitted(j, dst[..], token, anchor, done) && anchor <= ip && ip + MFLIMIT <= IEnd(j)
    modifies dst
    ensures OnlyBetween(old(dst[..]), dst[..], token, j.dstEnd)
    ensures next == NextMatch || (next == LastLiterals && j.out == FillOutput)
            || (next == Failed && j.out == LimitedOutput && !Roomy(j))
    ensures var least := token + 3 + ExtLen(ip - anchor) + (ip - anchor);
            && (next == Failed ==> least + 1 + LASTLITERALS > j.dstEnd)
            && (next == LastLiterals <==> j.out == FillOutput && least + 1 + (MFLIMIT - MINMATCH) > j.dstEnd)
    ensures next != NextMatch ==> dst[..] == old(dst[..])
    ensures next == LastLiterals ==> op == token
    ensures next == NextMatch ==> LiteralsAt(dst[..], token, j.m[anchor..ip], op)
    ensures next == NextMatch && j.out != NotLimited ==> op + 5 <= j.dstEnd
  {
    hide Expand, OffsetsOk, Shaped, SerializeAll, Stream, HoldsAt, LenBytes, LiteralsAt, Emitted;
    EmittedBasics(j, dst[..], token, anchor, done);
    var litLength := ip - anchor;
    op := token + 1;
    if Roomy(j) {
      LiteralsFitBound(j, token, anchor, ip);
    }
    if j.out == LimitedOutput && op + litLength + (2 + 1 + LASTLITERALS) + litLength / 255 > j.dstEnd {
      return Failed, op;
    }
    if j.out == FillOutput && op + (litLength + 240) / 255 + litLength + 2 + 1 + MFLIMIT - MINMATCH > j.dstEnd {
      return LastLiterals, token;
    }
    LenBytesSize(litLength);
    op := WriteLiterals(j.m, anchor, litLength, dst, token, j.dstEnd);
    LiteralsEnd(dst[..], token, j.m[anchor..ip], op);
    next := NextMatch;
  }

  lemma LiteralsEnd(d: seq<byte>, token: nat, lits: seq<byte>, op: nat)
    requires LiteralsAt(d, token, lits, op)
    ensures op == token + 1 + ExtLen(|lits|) + |lits| && op <= |d| && d[token] == 16 * Nibble(|lits|)
  {
    LenBytesSize(|lits|);
    HoldsByte(d, token, 16 * Nibble(|lits|));
  }

  lemma EmittedBasics(j: Job, d: seq<byte>, op: nat, anchor: nat, done: seq<Sequence>)
    requires Emitted(j, d, op, anchor, done)
    ensures ValidJob(j) && j.dst <= op && j.dstEnd <= |d| && j.source <= anchor <= IEnd(j)
    ensures 255 * (op - j.dst) <= 256 * (anchor - j.source)
    ensures EndRespected(j, anchor, done) && RoomLeft(j, op, done)
  {
  }

  /** No room for another sequence: the code is about to give the match up. */
  predicate Crowded(j: Job, op: nat) {
    j.out == FillOutput && op + 2 + 1 + MFLIMIT - MINMATCH > j.dstEnd
  }

  /** In `FillOutput` mode, the longest match length whose description still fits. */
  function ReducedCode(room: nat): nat
    requires 1 + LASTLITERALS <= room
  {
    15 - 1 + (room - 1 - LASTLITERALS) * 255
  }

  /** Writes the offset and the match length, unless they and what must follow them do not fit; in `FillOutput`
      mode a match that is too long is cut to the longest that fits. */
  method EncodeMatch(j: Job, dst: array<byte>, token: nat, op0: nat, offset: nat, code0: nat, ghost lits: seq<byte>)
    returns (next: Next, op: nat, code: nat)
    requires LiteralsAt(dst[..], token, lits, op0) && 1 <= offset <= DISTANCE_MAX && j.dstEnd <= dst.Length
    requires j.dst <= token
    requires j.out != NotLimited ==> op0 + 5 <= j.dstEnd
    requires j.out == NotLimited || Roomy(j) ==> op0 + 2 + ExtLen(code0) + 6 <= j.dstEnd
    modifies dst
    ensures OnlyBetween(old(dst[..]), dst[..], token, j.dstEnd)
    ensures code <= code0 && (j.out != FillOutput || next != Find ==> code == code0)
    ensures next == Find || (next == LastLiterals && j.out == FillOutput)
            || (next == Failed && j.out == LimitedOutput && !Roomy(j))
    ensures next == Failed <==> j.out == LimitedOutput && op0 + 2 + ExtLen(code0) + 1 + LASTLITERALS > j.dstEnd
    ensures next == LastLiterals <==> Crowded(j, op0)
    ensures code < code0 ==> op0 + 2 + ExtLen(code + 1) + 1 + LASTLITERALS > j.dstEnd
    ensures next == LastLiterals ==> op == token
    ensures next == Find ==>
              var s := Sequence(lits, offset, code + MINMATCH);
              HoldsAt(dst[..], token, Serialize1(s)) && op == token + |Serialize1(s)|
    ensures next == Find && j.out != NotLimited ==> op + 1 + LASTLITERALS <= j.dstEnd
    ensures next == Find && j.out == FillOutput ==> 15 <= code || op + 9 <= j.dstEnd
    ensures next == Find ==> !Crowded(j, op0)
    ensures next == Find && code < code0 ==> 14 <= code && Crowded(j, op + 1)
  {
    hide HoldsAt, LenBytes, LiteralsAt, Serialize1;
    code, op := code0, op0;
    LiteralsEnd(dst[..], token, lits, op);
    if Crowded(j, op) {
      return LastLiterals, token, code;
    }
    ghost var d := dst[..];
    WriteLE16(dst, op, offset);
    op := op + 2;
    if j.out != NotLimited && op + (1 + LASTLITERALS) + (code + 240) / 255 > j.dstEnd {
      if j.out == LimitedOutput {
        return Failed, op, code;
      }
      code := ReducedCode(j.dstEnd - op);
    }
    LenBytesSize(code);
    ghost var d' := dst[..];
    op := WriteMatchLength(dst, token, op, code, j.dstEnd);
    SequenceWritten(d, d', dst[..], token, lits, op0, offset, code, op, j.dstEnd);
    next := Find;
  }

  /** The five parts of a sequence, put in place one after the other. */
  lemma SequenceWritten(d: seq<byte>, d': seq<byte>, d'': seq<byte>, token: nat, lits: seq<byte>, op0: nat,
                        offset: nat, code: nat, op: nat, dstEnd: nat)
    requires LiteralsAt(d, token, lits, op0) && offset < 65536 && op0 + 2 <= dstEnd <= |d|
    requires OnlyBetween(d, d', op0, op0 + 2) && HoldsAt(d', op0, LE16(offset))
    requires |d''| == |d'| && forall i :: 0 <= i < |d'| && i != token && (i < op0 + 2 || dstEnd <= i) ==>
               d''[i] == d'[i]
    requires d''[token] as int == d'[token] as int + Nibble(code)
    requires HoldsAt(d'', op0 + 2, LenBytes(code)) && op == op0 + 2 + |LenBytes(code)|
    ensures var s := Sequence(lits, offset, code + MINMATCH);
            HoldsAt(d'', token, Serialize1(s)) && op == token + |Serialize1(s)|
  {
    hide HoldsAt, LenBytes, LE16;
    var s := Sequence(lits, offset, code + MINMATCH);
    var le := LenBytes(|lits|);
    var p := token + 1 + |le|;
    LiteralsEnd(d, token, lits, op0);
    HoldsByte(d'', token, Token(s));
    assert HoldsAt(d', token + 1, le) && HoldsAt(d', p, lits) by {
      HoldsKept(d, d', token + 1, le, op0, op0 + 2);
      HoldsKept(d, d', p, lits, op0, op0 + 2);
    }
    HoldsKeptAfter(d', d'', token + 1, le, token, op0 + 2, dstEnd);
    HoldsKeptAfter(d', d'', p, lits, token, op0 + 2, dstEnd);
    HoldsKeptAfter(d', d'', op0, LE16(offset), token, op0 + 2, dstEnd);
    Layout(d'', token, s);
  }

  lemma HoldsKeptAfter(d: seq<byte>, d': seq<byte>, at: nat, bs: seq<byte>, token: nat, lo: nat, hi: nat)
    requires HoldsAt(d, at, bs) && token < at && at + |bs| <= lo
    requires |d'| == |d| && forall i :: 0 <= i < |d| && i != token && (i < lo || hi <= i) ==> d'[i] == d[i]
    ensures HoldsAt(d', at, bs)
  {
    assert d'[at..at + |bs|] == d[at..at + |bs|];
  }

  // ----- The end of the block ------------------------------------------------------------------

  /** In `FillOutput` mode, as many last literals as fit in `r` bytes with their extra length bytes. */
  function AdaptedRun(r: nat): int {
    r - (r + 256 - RUN_MASK) / 256
  }

  lemma AdaptedRunFits(r: nat, lastRun: nat)
    requires r < lastRun + ExtLen(lastRun)
    ensures 0 <= AdaptedRun(r) < lastRun && AdaptedRun(r) + ExtLen(AdaptedRun(r)) <= r
    ensures r < AdaptedRun(r) + 1 + ExtLen(AdaptedRun(r) + 1) && r <= AdaptedRun(r) + ExtLen(AdaptedRun(r)) + 1
    ensures 5 <= r ==> 5 <= AdaptedRun(r)
    ensures 8 <= r ==> 8 <= AdaptedRun(r)
  {
    var a := AdaptedRun(r);
    if r < 15 {
    } else {
      assert ExtLen(a) <= (a + 240) / 255;
    }
  }

  /** The block written from `dst` to `op` - 1 is `b`: it conforms, and expands to the source up to `end`. */
  ghost predicate BlockAt(j: Job, d: seq<byte>, op: nat, end: nat, b: Block) {
    && ValidJob(j) && j.source <= end <= IEnd(j)
    && Conforming(j.dictSize, b) && Shaped(b.seqs) && b.tag == 0
    && HoldsAt(d, j.dst, Serialize(b)) && op == j.dst + |Serialize(b)| && op <= j.dstEnd
    && ExpandBlock(Hist(j), b) == Stream(j)[..At(j, end)]
  }

  lemma LastSize(last: seq<byte>)
    ensures |SerializeLast(last, 0)| == 1 + ExtLen(|last|) + |last|
  {
    LenBytesSize(|last|);
  }

  /** How many last literals: all of them, or in `FillOutput` mode as many as fit. */
  method LastRun(j: Job, op: nat, anchor: nat) returns (ok: bool, run: nat)
    requires ValidJob(j) && j.dst <= op && j.source <= anchor <= IEnd(j)
    requires 255 * (op - j.dst) <= 256 * (anchor - j.source) && (j.out == FillOutput ==> op < j.dstEnd)
    ensures var n := IEnd(j) - anchor;
            && (ok <==> j.out != LimitedOutput || op + 1 + ExtLen(n) + n <= j.dstEnd)
            && (!ok ==> !Roomy(j)) && run <= n && (run < n ==> j.out == FillOutput)
            && (op + 1 + ExtLen(n) + n <= j.dstEnd ==> run == n)
    ensures ok ==> op + 1 + ExtLen(run) + run <= j.dstEnd
    ensures run < IEnd(j) - anchor ==>
              && !Roomy(j)
              && op + 1 + ExtLen(run + 1) + run + 1 > j.dstEnd && op + 1 + ExtLen(run) + run + 1 >= j.dstEnd
              && (op + 6 <= j.dstEnd ==> 5 <= run) && (op + 9 <= j.dstEnd ==> 8 <= run)
  {
    hide AdaptedRun;
    run := IEnd(j) - anchor;
    LastRunFits(j, op, anchor);
    if j.out == NotLimited {
      UnlimitedIsRoomy(j);
    }
    if j.out != NotLimited && op + run + 1 + (run + 255 - RUN_MASK) / 255 > j.dstEnd {
      if j.out == LimitedOutput {
        return false, run;
      }
      AdaptedRunFits(j.dstEnd - op - 1, run);
      run := AdaptedRun(j.dstEnd - op - 1);
    }
    ok := true;
  }

  /** The last literals, which complete the block. */
  method EncodeLast(j: Job, dst: array<byte>, op0: nat, anchor: nat, ghost done: seq<Sequence>)
    returns (ok: bool, op: nat, end: nat)
    requires Emitted(j, dst[..], op0, anchor, done)
    modifies dst
    ensures OnlyBetween(old(dst[..]), dst[..], op0, j.dstEnd)
    ensures ok ==> anchor <= end <= |j.m| && BlockAt(j, dst[..], op, end, Block(done, j.m[anchor..end], 0))
    ensures ok ==> op == op0 + |SerializeLast(j.m[anchor..end], 0)|
    ensures !ok ==> j.out == LimitedOutput && !Roomy(j) && end == IEnd(j)
    ensures anchor <= IEnd(j) <= |j.m|
    ensures ok <==> j.out != LimitedOutput || op0 + |SerializeLast(j.m[anchor..IEnd(j)], 0)| <= j.dstEnd
    ensures j.out != FillOutput ==> end == IEnd(j)
    ensures op0 + |SerializeLast(j.m[anchor..IEnd(j)], 0)| <= j.dstEnd ==> end == IEnd(j)
    ensures end < IEnd(j) ==> anchor <= end && op0 + |SerializeLast(j.m[anchor..end + 1], 0)| > j.dstEnd
    ensures ok && end < IEnd(j) ==> j.dstEnd <= op + 1 && !Roomy(j)
  {
    hide Expand, OffsetsOk, Shaped, SerializeAll, Stream, HoldsAt, LenBytes, Emitted, BlockAt, SerializeLast;
    EmittedBasics(j, dst[..], op0, anchor, done);
    LastSize(j.m[anchor..IEnd(j)]);
    var lastRun;
    ok, lastRun := LastRun(j, op0, anchor);
    op, end := op0, anchor + lastRun;
    if !ok {
      return;
    }
    LenBytesSize(lastRun);
    ghost var d := dst[..];
    op := WriteLast(j.m, anchor, lastRun, dst, op0);
    EmittedKept(j, d, dst[..], op0, anchor, done);
    LastSize(j.m[anchor..end]);
    BlockEmitted(j, dst[..], op0, anchor, done, end, op);
    if end < IEnd(j) {
      LastSize(j.m[anchor..end + 1]);
    }
  }

  lemma LastRunFits(j: Job, op: nat, anchor: nat)
    requires ValidJob(j) && j.dst <= op && j.source <= anchor <= IEnd(j)
             && 255 * (op - j.dst) <= 256 * (anchor - j.source)
    ensures var n := IEnd(j) - anchor;
            && (n + 255 - RUN_MASK) / 255 == ExtLen(n)
            && (Roomy(j) ==> op + 1 + ExtLen(n) + n <= j.dstEnd)
  {
  }

  lemma BlockEmitted(j: Job, d: seq<byte>, op0: nat, anchor: nat, done: seq<Sequence>, end: nat, op: nat)
    requires Emitted(j, d, op0, anchor, done) && anchor <= end <= IEnd(j)
    requires var last := SerializeLast(j.m[anchor..end], 0);
             HoldsAt(d, op0, last) && op == op0 + |last| && op <= j.dstEnd
    requires end == IEnd(j) || (j.out == FillOutput && (done != [] ==> 5 <= end - anchor)
                                && (done != [] && op0 + 9 <= j.dstEnd ==> 8 <= end - anchor))
    ensures BlockAt(j, d, op, end, Block(done, j.m[anchor..end], 0))
  {
    hide Expand, OffsetsOk, SerializeAll, Stream, HoldsAt, SerializeLast, Hist, EndRespected, RoomLeft;
    HoldsConcat(d, j.dst, SerializeAll(done), SerializeLast(j.m[anchor..end], 0));
    StreamSlice(j, IndexOf(j, anchor), end - anchor);
    var s := Stream(j);
    assert s[..At(j, anchor)] + s[At(j, anchor)..At(j, end)] == s[..At(j, end)];
    var b := Block(done, j.m[anchor..end], 0);
    if done != [] {
      LastMatchRule(j, op0, anchor, done, end);
    }
    assert EndOk(b);
  }

  lemma LastMatchRule(j: Job, op0: nat, anchor: nat, done: seq<Sequence>, end: nat)
    requires done != [] && EndRespected(j, anchor, done) && RoomLeft(j, op0, done) && anchor <= end
    requires end == IEnd(j) || (j.out == FillOutput && 5 <= end - anchor && (op0 + 9 <= j.dstEnd ==> 8 <= end - anchor))
    requires MINMATCH <= done[|done| - 1].mlen
    ensures LASTLITERALS <= end - anchor && MFLIMIT <= done[|done| - 1].mlen + (end - anchor)
  {
  }

  // ----- The main loop -------------------------------------------------------------------------

  /** At the start of a search from `ip`. */
  ghost predicate FindState(j: Job, t: seq<nat>, d: seq<byte>, ip: nat, anchor: nat, op: nat, forwardH: nat,
                            done: seq<Sequence>) {
    && Emitted(j, d, op, anchor, done)
    && anchor < ip <= MFLimitPlusOne(j)
    && Entries(j, t, IndexOf(j, ip)) && Hashed(j, t)
    && forwardH == HashPosition(j.m, ip, j.table)
  }

  /** A match as it is handed to `_next_match`. */
  datatype Match = Match(token: nat, match_: int, lowLimit: int, offset: nat)

  /** At `_next_match`: the literals are written; `n` bytes are known to match; nothing after `top` is in the table. */
  ghost predicate MatchState(j: Job, t: seq<nat>, d: seq<byte>, ip: nat, anchor: nat, op: nat, x: Match,
                             done: seq<Sequence>, n: nat, top: nat) {
    && Emitted(j, d, x.token, anchor, done)
    && anchor <= ip && ip + MFLIMIT <= IEnd(j)
    && LiteralsAt(d, x.token, j.m[anchor..ip], op) && (j.out != NotLimited ==> op + 5 <= j.dstEnd)
    && MINMATCH <= n && ip + n <= MatchLimit(j)
    && MatchesBack(j, ip, x.offset, n) && LocatedAt(j, ip, x.offset, x.match_, x.lowLimit)
    && Located(j, ip, x.offset)
    && top < ip + n && top + MFLIMIT <= IEnd(j)
    && Entries(j, t, IndexOf(j, top) + 1) && Hashed(j, t)
  }

  /** `filledIp` is where the last search ended. It bounds what is in the table, or lies behind, or no longer
      matters. */
  predicate Filled(j: Job, ip: nat, op: nat, filledIp: nat, top: nat) {
    filledIp == top || (top <= ip && (filledIp <= ip || Crowded(j, op)))
  }

  /** The hit of a search, grown to the left as far as it goes: to the anchor, to where the history ends, or to a
      difference. */
  predicate Grown4(j: Job, t: seq<nat>, ip0: nat, k: nat, anchor: nat, ip: nat, x: Match, hit: nat, n: nat)
    requires ValidJob(j) && |t| == 8192 && j.source <= ip0
  {
    && hit == ProbeAt(j, ip0, k) && hit + 8 <= |j.m| && anchor <= ip <= hit && n == MINMATCH + (hit - ip)
    && x.offset == IndexOf(j, hit) - Probed(j, t, ip0, k)[HashPosition(j.m, hit, j.table)]
    && (ip == anchor || x.match_ <= x.lowLimit || (0 < x.match_ <= |j.m| && j.m[ip - 1] != j.m[x.match_ - 1]))
  }

  method FindStep(j: Job, tab: array<nat>, dst: array<byte>, ip0: nat, anchor: nat, op0: nat, forwardH: nat,
                  ghost done: seq<Sequence>)
    returns (next: Next, ip: nat, op: nat, x: Match, filledIp: nat, ghost n: nat, ghost k: nat, ghost found: bool)
    requires tab as object != dst as object && FindState(j, tab[..], dst[..], ip0, anchor, op0, forwardH, done)
    modifies tab, dst
    ensures OnlyBetween(old(dst[..]), dst[..], op0, j.dstEnd)
    ensures next != Find && (next == Failed ==> j.out == LimitedOutput && !Roomy(j))
    ensures next == NextMatch ==> MatchState(j, tab[..], dst[..], ip, anchor, op, x, done, n, filledIp)
    ensures next == LastLiterals ==> Emitted(j, dst[..], op, anchor, done)
    ensures Entries(j, tab[..], EndIndex(j)) && Hashed(j, tab[..])
    ensures j.source <= ip0 && |old(tab[..])| == 8192 && Searched(j, old(tab[..]), ip0, k, found)
    ensures !found ==> next == LastLiterals && op == op0
    ensures found ==> Grown4(j, old(tab[..]), ip0, k, anchor, ip, x, filledIp, n) && MatchesBack(j, ip, x.offset, n)
    ensures found ==>
              var least := op0 + 3 + ExtLen(ip - anchor) + (ip - anchor);
              && (next == Failed ==> least + 1 + LASTLITERALS > j.dstEnd)
              && (next == LastLiterals <==> j.out == FillOutput && least + 1 + (MFLIMIT - MINMATCH) > j.dstEnd)
  {
    hide Emitted, Entries, Hashed, HashPosition, MatchesBack, LocatedAt, Located, Stream, LiteralsAt, OnlyBetween,
         HoldsAt, Searched, Probed, ProbeAt;
    FindBasics(j, tab[..], dst[..], ip0, anchor, op0, forwardH, done);
    var hit, offset, match_, lowLimit;
    hit, ip, offset, match_, lowLimit, k := Search(j, tab, ip0, forwardH);
    found := hit;
    op, filledIp, n, x := op0, ip, 4, Match(op0, match_, lowLimit, offset);
    if !hit {
      OnlyBetweenSame(dst[..], op0, j.dstEnd);
      return LastLiterals, ip, op, x, filledIp, n, k, found;
    }
    EntriesMonotone(j, tab[..], IndexOf(j, ip) + 1, EndIndex(j));
    ip, match_, n := CatchUp(j, ip, match_, anchor, offset, lowLimit, MINMATCH);
    x := Match(op0, match_, lowLimit, offset);
    ghost var d := dst[..];
    next, op := EncodeLiterals(j, dst, op0, anchor, ip, done);
    EmittedWritten(j, d, dst[..], op0, anchor, done);
  }

  lemma OnlyBetweenSame(d: seq<byte>, lo: nat, hi: nat)
    ensures OnlyBetween(d, d, lo, hi)
  {
  }

  lemma FindBasics(j: Job, t: seq<nat>, d: seq<byte>, ip: nat, anchor: nat, op: nat, forwardH: nat, done: seq<Sequence>)
    requires FindState(j, t, d, ip, anchor, op, forwardH, done)
    ensures ValidJob(j) && j.source <= anchor < ip <= MFLimitPlusOne(j)
    ensures j.dst <= op && j.dstEnd <= |d|
  {
  }

  lemma EmittedWritten(j: Job, d: seq<byte>, d': seq<byte>, op: nat, anchor: nat, done: seq<Sequence>)
    requires Emitted(j, d, op, anchor, done) && OnlyBetween(d, d', op, j.dstEnd)
    ensures Emitted(j, d', op, anchor, done)
  {
    hide Expand, OffsetsOk, Shaped, SerializeAll, Stream, HoldsAt;
    EmittedBasics(j, d, op, anchor, done);
    EmittedKept(j, d, d', op, anchor, done);
  }

  /** Clears the slots of the positions from `from` to `to`, which a cut match has given back. */
  method ClearPositions(j: Job, tab: array<nat>, from: nat, to: nat)
    requires ValidJob(j) && j.startIndex == 0 && j.source < from <= to && to + MFLIMIT <= IEnd(j)
    requires Entries(j, tab[..], IndexOf(j, to) + 1) && Hashed(j, tab[..])
    modifies tab
    ensures Entries(j, tab[..], IndexOf(j, from)) && Hashed(j, tab[..])
  {
    hide HashPosition;
    var ptr := from;
    while ptr <= to
      invariant from <= ptr <= to + 1
      invariant Entries(j, tab[..], IndexOf(j, to) + 1) && Hashed(j, tab[..])
      invariant forall h :: 0 <= h < TableSize(j.table) && IndexOf(j, from) <= tab[h] ==> IndexOf(j, ptr) <= tab[h]
    {
      var h := HashPosition(j.m, ptr, j.table);
      ghost var t := tab[..];
      tab[h] := 0;
      ClearStep(j, t, tab[..], from, ptr, to, h);
      ptr := ptr + 1;
    }
  }

  lemma ClearStep(j: Job, t: seq<nat>, t': seq<nat>, from: nat, ptr: nat, to: nat, h: nat)
    requires ValidJob(j) && j.startIndex == 0 && j.source < from <= ptr <= to && to + MFLIMIT <= IEnd(j)
    requires Entries(j, t, IndexOf(j, to) + 1) && Hashed(j, t)
    requires forall k :: 0 <= k < TableSize(j.table) && IndexOf(j, from) <= t[k] ==> IndexOf(j, ptr) <= t[k]
    requires h == HashPosition(j.m, ptr, j.table) && t' == t[h := 0]
    ensures Entries(j, t', IndexOf(j, to) + 1) && Hashed(j, t')
    ensures forall k :: 0 <= k < TableSize(j.table) && IndexOf(j, from) <= t'[k] ==> IndexOf(j, ptr + 1) <= t'[k]
  {
    hide HashPosition;
    assert Address(j, IndexOf(j, ptr)) == ptr;
    assert forall k :: 0 <= k < TableSize(j.table) && t[k] == IndexOf(j, ptr) ==> k == h;
  }

  /** A match of `full` bytes, the most there are, is written; or cut to the longest that fits; or given up because
      it does not fit. */
  predicate MatchOutcome(j: Job, ip0: nat, anchor: nat, op0: nat, offset: nat, done: seq<Sequence>,
                         next: Next, ip: nat, done': seq<Sequence>, full: nat)
    requires ValidJob(j)
  {
    && j.source <= anchor <= ip0 && MINMATCH <= full && Maximal(j, ip0, offset, full)
    && (next == Failed <==> j.out == LimitedOutput && op0 + 2 + ExtLen(full - MINMATCH) + 1 + LASTLITERALS > j.dstEnd)
    && (next == LastLiterals <==> Crowded(j, op0))
    && (next == Find ==>
          && ip0 + MINMATCH <= ip <= ip0 + full && done' == done + [Sequence(j.m[anchor..ip0], offset, ip - ip0)]
          && (ip < ip0 + full ==>
                j.out == FillOutput && op0 + 2 + ExtLen(ip - ip0 - MINMATCH + 1) + 1 + LASTLITERALS > j.dstEnd))
  }

  /** Writes the offset and length of a match and moves past it. */
  method WriteMatch(j: Job, tab: array<nat>, dst: array<byte>, ip0: nat, anchor: nat, op0: nat, x: Match, filledIp: nat,
                    ghost done: seq<Sequence>, ghost n: nat, ghost top: nat)
    returns (next: Next, ip: nat, op: nat, ghost done': seq<Sequence>, ghost full: nat)
    requires tab as object != dst as object && MatchState(j, tab[..], dst[..], ip0, anchor, op0, x, done, n, top)
    requires Filled(j, ip0, op0, filledIp, top)
    modifies tab, dst
    ensures OnlyBetween(old(dst[..]), dst[..], x.token, j.dstEnd)
    ensures next != NextMatch && (next == Failed ==> j.out == LimitedOutput && !Roomy(j))
    ensures next == Find ==>
              ip0 + MINMATCH <= ip && Emitted(j, dst[..], op, ip, done') && Entries(j, tab[..], IndexOf(j, ip))
    ensures next == Find ==> done' != [] && j.dst <= x.token <= op && j.source <= ip0
    ensures next == Find ==> filledIp < ip || Crowded(j, op + 1)
    ensures MatchOutcome(j, ip0, anchor, op0, x.offset, done, next, ip, done', full)
    ensures next == Find && ip - ip0 == full ==> tab[..] == old(tab[..])
    ensures next == LastLiterals ==> Emitted(j, dst[..], op, anchor, done) && ip == anchor && done' == done
    ensures Entries(j, tab[..], EndIndex(j)) && Hashed(j, tab[..])
  {
    hide Emitted, Entries, Hashed, HashPosition, MatchesBack, LocatedAt, Located, Stream, LiteralsAt, HoldsAt,
         Serialize1;
    EmittedBasics(j, dst[..], x.token, anchor, done);
    EntriesMonotone(j, tab[..], IndexOf(j, top) + 1, EndIndex(j));
    MatchesBackBounds(j, ip0, x.offset, n);
    var code;
    code, ip := MatchCode(j, ip0, x.offset, x.match_, x.lowLimit, n);
    ghost var d, lits := dst[..], j.m[anchor..ip0];
    MatchRoom(j, d, x.token, anchor, ip0, code + MINMATCH, op0, lits);
    var whole := code;
    full := code + MINMATCH;
    next, op, code := EncodeMatch(j, dst, x.token, op0, x.offset, code, lits);
    done' := done;
    EmittedWritten(j, d, dst[..], x.token, anchor, done);
    if next != Find {
      ip := anchor;
      return;
    }
    ip := ip0 + code + MINMATCH;
    MatchesFewer(j, ip0, x.offset, full, code + MINMATCH);
    done' := done + [Sequence(lits, x.offset, code + MINMATCH)];
    SequenceEmitted(j, dst[..], x.token, anchor, done, ip0, x.offset, code + MINMATCH, op);
    if code < whole && ip <= filledIp {
      ClearPositions(j, tab, ip, filledIp);
      EntriesMonotone(j, tab[..], IndexOf(j, ip), EndIndex(j));
    } else {
      EntriesMonotone(j, tab[..], IndexOf(j, top) + 1, IndexOf(j, ip));
    }
  }

  lemma MatchesBackBounds(j: Job, ip: nat, offset: nat, n: nat)
    requires ValidJob(j) && MatchesBack(j, ip, offset, n)
    ensures j.source <= ip && 1 <= offset <= DISTANCE_MAX
  {
  }

  lemma MatchRoom(j: Job, d: seq<byte>, token: nat, anchor: nat, ip: nat, ml: nat, op: nat, lits: seq<byte>)
    requires ValidJob(j) && j.dst <= token && j.source <= anchor <= ip && ip + ml <= MatchLimit(j) && MINMATCH <= ml
    requires 255 * (token - j.dst) <= 256 * (anchor - j.source)
    requires LiteralsAt(d, token, lits, op) && |lits| == ip - anchor
    ensures j.out == NotLimited || Roomy(j) ==> op + 2 + ExtLen(ml - MINMATCH) + 6 <= j.dstEnd
  {
    LiteralsEnd(d, token, lits, op);
    if Roomy(j) {
      MatchFitsBound(j, token, anchor, ip, ml);
    }
  }

  /** After a match: fill the table, and try the next position at once. */
  method NextPosition(j: Job, tab: array<nat>, dst: array<byte>, ip0: nat, op0: nat, ghost done: seq<Sequence>)
    returns (next: Next, ip: nat, op: nat, x: Match, forwardH: nat)
    requires tab as object != dst as object && Emitted(j, dst[..], op0, ip0, done) && done != []
    requires j.source + 2 <= ip0 && Entries(j, tab[..], IndexOf(j, ip0)) && Hashed(j, tab[..])
    modifies tab, dst
    ensures OnlyBetween(old(dst[..]), dst[..], op0, j.dstEnd)
    ensures next != Failed
    ensures next == Find ==> FindState(j, tab[..], dst[..], ip, ip0, op, forwardH, done)
    ensures next == NextMatch ==> ip == ip0 && MatchState(j, tab[..], dst[..], ip, ip0, op, x, done, MINMATCH, ip0)
    ensures next == LastLiterals ==> op == op0 && Emitted(j, dst[..], op, ip0, done) && tab[..] == old(tab[..])
    ensures next == NextMatch ==> op == op0 + 1
    ensures next == LastLiterals <==> ip0 >= MFLimitPlusOne(j)
    ensures next != LastLiterals ==>
              && |old(tab[..])| == 8192 && tab[..] == Put(j, Put(j, old(tab[..]), ip0 - 2), ip0)
              && (next == NextMatch <==> Hit(j, Put(j, old(tab[..]), ip0 - 2), ip0))
    ensures Hashed(j, tab[..]) && (next != LastLiterals ==> Entries(j, tab[..], EndIndex(j)))
  {
    hide Emitted, Entries, Hashed, HashPosition, MatchesBack, LocatedAt, Located, Stream, LiteralsAt, HoldsAt;
    EmittedBasics(j, dst[..], op0, ip0, done);
    ip, op, x, forwardH := ip0, op0, Match(op0, 0, 0, 0), 0;
    OnlyBetweenSame(dst[..], op0, j.dstEnd);
    if ip >= MFLimitPlusOne(j) {
      return LastLiterals, ip, op, x, forwardH;
    }
    PutIndex(j, tab[..], IndexOf(j, ip), ip - 2, IndexOf(j, ip));
    ghost var t := tab[..];
    var h := HashPosition(j.m, ip - 2, j.table);
    var idx: nat := IndexOf(j, ip - 2);
    tab[h] := Stored(j.table, idx);
    assert tab[..] == t[h := Stored(j.table, idx)];
    h := HashPosition(j.m, ip, j.table);
    var found, offset, match_, lowLimit := TryCandidate(j, tab, h, ip);
    EntriesMonotone(j, tab[..], IndexOf(j, ip) + 1, EndIndex(j));
    if found {
      ghost var d := dst[..];
      NextTokenFits(j, d, op0, ip0, done);
      dst[op] := 0;
      x, op := Match(op0, match_, lowLimit, offset), op + 1;
      assert j.m[ip0..ip] == [];
      EmptyLiterals(dst[..], op0);
      EmittedWritten(j, d, dst[..], op0, ip0, done);
      return NextMatch, ip, op, x, forwardH;
    }
    ip := ip + 1;
    forwardH := HashPosition(j.m, ip, j.table);
    next := Find;
  }

  lemma NextTokenFits(j: Job, d: seq<byte>, op: nat, anchor: nat, done: seq<Sequence>)
    requires Emitted(j, d, op, anchor, done) && done != []
    ensures op + 1 <= j.dstEnd && (j.out != NotLimited ==> op + 6 <= j.dstEnd)
  {
    EmittedBasics(j, d, op, anchor, done);
    if j.out == NotLimited {
      LastRunFits(j, op, anchor);
    }
  }

  lemma EmptyLiterals(d: seq<byte>, token: nat)
    requires token < |d| && d[token] == 0
    ensures LiteralsAt(d, token, [], token + 1)
  {
    HoldsByte(d, token, 0);
  }

  /** From `_next_match` to the next match, the next search, or the last literals. */
  method MatchStep(j: Job, tab: array<nat>, dst: array<byte>, ip0: nat, anchor0: nat, op0: nat, x0: Match,
                   filledIp: nat, ghost done: seq<Sequence>, ghost n: nat, ghost top: nat)
    returns (next: Next, ip: nat, anchor: nat, op: nat, x: Match, forwardH: nat, ghost done': seq<Sequence>,
             ghost full: nat)
    requires tab as object != dst as object && MatchState(j, tab[..], dst[..], ip0, anchor0, op0, x0, done, n, top)
    requires Filled(j, ip0, op0, filledIp, top)
    modifies tab, dst
    ensures OnlyBetween(old(dst[..]), dst[..], j.dst, j.dstEnd)
    ensures next == Failed ==> j.out == LimitedOutput && !Roomy(j)
    ensures anchor0 <= anchor <= IEnd(j) && (next == Find || next == NextMatch ==> anchor0 < anchor)
    ensures next == Find ==> FindState(j, tab[..], dst[..], ip, anchor, op, forwardH, done')
    ensures next == NextMatch ==>
              MatchState(j, tab[..], dst[..], ip, anchor, op, x, done', MINMATCH, ip) && Filled(j, ip, op, filledIp, ip)
    ensures next == LastLiterals ==> Emitted(j, dst[..], op, anchor, done')
    ensures Entries(j, tab[..], EndIndex(j)) && Hashed(j, tab[..])
    ensures next == Failed || Crowded(j, op0) ==>
              MatchOutcome(j, ip0, anchor0, op0, x0.offset, done, next, anchor, done', full)
    ensures next != Failed && !Crowded(j, op0) ==>
              && MatchOutcome(j, ip0, anchor0, op0, x0.offset, done, Find, anchor, done', full)
              && (next == LastLiterals <==> anchor >= MFLimitPlusOne(j))
  {
    hide Emitted, Entries, Hashed, FindState, MatchState, OnlyBetween, Filled, Hit, Maximal;
    MatchBasics(j, tab[..], dst[..], ip0, anchor0, op0, x0, done, n, top);
    x, forwardH, anchor := x0, 0, anchor0;
    ghost var d := dst[..];
    next, ip, op, done', full := WriteMatch(j, tab, dst, ip0, anchor0, op0, x0, filledIp, done, n, top);
    OnlyBetweenWider(d, dst[..], x0.token, j.dst, j.dstEnd);
    if next == Find {
      anchor := ip;
      EmittedBasics(j, dst[..], op, anchor, done');
      ghost var d', op' := dst[..], op;
      next, ip, op, x, forwardH := NextPosition(j, tab, dst, anchor, op, done');
      OnlyBetweenWider(d', dst[..], op', j.dst, j.dstEnd);
      OnlyBetweenTrans(d, d', dst[..], j.dst, j.dst, j.dstEnd, j.dstEnd);
      if next == NextMatch {
        FilledEarlier(j, ip, op, filledIp);
      }
    }
  }

  lemma MatchBasics(j: Job, t: seq<nat>, d: seq<byte>, ip: nat, anchor: nat, op: nat, x: Match, done: seq<Sequence>,
                    n: nat, top: nat)
    requires MatchState(j, t, d, ip, anchor, op, x, done, n, top)
    ensures ValidJob(j) && j.source <= anchor <= ip && ip + MFLIMIT <= IEnd(j) && j.dst <= x.token
  {
  }

  lemma OnlyBetweenWider(d: seq<byte>, d': seq<byte>, lo: int, lo': int, hi: int)
    requires OnlyBetween(d, d', lo, hi) && lo' <= lo
    ensures OnlyBetween(d, d', lo', hi)
  {
  }

  lemma FilledEarlier(j: Job, ip: nat, op: nat, filledIp: nat)
    requires filledIp < ip || Crowded(j, op)
    ensures Filled(j, ip, op, filledIp, ip)
  {
  }

  /** What a call leaves in the table: no index above those it has searched. */
  predicate TableAfter(j: Job, t0: seq<nat>, t: seq<nat>) {
    if j.size < LZ4_minLength then t == t0 else Entries(j, t, EndIndex(j))
  }

  /** `LZ4_compress_generic_validated`. On success the output is a conforming block that expands to the
      source, or in `FillOutput` mode to the part of it before `end`. */
  method CompressGenericValidated(j: Job, tab: array<nat>, dst: array<byte>) returns (r: nat, end: nat)
    requires ValidJob(j) && tab as object != dst as object && j.dstEnd <= dst.Length
    requires Entries(j, tab[..], j.startIndex + 1)
    modifies tab, dst
    ensures OnlyBetween(old(dst[..]), dst[..], j.dst, j.dstEnd)
    ensures r == 0 ==> j.out == LimitedOutput && !Roomy(j)
    ensures r > 0 ==> j.source <= end <= IEnd(j) && (j.out != FillOutput ==> end == IEnd(j))
    ensures r > 0 && end < IEnd(j) ==> j.dstEnd <= j.dst + r + 1 && !Roomy(j)
    ensures Run(j) ==> r == (if j.dst + RunSize(j.size) <= j.dstEnd then RunSize(j.size) else 0)
                       && (r > 0 ==> end == IEnd(j))
    ensures r > 0 ==> j.dst + r <= j.dstEnd && Encodes(dst[j.dst..j.dst + r], Hist(j), j.m[j.source..end])
    ensures TableAfter(j, old(tab[..]), tab[..])
  {
    hide Emitted, Entries, Hashed, FindState, MatchState, OnlyBetween, Filled, BlockAt, HashPosition, SerializeLast;
    ghost var d0 := dst[..];
    var anchor, op := j.source, j.dst;
    ghost var done: seq<Sequence> := [];
    NothingEmitted(j, d0);
    OnlyBetweenSame(d0, j.dst, j.dstEnd);
    var next := LastLiterals;
    if j.size >= LZ4_minLength {
      next, anchor, op, done := MainLoop(j, tab, dst);
    }
    if next == Failed {
      return 0, IEnd(j);
    }
    ghost var d := dst[..];
    if Run(j) {
      RunLast(j, anchor, op);
    }
    hide Run;
    var ok, op', end' := EncodeLast(j, dst, op, anchor, done);
    EmittedBasics(j, d, op, anchor, done);
    OnlyBetweenWider(d, dst[..], op, j.dst, j.dstEnd);
    OnlyBetweenTrans(d0, d, dst[..], j.dst, j.dst, j.dstEnd, j.dstEnd);
    if !ok {
      return 0, IEnd(j);
    }
    BlockEncodes(j, dst[..], op', end', Block(done, j.m[anchor..end'], 0));
    r, end := op' - j.dst, end';
  }

  lemma NothingEmitted(j: Job, d: seq<byte>)
    requires ValidJob(j) && j.dstEnd <= |d|
    ensures Emitted(j, d, j.dst, j.source, [])
  {
    assert Stream(j)[..j.dictSize] == Hist(j);
  }

  lemma BlockEncodes(j: Job, d: seq<byte>, op: nat, end: nat, b: Block)
    requires BlockAt(j, d, op, end, b)
    ensures j.dst < op <= |d| && j.source <= end <= IEnd(j) && op <= j.dstEnd
    ensures Encodes(d[j.dst..op], Hist(j), j.m[j.source..end])
  {
    hide Stream, Hist, ExpandBlock, Parse, Conforming;
    assert |SerializeLast(b.last, b.tag)| >= 1;
    assert d[j.dst..op] == Serialize(b);
    ParseSerialize(b);
    StreamFront(j, end);
  }

  lemma StreamFront(j: Job, end: nat)
    requires ValidJob(j) && j.source <= end <= IEnd(j)
    ensures Stream(j)[..At(j, end)] == Hist(j) + j.m[j.source..end]
  {
    hide Hist;
    assert Source(j)[..end - j.source] == j.m[j.source..end];
  }

  method MainLoop(j: Job, tab: array<nat>, dst: array<byte>)
    returns (next: Next, anchor: nat, op: nat, ghost done: seq<Sequence>)
    requires ValidJob(j) && LZ4_minLength <= j.size && tab as object != dst as object && j.dstEnd <= dst.Length
    requires Entries(j, tab[..], j.startIndex + 1)
    modifies tab, dst
    ensures OnlyBetween(old(dst[..]), dst[..], j.dst, j.dstEnd)
    ensures (next == Failed && j.out == LimitedOutput && !Roomy(j))
            || (next == LastLiterals && Emitted(j, dst[..], op, anchor, done))
    ensures Entries(j, tab[..], EndIndex(j))
    ensures Run(j) && next == Failed ==> j.dst + RunSize(j.size) > j.dstEnd
    ensures Run(j) && next == LastLiterals ==> anchor == MatchLimit(j) && op == j.dst + RunSize(j.size) - 6
  {
    hide Emitted, Entries, FindState, MatchState, OnlyBetween, Filled, HashPosition, Run, RunPhase, Searched, Grown4,
         MatchOutcome, Put, Crowded;
    ghost var d0, t0 := dst[..], tab[..];
    done := [];
    NothingEmitted(j, d0);
    OnlyBetweenSame(d0, j.dst, j.dstEnd);
    var ip, forwardH := FirstByte(j, tab, d0);
    anchor, op, next := j.source, j.dst, Find;
    hide Hashed;
    var x, filledIp := Match(j.dst, 0, 0, 0), ip;
    ghost var n: nat, top: nat := 0, ip;
    if Run(j) {
      RunStarts(j, t0, tab[..]);
    }
    while next == Find || next == NextMatch
      invariant OnlyBetween(d0, dst[..], j.dst, j.dstEnd) && anchor <= IEnd(j)
      invariant next == Find ==> FindState(j, tab[..], dst[..], ip, anchor, op, forwardH, done)
      invariant next == NextMatch ==>
                  MatchState(j, tab[..], dst[..], ip, anchor, op, x, done, n, top) && Filled(j, ip, op, filledIp, top)
      invariant next == LastLiterals ==> Emitted(j, dst[..], op, anchor, done)
      invariant next == Failed ==> j.out == LimitedOutput && !Roomy(j)
      invariant next == Failed || next == LastLiterals ==> Entries(j, tab[..], EndIndex(j))
      invariant Run(j) ==> RunPhase(j, next, tab[..], ip, anchor, op, x, done)
      decreases IEnd(j) - anchor, if next == Find then 2 else if next == NextMatch then 1 else 0
    {
      ghost var d, t := dst[..], tab[..];
      if next == Find {
        FindBasics(j, tab[..], d, ip, anchor, op, forwardH, done);
        ghost var op' := op;
        if Run(j) {
          RunAtFind(j, t, ip, anchor, op, x, done);
        }
        ghost var k, found;
        next, ip, op, x, filledIp, n, k, found := FindStep(j, tab, dst, ip, anchor, op, forwardH, done);
        if Run(j) {
          RunFound(j, t, k, found, next, tab[..], dst[..], ip, op, x, filledIp, n);
        }
        top := filledIp;
        OnlyBetweenWider(d, dst[..], op', j.dst, j.dstEnd);
        FilledHere(j, ip, op, filledIp);
      } else {
        if Run(j) {
          RunAtMatch(j, t, ip, anchor, op, x, done);
        }
        ghost var full, op' := 0, op;
        next, ip, anchor, op, x, forwardH, done, full :=
          MatchStep(j, tab, dst, ip, anchor, op, x, filledIp, done, n, top);
        n, top := MINMATCH, ip;
        if Run(j) {
          RunMatched(j, op', next, tab[..], dst[..], ip, anchor, op, x, done, full);
        }
      }
      OnlyBetweenTrans(d0, d, dst[..], j.dst, j.dst, j.dstEnd, j.dstEnd);
    }
    if Run(j) {
      RunAtEnd(j, next, tab[..], ip, anchor, op, x, done);
    }
  }

  // ----- Runs ----------------------------------------------------------------------------------

  /** A source of nothing but one byte, without history; in `FillOutput` mode, with room for a match and the end. */
  predicate Run(j: Job) {
    && ValidJob(j) && LZ4_minLength <= j.size && !j.ext && j.dictSize == 0
    && (j.out == FillOutput ==> j.dst + 13 <= j.dstEnd && j.dst + RunSize(j.size) <= j.dstEnd)
    && Stored(j.table, j.startIndex) == j.startIndex
    && forall i :: j.source <= i < IEnd(j) ==> j.m[i] == j.m[j.source]
  }

  /** A literal, one match of all that may be matched, and five literals. */
  function RunSize(n: nat): nat
    requires 13 <= n
  {
    10 + ExtLen(n - 10)
  }

  /** How such a source is compressed: the second byte is a hit, and the match reaches the match limit. */
  ghost predicate RunPhase(j: Job, next: Next, t: seq<nat>, ip: nat, anchor: nat, op: nat, x: Match,
                           done: seq<Sequence>)
    requires Run(j)
  {
    match next
    case Find =>
      && done == [] && anchor == j.source && op == j.dst && ip == j.source + 1
      && |t| == 8192 && t[HashPosition(j.m, ip, j.table)] == j.startIndex
    case NextMatch =>
      && done == [] && anchor == j.source && op == j.dst + 2 && ip == j.source + 1 && x.offset == 1
    case LastLiterals =>
      && done == [Sequence(j.m[j.source..j.source + 1], 1, j.size - 6)] && anchor == MatchLimit(j)
      && op == j.dst + RunSize(j.size) - 6
    case Failed => j.out == LimitedOutput && j.dst + RunSize(j.size) > j.dstEnd
  }

  lemma RunAtFind(j: Job, t: seq<nat>, ip: nat, anchor: nat, op: nat, x: Match, done: seq<Sequence>)
    requires Run(j) && RunPhase(j, Find, t, ip, anchor, op, x, done)
    ensures ip == j.source + 1 && anchor == j.source && op == j.dst && done == []
    ensures |t| == 8192 && t[HashPosition(j.m, ip, j.table)] == j.startIndex
    ensures j.out == FillOutput ==> j.dst + 13 <= j.dstEnd
  {
  }

  lemma RunAtMatch(j: Job, t: seq<nat>, ip: nat, anchor: nat, op: nat, x: Match, done: seq<Sequence>)
    requires Run(j) && RunPhase(j, NextMatch, t, ip, anchor, op, x, done)
    ensures ip == j.source + 1 && anchor == j.source && op == j.dst + 2 && done == [] && x.offset == 1
    ensures !Crowded(j, op)
  {
  }

  lemma RunAtEnd(j: Job, next: Next, t: seq<nat>, ip: nat, anchor: nat, op: nat, x: Match, done: seq<Sequence>)
    requires Run(j) && RunPhase(j, next, t, ip, anchor, op, x, done)
    ensures next == Failed ==> j.dst + RunSize(j.size) > j.dstEnd
    ensures next == LastLiterals ==> anchor == MatchLimit(j) && op == j.dst + RunSize(j.size) - 6
  {
  }

  lemma RunStarts(j: Job, t0: seq<nat>, t: seq<nat>)
    requires Run(j) && |t0| == 8192 && t == Put(j, t0, j.source)
    ensures RunPhase(j, Find, t, j.source + 1, j.source, j.dst, Match(j.dst, 0, 0, 0), [])
  {
    hide HashPosition;
    assert j.m[j.source..j.source + 8] == j.m[j.source + 1..j.source + 1 + 8];
    SameHash(j.m, j.source, j.source + 1, j.table);
  }

  lemma SameHash(m: seq<byte>, p: nat, q: nat, t: TableType)
    requires p + 8 <= |m| && q + 8 <= |m| && m[p..p + 8] == m[q..q + 8]
    ensures HashPosition(m, p, t) == HashPosition(m, q, t)
  {
    hide HashPosition;
    HashOfSlice(m, p, t);
    HashOfSlice(m, q, t);
  }

  lemma HashOfSlice(m: seq<byte>, p: nat, t: TableType)
    requires p + 8 <= |m|
    ensures HashPosition(m, p, t) == HashPosition(m[p..p + 8], 0, t)
  {
    hide Hash4, Hash5;
    var s := m[p..p + 8];
    assert forall i :: 0 <= i < 8 ==> s[i] == m[p + i];
  }

  lemma RunHits(j: Job, t: seq<nat>, k: nat, found: bool)
    requires Run(j) && |t| == 8192 && t[HashPosition(j.m, j.source + 1, j.table)] == j.startIndex
    requires Searched(j, t, j.source + 1, k, found)
    ensures found && k == 0
  {
    hide HashPosition;
    assert Same(j.m, j.source + 1, j.source, 4);
    assert ProbeAt(j, j.source + 1, 0) == j.source + 1;
    assert Probed(j, t, j.source + 1, 0) == t;
    assert HitAt(j, t, j.source + 1, 0);
    assert ProbeAt(j, j.source + 1, 1) == j.source + 2;
  }

  lemma RunFound(j: Job, t0: seq<nat>, k: nat, found: bool, next: Next, t: seq<nat>, d: seq<byte>, ip: nat, op: nat,
                 x: Match, hit: nat, n: nat)
    requires Run(j) && |t0| == 8192 && t0[HashPosition(j.m, j.source + 1, j.table)] == j.startIndex
    requires Searched(j, t0, j.source + 1, k, found)
    requires found ==> Grown4(j, t0, j.source + 1, k, j.source, ip, x, hit, n) && MatchesBack(j, ip, x.offset, n)
    requires next == NextMatch ==> MatchState(j, t, d, ip, j.source, op, x, [], n, hit)
    requires found ==>
               var least := j.dst + 3 + ExtLen(ip - j.source) + (ip - j.source);
               && (next == Failed ==> least + 1 + LASTLITERALS > j.dstEnd)
               && (next == LastLiterals <==> j.out == FillOutput && least + 1 + (MFLIMIT - MINMATCH) > j.dstEnd)
    requires next != Find && (next == Failed ==> j.out == LimitedOutput)
    ensures RunPhase(j, next, t, ip, j.source, op, x, [])
  {
    hide HashPosition, Searched, Emitted, Entries, Hashed, LiteralsAt, Same, Stream;
    RunHits(j, t0, k, found);
    assert ProbeAt(j, j.source + 1, 0) == j.source + 1;
    assert ip == j.source + 1;
    if next == NextMatch {
      LiteralsEnd(d, x.token, j.m[j.source..ip], op);
      EmittedSize(j, d, x.token, j.source, []);
      assert SerializeAll([]) == [];
    }
  }

  lemma RunMatched(j: Job, op0: nat, next: Next, t: seq<nat>, d: seq<byte>, ip: nat, anchor: nat, op: nat, x: Match,
                   done: seq<Sequence>, full: nat)
    requires Run(j) && op0 == j.dst + 2
    requires next == Failed ==> MatchOutcome(j, j.source + 1, j.source, op0, 1, [], Failed, anchor, done, full)
    requires next != Failed ==>
               && MatchOutcome(j, j.source + 1, j.source, op0, 1, [], Find, anchor, done, full)
               && (next == LastLiterals <==> anchor >= MFLimitPlusOne(j))
    requires next == LastLiterals ==> Emitted(j, d, op, anchor, done)
    ensures RunPhase(j, next, t, ip, anchor, op, x, done)
  {
    hide Emitted, SerializeAll, Serialize1, Stream;
    RunMaximal(j, full);
    if next == LastLiterals {
      EmittedSize(j, d, op, anchor, done);
      var s := Sequence(j.m[j.source..j.source + 1], 1, j.size - 6);
      assert [] + [s] == [s];
      OneSequence(s);
      SequenceSize(s);
    }
  }

  lemma RunLast(j: Job, anchor: nat, op: nat)
    requires Run(j) && anchor == MatchLimit(j) && op == j.dst + RunSize(j.size) - 6
    ensures anchor <= IEnd(j) <= |j.m| && op + |SerializeLast(j.m[anchor..IEnd(j)], 0)| == j.dst + RunSize(j.size)
    ensures j.dst + RunSize(j.size) > j.dstEnd ==> j.out == LimitedOutput
  {
    LastSize(j.m[anchor..IEnd(j)]);
    if j.out == NotLimited {
      UnlimitedIsRoomy(j);
      ExtLenParts(10, j.size - 10);
    }
  }

  lemma OneSequence(s: Sequence)
    requires s.offset < 65536 && MINMATCH <= s.mlen
    ensures Shaped([s]) && SerializeAll([s]) == Serialize1(s)
  {
    hide Serialize1;
    assert [s][..0] == [];
  }

  lemma EmittedSize(j: Job, d: seq<byte>, op: nat, anchor: nat, done: seq<Sequence>)
    requires Emitted(j, d, op, anchor, done)
    ensures Shaped(done) && op == j.dst + |SerializeAll(done)|
  {
  }

  lemma RunMaximal(j: Job, full: nat)
    requires Run(j) && Maximal(j, j.source + 1, 1, full)
    ensures full == j.size - 6
  {
    hide Hist;
    assert Hist(j) == [];
  }

  lemma FilledHere(j: Job, ip: nat, op: nat, filledIp: nat)
    ensures Filled(j, ip, op, filledIp, filledIp)
  {
  }

  /** Puts the first position in the table and starts the search at the second. */
  method FirstByte(j: Job, tab: array<nat>, ghost d: seq<byte>) returns (ip: nat, forwardH: nat)
    requires ValidJob(j) && LZ4_minLength <= j.size && Entries(j, tab[..], j.startIndex + 1)
    requires Emitted(j, d, j.dst, j.source, [])
    modifies tab
    ensures FindState(j, tab[..], d, ip, j.source, j.dst, forwardH, [])
    ensures ip == j.source + 1 && |old(tab[..])| == 8192 && tab[..] == Put(j, old(tab[..]), j.source)
  {
    hide HashPosition, Emitted;
    PutIndex(j, tab[..], j.startIndex + 1, j.source, j.startIndex + 1);
    ghost var t := tab[..];
    var h := HashPosition(j.m, j.source, j.table);
    tab[h] := Stored(j.table, j.startIndex);
    assert tab[..] == t[h := Stored(j.table, j.startIndex)];
    ip := j.source + 1;
    forwardH := HashPosition(j.m, ip, j.table);
  }
}

/**
 Streaming decompression: between calls the decoder keeps the place of what it has decoded.
 */
module Lz4StreamDecode {
  import opened ByteSeq
  import opened Lz4Format
  import opened Lz4DecodeApi

  /** `LZ4_decompress_safe_forceExtDict`: all of the history is elsewhere. */
  method DecompressAfter(src: seq<byte>, mem: array<byte>, dst: nat, cap: int, at: nat, n: nat, aarch64: bool)
    returns (r: int)
    requires dst <= mem.Length && (0 <= cap ==> dst + cap <= mem.Length) && at + n <= mem.Length
    requires 0 < cap ==> at + n <= dst || dst + cap <= at
    modifies mem
    ensures (r <= cap || r == -1) && Kept(old(mem[..]), mem[..], dst, cap)
    ensures GivesBack(src, old(mem[at..at + n]), cap, mem[..], dst, r)
    ensures mem[at..at + n] == old(mem[at..at + n])
    ensures 0 <= r ==> HistoryAt(mem[..], dst + r, r, at, n) == old(mem[at..at + n]) + mem[dst..dst + r]
    ensures r == 0 ==> old(mem[at..at + n]) == old(mem[at..at + n]) + mem[dst..dst + r]
  {
    hide GivesBack, Kept, HistoryAt;
    ghost var m0 := mem[..];
    NoPrefix(m0, dst, at, n);
    r := DecompressSafeDoubleDict(src, mem, dst, cap, 0, at, n, aarch64);
    KeptSlice(m0, mem[..], dst, cap, at, n);
    if 0 <= r {
      HistoryRolls(m0, mem[..], dst, cap, r, 0, at, n);
      NothingDecoded(m0[at..at + n], mem[..], dst, r);
    }
  }

  /** A long enough prefix leaves the external dictionary out of reach. */
  method DecompressRolling(src: seq<byte>, mem: array<byte>, dst: nat, cap: int, prefixSize: nat,
                           externalDict: nat, extDictSize: nat, aarch64: bool) returns (r: int)
    requires prefixSize <= dst <= mem.Length && (0 <= cap ==> dst + cap <= mem.Length)
    requires externalDict + extDictSize <= mem.Length
    requires 0 < cap && 0 < extDictSize ==> externalDict + extDictSize <= dst || dst + cap <= externalDict
    modifies mem
    ensures (r <= cap || r == -1) && Kept(old(mem[..]), mem[..], dst, cap)
    ensures GivesBack(src, HistoryAt(old(mem[..]), dst, prefixSize, externalDict, extDictSize), cap, mem[..], dst, r)
  {
    hide GivesBack, Kept, Covers, Enough;
    ghost var m0, hist := mem[..], HistoryAt(mem[..], dst, prefixSize, externalDict, extDictSize);
    if prefixSize >= 65536 - 1 {
      r := DecompressSafeWithPrefix(src, mem, dst, cap, prefixSize, aarch64);
      LongPrefixCovers(m0, dst, prefixSize, externalDict, extDictSize);
      GivesBackCovered(src, m0[dst - prefixSize..dst], hist, cap, mem[..], dst, r);
    } else if extDictSize == 0 {
      r := DecompressSafeWithPrefix(src, mem, dst, cap, prefixSize, aarch64);
      NoExtDict(m0, dst, prefixSize, externalDict);
    } else {
      r := DecompressSafeDoubleDict(src, mem, dst, cap, prefixSize, externalDict, extDictSize, aarch64);
    }
  }

  /** `LZ4_streamDecode_t_internal`: the decoded bytes right before `prefixEnd`, and others before those
      in a place of their own. */
  class StreamDecode {
    var externalDict: nat
    var extDictSize: nat
    var prefixEnd: nat
    var prefixSize: nat

    constructor ()
      ensures externalDict == extDictSize == prefixEnd == prefixSize == 0
    {
      externalDict, extDictSize, prefixEnd, prefixSize := 0, 0, 0, 0;
    }

    /** `LZ4_setStreamDecode`: wherever the next call decodes to, it can refer to exactly the dictionary, and
        must only leave it in place. */
    method SetStreamDecode(dictionary: nat, dictSize: nat)
      modifies this
      ensures forall size: nat :: dictionary + dictSize <= size ==> Valid(size)
      ensures forall m: seq<byte>, dst: nat {:trigger History(m, dst)} :: dictionary + dictSize <= |m| ==>
                Valid(|m|) && History(m, dst) == m[dictionary..dictionary + dictSize]
      ensures forall dst: nat, cap: int :: dictionary + dictSize <= dst || dst + cap <= dictionary ==>
                OutOfTheWay(dst, cap)
    {
      prefixSize := dictSize;
      prefixEnd := dictionary + dictSize;
      externalDict, extDictSize := 0, 0;
    }

    predicate Valid(size: nat)
      reads this
    {
      && prefixSize <= prefixEnd <= size && externalDict + extDictSize <= size
      && (prefixSize == 0 ==> extDictSize == 0)
    }

    /** What a call that decodes to `dst` can refer to. */
    function History(m: seq<byte>, dst: nat): seq<byte>
      requires Valid(|m|)
      reads this
    {
      if prefixSize == 0 then []
      else if prefixEnd == dst then HistoryAt(m, dst, prefixSize, externalDict, extDictSize)
      else m[prefixEnd - prefixSize..prefixEnd]
    }

    /** The output must not be written over what the call may refer to. */
    predicate OutOfTheWay(dst: nat, cap: int)
      reads this
    {
      0 < prefixSize && 0 < cap ==>
        if prefixEnd == dst then extDictSize == 0 || externalDict + extDictSize <= dst || dst + cap <= externalDict
        else prefixEnd <= dst || dst + cap <= prefixEnd - prefixSize
    }

    /** `LZ4_decompress_safe_continue`. */
    method SafeContinue(src: seq<byte>, mem: array<byte>, dst: nat, cap: int, aarch64: bool) returns (r: int)
      requires Valid(mem.Length) && OutOfTheWay(dst, cap) && dst <= mem.Length && (0 <= cap ==> dst + cap <= mem.Length)
      modifies this, mem
      ensures (r <= cap || r == -1) && Kept(old(mem[..]), mem[..], dst, cap)
      ensures GivesBack(src, old(History(mem[..], dst)), cap, mem[..], dst, r)
      ensures Valid(mem.Length)
      ensures 0 <= r ==> History(mem[..], dst + r) == old(History(mem[..], dst)) + mem[dst..dst + r]
      ensures 0 <= r ==> OutOfTheWay(dst + r, cap - r)
      ensures 0 < r ==> 0 < prefixSize && prefixEnd == dst + r
      ensures r <= 0 ==> prefixSize == old(prefixSize) && prefixEnd == old(prefixEnd)
    {
      hide GivesBack, Kept, Covers, HistoryAt;
      ghost var m0, hist := mem[..], History(mem[..], dst);
      if prefixSize == 0 {
        r := DecompressSafe(src, mem, dst, cap, aarch64);
        NothingDecoded(hist, mem[..], dst, r);
        if 0 < r {
          prefixSize := r;
          prefixEnd := dst + r;
          JoinNothing(mem[..], externalDict, dst, r);
        }
      } else if prefixEnd == dst {
        r := DecompressRolling(src, mem, dst, cap, prefixSize, externalDict, extDictSize, aarch64);
        if 0 <= r {
          HistoryRolls(m0, mem[..], dst, cap, r, prefixSize, externalDict, extDictSize);
        }
        if 0 < r {
          prefixSize := prefixSize + r;
          prefixEnd := prefixEnd + r;
        }
      } else {
        r := Switch(src, mem, dst, cap, aarch64);
      }
    }

    /** The output buffer has wrapped around or changed: what was the prefix is now elsewhere. */
    method Switch(src: seq<byte>, mem: array<byte>, dst: nat, cap: int, aarch64: bool) returns (r: int)
      requires Valid(mem.Length) && OutOfTheWay(dst, cap) && dst <= mem.Length && (0 <= cap ==> dst + cap <= mem.Length)
      requires prefixSize != 0 && prefixEnd != dst
      modifies this, mem
      ensures (r <= cap || r == -1) && Kept(old(mem[..]), mem[..], dst, cap)
      ensures GivesBack(src, old(History(mem[..], dst)), cap, mem[..], dst, r)
      ensures Valid(mem.Length)
      ensures 0 <= r ==> History(mem[..], dst + r) == old(History(mem[..], dst)) + mem[dst..dst + r]
      ensures 0 <= r ==> OutOfTheWay(dst + r, cap - r)
      ensures 0 < r ==> 0 < prefixSize && prefixEnd == dst + r
      ensures r <= 0 ==> prefixSize == old(prefixSize) && prefixEnd == old(prefixEnd)
    {
      hide GivesBack, Kept, Covers, HistoryAt;
      extDictSize := prefixSize;
      externalDict := prefixEnd - extDictSize;
      r := DecompressAfter(src, mem, dst, cap, externalDict, extDictSize, aarch64);
      if 0 < r {
        prefixSize := r;
        prefixEnd := dst + r;
      }
    }
  }

  lemma KeptSlice(m0: seq<byte>, m: seq<byte>, dst: nat, cap: int, at: nat, n: nat)
    requires Kept(m0, m, dst, cap) && at + n <= |m|
    requires cap <= 0 || at + n <= dst || dst + cap <= at
    ensures m[at..at + n] == m0[at..at + n]
  {
  }

  lemma NothingDecoded(hist: seq<byte>, m: seq<byte>, dst: nat, r: int)
    requires dst <= |m|
    ensures r == 0 ==> hist == hist + m[dst..dst + r]
  {
  }

  lemma JoinNothing(m: seq<byte>, at: nat, dst: nat, r: nat)
    requires at <= |m| && dst + r <= |m|
    ensures HistoryAt(m, dst + r, r, at, 0) == [] + m[dst..dst + r]
  {
  }

  lemma NoExtDict(m: seq<byte>, dst: nat, prefixSize: nat, at: nat)
    requires prefixSize <= dst <= |m| && at <= |m|
    ensures HistoryAt(m, dst, prefixSize, at, 0) == m[dst - prefixSize..dst]
  {
  }

  lemma NoPrefix(m: seq<byte>, dst: nat, at: nat, n: nat)
    requires dst <= |m| && at + n <= |m|
    ensures HistoryAt(m, dst, 0, at, n) == m[at..at + n]
  {
  }

  lemma LongPrefixCovers(m: seq<byte>, dst: nat, prefixSize: nat, at: nat, n: nat)
    requires prefixSize <= dst <= |m| && at + n <= |m| && DISTANCE_MAX <= prefixSize
    ensures Enough(m[dst - prefixSize..dst], HistoryAt(m, dst, prefixSize, at, n))
  {
  }

  /** What is decoded joins the history. */
  lemma HistoryRolls(m0: seq<byte>, m: seq<byte>, dst: nat, cap: int, r: nat, prefixSize: nat, at: nat, n: nat)
    requires Kept(m0, m, dst, cap) && r <= cap && prefixSize <= dst && dst + r <= |m| && at + n <= |m|
    requires cap <= 0 || n == 0 || at + n <= dst || dst + cap <= at
    ensures HistoryAt(m, dst + r, prefixSize + r, at, n) == HistoryAt(m0, dst, prefixSize, at, n) + m[dst..dst + r]
  {
    assert m[at..at + n] == m0[at..at + n];
    assert m[dst - prefixSize..dst + r] == m0[dst - prefixSize..dst] + m[dst..dst + r];
  }

  lemma GivesBackCovered(src: seq<byte>, h: seq<byte>, hist: seq<byte>, cap: int, m: seq<byte>, dst: nat, r: int)
    requires GivesBack(src, h, cap, m, dst, r) && Enough(h, hist)
    ensures GivesBack(src, hist, cap, m, dst, r)
  {
    hide Encodes, Covers, Enough, Stands, Fits;
    EnoughCovers(h, hist);
    if Fits(src, |hist|, cap) {
      FitsShorter(src, h, hist, cap);
    }
    if 0 <= r {
      StandsLonger(src, h, hist, m[dst..dst + r]);
    }
    forall data | Encodes(src, hist, data) && |data| <= cap
      ensures r == |data| && dst + r <= |m| && m[dst..dst + r] == data
    {
      EncodesCovered(src, hist, h, data);
    }
  }
}

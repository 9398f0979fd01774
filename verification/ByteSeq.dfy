/** Bytes, and bytes in place. */
module ByteSeq {

  type byte = b: int | 0 <= b < 256

  /** `src` holds the bytes `bs` at position `ip`. */
  predicate HoldsAt(src: seq<byte>, ip: nat, bs: seq<byte>) {
    ip + |bs| <= |src| && src[ip..ip + |bs|] == bs
  }

  lemma HoldsConcat(src: seq<byte>, ip: nat, a: seq<byte>, b: seq<byte>)
    ensures HoldsAt(src, ip, a + b) <==> HoldsAt(src, ip, a) && HoldsAt(src, ip + |a|, b)
  {
    if ip + |a| + |b| <= |src| {
      assert src[ip..ip + |a + b|] == src[ip..ip + |a|] + src[ip + |a|..ip + |a| + |b|];
      if src[ip..ip + |a + b|] == a + b {
        assert src[ip..ip + |a|] == (a + b)[..|a|];
        assert src[ip + |a|..ip + |a| + |b|] == (a + b)[|a|..];
      }
    }
  }

  lemma SliceOfSlice(s: seq<byte>, a: nat, b: nat, c: nat, d: nat)
    requires a <= b <= |s| && c <= d <= b - a
    ensures s[a..b][c..d] == s[a + c..a + d]
  {
    assert s[a..b] == s[a..a + c] + s[a + c..a + d] + s[a + d..b];
  }

  lemma SliceJoin(s: seq<byte>, a: nat, b: nat, c: nat)
    requires a <= b <= c <= |s|
    ensures s[a..b] + s[b..c] == s[a..c]
  {
  }

  lemma HoldsSlice(d: seq<byte>, p: nat, bs: seq<byte>, i: nat, n: nat)
    requires HoldsAt(d, p, bs) && i + n <= |bs|
    ensures p + i + n <= |d| && d[p + i..p + i + n] == bs[i..i + n]
  {
    SliceOfSlice(d, p, p + |bs|, i, i + n);
  }
}

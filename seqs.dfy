/** Sequence helpers shared by the chunker, the packer and the post filters. */
module Seqs {

  /** Concatenation of a sequence of sequences (`sum(xss, [])`). */
  function Flatten<T>(xss: seq<seq<T>>): seq<T>
    decreases |xss|
  {
    if xss == [] then [] else xss[0] + Flatten(xss[1..])
  }

  /** `xs[:n]` for a non-negative `n`; nothing when `n` is zero or negative. */
  function TakeAtMost<T>(xs: seq<T>, n: int): (r: seq<T>)
    ensures |r| == if n <= 0 then 0 else if n < |xs| then n else |xs|
    ensures r == xs[..|r|]
  {
    if n <= 0 then [] else if n < |xs| then xs[..n] else xs
  }

  lemma AppendAssoc<T>(a: seq<T>, b: seq<T>, c: seq<T>)
    ensures a + (b + c) == (a + b) + c
  {
  }

  /** One more element of `b` after `a` and the first `j` of `b`. */
  lemma SnocSlice<T>(a: seq<T>, b: seq<T>, j: nat)
    requires j < |b|
    ensures (a + b[..j]) + [b[j]] == a + b[..j + 1]
  {
    assert b[..j + 1] == b[..j] + [b[j]];
  }

  /** When the part of `s` from `m` on is `xs + ys`, moving `t` elements of
      `xs` to the front part. */
  lemma AdvanceSlices<T>(s: seq<T>, m: nat, xs: seq<T>, ys: seq<T>, t: nat)
    requires m <= |s| && s[m..] == xs + ys && t <= |xs|
    ensures m + t <= |s|
    ensures s[..m + t] == s[..m] + xs[..t]
    ensures s[m + t..] == xs[t..] + ys
  {
    assert |s[m..]| == |xs| + |ys|;
    forall k | 0 <= k < m + t ensures s[..m + t][k] == (s[..m] + xs[..t])[k] {
      if k >= m {
        assert s[k] == s[m..][k - m];
      }
    }
    forall k | 0 <= k < |s| - m - t ensures s[m + t..][k] == (xs[t..] + ys)[k] {
      assert s[m + t + k] == s[m..][t + k];
    }
  }

  /** The scan of the `i`-th inner sequence and what follows it. */
  lemma FlattenFrom<T>(xss: seq<seq<T>>, i: nat)
    requires i <= |xss|
    ensures i == |xss| ==> Flatten(xss[i..]) == []
    ensures i < |xss| ==> Flatten(xss[i..]) == xss[i] + Flatten(xss[i + 1..])
  {
    if i < |xss| {
      assert xss[i..][0] == xss[i] && xss[i..][1..] == xss[i + 1..];
    }
  }
}

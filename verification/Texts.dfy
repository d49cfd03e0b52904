/** Cutting and overwriting texts, and sequences in general. */
module Texts {
  import opened Arith

  /** s with t written over it from a position on. */
  function Replaced<T>(s: seq<T>, at: nat, t: seq<T>): (r: seq<T>)
    requires at + |t| <= |s|
    ensures |r| == |s|
  {
    s[..at] + t + s[at + |t|..]
  }

  /** t stands in s at i. */
  predicate Stands(s: string, i: nat, t: string)
  {
    i + |t| <= |s| && s[i..i + |t|] == t
  }

  lemma StandsSplit(s: string, i: nat, a: string, b: string)
    requires Stands(s, i, a + b)
    ensures Stands(s, i, a) && Stands(s, i + |a|, b)
    ensures |b| > 0 ==> i + |a| < |s| && s[i + |a|] == b[0]
  {
    assert s[i..i + |a|] == (a + b)[..|a|];
    assert s[i + |a|..i + |a| + |b|] == (a + b)[|a|..];
    assert |b| > 0 ==> s[i + |a|] == s[i + |a|..i + |a| + |b|][0];
  }

  lemma StandsJoin(s: string, i: nat, a: string, b: string)
    requires Stands(s, i, a) && Stands(s, i + |a|, b)
    ensures Stands(s, i, a + b)
  {
    assert s[i..i + |a + b|] == s[i..i + |a|] + s[i + |a|..i + |a| + |b|];
  }

  lemma StandsChar(s: string, i: nat, t: string, k: nat)
    requires Stands(s, i, t) && k < |t|
    ensures s[i + k] == t[k]
  {
    assert s[i..i + |t|][k] == t[k];
  }

  /** The first n elements, or all. */
  function Clip<T>(s: seq<T>, n: nat): (r: seq<T>)
    ensures |r| == Min(|s|, n)
  {
    if |s| <= n then s else s[..n]
  }
}

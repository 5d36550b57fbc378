/** Counting facts shared by the pools, the guard and the schedules. */
module Counting {

  function Max(a: nat, b: nat): nat { if a < b then b else a }

  lemma Times(a: nat, b: nat, d: nat)
    requires a <= b
    ensures a * d <= b * d
  {
  }

  ghost predicate AllDistinct(s: seq<nat>) {
    forall i, j :: 0 <= i < j < |s| ==> s[i] != s[j]
  }

  /** Distinct numbers below n: at most n of them, and all of them when there are n. */
  lemma {:induction false} DistinctBelow(s: seq<nat>, n: nat)
    requires AllDistinct(s) && forall i :: 0 <= i < |s| ==> s[i] < n
    ensures |s| <= n
    ensures |s| == n ==> forall t :: 0 <= t < n ==> t in s
    decreases n
  {
    if s != [] { assert s[0] < n; }
    if n > 0 {
      if n - 1 in s {
        var p :| 0 <= p < |s| && s[p] == n - 1;
        var rest := s[..p] + s[p + 1..];
        assert forall i :: 0 <= i < |rest| ==> rest[i] == s[if i < p then i else i + 1];
        DistinctBelow(rest, n - 1);
        forall t | 0 <= t < n && |s| == n ensures t in s {
          if t < n - 1 {
            assert t in rest;
            var i :| 0 <= i < |rest| && rest[i] == t;
            assert s[if i < p then i else i + 1] == t;
          }
        }
      } else {
        forall i | 0 <= i < |s| ensures s[i] < n - 1 { assert s[i] in s; }
        DistinctBelow(s, n - 1);
      }
    }
  }

  /** Distinct numbers that are exactly those below n. */
  lemma DistinctExactly(s: seq<nat>, n: nat)
    requires AllDistinct(s) && forall k :: k in s <==> 0 <= k < n
    ensures |s| == n
  {
    forall i | 0 <= i < |s| ensures s[i] < n { assert s[i] in s; }
    DistinctBelow(s, n);
    if |s| < n {
      var missing := seq(n, k => k);
      forall i | 0 <= i < |missing| ensures missing[i] in s { assert missing[i] == i; }
      Injects(missing, s);
    }
  }

  /** Distinct members of b cannot outnumber b. */
  lemma {:induction false} Injects(a: seq<nat>, b: seq<nat>)
    requires AllDistinct(a) && forall i :: 0 <= i < |a| ==> a[i] in b
    ensures |a| <= |b|
    decreases |a|
  {
    if a != [] {
      var x := a[|a| - 1];
      var p :| 0 <= p < |b| && b[p] == x;
      var rest := b[..p] + b[p + 1..];
      forall i | 0 <= i < |a| - 1 ensures a[i] in rest {
        var q :| 0 <= q < |b| && b[q] == a[i];
        assert rest[if q < p then q else q - 1] == a[i];
      }
      Injects(a[..|a| - 1], rest);
    }
  }

  function CountTrue(s: seq<bool>): nat {
    if s == [] then 0 else CountTrue(s[..|s| - 1]) + (if s[|s| - 1] then 1 else 0)
  }

  lemma {:induction false} CountUpdate(s: seq<bool>, k: nat, v: bool)
    requires k < |s|
    ensures CountTrue(s[k := v]) == CountTrue(s) - (if s[k] then 1 else 0) + (if v then 1 else 0)
  {
    if k == |s| - 1 {
      assert s[k := v][..k] == s[..k];
    } else {
      CountUpdate(s[..|s| - 1], k, v);
      assert s[k := v][..|s| - 1] == s[..|s| - 1][k := v];
    }
  }

  lemma CountAppend(s: seq<bool>, v: bool)
    ensures CountTrue(s + [v]) == CountTrue(s) + (if v then 1 else 0)
  {
    assert (s + [v])[..|s|] == s;
  }

  lemma {:induction false} CountZero(s: seq<bool>)
    ensures CountTrue(s) == 0 <==> forall k :: 0 <= k < |s| ==> !s[k]
  {
    if s != [] { CountZero(s[..|s| - 1]); }
  }
}

/** Facts about sequences used throughout: first-occurrence lookup, duplicate freedom, counting. */
module Seqs {

  /** java.util.List.indexOf: the position of the first occurrence of `x`, or -1. */
  function IndexOf<T(==)>(s: seq<T>, x: T): (r: int)
    ensures x !in s <==> r == -1
    ensures x in s ==> 0 <= r < |s| && s[r] == x && x !in s[..r]
  {
    if |s| == 0 then -1
    else if s[0] == x then 0
    else
      var i := IndexOf(s[1..], x);
      assert s[1..][..if i < 0 then 0 else i] == s[1..1 + if i < 0 then 0 else i];
      if i < 0 then -1 else i + 1
  }

  /** No element occurs twice. */
  predicate Distinct<T(==)>(s: seq<T>)
  {
    forall i, j :: 0 <= i < j < |s| ==> s[i] != s[j]
  }

  /** In a duplicate-free sequence the first occurrence of `s[i]` is `i` itself. */
  lemma IndexOfDistinct<T>(s: seq<T>, i: nat)
    requires Distinct(s) && i < |s|
    ensures IndexOf(s, s[i]) == i
  {
  }

  /** Appending an element that does not occur keeps a sequence duplicate-free. */
  lemma DistinctSnoc<T>(s: seq<T>, x: T)
    requires Distinct(s) && x !in s
    ensures Distinct(s + [x])
  {
    var r := s + [x];
    forall i, j | 0 <= i < j < |r| ensures r[i] != r[j] {
      if j == |s| {
        assert r[i] == s[i] && r[j] == x;
      } else {
        assert r[i] == s[i] && r[j] == s[j];
      }
    }
  }

  /** Pigeonhole: a duplicate-free sequence of naturals below `n` has at most `n` elements. */
  lemma {:induction false} DistinctBelow(s: seq<nat>, n: nat)
    requires Distinct(s)
    requires forall i :: 0 <= i < |s| ==> s[i] < n
    ensures |s| <= n
    decreases n
  {
    if s == [] {
    } else if n - 1 in s {
      assert s[0] < n;
      var p := IndexOf(s, n - 1);
      var rest := s[..p] + s[p + 1..];
      DeleteTop(s, n, p);
      DistinctBelow(rest, n - 1);
      assert |rest| == |s| - 1;
    } else {
      assert s[0] < n;
      forall i | 0 <= i < |s| ensures s[i] < n - 1 {
        assert s[i] in s;
      }
      DistinctBelow(s, n - 1);
    }
  }

  /** Deleting the occurrence of the largest possible value `n - 1` from a duplicate-free
      sequence below `n` leaves a duplicate-free sequence below `n - 1`. */
  lemma DeleteTop(s: seq<nat>, n: nat, p: nat)
    requires Distinct(s) && p < |s| && s[p] == n - 1
    requires forall i :: 0 <= i < |s| ==> s[i] < n
    ensures var rest := s[..p] + s[p + 1..];
      Distinct(rest) && forall i :: 0 <= i < |rest| ==> rest[i] < n - 1
  {
    var rest := s[..p] + s[p + 1..];
    forall i | 0 <= i < |rest| ensures rest[i] == s[if i < p then i else i + 1] {
      if i < p { assert rest[i] == s[..p][i]; } else { assert rest[i] == s[p + 1..][i - p]; }
    }
    forall i | 0 <= i < |rest| ensures rest[i] < n - 1 {
      var i' := if i < p then i else i + 1;
      assert rest[i] == s[i'] && i' != p;
    }
    forall i, j | 0 <= i < j < |rest| ensures rest[i] != rest[j] {
      var i' := if i < p then i else i + 1;
      var j' := if j < p then j else j + 1;
      assert rest[i] == s[i'] && rest[j] == s[j'] && i' < j';
    }
  }

  /** The elements of `s` at the positions listed in `ix`, in that order. */
  function Gather<T>(s: seq<T>, ix: seq<nat>): (r: seq<T>)
    requires forall t :: 0 <= t < |ix| ==> ix[t] < |s|
    ensures |r| == |ix|
    ensures forall t :: 0 <= t < |ix| ==> r[t] == s[ix[t]]
    decreases |ix|
  {
    if ix == [] then [] else Gather(s, ix[..|ix| - 1]) + [s[ix[|ix| - 1]]]
  }

  lemma GatherSnoc<T>(s: seq<T>, ix: seq<nat>, j: nat)
    requires forall t :: 0 <= t < |ix| ==> ix[t] < |s|
    requires j < |s|
    ensures Gather(s, ix + [j]) == Gather(s, ix) + [s[j]]
  {
    assert (ix + [j])[..|ix|] == ix;
  }

  /** Taking one more element of `s` appends that element. */
  lemma TakeSnoc<T>(s: seq<T>, t: nat)
    requires t < |s|
    ensures s[..t + 1] == s[..t] + [s[t]]
  {
  }

  /** Taking all of `s` is `s`. */
  lemma TakeAll<T>(s: seq<T>)
    ensures s[..|s|] == s
  {
  }

  /** The front of a concatenation is its first part. */
  lemma TakeAppend<T>(a: seq<T>, b: seq<T>)
    ensures (a + b)[..|a|] == a
  {
  }

  /** Membership in a concatenation. */
  lemma InAppend<T>(a: seq<T>, b: seq<T>, x: T)
    ensures x in a + b <==> x in a || x in b
  {
  }

  /** Concatenation regrouped. */
  lemma Assoc<T>(a: seq<T>, b: seq<T>, c: seq<T>)
    ensures a + b + c == a + (b + c)
  {
  }

  /** Concatenation regrouped. */
  lemma Regroup<T>(a: seq<T>, b: seq<T>, c: seq<T>, d: seq<T>)
    ensures a + b + c + d == a + (b + c + d)
  {
  }

  /** A prefix of `b` is still a prefix once `b` is extended. */
  lemma PrefixExtend<T>(a: seq<T>, b: seq<T>, tail: seq<T>, c: seq<T>)
    requires a == b + tail && |c| <= |b| && b[..|c|] == c
    ensures |c| <= |a| && a[..|c|] == c
  {
    assert a[..|c|] == b[..|c|];
  }

  /** A shorter prefix of a prefix is the shorter prefix. */
  lemma TakeTake<T>(s: seq<T>, i: nat, j: nat)
    requires i <= j <= |s|
    ensures s[..j][..i] == s[..i]
  {
  }

  /** Overwriting position i of "r up to i, then d" with r[i] moves the boundary by one. */
  lemma SpliceStep<T>(r: seq<T>, d: seq<T>, i: nat)
    requires |r| == |d| && i < |r|
    ensures (r[..i] + d[i..])[i := r[i]] == r[..i + 1] + d[i + 1..]
  {
    var a, b := (r[..i] + d[i..])[i := r[i]], r[..i + 1] + d[i + 1..];
    assert forall t :: 0 <= t < |r| ==> a[t] == b[t];
  }

  /** The first `x` of `a + b` is the head of `b` when `a` has none. */
  lemma IndexOfAfter<T>(a: seq<T>, b: seq<T>, x: T)
    requires x !in a && b != [] && b[0] == x
    ensures IndexOf(a + b, x) == |a|
  {
    assert (a + b)[|a|] == x;
  }

  /** Both parts of a concatenation can be cut back out of it. */
  lemma SplitAppend<T>(a: seq<T>, b: seq<T>)
    ensures (a + b)[..|a|] == a && (a + b)[|a|..] == b
  {
  }

  /** The second part of a prefix `a + b` of `s` sits right after the first part in `s`. */
  lemma SliceOfPrefix<T>(s: seq<T>, p: seq<T>, a: seq<T>, b: seq<T>)
    requires |p| <= |s| && s[..|p|] == p && p == a + b
    ensures |a| + |b| <= |s| && s[|a|..|a| + |b|] == b
  {
    assert s[|a|..|a| + |b|] == p[|a|..];
  }

  /** The pieces `f(x)` of the elements of `xs`, concatenated in order. */
  function ConcatMap<T, U>(xs: seq<T>, f: T -> seq<U>): seq<U>
  {
    if xs == [] then [] else ConcatMap(xs[..|xs| - 1], f) + f(xs[|xs| - 1])
  }

  /** The pieces of fewer elements are a prefix of the pieces of more. */
  lemma {:induction false} ConcatMapPrefix<T, U>(xs: seq<T>, f: T -> seq<U>, t: nat, m: nat)
    requires t <= m <= |xs|
    ensures |ConcatMap(xs[..t], f)| <= |ConcatMap(xs[..m], f)|
    ensures ConcatMap(xs[..m], f)[..|ConcatMap(xs[..t], f)|] == ConcatMap(xs[..t], f)
    decreases m
  {
    if t < m {
      ConcatMapPrefix(xs, f, t, m - 1);
      var pre := xs[..m];
      assert pre[..|pre| - 1] == xs[..m - 1];
      PrefixExtend(ConcatMap(pre, f), ConcatMap(xs[..m - 1], f), f(xs[m - 1]), ConcatMap(xs[..t], f));
    }
  }

  /** The piece of element `t` sits right after the pieces of the elements before it. */
  lemma ConcatMapSlice<T, U>(xs: seq<T>, f: T -> seq<U>, t: nat)
    requires t < |xs|
    ensures var before := |ConcatMap(xs[..t], f)|;
      before + |f(xs[t])| <= |ConcatMap(xs, f)| && ConcatMap(xs, f)[before..before + |f(xs[t])|] == f(xs[t])
  {
    ConcatMapPrefix(xs, f, t + 1, |xs|);
    var pre := xs[..t + 1];
    assert pre[..|pre| - 1] == xs[..t];
    assert xs[..|xs|] == xs;
    SliceOfPrefix(ConcatMap(xs, f), ConcatMap(pre, f), ConcatMap(xs[..t], f), f(xs[t]));
  }
}

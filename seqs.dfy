/** Sequence operations behind the list and row manipulations of the pipeline:
    Python's `list.index`, order-preserving filtering, and duplicate removal
    that keeps first occurrences. */
module Seqs {

  /** `list.index(x)`: the position of the first occurrence of `x`. */
  function IndexOf<T(==,!new)>(s: seq<T>, x: T): (i: nat)
    requires x in s
    ensures i < |s| && s[i] == x
  {
    if s[0] == x then 0 else 1 + IndexOf(s[1..], x)
  }

  /** No occurrence of `x` precedes `IndexOf(s, x)`. */
  lemma {:induction false} IndexOfIsFirst<T(!new)>(s: seq<T>, x: T)
    requires x in s
    ensures x !in s[..IndexOf(s, x)]
  {
    if s[0] != x {
      IndexOfIsFirst(s[1..], x);
      assert s[..IndexOf(s, x)] == [s[0]] + s[1..][..IndexOf(s[1..], x)];
    }
  }

  predicate Distinct<T(==,!new)>(s: seq<T>)
  {
    forall i, j :: 0 <= i < j < |s| ==> s[i] != s[j]
  }

  /** `s` with `s[i]` taken out. */
  function RemoveAt<T>(s: seq<T>, i: nat): (r: seq<T>)
    requires i < |s|
    ensures |r| == |s| - 1
  {
    s[..i] + s[i + 1..]
  }

  /** The elements of `s` that satisfy `keep`, in their original order. */
  function Filter<T(!new)>(keep: T -> bool, s: seq<T>): (r: seq<T>)
    ensures |r| <= |s|
    ensures forall x :: x in r <==> x in s && keep(x)
  {
    if s == [] then []
    else
      var n := |s| - 1;
      assert s == s[..n] + [s[n]];
      if keep(s[n]) then Filter(keep, s[..n]) + [s[n]] else Filter(keep, s[..n])
  }

  /** Duplicate removal that keeps the first occurrence of every element. */
  function Dedup<T(==,!new)>(s: seq<T>): (r: seq<T>)
    ensures |r| <= |s|
    ensures forall x :: x in r <==> x in s
    ensures Distinct(r)
  {
    if s == [] then []
    else
      var n := |s| - 1;
      assert s == s[..n] + [s[n]];
      if s[n] in s[..n] then Dedup(s[..n]) else Dedup(s[..n]) + [s[n]]
  }

  /** `a` is obtained from `b` by deleting elements. */
  ghost predicate IsSubseq<T(!new)>(a: seq<T>, b: seq<T>)
    decreases |b|
  {
    if |b| == 0 then |a| == 0
    else
      IsSubseq(a, b[..|b| - 1])
      || (|a| > 0 && a[|a| - 1] == b[|b| - 1] && IsSubseq(a[..|a| - 1], b[..|b| - 1]))
  }

  /** Every sequence is a subsequence of itself. */
  lemma {:induction false} SubseqReflexive<T(!new)>(s: seq<T>)
    ensures IsSubseq(s, s)
  {
    if s != [] {
      SubseqReflexive(s[..|s| - 1]);
    }
  }

  lemma {:induction false} FilterIsSubseq<T(!new)>(keep: T -> bool, s: seq<T>)
    ensures IsSubseq(Filter(keep, s), s)
  {
    if s != [] {
      var n := |s| - 1;
      FilterIsSubseq(keep, s[..n]);
      var f := Filter(keep, s[..n]);
      if keep(s[n]) {
        assert (f + [s[n]])[..|f|] == f;
      }
    }
  }

  lemma {:induction false} DedupIsSubseq<T(!new)>(s: seq<T>)
    ensures IsSubseq(Dedup(s), s)
  {
    if s != [] {
      var n := |s| - 1;
      DedupIsSubseq(s[..n]);
      var d := Dedup(s[..n]);
      if s[n] !in s[..n] {
        assert (d + [s[n]])[..|d|] == d;
      }
    }
  }

  /** Filtering keeps every occurrence of a kept element, repeats included,
      and no occurrence of a dropped one. */
  lemma {:induction false} FilterCounts<T(!new)>(keep: T -> bool, s: seq<T>)
    ensures forall x :: multiset(Filter(keep, s))[x] == if keep(x) then multiset(s)[x] else 0
  {
    if s != [] {
      var n := |s| - 1;
      var p := s[..n];
      FilterCounts(keep, p);
      assert s == p + [s[n]];
      assert multiset(s) == multiset(p) + multiset{s[n]};
      var f := Filter(keep, p);
      if keep(s[n]) {
        assert multiset(Filter(keep, s)) == multiset(f) + multiset{s[n]};
      } else {
        assert Filter(keep, s) == f;
      }
    }
  }

  lemma {:induction false} FilterKeepsDistinct<T(!new)>(keep: T -> bool, s: seq<T>)
    requires Distinct(s)
    ensures Distinct(Filter(keep, s))
  {
    if s != [] {
      var n := |s| - 1;
      assert Distinct(s[..n]);
      FilterKeepsDistinct(keep, s[..n]);
    }
  }

  lemma {:induction false} FilterAllKept<T(!new)>(keep: T -> bool, s: seq<T>)
    requires forall x :: x in s ==> keep(x)
    ensures Filter(keep, s) == s
  {
    if s != [] {
      var n := |s| - 1;
      assert s == s[..n] + [s[n]];
      FilterAllKept(keep, s[..n]);
    }
  }

  lemma {:induction false} DedupOfDistinct<T(!new)>(s: seq<T>)
    requires Distinct(s)
    ensures Dedup(s) == s
  {
    if s != [] {
      var n := |s| - 1;
      assert s == s[..n] + [s[n]];
      assert Distinct(s[..n]);
      DedupOfDistinct(s[..n]);
    }
  }

  lemma IndexOfPrefix<T(!new)>(s: seq<T>, x: T, y: T)
    requires y in s
    ensures y in s + [x] && IndexOf(s + [x], y) == IndexOf(s, y)
  {
    var i, j := IndexOf(s + [x], y), IndexOf(s, y);
    IndexOfIsFirst(s + [x], y);
    IndexOfIsFirst(s, y);
    assert (s + [x])[..j] == s[..j];
    assert forall k :: 0 <= k < j ==> (s + [x])[k] != y;
    assert forall k :: 0 <= k < i ==> (s + [x])[k] != y;
    assert (s + [x])[j] == y;
  }

  /** The elements of `r` occur in `s`, and in `r` they come in the order of
      their first occurrences in `s`. */
  ghost predicate OrderedByFirstOccurrence<T(!new)>(r: seq<T>, s: seq<T>)
  {
    forall a, b :: 0 <= a < b < |r| ==> Precedes(s, r[a], r[b])
  }

  /** `x` and `y` both occur in `s`, and `x` occurs first. */
  ghost predicate Precedes<T(!new)>(s: seq<T>, x: T, y: T)
  {
    x in s && y in s && IndexOf(s, x) < IndexOf(s, y)
  }

  lemma {:induction false} SubseqTransitive<T(!new)>(a: seq<T>, b: seq<T>, c: seq<T>)
    requires IsSubseq(a, b) && IsSubseq(b, c)
    ensures IsSubseq(a, c)
    decreases |c|
  {
    if |c| > 0 {
      var c' := c[..|c| - 1];
      if IsSubseq(b, c') {
        SubseqTransitive(a, b, c');
      } else {
        var b' := b[..|b| - 1];
        if IsSubseq(a, b') {
          SubseqTransitive(a, b', c');
        } else {
          SubseqTransitive(a[..|a| - 1], b', c');
        }
      }
    }
  }

  lemma OrderedPrefix<T(!new)>(r: seq<T>, s: seq<T>, n: nat)
    requires OrderedByFirstOccurrence(r, s) && n <= |r|
    ensures OrderedByFirstOccurrence(r[..n], s)
  {
    var p := r[..n];
    forall a, b | 0 <= a < b < |p|
      ensures Precedes(s, p[a], p[b])
    {
      assert p[a] == r[a] && p[b] == r[b];
      assert Precedes(s, r[a], r[b]);
    }
    assert OrderedByFirstOccurrence(p, s);
  }

  /** Filtering keeps the relative order of what it keeps. */
  lemma {:induction false} FilterKeepsOrder<T(!new)>(keep: T -> bool, r: seq<T>, s: seq<T>)
    requires OrderedByFirstOccurrence(r, s)
    ensures OrderedByFirstOccurrence(Filter(keep, r), s)
  {
    if r != [] {
      var n := |r| - 1;
      var p := r[..n];
      OrderedPrefix(r, s, n);
      FilterKeepsOrder(keep, p, s);
      var f := Filter(keep, p);
      if keep(r[n]) {
        var g := f + [r[n]];
        forall a, b | 0 <= a < b < |g|
          ensures Precedes(s, g[a], g[b])
        {
          if b == |f| {
            assert g[a] == f[a] && f[a] in f;
            var i :| 0 <= i < |p| && p[i] == f[a];
            assert r[i] == g[a] && r[n] == g[b];
            assert Precedes(s, r[i], r[n]);
          } else {
            assert g[a] == f[a] && g[b] == f[b];
            assert Precedes(s, f[a], f[b]);
          }
        }
        assert OrderedByFirstOccurrence(g, s);
      }
    }
  }

  /** Dedup keeps first occurrences: its elements appear in the order in which
      they first occur in the input. */
  lemma {:induction false} DedupKeepsFirstOccurrences<T(!new)>(s: seq<T>)
    ensures OrderedByFirstOccurrence(Dedup(s), s)
  {
    if s == [] {
      assert |Dedup(s)| == 0;
    } else {
      var n := |s| - 1;
      var p := s[..n];
      assert s == p + [s[n]];
      DedupKeepsFirstOccurrences(p);
      IndexOfExtends(p, s[n]);
      if s[n] !in p {
        assert Dedup(s) == Dedup(p) + [s[n]];
        OrderAppendNew(Dedup(p), p, s[n]);
      } else {
        assert Dedup(s) == Dedup(p);
        OrderExtend(Dedup(p), p, s[n]);
      }
    }
  }

  /** Appending an element moves no first occurrence; a new element comes last. */
  lemma IndexOfExtends<T(!new)>(p: seq<T>, x: T)
    ensures forall y :: y in p ==> y in p + [x] && IndexOf(p + [x], y) == IndexOf(p, y) < |p|
    ensures x !in p ==> IndexOf(p + [x], x) == |p|
  {
    forall y | y in p
      ensures y in p + [x] && IndexOf(p + [x], y) == IndexOf(p, y) < |p|
    {
      IndexOfPrefix(p, x, y);
    }
    if x !in p {
      var s := p + [x];
      IndexOfIsFirst(s, x);
      assert s[..IndexOf(s, x)] == p[..IndexOf(s, x)] || IndexOf(s, x) == |p|;
    }
  }

  lemma OrderExtend<T(!new)>(d: seq<T>, p: seq<T>, x: T)
    requires OrderedByFirstOccurrence(d, p)
    requires forall y :: y in p ==> y in p + [x] && IndexOf(p + [x], y) == IndexOf(p, y) < |p|
    ensures OrderedByFirstOccurrence(d, p + [x])
  {
    forall a, b | 0 <= a < b < |d|
      ensures Precedes(p + [x], d[a], d[b])
    {
      assert Precedes(p, d[a], d[b]);
    }
    assert OrderedByFirstOccurrence(d, p + [x]);
  }

  lemma OrderAppendNew<T(!new)>(d: seq<T>, p: seq<T>, x: T)
    requires OrderedByFirstOccurrence(d, p)
    requires forall y :: y in d ==> y in p
    requires forall y :: y in p ==> y in p + [x] && IndexOf(p + [x], y) == IndexOf(p, y) < |p|
    requires x !in p && IndexOf(p + [x], x) == |p|
    ensures OrderedByFirstOccurrence(d + [x], p + [x])
  {
    var r := d + [x];
    forall a, b | 0 <= a < b < |r|
      ensures Precedes(p + [x], r[a], r[b])
    {
      assert r[a] == d[a] && d[a] in d;
      if b < |d| {
        assert r[b] == d[b];
        assert Precedes(p, d[a], d[b]);
      }
    }
    assert OrderedByFirstOccurrence(r, p + [x]);
  }

  /** `i` is the last position of `s` whose element passes `p`. */
  ghost predicate LastWhere<T>(s: seq<T>, p: T -> bool, i: int)
  {
    0 <= i < |s| && p(s[i]) && forall j :: i < j < |s| ==> !p(s[j])
  }

  /** Appending an element that fails `p` keeps the last passing position. */
  lemma LastWhereExtends<T>(s: seq<T>, p: T -> bool, i: int)
    requires |s| > 0 && LastWhere(s[..|s| - 1], p, i) && !p(s[|s| - 1])
    ensures LastWhere(s, p, i) && s[i] == s[..|s| - 1][i]
  {
    var n := |s| - 1;
    forall j | i < j < |s| ensures !p(s[j]) {
      if j < n {
        assert s[j] == s[..n][j];
      }
    }
  }

  /** Filtering and duplicate removal commute: the order of the two cleaning
      steps does not change the result. */
  lemma {:induction false} DedupFilterCommute<T(!new)>(keep: T -> bool, s: seq<T>)
    ensures Dedup(Filter(keep, s)) == Filter(keep, Dedup(s))
  {
    if s != [] {
      var n := |s| - 1;
      var p := s[..n];
      assert s == p + [s[n]];
      DedupFilterCommute(keep, p);
      var f := Filter(keep, p);
      if keep(s[n]) {
        assert (f + [s[n]])[..|f|] == f;
        assert s[n] in f <==> s[n] in p;
      }
    }
  }
}

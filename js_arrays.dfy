/**
  The JavaScript array operations the core relies on: `filter`, `slice` with non-negative
  bounds, and `Array.from(new Set(xs))`.
*/
module JsArrays {

  /** `a` is an order-preserving subsequence of `b`. */
  ghost predicate IsSubsequence<T>(a: seq<T>, b: seq<T>)
    decreases |b|
  {
    if a == [] then true
    else if b == [] then false
    else if a[0] == b[0] then IsSubsequence(a[1..], b[1..])
    else IsSubsequence(a, b[1..])
  }

  /** `s.filter(p)`: the elements of `s` that pass `p`, in order. */
  function Filter<T(!new)>(s: seq<T>, p: T -> bool): (r: seq<T>)
    ensures |r| <= |s|
    ensures forall i :: 0 <= i < |r| ==> p(r[i])
    ensures forall x :: x in r <==> x in s && p(x)
  {
    if s == [] then []
    else
      var rest := Filter(s[1..], p);
      assert forall x :: x in s <==> x == s[0] || x in s[1..];
      if p(s[0]) then [s[0]] + rest else rest
  }

  /**
    `filter` keeps every occurrence of a passing element and drops every other one: each
    element occurs in the result as often as in the input when it passes, else not at all.
  */
  lemma {:induction false} FilterCounts<T(!new)>(s: seq<T>, p: T -> bool)
    ensures forall x :: multiset(Filter(s, p))[x] == if p(x) then multiset(s)[x] else 0
  {
    if s != [] {
      FilterCounts(s[1..], p);
      var rest := Filter(s[1..], p);
      assert s == [s[0]] + s[1..];
      assert multiset(s) == multiset{s[0]} + multiset(s[1..]);
      if p(s[0]) {
        assert multiset(Filter(s, p)) == multiset{s[0]} + multiset(rest);
      }
    }
  }

  /** What `filter` keeps is an order-preserving subsequence of its input. */
  lemma {:induction false} FilterIsSubsequence<T(!new)>(s: seq<T>, p: T -> bool)
    ensures IsSubsequence(Filter(s, p), s)
  {
    if s != [] {
      FilterIsSubsequence(s[1..], p);
      if !p(s[0]) {
        var r := Filter(s, p);
        if r != [] && r[0] == s[0] {
          // r is a subsequence of s[1..], so it is one of s as well
          SubsequenceOfTail(r, s);
        }
      }
    }
  }

  /** A subsequence of the tail of `b` is a subsequence of `b`. */
  lemma {:induction false} SubsequenceOfTail<T>(a: seq<T>, b: seq<T>)
    requires b != []
    requires IsSubsequence(a, b[1..])
    ensures IsSubsequence(a, b)
    decreases |b|, |a|
  {
    if a != [] && a[0] == b[0] {
      // IsSubsequence(a, b[1..]) gives a[1..] as a subsequence of a suffix of b[1..]
      SubsequenceDropHead(a, b[1..]);
    }
  }

  /** Dropping the first element of a subsequence keeps it a subsequence. */
  lemma {:induction false} SubsequenceDropHead<T>(a: seq<T>, b: seq<T>)
    requires a != []
    requires IsSubsequence(a, b)
    ensures IsSubsequence(a[1..], b)
    decreases |b|, |a|
  {
    assert b != [];
    if a[0] == b[0] {
      SubsequenceOfTail(a[1..], b);
    } else {
      SubsequenceDropHead(a, b[1..]);
      SubsequenceOfTail(a[1..], b);
    }
  }

  /** A filter whose predicate holds of every element removes nothing. */
  lemma {:induction false} FilterKeepsAll<T(!new)>(s: seq<T>, p: T -> bool)
    requires forall i :: 0 <= i < |s| ==> p(s[i])
    ensures Filter(s, p) == s
  {
    if s != [] {
      FilterKeepsAll(s[1..], p);
    }
  }

  /** Two filters in a row are one filter by the conjunction of their predicates. */
  lemma {:induction false} FilterFilter<T(!new)>(s: seq<T>, p: T -> bool, q: T -> bool, pq: T -> bool)
    requires forall x :: pq(x) == (p(x) && q(x))
    ensures Filter(Filter(s, p), q) == Filter(s, pq)
  {
    if s != [] {
      FilterFilter(s[1..], p, q, pq);
    }
  }

  /** Filters by predicates that agree on the elements are the same filter. */
  lemma {:induction false} FilterCongruent<T(!new)>(s: seq<T>, p: T -> bool, q: T -> bool)
    requires forall i :: 0 <= i < |s| ==> p(s[i]) == q(s[i])
    ensures Filter(s, p) == Filter(s, q)
  {
    if s != [] {
      FilterCongruent(s[1..], p, q);
    }
  }

  /** `s.slice(start, end)` for non-negative bounds. */
  function Slice<T>(s: seq<T>, start: nat, end: nat): (r: seq<T>)
    ensures |r| == if start < end && start < |s| then (if end < |s| then end else |s|) - start else 0
    ensures forall i :: 0 <= i < |r| ==> r[i] == s[start + i]
  {
    var lo := if start < |s| then start else |s|;
    var hi := if end < |s| then end else |s|;
    if lo < hi then s[lo..hi] else []
  }

  /** `s.slice(0, n)`. */
  function Take<T>(s: seq<T>, n: nat): (r: seq<T>)
    ensures r == if n < |s| then s[..n] else s
  {
    Slice(s, 0, n)
  }

  /** `s.slice(n)`. */
  function Drop<T>(s: seq<T>, n: nat): (r: seq<T>)
    ensures r == if n < |s| then s[n..] else []
  {
    Slice(s, n, |s|)
  }

  ghost predicate NoDuplicates<T>(s: seq<T>) {
    forall i, j :: 0 <= i < j < |s| ==> s[i] != s[j]
  }

  /** Without duplicates, every element is its own first occurrence. */
  lemma NoDuplicatesFirstIndex<T>(s: seq<T>)
    requires NoDuplicates(s)
    ensures forall m :: 0 <= m < |s| ==> FirstIndex(s, s[m]) == m
  {
    forall m | 0 <= m < |s| ensures FirstIndex(s, s[m]) == m {
      var i := FirstIndex(s, s[m]);
    }
  }

  /** Index of the first occurrence of `x` in `s`. */
  function FirstIndex<T(==)>(s: seq<T>, x: T): (i: nat)
    requires x in s
    ensures i < |s| && s[i] == x
    ensures x !in s[..i]
  {
    if s[0] == x then 0
    else
      var i := 1 + FirstIndex(s[1..], x);
      assert s[..i] == [s[0]] + s[1..][..i - 1];
      i
  }

  /** `Array.from(new Set(s))`: the distinct elements of `s` in order of first occurrence. */
  function Distinct<T(==,!new)>(s: seq<T>): (r: seq<T>)
    ensures forall x :: x in r <==> x in s
  {
    if s == [] then []
    else
      var init := s[..|s| - 1];
      var last := s[|s| - 1];
      var r := Distinct(init);
      assert forall x :: x in s <==> x in init || x == last by {
        assert s == init + [last];
      }
      if last in init then r else r + [last]
  }

  /** `Distinct` lists no element twice. */
  lemma {:induction false} DistinctNoDuplicates<T(!new)>(s: seq<T>)
    ensures NoDuplicates(Distinct(s))
  {
    if s != [] {
      var init := s[..|s| - 1];
      var last := s[|s| - 1];
      DistinctNoDuplicates(init);
      var r0 := Distinct(init);
      if last !in init {
        var r := Distinct(s);
        assert r == r0 + [last];
        forall i, j | 0 <= i < j < |r| ensures r[i] != r[j] {
          assert r[i] == r0[i] && r[i] in init;
          if j < |r0| {
            assert r[j] == r0[j];
          }
        }
      }
    }
  }

  /** `Distinct` lists the elements in the order of their first occurrence in `s`. */
  lemma {:induction false} DistinctInFirstOccurrenceOrder<T(!new)>(s: seq<T>)
    ensures forall k, l :: 0 <= k < l < |Distinct(s)| ==>
      FirstIndex(s, Distinct(s)[k]) < FirstIndex(s, Distinct(s)[l])
  {
    if s != [] {
      var init := s[..|s| - 1];
      var last := s[|s| - 1];
      assert s == init + [last];
      DistinctInFirstOccurrenceOrder(init);
      var r := Distinct(s);
      var r0 := Distinct(init);
      assert r == if last in init then r0 else r0 + [last];
      forall k, l | 0 <= k < l < |r| ensures FirstIndex(s, r[k]) < FirstIndex(s, r[l]) {
        assert r[k] == r0[k];
        FirstIndexOfPrefix(init, last, r0[k]);
        if l < |r0| {
          assert r[l] == r0[l];
          FirstIndexOfPrefix(init, last, r0[l]);
        } else {
          assert r[l] == last && last !in init;
          assert FirstIndex(s, last) == |init|;
        }
      }
    }
  }

  /** Appending an element does not move the first occurrence of an element already present. */
  lemma FirstIndexOfPrefix<T>(init: seq<T>, last: T, x: T)
    requires x in init
    ensures FirstIndex(init + [last], x) == FirstIndex(init, x)
  {
    var s := init + [last];
    var i := FirstIndex(init, x);
    assert s[i] == x;
  }

  /** `s.slice(0, a)` followed by `s.slice(a, a + b)` is `s.slice(0, a + b)`. */
  lemma TakeSlice<T>(s: seq<T>, a: nat, b: nat)
    ensures Take(s, a) + Slice(s, a, a + b) == Take(s, a + b)
  {
    var l := Take(s, a) + Slice(s, a, a + b);
    var r := Take(s, a + b);
    assert |l| == |r|;
    forall i | 0 <= i < |l| ensures l[i] == r[i] {
      if i < |Take(s, a)| {
        assert l[i] == s[i];
      } else {
        assert l[i] == Slice(s, a, a + b)[i - |Take(s, a)|];
      }
    }
  }

  /** A prefix is a subsequence. */
  lemma {:induction false} PrefixIsSubsequence<T>(a: seq<T>, b: seq<T>)
    requires a <= b
    ensures IsSubsequence(a, b)
  {
    if a != [] {
      assert a[1..] <= b[1..];
      PrefixIsSubsequence(a[1..], b[1..]);
    }
  }

  /** Being a subsequence is transitive. */
  lemma {:induction false} SubsequenceTransitive<T>(a: seq<T>, b: seq<T>, c: seq<T>)
    requires IsSubsequence(a, b) && IsSubsequence(b, c)
    ensures IsSubsequence(a, c)
    decreases |c|
  {
    if a != [] {
      if b[0] == c[0] {
        if a[0] == b[0] {
          SubsequenceTransitive(a[1..], b[1..], c[1..]);
        } else {
          SubsequenceTransitive(a, b[1..], c[1..]);
          SubsequenceOfTail(a, c);
        }
      } else {
        SubsequenceTransitive(a, b, c[1..]);
        SubsequenceOfTail(a, c);
      }
    }
  }

  /**
    Filtering keeps the relative order of first occurrences: of two kept elements, the one
    that comes first in the filtered list comes first in the input.
  */
  lemma {:induction false} FilterKeepsFirstOccurrenceOrder<T(!new)>(s: seq<T>, p: T -> bool, x: T, y: T)
    requires x in Filter(s, p) && y in Filter(s, p)
    requires FirstIndex(Filter(s, p), x) < FirstIndex(Filter(s, p), y)
    ensures FirstIndex(s, x) < FirstIndex(s, y)
  {
    var f := Filter(s, p);
    var rest := Filter(s[1..], p);
    if p(s[0]) {
      assert f == [s[0]] + rest;
      if x != s[0] {
        assert f[0] != y;
        assert x in rest && y in rest;
        FirstIndexOfCons(s[0], rest, x);
        FirstIndexOfCons(s[0], rest, y);
        FilterKeepsFirstOccurrenceOrder(s[1..], p, x, y);
      }
    } else {
      assert f == rest;
      FilterKeepsFirstOccurrenceOrder(s[1..], p, x, y);
    }
  }

  /** Below a different head, the first occurrence moves one place along. */
  lemma FirstIndexOfCons<T>(h: T, t: seq<T>, x: T)
    requires x in t && x != h
    ensures FirstIndex([h] + t, x) == 1 + FirstIndex(t, x)
  {
    assert ([h] + t)[1..] == t;
  }
}

/** Sequence operations shared by the pipeline stages: filtering by a boolean
    mask, searching for the first match, subsequences and Python's slice
    semantics. */
module Seqs {
  import opened Wrappers

  /** The elements of `s` that satisfy `p`, in their original order: what
      indexing a data frame or a list comprehension with a condition keeps. */
  function Filter<T>(p: T -> bool, s: seq<T>): (r: seq<T>)
    ensures |r| <= |s|
    ensures forall i :: 0 <= i < |r| ==> r[i] in s && p(r[i])
    ensures forall i :: 0 <= i < |s| && p(s[i]) ==> s[i] in r
  {
    if s == [] then []
    else
      (if p(s[0]) then [s[0]] else []) + Filter(p, s[1..])
  }

  /** `a` is `b` with some elements left out, the rest in the same order. */
  predicate IsSubsequence<T(==)>(a: seq<T>, b: seq<T>)
    decreases |b|
  {
    if b == [] then a == []
    else (a != [] && a[0] == b[0] && IsSubsequence(a[1..], b[1..])) || IsSubsequence(a, b[1..])
  }

  lemma {:induction false} FilterIsSubsequence<T>(p: T -> bool, s: seq<T>)
    ensures IsSubsequence(Filter(p, s), s)
  {
    if s != [] {
      FilterIsSubsequence(p, s[1..]);
      var r := Filter(p, s);
      if p(s[0]) {
        assert r == [s[0]] + Filter(p, s[1..]);
        assert r != [] && r[0] == s[0] && r[1..] == Filter(p, s[1..]);
      } else {
        assert r == Filter(p, s[1..]);
      }
    }
  }

  /** Filtering keeps every element that passes, so a filter that every
      element passes changes nothing. */
  lemma {:induction false} FilterAll<T>(p: T -> bool, s: seq<T>)
    requires forall i :: 0 <= i < |s| ==> p(s[i])
    ensures Filter(p, s) == s
  {
    if s != [] {
      FilterAll(p, s[1..]);
      assert [s[0]] + s[1..] == s;
    }
  }

  /** Filtering appended one element at a time: the step of a loop that
      builds a filtered list. */
  lemma {:induction false} FilterSnoc<T>(p: T -> bool, s: seq<T>, x: T)
    ensures Filter(p, s + [x]) == Filter(p, s) + (if p(x) then [x] else [])
  {
    if s == [] {
      assert [x][1..] == [];
    } else {
      assert (s + [x])[0] == s[0];
      assert (s + [x])[1..] == s[1..] + [x];
      FilterSnoc(p, s[1..], x);
    }
  }

  /** A mask keeps every copy of an element it accepts and no copy of one
      it rejects. */
  lemma {:induction false} FilterCount<T>(p: T -> bool, s: seq<T>, x: T)
    ensures multiset(Filter(p, s))[x] == if p(x) then multiset(s)[x] else 0
  {
    if s != [] {
      FilterCount(p, s[1..], x);
      assert s == [s[0]] + s[1..];
      assert multiset(s) == multiset([s[0]]) + multiset(s[1..]);
      assert Filter(p, s) == (if p(s[0]) then [s[0]] else []) + Filter(p, s[1..]);
    }
  }

  /** Two masks that agree on every element keep the same elements. */
  lemma {:induction false} FilterAgree<T>(p: T -> bool, q: T -> bool, s: seq<T>)
    requires forall i :: 0 <= i < |s| ==> p(s[i]) == q(s[i])
    ensures Filter(p, s) == Filter(q, s)
  {
    if s != [] {
      assert forall i :: 0 <= i < |s[1..]| ==> s[1..][i] == s[i + 1];
      FilterAgree(p, q, s[1..]);
    }
  }

  /** Two masks applied one after the other keep what their conjunction keeps. */
  lemma {:induction false} FilterFuse<T>(p: T -> bool, q: T -> bool, pq: T -> bool, s: seq<T>)
    requires forall x :: pq(x) == (p(x) && q(x))
    ensures Filter(q, Filter(p, s)) == Filter(pq, s)
  {
    if s != [] {
      FilterFuse(p, q, pq, s[1..]);
      var t := Filter(p, s);
      if p(s[0]) {
        assert t == [s[0]] + Filter(p, s[1..]);
        assert t[0] == s[0] && t[1..] == Filter(p, s[1..]);
        assert Filter(q, t) == (if q(s[0]) then [s[0]] else []) + Filter(q, Filter(p, s[1..]));
      } else {
        assert t == Filter(p, s[1..]);
      }
      assert Filter(pq, s) == (if pq(s[0]) then [s[0]] else []) + Filter(pq, s[1..]);
    }
  }

  /** The first element of `s` that satisfies `p`, if there is one. */
  function FirstWhere<T>(p: T -> bool, s: seq<T>): (r: Option<T>)
    ensures r.None? <==> forall i :: 0 <= i < |s| ==> !p(s[i])
    ensures r.Some? ==> r.value in s && p(r.value)
  {
    if s == [] then None
    else if p(s[0]) then Some(s[0])
    else FirstWhere(p, s[1..])
  }

  /** The element at index `j` is the first match when nothing before it matches. */
  lemma {:induction false} FirstWhereAt<T>(p: T -> bool, s: seq<T>, j: nat)
    requires j < |s| && p(s[j])
    requires forall k :: 0 <= k < j ==> !p(s[k])
    ensures FirstWhere(p, s) == Some(s[j])
  {
    if j > 0 {
      assert !p(s[0]);
      FirstWhereAt(p, s[1..], j - 1);
    }
  }

  /** The first element of a filtered sequence is the first element that passes. */
  lemma {:induction false} FilterHead<T>(p: T -> bool, s: seq<T>)
    requires Filter(p, s) != []
    ensures FirstWhere(p, s) == Some(Filter(p, s)[0])
  {
    if !p(s[0]) {
      FilterHead(p, s[1..]);
    }
  }

  /** Searching a filtered sequence for `q` finds what searching the original
      sequence for "`p` and `q`" finds. */
  lemma {:induction false} FirstWhereOfFilter<T>(p: T -> bool, q: T -> bool, pq: T -> bool, s: seq<T>)
    requires forall x :: pq(x) == (p(x) && q(x))
    ensures FirstWhere(q, Filter(p, s)) == FirstWhere(pq, s)
  {
    if s != [] {
      FirstWhereOfFilter(p, q, pq, s[1..]);
      var t := Filter(p, s);
      if p(s[0]) {
        assert t == [s[0]] + Filter(p, s[1..]);
        assert t[0] == s[0] && t[1..] == Filter(p, s[1..]);
      } else {
        assert t == Filter(p, s[1..]);
      }
    }
  }

  /** Python's normalisation of one slice bound against a length `n`:
      a negative bound counts from the end, and the result is clamped to [0, n]. */
  function SliceBound(n: nat, i: int): (r: nat)
    ensures r <= n
    ensures 0 <= i <= n ==> r == i
    ensures i > n ==> r == n
  {
    if i < 0 then (if i + n < 0 then 0 else i + n)
    else if i > n then n
    else i
  }

  /** Python's `s[lo:hi]` (also `DataFrame.iloc[lo:hi]`) with step 1. */
  function PySlice<T>(s: seq<T>, lo: int, hi: int): (r: seq<T>)
    ensures |r| <= |s|
    ensures forall i :: 0 <= i < |r| ==> r[i] in s
  {
    var a := SliceBound(|s|, lo);
    var b := SliceBound(|s|, hi);
    if a < b then s[a..b] else []
  }
}

/** Row selection, as a boolean mask over a pandas frame or a list
    comprehension with a condition performs it, and a loop over a list
    whose body may raise. */
module Seqs {
  import opened Wrappers

  /** The elements of `s` that satisfy `p`, in their original order. */
  function Filter<T(!new)>(s: seq<T>, p: T -> bool): (r: seq<T>)
    ensures |r| <= |s|
    ensures forall i | 0 <= i < |r| :: p(r[i])
    decreases |s|
  {
    if s == [] then []
    else
      var rest := Filter(s[1..], p);
      if p(s[0]) then [s[0]] + rest else rest
  }

  /** `r` is `s` with some elements left out and the rest in their original
      order: matching each element of `r`, left to right, against the
      earliest remaining element of `s` that equals it never runs out. */
  predicate Subsequence<T(==)>(r: seq<T>, s: seq<T>)
    decreases |s|
  {
    if r == [] then true
    else if s == [] then false
    else if r[0] == s[0] then Subsequence(r[1..], s[1..])
    else Subsequence(r, s[1..])
  }

  /** A subsequence keeps order: the elements of `r` sit in `s` at strictly
      increasing positions. */
  lemma {:induction false} SubsequenceIndices<T>(r: seq<T>, s: seq<T>) returns (f: seq<nat>)
    requires Subsequence(r, s)
    ensures |f| == |r|
    ensures forall i | 0 <= i < |r| :: f[i] < |s| && r[i] == s[f[i]]
    ensures forall i, j | 0 <= i < j < |r| :: f[i] < f[j]
    decreases |s|
  {
    if r == [] {
      f := [];
    } else if r[0] == s[0] {
      var g := SubsequenceIndices(r[1..], s[1..]);
      f := [0] + seq(|g|, k requires 0 <= k < |g| => g[k] + 1);
    } else {
      var g := SubsequenceIndices(r, s[1..]);
      f := seq(|g|, k requires 0 <= k < |g| => g[k] + 1);
    }
  }

  /** Filtering keeps the surviving elements in their original order. */
  lemma {:induction false} FilterSubsequence<T(!new)>(s: seq<T>, p: T -> bool)
    ensures Subsequence(Filter(s, p), s)
    decreases |s|
  {
    if s != [] {
      FilterSubsequence(s[1..], p);
      var rest := Filter(s[1..], p);
      if !p(s[0]) && rest != [] {
        assert p(rest[0]);
      }
    }
  }

  /** Every sequence is a subsequence of itself. */
  lemma {:induction false} SubsequenceOfSelf<T>(s: seq<T>)
    ensures Subsequence(s, s)
    decreases |s|
  {
    if s != [] {
      SubsequenceOfSelf(s[1..]);
    }
  }

  /** A subsequence takes no element more often than the sequence holds it. */
  lemma {:induction false} SubsequenceMultiset<T>(r: seq<T>, s: seq<T>)
    requires Subsequence(r, s)
    ensures multiset(r) <= multiset(s)
    decreases |s|
  {
    if r != [] {
      assert s == [s[0]] + s[1..];
      if r[0] == s[0] {
        SubsequenceMultiset(r[1..], s[1..]);
        assert r == [r[0]] + r[1..];
      } else {
        SubsequenceMultiset(r, s[1..]);
      }
    }
  }

  /** Order and multiplicity together pin a selection down: a subsequence
      of `s` holding every element that satisfies `p` exactly as often as
      `s` does, and no other, is `Filter(s, p)`. */
  lemma {:induction false} FilterUnique<T(!new)>(r: seq<T>, s: seq<T>, p: T -> bool)
    requires Subsequence(r, s)
    requires forall x :: multiset(r)[x] == if p(x) then multiset(s)[x] else 0
    ensures r == Filter(s, p)
    decreases |s|
  {
    if s == [] {
    } else {
      var t := s[1..];
      assert s == [s[0]] + t;
      if r == [] {
        forall i | 0 <= i < |s|
          ensures !p(s[i])
        {
          assert multiset(s)[s[i]] > 0;
        }
        FilterEmpty(s, p);
      } else if r[0] == s[0] {
        assert r == [r[0]] + r[1..];
        assert multiset(r)[s[0]] > 0;
        assert p(s[0]);
        FilterUnique(r[1..], t, p);
      } else {
        SubsequenceMultiset(r, t);
        assert multiset(r)[s[0]] <= multiset(t)[s[0]];
        assert !p(s[0]);
        FilterUnique(r, t, p);
      }
    }
  }

  /** Filtering keeps every occurrence of an element that satisfies the
      condition and drops every other: a sub-multiset, not just a subset. */
  lemma {:induction false} FilterCount<T(!new)>(s: seq<T>, p: T -> bool)
    ensures forall x :: multiset(Filter(s, p))[x] == if p(x) then multiset(s)[x] else 0
    decreases |s|
  {
    if s != [] {
      FilterCount(s[1..], p);
      assert s == [s[0]] + s[1..];
    }
  }

  /** Filtering keeps exactly the elements that satisfy the condition. */
  lemma FilterMembers<T(!new)>(s: seq<T>, p: T -> bool)
    ensures forall x :: x in Filter(s, p) <==> x in s && p(x)
  {
    var r := Filter(s, p);
    FilterCount(s, p);
    forall x
      ensures x in r <==> x in s && p(x)
    {
      assert x in r <==> multiset(r)[x] > 0;
      assert x in s <==> multiset(s)[x] > 0;
    }
  }

  /** Filtering keeps order: filtering a concatenation filters each part
      and concatenates the results. */
  lemma {:induction false} FilterConcat<T(!new)>(a: seq<T>, b: seq<T>, p: T -> bool)
    ensures Filter(a + b, p) == Filter(a, p) + Filter(b, p)
    decreases |a|
  {
    if a == [] {
      assert a + b == b;
    } else {
      FilterConcat(a[1..], b, p);
      assert (a + b)[1..] == a[1..] + b;
    }
  }

  /** An element that satisfies the condition survives, so the result is
      empty only when nothing satisfies it. */
  lemma FilterEmpty<T(!new)>(s: seq<T>, p: T -> bool)
    ensures Filter(s, p) == [] <==> forall i | 0 <= i < |s| :: !p(s[i])
  {
    FilterMembers(s, p);
    if Filter(s, p) == [] {
      forall i | 0 <= i < |s|
        ensures !p(s[i])
      {
        assert s[i] in s;
      }
    }
  }

  /** A loop applying `f` to every element, where `f` may raise: every
      result, in order, when none raises, and nothing when one does. */
  function MapAll<A, B>(s: seq<A>, f: A --> Option<B>): (r: Option<seq<B>>)
    requires forall i | 0 <= i < |s| :: f.requires(s[i])
    ensures r.None? <==> exists i | 0 <= i < |s| :: f(s[i]).None?
    ensures r.Some? ==> |r.value| == |s|
    ensures r.Some? ==> forall i | 0 <= i < |s| :: f(s[i]) == Some(r.value[i])
    decreases |s|
  {
    if s == [] then Some([])
    else
      match f(s[0])
      case None => None
      case Some(y) =>
        var rest := MapAll(s[1..], f);
        assert forall i | 1 <= i < |s| :: s[i] == s[1..][i - 1];
        if rest.None? then None else Some([y] + rest.value)
  }
}

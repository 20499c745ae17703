/** The array built-ins the pages chain together: `filter` and de-duplication through a `Set`. */
module Seqs {

  /** `Array.prototype.filter`: the elements of `s` that `keep` accepts, in their original order. */
  function Filter<T(!new)>(s: seq<T>, keep: T -> bool): (r: seq<T>)
    ensures |r| <= |s|
  {
    if s == [] then []
    else if keep(s[0]) then [s[0]] + Filter(s[1..], keep) else Filter(s[1..], keep)
  }

  /** The filter keeps exactly the elements `keep` accepts. */
  lemma {:induction false} FilterMembers<T(!new)>(s: seq<T>, keep: T -> bool)
    ensures forall x :: x in Filter(s, keep) <==> x in s && keep(x)
  {
    if s != [] {
      FilterMembers(s[1..], keep);
      assert s == [s[0]] + s[1..];
    }
  }

  /** Filtering is order-preserving: it distributes over concatenation. */
  lemma {:induction false} FilterConcat<T(!new)>(a: seq<T>, b: seq<T>, keep: T -> bool)
    ensures Filter(a + b, keep) == Filter(a, keep) + Filter(b, keep)
  {
    if a != [] {
      assert (a + b)[0] == a[0] && (a + b)[1..] == a[1..] + b;
      FilterConcat(a[1..], b, keep);
    } else {
      assert a + b == b;
    }
  }

  /** `r` is `s` with some elements left out and the rest in their original order. */
  predicate SubsequenceOf<T(==)>(r: seq<T>, s: seq<T>)
    decreases |s|
  {
    if r == [] then true
    else if s == [] then false
    else (r[0] == s[0] && SubsequenceOf(r[1..], s[1..])) || SubsequenceOf(r, s[1..])
  }

  /** What a filter returns is an order-preserving subsequence of its input. */
  lemma {:induction false} FilterSubsequence<T(!new)>(s: seq<T>, keep: T -> bool)
    ensures SubsequenceOf(Filter(s, keep), s)
  {
    if s != [] {
      FilterSubsequence(s[1..], keep);
    }
  }

  /** Two tests that agree on every element of `s` filter it alike. */
  lemma {:induction false} FilterSame<T(!new)>(s: seq<T>, k1: T -> bool, k2: T -> bool)
    requires forall x :: x in s ==> k1(x) == k2(x)
    ensures Filter(s, k1) == Filter(s, k2)
  {
    if s != [] {
      FilterSame(s[1..], k1, k2);
    }
  }

  /** A filter that accepts every element excludes nothing. */
  lemma {:induction false} FilterKeepsAll<T(!new)>(s: seq<T>, keep: T -> bool)
    requires forall x :: x in s ==> keep(x)
    ensures Filter(s, keep) == s
  {
    if s != [] {
      FilterKeepsAll(s[1..], keep);
    }
  }

  /** A filter that accepts no element of `s` yields nothing. */
  lemma {:induction false} FilterKeepsNone<T(!new)>(s: seq<T>, keep: T -> bool)
    requires forall x :: x in s ==> !keep(x)
    ensures Filter(s, keep) == []
  {
    if s != [] {
      FilterKeepsNone(s[1..], keep);
    }
  }

  /** The filter keeps each element at most as often as `s` holds it. */
  lemma {:induction false} FilterSubMultiset<T(!new)>(s: seq<T>, keep: T -> bool)
    ensures multiset(Filter(s, keep)) <= multiset(s)
  {
    if s != [] {
      FilterSubMultiset(s[1..], keep);
      assert s == [s[0]] + s[1..];
    }
  }

  /**
   * Two tests that divide what `whole` accepts between them, each element
   * going to exactly one side, divide its filter.
   */
  lemma {:induction false} FilterSplit<T(!new)>(s: seq<T>, whole: T -> bool, a: T -> bool, b: T -> bool)
    requires forall i :: 0 <= i < |s| ==> (whole(s[i]) <==> a(s[i]) || b(s[i])) && !(a(s[i]) && b(s[i]))
    ensures multiset(Filter(s, a)) + multiset(Filter(s, b)) == multiset(Filter(s, whole))
  {
    if s != [] {
      var t, x := s[1..], s[0];
      FilterSplit(t, whole, a, b);
      var ka, kb, kw := Filter(t, a), Filter(t, b), Filter(t, whole);
      if whole(x) {
        assert Filter(s, whole) == [x] + kw;
        assert multiset([x] + kw) == multiset{x} + multiset(kw);
        if a(x) {
          assert Filter(s, a) == [x] + ka;
          assert multiset([x] + ka) == multiset{x} + multiset(ka);
        } else {
          assert Filter(s, b) == [x] + kb;
          assert multiset([x] + kb) == multiset{x} + multiset(kb);
        }
      }
    }
  }

  /** No element occurs twice. */
  predicate Distinct<T(==)>(s: seq<T>) {
    forall i, j :: 0 <= i < j < |s| ==> s[i] != s[j]
  }

  /** `[...new Set(s)]`: each element of `s` once. */
  function Dedupe<T(==,!new)>(s: seq<T>): (r: seq<T>)
    ensures Distinct(r)
    ensures forall x :: x in r <==> x in s
  {
    if s == [] then []
    else
      var d := Dedupe(s[..|s| - 1]);
      assert s == s[..|s| - 1] + [s[|s| - 1]];
      if s[|s| - 1] in d then d else d + [s[|s| - 1]]
  }

  /** A distinct sequence holds each of its elements once. */
  lemma {:induction false} DistinctOnce<T>(s: seq<T>, x: T)
    requires Distinct(s)
    ensures multiset(s)[x] <= 1
  {
    if s != [] {
      DistinctOnce(s[1..], x);
      assert s == [s[0]] + s[1..];
      if x == s[0] {
        assert x !in s[1..];
      }
    }
  }

  /** A sequence holding each element at most once is distinct. */
  lemma DistinctFromMultiset<T>(s: seq<T>)
    requires forall x :: multiset(s)[x] <= 1
    ensures Distinct(s)
  {
    forall i, j | 0 <= i < j < |s| ensures s[i] != s[j] {
      assert s == s[..j] + s[j..];
      assert s[i] in s[..j] && s[j] in s[j..];
      assert multiset(s)[s[j]] == multiset(s[..j])[s[j]] + multiset(s[j..])[s[j]];
      assert multiset(s[..j])[s[i]] >= 1 && multiset(s[j..])[s[j]] >= 1;
    }
  }
}

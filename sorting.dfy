/**
 * `Array.prototype.sort` with a comparator, which section 23.1.3.30 of
 * ECMA-262 (2023 edition) requires to be stable. Every comparator the pages
 * use compares one key per element, so a comparator is modelled by the key
 * function it compares: elements whose keys are equal compare as 0.
 */
module Sorting {
  import Text
  import Seqs

  /** A sort key: a string (compared in code-unit order) or a number. */
  datatype Key = ByText(text: string) | ByNumber(number: int)

  /** Strict order on keys; texts and numbers are never mixed within one sort. */
  predicate Less(a: Key, b: Key) {
    if a.ByText? && b.ByText? then Text.Below(a.text, b.text)
    else if a.ByNumber? && b.ByNumber? then a.number < b.number
    else a.ByText?
  }

  /** `a` sorts no later than `b`: the comparator does not put `b` first. */
  predicate AtMost(a: Key, b: Key) {
    !Less(b, a)
  }

  lemma LessIrreflexive(a: Key)
    ensures !Less(a, a)
  {
    if a.ByText? {
      Text.BelowIrreflexive(a.text);
    }
  }

  lemma LessAsymmetric(a: Key, b: Key)
    requires Less(a, b)
    ensures !Less(b, a)
  {
    if a.ByText? && b.ByText? {
      Text.BelowAsymmetric(a.text, b.text);
    }
  }

  lemma LessTransitive(a: Key, b: Key, c: Key)
    requires Less(a, b) && Less(b, c)
    ensures Less(a, c)
  {
    if a.ByText? && b.ByText? && c.ByText? {
      Text.BelowTransitive(a.text, b.text, c.text);
    }
  }

  lemma LessTotal(a: Key, b: Key)
    ensures a == b || Less(a, b) || Less(b, a)
  {
    if a.ByText? && b.ByText? {
      Text.BelowTotal(a.text, b.text);
    }
  }

  /** Keys form a total order: "no later than" is "equal or strictly before". */
  lemma AtMostIff(a: Key, b: Key)
    ensures AtMost(a, b) <==> a == b || Less(a, b)
  {
    LessTotal(a, b);
    if a == b {
      LessIrreflexive(a);
    } else if Less(a, b) {
      LessAsymmetric(a, b);
    }
  }

  lemma LessAtMost(a: Key, b: Key, c: Key)
    requires Less(a, b) && AtMost(b, c)
    ensures Less(a, c)
  {
    AtMostIff(b, c);
    if b != c {
      LessTransitive(a, b, c);
    }
  }

  lemma AtMostTransitive(a: Key, b: Key, c: Key)
    requires AtMost(a, b) && AtMost(b, c)
    ensures AtMost(a, c)
  {
    AtMostIff(a, b);
    AtMostIff(b, c);
    AtMostIff(a, c);
    if a != b && b != c {
      LessTransitive(a, b, c);
    }
  }

  /** Every element's key is at least the keys of the elements before it. */
  predicate Ascending<T>(s: seq<T>, key: T -> Key) {
    forall i, j :: 0 <= i < j < |s| ==> AtMost(key(s[i]), key(s[j]))
  }

  /** Filtering an ordered sequence leaves it ordered. */
  lemma {:induction false} FilterAscending<T(!new)>(s: seq<T>, key: T -> Key, keep: T -> bool)
    requires Ascending(s, key)
    ensures Ascending(Seqs.Filter(s, keep), key)
  {
    if s != [] {
      FilterAscending(s[1..], key, keep);
      if keep(s[0]) {
        var rest := Seqs.Filter(s[1..], keep);
        Seqs.FilterMembers(s[1..], keep);
        var out := [s[0]] + rest;
        forall i, j | 0 <= i < j < |out| ensures AtMost(key(out[i]), key(out[j])) {
          if i == 0 {
            assert out[j] in rest;
            var m :| 0 <= m < |s| - 1 && s[1..][m] == out[j];
            assert s[m + 1] == out[j];
          } else {
            assert out[i] == rest[i - 1] && out[j] == rest[j - 1];
          }
        }
      }
    }
  }

  /** The elements of `s` whose key is `k`, in their order in `s`. */
  function WithKey<T>(s: seq<T>, key: T -> Key, k: Key): seq<T> {
    if s == [] then []
    else (if key(s[0]) == k then [s[0]] else []) + WithKey(s[1..], key, k)
  }

  lemma {:induction false} WithKeyConcat<T>(a: seq<T>, b: seq<T>, key: T -> Key, k: Key)
    ensures WithKey(a + b, key, k) == WithKey(a, key, k) + WithKey(b, key, k)
  {
    if a == [] {
      assert a + b == b;
    } else {
      assert (a + b)[0] == a[0] && (a + b)[1..] == a[1..] + b;
      WithKeyConcat(a[1..], b, key, k);
    }
  }

  lemma {:induction false} WithKeyMember<T>(s: seq<T>, key: T -> Key, k: Key, y: T)
    ensures y in WithKey(s, key, k) <==> y in s && key(y) == k
  {
    if s != [] {
      WithKeyMember(s[1..], key, k, y);
      assert s == [s[0]] + s[1..];
    }
  }

  /** Places `x` after every element of `s` whose key is not above its own. */
  function Insert<T>(x: T, s: seq<T>, key: T -> Key): (r: seq<T>)
    ensures multiset(r) == multiset(s) + multiset{x}
  {
    if s == [] then [x]
    else if Less(key(x), key(s[0])) then [x] + s
    else
      assert s == [s[0]] + s[1..];
      [s[0]] + Insert(x, s[1..], key)
  }

  /**
   * The sorted array: each element in turn is inserted into the sorted
   * prefix, after the elements with an equal key.
   */
  function Sort<T>(s: seq<T>, key: T -> Key): (r: seq<T>)
    ensures multiset(r) == multiset(s)
  {
    if s == [] then []
    else
      assert s == s[..|s| - 1] + [s[|s| - 1]];
      Insert(s[|s| - 1], Sort(s[..|s| - 1], key), key)
  }

  lemma {:induction false} InsertAscending<T>(x: T, s: seq<T>, key: T -> Key)
    requires Ascending(s, key)
    ensures Ascending(Insert(x, s, key), key)
  {
    if s == [] {
    } else if Less(key(x), key(s[0])) {
      forall j | 0 <= j < |s| ensures AtMost(key(x), key(s[j])) {
        if j > 0 {
          LessAtMost(key(x), key(s[0]), key(s[j]));
        }
        LessAsymmetric(key(x), key(s[j]));
      }
      var r := [x] + s;
      forall i, j | 0 <= i < j < |r| ensures AtMost(key(r[i]), key(r[j])) {
        if i > 0 {
          assert r[i] == s[i - 1] && r[j] == s[j - 1];
        } else {
          assert r[j] == s[j - 1];
        }
      }
    } else {
      var rest := Insert(x, s[1..], key);
      InsertAscending(x, s[1..], key);
      forall j | 0 <= j < |rest| ensures AtMost(key(s[0]), key(rest[j])) {
        assert rest[j] in multiset(rest);
        if rest[j] != x {
          assert rest[j] in s[1..];
          var m :| 0 <= m < |s| - 1 && s[1..][m] == rest[j];
          assert s[m + 1] == rest[j];
        }
      }
      var r := [s[0]] + rest;
      forall i, j | 0 <= i < j < |r| ensures AtMost(key(r[i]), key(r[j])) {
        if i > 0 {
          assert r[i] == rest[i - 1] && r[j] == rest[j - 1];
        } else {
          assert r[j] == rest[j - 1];
        }
      }
    }
  }

  /** The result of `Sort` is in ascending key order. */
  lemma {:induction false} SortAscending<T>(s: seq<T>, key: T -> Key)
    ensures Ascending(Sort(s, key), key)
  {
    if s != [] {
      SortAscending(s[..|s| - 1], key);
      InsertAscending(s[|s| - 1], Sort(s[..|s| - 1], key), key);
    }
  }

  /** Inserting `x` leaves the order among the other elements of its key untouched, and puts it last among them. */
  lemma {:induction false} InsertWithKey<T>(x: T, s: seq<T>, key: T -> Key, k: Key)
    requires Ascending(s, key)
    ensures WithKey(Insert(x, s, key), key, k) == WithKey(s, key, k) + WithKey([x], key, k)
  {
    if s == [] {
    } else if Less(key(x), key(s[0])) {
      InsertFrontWithKey(x, s, key, k);
    } else {
      var rest := s[1..];
      InsertWithKey(x, rest, key, k);
      assert s == [s[0]] + rest;
      var head := if key(s[0]) == k then [s[0]] else [];
      assert WithKey(s, key, k) == head + WithKey(rest, key, k);
      assert WithKey([s[0]] + Insert(x, rest, key), key, k) == head + WithKey(Insert(x, rest, key), key, k);
    }
  }

  /** An element placed in front of all others has no equal-keyed element after it. */
  lemma InsertFrontWithKey<T>(x: T, s: seq<T>, key: T -> Key, k: Key)
    requires Ascending(s, key) && s != [] && Less(key(x), key(s[0]))
    ensures WithKey([x] + s, key, k) == WithKey(s, key, k) + WithKey([x], key, k)
  {
    WithKeyConcat([x], s, key, k);
    if key(x) == k {
      forall j | 0 <= j < |s| ensures key(s[j]) != k {
        if j > 0 {
          LessAtMost(key(x), key(s[0]), key(s[j]));
        }
        LessIrreflexive(key(x));
      }
      WithKeyNone(s, key, k);
    }
  }

  lemma {:induction false} WithKeyNone<T>(s: seq<T>, key: T -> Key, k: Key)
    requires forall j :: 0 <= j < |s| ==> key(s[j]) != k
    ensures WithKey(s, key, k) == []
  {
    if s != [] {
      WithKeyNone(s[1..], key, k);
    }
  }

  /**
   * Stability: for every key, the elements with that key appear in the
   * result in the order they had in the input.
   */
  lemma {:induction false} SortStable<T>(s: seq<T>, key: T -> Key, k: Key)
    ensures WithKey(Sort(s, key), key, k) == WithKey(s, key, k)
  {
    if s != [] {
      var init, last := s[..|s| - 1], s[|s| - 1];
      SortStable(init, key, k);
      SortAscending(init, key);
      InsertWithKey(last, Sort(init, key), key, k);
      WithKeyConcat(init, [last], key, k);
      assert init + [last] == s;
    }
  }

  /** Arrangements that agree on every key's elements hold the same elements. */
  lemma SameElements<T>(r1: seq<T>, r2: seq<T>, key: T -> Key)
    requires forall k :: WithKey(r1, key, k) == WithKey(r2, key, k)
    ensures forall y :: y in r1 <==> y in r2
  {
    forall y ensures y in r1 <==> y in r2 {
      WithKeyMember(r1, key, key(y), y);
      WithKeyMember(r2, key, key(y), y);
    }
  }

  /**
   * An ascending order that keeps every key's elements in a fixed order is
   * unique: two such arrangements are the same sequence.
   */
  lemma {:induction false} AscendingArrangementUnique<T>(r1: seq<T>, r2: seq<T>, key: T -> Key)
    requires Ascending(r1, key) && Ascending(r2, key)
    requires forall k :: WithKey(r1, key, k) == WithKey(r2, key, k)
    ensures r1 == r2
  {
    SameElements(r1, r2, key);
    if r1 != [] { assert r1[0] in r2; }
    if r2 != [] { assert r2[0] in r1; }
    if r1 != [] {
      var a, b := r1[0], r2[0];
      var m :| 0 <= m < |r2| && r2[m] == a;
      var n :| 0 <= n < |r1| && r1[n] == b;
      if m == 0 { LessIrreflexive(key(a)); }
      if n == 0 { LessIrreflexive(key(b)); }
      assert AtMost(key(b), key(a)) && AtMost(key(a), key(b));
      AtMostIff(key(a), key(b));
      assert key(a) == key(b);
      assert WithKey(r1, key, key(a)) == [a] + WithKey(r1[1..], key, key(a));
      assert WithKey(r2, key, key(a)) == [b] + WithKey(r2[1..], key, key(a));
      assert WithKey(r1, key, key(a)) == WithKey(r2, key, key(a));
      assert a == WithKey(r1, key, key(a))[0] == WithKey(r2, key, key(a))[0] == b;
      forall k ensures WithKey(r1[1..], key, k) == WithKey(r2[1..], key, k) {
        var head := if key(a) == k then [a] else [];
        assert WithKey(r1, key, k) == head + WithKey(r1[1..], key, k);
        assert WithKey(r2, key, k) == head + WithKey(r2[1..], key, k);
        assert WithKey(r1, key, k) == WithKey(r2, key, k);
        assert WithKey(r1[1..], key, k) == WithKey(r1, key, k)[|head|..];
        assert WithKey(r2[1..], key, k) == WithKey(r2, key, k)[|head|..];
      }
      assert Ascending(r1[1..], key) && Ascending(r2[1..], key);
      AscendingArrangementUnique(r1[1..], r2[1..], key);
      assert r1 == [a] + r1[1..] && r2 == [b] + r2[1..];
    }
  }

  /**
   * `Sort` is the only result a conforming engine can produce: any ascending
   * arrangement that keeps every key's elements of `s` in their input order
   * equals it.
   */
  lemma SortIsTheStableSort<T>(s: seq<T>, r: seq<T>, key: T -> Key)
    requires Ascending(r, key)
    requires forall k :: WithKey(r, key, k) == WithKey(s, key, k)
    ensures r == Sort(s, key)
  {
    SortAscending(s, key);
    forall k ensures WithKey(r, key, k) == WithKey(Sort(s, key), key, k) {
      SortStable(s, key, k);
    }
    AscendingArrangementUnique(r, Sort(s, key), key);
  }
}

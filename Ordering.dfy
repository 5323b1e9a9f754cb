/** Stable sorting by a key, as LINQ's OrderBy(keySelector) does it. */
module Ordering {

  /** The comparer used by OrderBy: reflexive, transitive and total.
      It need not be antisymmetric (a culture-sensitive string comparer
      may call two different strings equal). */
  ghost predicate TotalPreorder<K(!new)>(le: (K, K) -> bool) {
    && (forall a :: le(a, a))
    && (forall a, b, c :: le(a, b) && le(b, c) ==> le(a, c))
    && (forall a, b :: le(a, b) || le(b, a))
  }

  /** The keys of `s` are non-decreasing under `le`. */
  ghost predicate SortedBy<T, K>(s: seq<T>, key: T -> K, le: (K, K) -> bool) {
    forall i, j :: 0 <= i < j < |s| ==> le(key(s[i]), key(s[j]))
  }

  /** No two elements of `s` have the same key. */
  ghost predicate KeysDistinct<T, K>(s: seq<T>, key: T -> K) {
    forall i, j :: 0 <= i < j < |s| ==> key(s[i]) != key(s[j])
  }

  /** The elements of `s` whose key is `k`, in their order in `s`. */
  function WithKey<T, K(==)>(s: seq<T>, key: T -> K, k: K): seq<T> {
    if s == [] then []
    else (if key(s[0]) == k then [s[0]] else []) + WithKey(s[1..], key, k)
  }

  /** An element is among the elements that share its key. */
  lemma {:induction false} WithKeyNonEmpty<T, K(!new)>(s: seq<T>, key: T -> K, x: T)
    requires x in s
    ensures x in WithKey(s, key, key(x))
  {
    if s[0] != x {
      assert x in s[1..];
      WithKeyNonEmpty(s[1..], key, x);
    }
  }

  /** Inserts `x` in front of the first element whose key it does not exceed. */
  function InsertBy<T, K>(x: T, s: seq<T>, key: T -> K, le: (K, K) -> bool): seq<T> {
    if s == [] then [x]
    else if le(key(x), key(s[0])) then [x] + s
    else [s[0]] + InsertBy(x, s[1..], key, le)
  }

  /** OrderBy: insertion sort on the keys. */
  function OrderBy<T, K>(s: seq<T>, key: T -> K, le: (K, K) -> bool): seq<T> {
    if s == [] then []
    else InsertBy(s[0], OrderBy(s[1..], key, le), key, le)
  }

  lemma {:induction false} InsertByPermutes<T, K>(x: T, s: seq<T>, key: T -> K, le: (K, K) -> bool)
    ensures multiset(InsertBy(x, s, key, le)) == multiset(s) + multiset{x}
  {
    if s != [] && !le(key(x), key(s[0])) {
      var t := InsertBy(x, s[1..], key, le);
      InsertByPermutes(x, s[1..], key, le);
      assert s == [s[0]] + s[1..];
      assert multiset([s[0]] + t) == multiset([s[0]]) + multiset(t);
      assert multiset(s) == multiset([s[0]]) + multiset(s[1..]);
    }
  }

  /** The sort neither loses nor duplicates an element. */
  lemma {:induction false} OrderByPermutes<T, K>(s: seq<T>, key: T -> K, le: (K, K) -> bool)
    ensures multiset(OrderBy(s, key, le)) == multiset(s)
  {
    if s != [] {
      OrderByPermutes(s[1..], key, le);
      InsertByPermutes(s[0], OrderBy(s[1..], key, le), key, le);
      assert s == [s[0]] + s[1..];
    }
  }

  /** Every element of InsertBy(x, s) is x or an element of s. */
  lemma InsertByMembers<T, K>(x: T, s: seq<T>, key: T -> K, le: (K, K) -> bool)
    ensures forall y :: y in InsertBy(x, s, key, le) ==> y == x || y in s
  {
    InsertByPermutes(x, s, key, le);
    forall y | y in InsertBy(x, s, key, le) ensures y == x || y in s {
      assert y in multiset(InsertBy(x, s, key, le));
    }
  }

  lemma ConsSorted<T, K>(a: T, t: seq<T>, key: T -> K, le: (K, K) -> bool)
    requires SortedBy(t, key, le)
    requires forall y :: y in t ==> le(key(a), key(y))
    ensures SortedBy([a] + t, key, le)
  {
    var r := [a] + t;
    forall i, j | 0 <= i < j < |r| ensures le(key(r[i]), key(r[j])) {
      if i == 0 {
        assert r[j] == t[j - 1] && r[j] in t;
      } else {
        assert r[i] == t[i - 1] && r[j] == t[j - 1];
      }
    }
  }

  lemma {:induction false} InsertBySorted<T, K(!new)>(x: T, s: seq<T>, key: T -> K, le: (K, K) -> bool)
    requires TotalPreorder(le)
    requires SortedBy(s, key, le)
    ensures SortedBy(InsertBy(x, s, key, le), key, le)
  {
    if s == [] {
    } else if le(key(x), key(s[0])) {
      ConsSorted(x, s, key, le);
    } else {
      var t := InsertBy(x, s[1..], key, le);
      assert SortedBy(s[1..], key, le) by {
        forall i, j | 0 <= i < j < |s[1..]| ensures le(key(s[1..][i]), key(s[1..][j])) {
          assert s[1..][i] == s[i + 1] && s[1..][j] == s[j + 1];
        }
      }
      InsertBySorted(x, s[1..], key, le);
      InsertByMembers(x, s[1..], key, le);
      forall y | y in t ensures le(key(s[0]), key(y)) {
        if y != x {
          var j :| 0 <= j < |s[1..]| && s[1..][j] == y;
          assert s[1 + j] == y;
        }
      }
      ConsSorted(s[0], t, key, le);
    }
  }

  /** The sort yields keys in non-decreasing order. */
  lemma {:induction false} OrderBySorted<T, K(!new)>(s: seq<T>, key: T -> K, le: (K, K) -> bool)
    requires TotalPreorder(le)
    ensures SortedBy(OrderBy(s, key, le), key, le)
  {
    if s != [] {
      OrderBySorted(s[1..], key, le);
      InsertBySorted(s[0], OrderBy(s[1..], key, le), key, le);
    }
  }

  lemma WithKeyCons<T, K(!new)>(a: T, t: seq<T>, key: T -> K, k: K)
    ensures WithKey([a] + t, key, k) == (if key(a) == k then [a] else []) + WithKey(t, key, k)
  {
    assert ([a] + t)[0] == a && ([a] + t)[1..] == t;
  }

  lemma SwapEmpty<T>(p: seq<T>, q: seq<T>, w: seq<T>)
    requires p == [] || q == []
    ensures p + (q + w) == q + (p + w)
  {
    if p == [] { assert p + (q + w) == q + w == q + (p + w); }
    else { assert p + (q + w) == p + w == q + (p + w); }
  }

  lemma {:induction false} InsertByStable<T, K(!new)>(x: T, s: seq<T>, key: T -> K, le: (K, K) -> bool, k: K)
    requires le(key(x), key(x))
    ensures WithKey(InsertBy(x, s, key, le), key, k)
         == (if key(x) == k then [x] else []) + WithKey(s, key, k)
  {
    if s == [] {
      assert InsertBy(x, s, key, le) == [x] + [];
      WithKeyCons(x, [], key, k);
    } else if le(key(x), key(s[0])) {
      WithKeyCons(x, s, key, k);
    } else {
      var t := InsertBy(x, s[1..], key, le);
      InsertByStable(x, s[1..], key, le, k);
      WithKeyCons(s[0], t, key, k);
      assert [s[0]] + s[1..] == s;
      WithKeyCons(s[0], s[1..], key, k);
      SwapEmpty(if key(s[0]) == k then [s[0]] else [], if key(x) == k then [x] else [], WithKey(s[1..], key, k));
    }
  }

  /** Stability: the elements with any given key keep their input order. */
  lemma {:induction false} OrderByStable<T, K(!new)>(s: seq<T>, key: T -> K, le: (K, K) -> bool, k: K)
    requires TotalPreorder(le)
    ensures WithKey(OrderBy(s, key, le), key, k) == WithKey(s, key, k)
  {
    if s != [] {
      OrderByStable(s[1..], key, le, k);
      InsertByStable(s[0], OrderBy(s[1..], key, le), key, le, k);
    }
  }

  lemma ConsDistinct<T, K>(a: T, t: seq<T>, key: T -> K)
    requires KeysDistinct(t, key)
    requires forall y :: y in t ==> key(y) != key(a)
    ensures KeysDistinct([a] + t, key)
  {
    var r := [a] + t;
    forall i, j | 0 <= i < j < |r| ensures key(r[i]) != key(r[j]) {
      if i == 0 {
        assert r[j] == t[j - 1] && r[j] in t;
      } else {
        assert r[i] == t[i - 1] && r[j] == t[j - 1];
      }
    }
  }

  lemma TailDistinct<T, K>(s: seq<T>, key: T -> K)
    requires s != [] && KeysDistinct(s, key)
    ensures KeysDistinct(s[1..], key)
    ensures forall y :: y in s[1..] ==> key(y) != key(s[0])
  {
    forall i, j | 0 <= i < j < |s[1..]| ensures key(s[1..][i]) != key(s[1..][j]) {
      assert s[1..][i] == s[i + 1] && s[1..][j] == s[j + 1];
    }
    forall y | y in s[1..] ensures key(y) != key(s[0]) {
      var j :| 0 <= j < |s[1..]| && s[1..][j] == y;
      assert s[1 + j] == y;
    }
  }

  lemma {:induction false} InsertByDistinct<T, K>(x: T, s: seq<T>, key: T -> K, le: (K, K) -> bool)
    requires KeysDistinct(s, key)
    requires forall y :: y in s ==> key(y) != key(x)
    ensures KeysDistinct(InsertBy(x, s, key, le), key)
  {
    if s == [] {
    } else if le(key(x), key(s[0])) {
      ConsDistinct(x, s, key);
    } else {
      var t := InsertBy(x, s[1..], key, le);
      TailDistinct(s, key);
      assert forall y :: y in s[1..] ==> y in s;
      InsertByDistinct(x, s[1..], key, le);
      InsertByMembers(x, s[1..], key, le);
      ConsDistinct(s[0], t, key);
    }
  }

  /** Sorting input whose keys are distinct yields output whose keys are distinct. */
  lemma {:induction false} OrderByDistinct<T, K>(s: seq<T>, key: T -> K, le: (K, K) -> bool)
    requires KeysDistinct(s, key)
    ensures KeysDistinct(OrderBy(s, key, le), key)
  {
    if s != [] {
      var t := OrderBy(s[1..], key, le);
      TailDistinct(s, key);
      OrderByDistinct(s[1..], key, le);
      OrderByPermutes(s[1..], key, le);
      forall y | y in t ensures key(y) != key(s[0]) {
        assert y in multiset(t);
      }
      InsertByDistinct(s[0], t, key, le);
    }
  }
}

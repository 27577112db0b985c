/**
 * `Array.prototype.sort` with a comparator, as the screens and the in-memory
 * doctor list use it.  The sort is stable (required of engines since
 * ECMAScript 2019): a comparator answering 0 keeps the two items in their
 * input order.  The comparator is given as a key function and a `le` relation
 * on keys (`compare(a, b) <= 0` exactly when `le(key(a), key(b))`).
 */
module Sorting {

  /** `le` is total and transitive: a comparator that is consistent. */
  ghost predicate TotalPreorder<K(!new)>(le: (K, K) -> bool) {
    (forall a, b :: le(a, b) || le(b, a))
    && (forall a, b, c :: le(a, b) && le(b, c) ==> le(a, c))
  }

  ghost predicate SortedBy<T, K>(s: seq<T>, key: T -> K, le: (K, K) -> bool) {
    forall i, j :: 0 <= i < j < |s| ==> le(key(s[i]), key(s[j]))
  }

  /** Places `x` in front of the first item it does not come after. */
  function Insert<T, K>(x: T, s: seq<T>, key: T -> K, le: (K, K) -> bool): (r: seq<T>)
    ensures |r| == |s| + 1
    ensures multiset(r) == multiset(s) + multiset{x}
  {
    if s == [] || le(key(x), key(s[0])) then [x] + s
    else
      assert s == [s[0]] + s[1..];
      [s[0]] + Insert(x, s[1..], key, le)
  }

  /** The stable sort of `s` by `key` under `le`. */
  function SortBy<T, K>(s: seq<T>, key: T -> K, le: (K, K) -> bool): (r: seq<T>)
    ensures |r| == |s|
    ensures multiset(r) == multiset(s)
  {
    if s == [] then []
    else
      assert s == [s[0]] + s[1..];
      Insert(s[0], SortBy(s[1..], key, le), key, le)
  }

  lemma {:induction false} InsertSorted<T, K(!new)>(x: T, s: seq<T>, key: T -> K, le: (K, K) -> bool)
    requires TotalPreorder(le) && SortedBy(s, key, le)
    ensures SortedBy(Insert(x, s, key, le), key, le)
    decreases |s|
  {
    if s != [] && !le(key(x), key(s[0])) {
      var tail := Insert(x, s[1..], key, le);
      InsertSorted(x, s[1..], key, le);
      var r := [s[0]] + tail;
      assert le(key(s[0]), key(x));
      forall j | 0 < j < |r|
        ensures le(key(s[0]), key(r[j]))
      {
        assert r[j] in multiset(tail);
        assert r[j] in multiset(s[1..]) + multiset{x};
        if r[j] != x {
          assert r[j] in s[1..];
        }
      }
    }
  }

  /** The output is ordered by `le`. */
  lemma {:induction false} SortBySorted<T, K(!new)>(s: seq<T>, key: T -> K, le: (K, K) -> bool)
    requires TotalPreorder(le)
    ensures SortedBy(SortBy(s, key, le), key, le)
    decreases |s|
  {
    if s != [] {
      SortBySorted(s[1..], key, le);
      InsertSorted(s[0], SortBy(s[1..], key, le), key, le);
    }
  }

  /** Stability: input that is already in order comes back unchanged, so items
      whose keys tie are never swapped. */
  lemma {:induction false} SortByKeepsOrdered<T, K>(s: seq<T>, key: T -> K, le: (K, K) -> bool)
    requires SortedBy(s, key, le)
    ensures SortBy(s, key, le) == s
    decreases |s|
  {
    if s != [] {
      SortByKeepsOrdered(s[1..], key, le);
      if |s| > 1 {
        assert le(key(s[0]), key(s[1..][0]));
      }
      assert [s[0]] + s[1..] == s;
    }
  }

  /** `le` reversed, for a comparator whose signs are swapped ('desc'). */
  function Flip<K>(le: (K, K) -> bool): (K, K) -> bool {
    (a, b) => le(b, a)
  }

  lemma FlipTotalPreorder<K(!new)>(le: (K, K) -> bool)
    requires TotalPreorder(le)
    ensures TotalPreorder(Flip(le))
  {
  }

  /** Two orders that agree on the keys of `s` sort it the same way. */
  lemma {:induction false} SortByCongruent<T, K>(s: seq<T>, key: T -> K, le1: (K, K) -> bool, le2: (K, K) -> bool)
    requires forall a, b :: a in s && b in s ==> le1(key(a), key(b)) == le2(key(a), key(b))
    ensures SortBy(s, key, le1) == SortBy(s, key, le2)
    decreases |s|
  {
    if s != [] {
      assert forall a :: a in s[1..] ==> a in s;
      SortByCongruent(s[1..], key, le1, le2);
      forall a | a in SortBy(s[1..], key, le1) ensures a in s {
        assert a in multiset(SortBy(s[1..], key, le1));
      }
      InsertCongruent(s[0], SortBy(s[1..], key, le1), key, le1, le2, s);
    }
  }

  lemma {:induction false} InsertCongruent<T, K>(x: T, t: seq<T>, key: T -> K, le1: (K, K) -> bool, le2: (K, K) -> bool, s: seq<T>)
    requires x in s && forall a :: a in t ==> a in s
    requires forall a, b :: a in s && b in s ==> le1(key(a), key(b)) == le2(key(a), key(b))
    ensures Insert(x, t, key, le1) == Insert(x, t, key, le2)
    decreases |t|
  {
    if t != [] {
      assert forall a :: a in t[1..] ==> a in t;
      InsertCongruent(x, t[1..], key, le1, le2, s);
    }
  }
}

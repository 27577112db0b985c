/**
 * Array methods the screens use on lists, as functions on sequences.
 */
module JsArray {

  /** `xs.filter((_, i) => i !== idx)`: the list without its `idx`-th item;
      an index outside the list removes nothing. */
  function Without<T>(xs: seq<T>, idx: int): (r: seq<T>)
    ensures 0 <= idx < |xs| ==> r == xs[..idx] + xs[idx + 1..]
    ensures !(0 <= idx < |xs|) ==> r == xs
    decreases |xs|
  {
    if xs == [] then []
    else
      var init := Without(xs[..|xs| - 1], idx);
      if idx == |xs| - 1 then init else init + [xs[|xs| - 1]]
  }

  /** `xs.filter(keep)`: the items `keep` accepts, in their order. */
  function Filter<T(!new)>(xs: seq<T>, keep: T -> bool): (r: seq<T>)
    ensures |r| <= |xs|
    ensures forall x :: x in r <==> x in xs && keep(x)
    decreases |xs|
  {
    if xs == [] then []
    else (if keep(xs[0]) then [xs[0]] else []) + Filter(xs[1..], keep)
  }

  /** Filtering twice with the same test is filtering once. */
  lemma {:induction false} FilterIdempotent<T(!new)>(xs: seq<T>, keep: T -> bool)
    ensures Filter(Filter(xs, keep), keep) == Filter(xs, keep)
    decreases |xs|
  {
    if xs != [] {
      FilterIdempotent(xs[1..], keep);
      var rest := Filter(xs[1..], keep);
      if keep(xs[0]) {
        var once := [xs[0]] + rest;
        assert once[0] == xs[0] && once[1..] == rest;
        assert Filter(once, keep) == [xs[0]] + Filter(rest, keep);
      } else {
        assert Filter(xs, keep) == rest;
      }
    }
  }

  /** An item the test accepts is kept, and every item kept passes the test. */
  lemma {:induction false} FilterKeepsAll<T(!new)>(xs: seq<T>, keep: T -> bool)
    requires forall i :: 0 <= i < |xs| ==> keep(xs[i])
    ensures Filter(xs, keep) == xs
    decreases |xs|
  {
    if xs != [] {
      FilterKeepsAll(xs[1..], keep);
    }
  }

  /** Filtering a concatenation filters each part. */
  lemma {:induction false} FilterAppend<T(!new)>(a: seq<T>, b: seq<T>, keep: T -> bool)
    ensures Filter(a + b, keep) == Filter(a, keep) + Filter(b, keep)
    decreases |a|
  {
    if a == [] {
      assert a + b == b;
    } else {
      FilterAppend(a[1..], b, keep);
      assert (a + b)[1..] == a[1..] + b;
      assert (a + b)[0] == a[0];
    }
  }

  /** One more item filtered: it is appended when the test accepts it. */
  lemma FilterStep<T(!new)>(xs: seq<T>, i: int, keep: T -> bool)
    requires 0 <= i < |xs|
    ensures Filter(xs[..i + 1], keep) == Filter(xs[..i], keep) + (if keep(xs[i]) then [xs[i]] else [])
  {
    FilterAppend(xs[..i], [xs[i]], keep);
    assert xs[..i + 1] == xs[..i] + [xs[i]];
    assert [xs[i]][1..] == [];
  }

  /** Nothing is kept when the test accepts no item. */
  lemma {:induction false} FilterNone<T(!new)>(xs: seq<T>, keep: T -> bool)
    requires forall i :: 0 <= i < |xs| ==> !keep(xs[i])
    ensures Filter(xs, keep) == []
    decreases |xs|
  {
    if xs != [] {
      FilterNone(xs[1..], keep);
    }
  }

  /** Each item is `le` every later one. */
  predicate InOrderBy<T>(xs: seq<T>, le: (T, T) -> bool) {
    forall i, j :: 0 <= i < j < |xs| ==> le(xs[i], xs[j])
  }

  /** Filtering keeps a list ordered by `le` in order. */
  lemma {:induction false} FilterKeepsOrder<T(!new)>(xs: seq<T>, le: (T, T) -> bool, keep: T -> bool)
    requires InOrderBy(xs, le)
    ensures InOrderBy(Filter(xs, keep), le)
    decreases |xs|
  {
    if xs != [] {
      var tail := xs[1..];
      FilterKeepsOrder(tail, le, keep);
      var rest := Filter(tail, keep);
      if keep(xs[0]) {
        assert Filter(xs, keep) == [xs[0]] + rest;
        forall x | x in rest ensures le(xs[0], x) {
          var k :| 0 <= k < |tail| && tail[k] == x;
          assert xs[k + 1] == x;
        }
        ConsInOrder(xs[0], rest, le);
      } else {
        assert Filter(xs, keep) == rest;
      }
    }
  }

  /** An item `le` every item of an ordered list can go in front of it. */
  lemma ConsInOrder<T>(h: T, xs: seq<T>, le: (T, T) -> bool)
    requires InOrderBy(xs, le)
    requires forall x :: x in xs ==> le(h, x)
    ensures InOrderBy([h] + xs, le)
  {
    var r := [h] + xs;
    forall i, j | 0 <= i < j < |r| ensures le(r[i], r[j]) {
      assert r[j] == xs[j - 1];
      if i > 0 {
        assert r[i] == xs[i - 1];
      }
    }
  }
}

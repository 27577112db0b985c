/**
 * Client-side pagination shared by the list screens: the visible page is
 * `list.slice(page * n, page * n + n)` and the page count shown under a
 * table is `Math.max(1, Math.ceil(total / n))`.
 */
module Paging {

  /** `xs.slice(start, end)` for non-negative bounds: out-of-range bounds are
      clamped to the length. */
  function Slice<T>(xs: seq<T>, start: nat, end: nat): (r: seq<T>)
    ensures |r| == if start < end && start < |xs| then (if end < |xs| then end else |xs|) - start else 0
    ensures forall k :: 0 <= k < |r| ==> r[k] == xs[start + k]
  {
    var e := if end < |xs| then end else |xs|;
    if start < e then xs[start..e] else []
  }

  /** The items shown on page `page` (counted from 0) with `size` items a page. */
  function Page<T>(xs: seq<T>, page: nat, size: nat): seq<T> {
    Slice(xs, page * size, page * size + size)
  }

  /** Every item is shown on exactly the page its index falls in, at the
      position its index leaves over. */
  lemma ItemOnItsPage<T>(xs: seq<T>, size: nat, i: nat)
    requires size > 0 && i < |xs|
    ensures i % size < |Page(xs, i / size, size)|
    ensures Page(xs, i / size, size)[i % size] == xs[i]
  {
    var p := i / size;
    assert p * size + i % size == i;
  }

  /** A page never holds more than `size` items, and every page before the
      last one that reaches the end of the list is full. */
  lemma PageSize<T>(xs: seq<T>, page: nat, size: nat)
    ensures |Page(xs, page, size)| <= size
    ensures (page + 1) * size <= |xs| ==> |Page(xs, page, size)| == size
  {
    assert (page + 1) * size == page * size + size;
  }

  /** `Math.ceil(a / b)` for integers, `b` not zero. */
  function CeilDiv(a: int, b: int): (r: int)
    requires b != 0
    ensures b > 0 ==> (r - 1) * b < a <= r * b
    ensures b < 0 ==> r * b <= a < (r - 1) * b
  {
    if b > 0 then -((-a) / b) else -(a / (-b))
  }

  /** `Math.max(1, Math.ceil(total / limit))`. */
  function PageCount(total: int, limit: int): (r: int)
    requires limit != 0
    ensures r >= 1
    ensures limit > 0 && total > 0 ==> (r - 1) * limit < total <= r * limit
    ensures limit > 0 && total <= 0 ==> r == 1
  {
    var c := CeilDiv(total, limit);
    if c < 1 then 1 else c
  }

  /** With at least one item, the page count is exactly the number of
      non-empty pages: its last page holds items and the next one is empty. */
  lemma PageCountCoversList<T>(xs: seq<T>, size: nat)
    requires size > 0 && |xs| > 0
    ensures Page(xs, PageCount(|xs|, size) - 1, size) != []
    ensures Page(xs, PageCount(|xs|, size), size) == []
  {
    var c := PageCount(|xs|, size);
    assert (c - 1) * size < |xs| <= c * size;
    assert |Page(xs, c - 1, size)| > 0;
  }
}

/**
 * What the doctors, appointments and patients tables share: the search term
 * and the text search over a row's parts, the case-insensitive comparator on
 * a row's sort text, and the header press that picks the sort column and
 * direction.
 */
module ClientTable {
  import opened Wrappers
  import opened JsText
  import opened JsValue
  import opened Sorting
  import opened JsArray
  import opened Paging

  // ------------------------------------------------------------------ search

  /** `(debouncedFilter || filter || '').toString().toLowerCase().trim()`. */
  function SearchTerm(filter: string, debounced: string): string {
    Trim(Lower(if debounced != "" then debounced else filter))
  }

  /** `String(row.id)` unless the id is null or undefined. */
  function IdPart(row: Value): (r: seq<string>)
    ensures !IsNullish(Get(row, "id")) ==> ToStr(Get(row, "id")) in r
  {
    if IsNullish(Get(row, "id")) then [] else [ToStr(Get(row, "id"))]
  }

  /** `String(row[k])` for every key whose value is truthy, in key order. */
  function TruthyTexts(row: Value, keys: seq<string>): (r: seq<string>)
    ensures forall k :: 0 <= k < |keys| && Truthy(Get(row, keys[k])) ==> ToStr(Get(row, keys[k])) in r
    decreases |keys|
  {
    if keys == [] then []
    else
      var rest := TruthyTexts(row, keys[1..]);
      assert forall k :: 1 <= k < |keys| ==> keys[k] == keys[1..][k - 1];
      (if Truthy(Get(row, keys[0])) then [ToStr(Get(row, keys[0]))] else []) + rest
  }

  /** A key holding a non-empty text contributes that text. */
  lemma TextIsTruthyText(row: Value, keys: seq<string>, k: int, text: string)
    requires 0 <= k < |keys| && Get(row, keys[k]) == Str(text) && text != ""
    ensures text in TruthyTexts(row, keys)
  {
    assert Truthy(Get(row, keys[k])) && ToStr(Get(row, keys[k])) == text;
  }

  /** `String(row[outer][inner])` when both are truthy. */
  function NestedPart(row: Value, outer: string, inner: string): (r: seq<string>)
    ensures Truthy(Get(row, outer)) && Truthy(Get(Get(row, outer), inner)) ==> ToStr(Get(Get(row, outer), inner)) in r
  {
    if Truthy(Get(row, outer)) && Truthy(Get(Get(row, outer), inner)) then [ToStr(Get(Get(row, outer), inner))] else []
  }

  /** The row's parts, joined with spaces and lower-cased, contain the term. */
  predicate Hit(parts: seq<string>, term: string) {
    Contains(Lower(Join(parts, " ")), term)
  }

  /** A part that contains the term, ignoring case, makes the row a hit. */
  lemma PartHits(parts: seq<string>, part: string, term: string)
    requires part in parts && Contains(Lower(part), term)
    ensures Hit(parts, term)
  {
    var k :| 0 <= k < |parts| && parts[k] == part;
    LowerJoinContainsPart(parts, " ", k, term);
  }

  function Keeps(parts: Value -> seq<string>, term: string): Value -> bool {
    row => Truthy(row) && Hit(parts(row), term)
  }

  /** The list filter of the three tables: the list as loaded when the term
      is blank or the server already searched (a debounced filter is set),
      else the rows that are there and whose parts contain the term. */
  function SearchRows(list: seq<Value>, filter: string, debounced: string, parts: Value -> seq<string>): seq<Value> {
    var term := SearchTerm(filter, debounced);
    if term == "" || debounced != "" then list else Filter(list, Keeps(parts, term))
  }

  /** What the search keeps: every row when it does not filter, else exactly
      the rows that hit, in their order; searching again keeps them all. */
  lemma SearchRowsResult(list: seq<Value>, filter: string, debounced: string, parts: Value -> seq<string>)
    ensures var term := SearchTerm(filter, debounced);
            var r := SearchRows(list, filter, debounced, parts);
            (term == "" || debounced != "" ==> r == list)
            && (term != "" && debounced == "" ==>
                  (forall row :: row in r <==> row in list && Truthy(row) && Hit(parts(row), term))
                  && Filter(r, Keeps(parts, term)) == r)
  {
    var term := SearchTerm(filter, debounced);
    if term != "" && debounced == "" {
      FilterIdempotent(list, Keeps(parts, term));
    }
  }

  /** A row that is there and hits the term survives the search. */
  lemma HitIsKept(list: seq<Value>, filter: string, debounced: string, parts: Value -> seq<string>, row: Value)
    requires row in list && Truthy(row) && Hit(parts(row), SearchTerm(filter, debounced))
    ensures row in SearchRows(list, filter, debounced, parts)
  {
    SearchRowsResult(list, filter, debounced, parts);
  }

  // --------------------------------------------------------------- compare

  /** The comparator on two sort texts: -1, 1 or 0 by `<` and `>` on
      strings, with the signs swapped when not `ascending`. */
  function CompareTexts(va: string, vb: string, ascending: bool): (r: int)
    ensures r == -1 || r == 0 || r == 1
  {
    if LexLess(va, vb) then (if ascending then -1 else 1)
    else if LexLess(vb, va) then (if ascending then 1 else -1)
    else 0
  }

  /** The comparator is consistent: swapping its arguments swaps the sign,
      it answers 0 exactly for equal texts, and a negative answer means the
      first text comes first in the chosen direction. */
  lemma CompareTextsConsistent(va: string, vb: string, ascending: bool)
    ensures CompareTexts(va, vb, ascending) == -CompareTexts(vb, va, ascending)
    ensures CompareTexts(va, vb, ascending) == 0 <==> va == vb
    ensures ascending ==> (CompareTexts(va, vb, ascending) < 0 <==> LexLess(va, vb))
    ensures !ascending ==> (CompareTexts(va, vb, ascending) < 0 <==> LexLess(vb, va))
  {
    LexLessAsymmetric(va, vb);
    LexLessTotal(va, vb);
    LexLessIrreflexive(va);
  }

  /** The order on sort texts that `compare(a, b) <= 0` means. */
  function TextLe(ascending: bool): (string, string) -> bool {
    if ascending then LexLe else Flip(LexLe)
  }

  lemma CompareMeansLe(va: string, vb: string, ascending: bool)
    ensures CompareTexts(va, vb, ascending) <= 0 <==> TextLe(ascending)(va, vb)
  {
    LexLessAsymmetric(va, vb);
    if ascending {
      assert TextLe(ascending)(va, vb) == LexLe(va, vb);
    } else {
      assert TextLe(ascending)(va, vb) == LexLe(vb, va);
    }
  }

  /** `list.slice().sort(compare)` with the comparator above on `key`. */
  function SortRows<T>(list: seq<T>, key: T -> string, ascending: bool): seq<T> {
    SortBy(list, key, TextLe(ascending))
  }

  /** The sorted list holds the same rows, each pair in comparator order. */
  lemma SortRowsSorted<T>(list: seq<T>, key: T -> string, ascending: bool)
    ensures multiset(SortRows(list, key, ascending)) == multiset(list)
    ensures var s := SortRows(list, key, ascending);
            forall i, j :: 0 <= i < j < |s| ==> CompareTexts(key(s[i]), key(s[j]), ascending) <= 0
  {
    LexLeTotalPreorder();
    FlipTotalPreorder(LexLe);
    SortBySorted(list, key, TextLe(ascending));
    var s := SortRows(list, key, ascending);
    forall i, j | 0 <= i < j < |s| ensures CompareTexts(key(s[i]), key(s[j]), ascending) <= 0 {
      CompareMeansLe(key(s[i]), key(s[j]), ascending);
    }
  }

  /** The sort never reorders rows whose sort texts are all equal (the
      sort is stable). */
  lemma SortRowsKeepsTies<T>(list: seq<T>, key: T -> string, ascending: bool)
    requires forall i :: 0 <= i < |list| ==> key(list[i]) == key(list[0])
    ensures SortRows(list, key, ascending) == list
  {
    forall i, j | 0 <= i < j < |list|
      ensures TextLe(ascending)(key(list[i]), key(list[j]))
    {
      var t := key(list[i]);
      assert key(list[j]) == t;
      LexLessIrreflexive(t);
      assert TextLe(ascending)(t, t) == LexLe(t, t);
    }
    SortByKeepsOrdered(list, key, TextLe(ascending));
  }

  // ---------------------------------------------------------- header press

  /** The direction a header press asks for: the reverse of 'asc' when the
      same column is pressed again, else 'asc'. */
  function NextDir(currentBy: Option<string>, currentDir: Option<string>, col: string): (r: string)
    ensures r == "asc" || r == "desc"
    ensures r == "desc" <==> currentBy == Some(col) && currentDir == Some("asc")
  {
    if currentBy == Some(col) && currentDir == Some("asc") then "desc" else "asc"
  }

  /** Pressing the same header again and again alternates the direction. */
  lemma PressesAlternate(currentBy: Option<string>, currentDir: Option<string>, col: string)
    ensures var d1 := NextDir(currentBy, currentDir, col);
            var d2 := NextDir(Some(col), Some(d1), col);
            d2 != d1 && NextDir(Some(col), Some(d2), col) == d1
  {
  }

  /** The sort column and direction a table remembers, and the page of
      its server-side paging (counted from 1). */
  datatype SortView = SortView(sortBy: Option<string>, sortDir: string, page: int)

  /** The tables open unsorted, ascending, on page 1. */
  const InitialView := SortView(None, "asc", 1)

  /** toggleSort(col): sort by `col`, flipping the direction when `col` is
      already the column, and go back to page 1. */
  function PressHeader(v: SortView, col: string): (r: SortView)
    ensures r.sortBy == Some(col) && r.page == 1
    ensures r.sortDir == "desc" <==> v.sortBy == Some(col) && v.sortDir == "asc"
    ensures r.sortDir == "asc" || r.sortDir == "desc"
  {
    SortView(Some(col), NextDir(v.sortBy, Some(v.sortDir), col), 1)
  }

  /** Pressing the same header twice flips the direction and a third press
      flips it back; pressing another header starts over at 'asc'. */
  lemma PressHeaderTwice(v: SortView, col: string, other: string)
    ensures PressHeader(PressHeader(v, col), col).sortDir != PressHeader(v, col).sortDir
    ensures PressHeader(PressHeader(PressHeader(v, col), col), col) == PressHeader(v, col)
    ensures other != col ==> PressHeader(PressHeader(v, col), other) == SortView(Some(other), "asc", 1)
  {
    PressesAlternate(v.sortBy, Some(v.sortDir), col);
  }

  /** `Math.max(1, Math.ceil((meta.total || 0) / meta.limit))`. */
  function NumberOfPages(total: int, limit: int): (r: int)
    requires limit > 0
    ensures r >= 1
  {
    PageCount(total, limit)
  }

  /** Every row the server counts falls on a page the footer offers, and
      the last page offered is not empty. */
  lemma PagesCoverTotal(total: int, limit: int)
    requires limit > 0
    ensures forall i :: 0 <= i < total ==> i / limit + 1 <= NumberOfPages(total, limit)
    ensures total > 0 ==> (NumberOfPages(total, limit) - 1) * limit < total
    ensures total <= 0 ==> NumberOfPages(total, limit) == 1
  {
    var n := NumberOfPages(total, limit);
    forall i | 0 <= i < total ensures i / limit + 1 <= n {
      assert i < n * limit;
      DivBelow(i, limit, n);
    }
  }

  lemma DivBelow(i: int, limit: int, n: int)
    requires limit > 0 && 0 <= i < n * limit
    ensures i / limit < n
  {
    var q := i / limit;
    assert q * limit <= i;
    assert (q - n) * limit < 0;
  }
}

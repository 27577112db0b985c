/**
 * The doctors list screen: the CSV export, the client-side search over the
 * loaded doctors, the header sort with its comparator, the page shown and
 * the pagination footer.  Doctors are the JSON objects the API returns.
 */
module DoctorsScreen {
  import opened Wrappers
  import opened JsText
  import opened JsValue
  import opened Sorting
  import opened Paging
  import opened JsArray
  import opened ClientTable
  import Csv

  function Min(a: int, b: int): int {
    if a < b then a else b
  }

  // -------------------------------------------------------------- CSV export

  /** The exported columns, in order. */
  const CsvHeader: seq<string> := ["id", "name", "specialty", "location", "email", "phone"]

  /** The text of every exported column of `d`: `` `${d[h] || ''}` ``. */
  function CsvFields(d: Value): (r: seq<string>)
    ensures |r| == |CsvHeader|
    ensures forall k :: 0 <= k < |CsvHeader| ==> r[k] == ToStr(OrEmpty(Get(d, CsvHeader[k])))
  {
    seq(|CsvHeader|, k requires 0 <= k < |CsvHeader| => ToStr(OrEmpty(Get(d, CsvHeader[k]))))
  }

  function CsvRows(data: seq<Value>): (r: seq<seq<string>>)
    ensures |r| == |data| && forall i :: 0 <= i < |data| ==> r[i] == CsvFields(data[i])
  {
    seq(|data|, i requires 0 <= i < |data| => CsvFields(data[i]))
  }

  /** Every field between quotes, with the quotes inside it left as they are. */
  function Enclose(fields: seq<string>): (r: seq<string>)
    ensures |r| == |fields| && forall k :: 0 <= k < |fields| ==> r[k] == "\"" + fields[k] + "\""
  {
    seq(|fields|, k requires 0 <= k < |fields| => "\"" + fields[k] + "\"")
  }

  /** toCSV as written: the header line, then one line per doctor whose
      fields are enclosed in quotes but not escaped. */
  function ToCsvAsWritten(data: seq<Value>): string {
    Join([Join(CsvHeader, ",")] + seq(|data|, i requires 0 <= i < |data| => Join(Enclose(CsvFields(data[i])), ",")), "\n")
  }

  /** A doctor whose name is `","` ... */
  const MergedA: Value := Obj([("name", Str("\",\""))])
  /** ... and a doctor whose phone is `","`. */
  const MergedB: Value := Obj([("phone", Str("\",\""))])

  lemma MergedFieldsA()
    ensures CsvFields(MergedA) == ["", "\",\"", "", "", "", ""]
  {
  }

  lemma MergedFieldsB()
    ensures CsvFields(MergedB) == ["", "", "", "", "", "\",\""]
  {
  }

  /** A field holding `","` reads as two fields: the quote that opens the
      next field is taken for the end of this one. */
  lemma {:induction false} QuoteCommaSplitsField(pre: seq<string>, x: string, y: string, rest: seq<string>)
    ensures Join(Enclose(pre + [x + "\",\"" + y] + rest), ",") == Join(Enclose(pre + [x, y] + rest), ",")
    decreases |pre|
  {
    if pre == [] {
      assert pre + [x + "\",\"" + y] + rest == [x + "\",\"" + y] + rest;
      assert pre + [x, y] + rest == [x] + ([y] + rest);
      EnclosedSplice(x, y);
      if rest == [] {
        assert Enclose([x + "\",\"" + y]) == ["\"" + (x + "\",\"" + y) + "\""];
        JoinEncloseCons(x, [y]);
        assert Enclose([y]) == ["\"" + y + "\""];
      } else {
        JoinEncloseCons(x + "\",\"" + y, rest);
        JoinEncloseCons(x, [y] + rest);
        JoinEncloseCons(y, rest);
      }
    } else {
      QuoteCommaSplitsField(pre[1..], x, y, rest);
      assert pre + [x + "\",\"" + y] + rest == [pre[0]] + (pre[1..] + [x + "\",\"" + y] + rest);
      assert pre + [x, y] + rest == [pre[0]] + (pre[1..] + [x, y] + rest);
      JoinEncloseCons(pre[0], pre[1..] + [x + "\",\"" + y] + rest);
      JoinEncloseCons(pre[0], pre[1..] + [x, y] + rest);
    }
  }

  lemma EnclosedSplice(x: string, y: string)
    ensures "\"" + (x + "\",\"" + y) + "\"" == ("\"" + x + "\"") + "," + ("\"" + y + "\"")
  {
    assert "\",\"" == "\"" + "," + "\"";
  }

  lemma JoinEncloseCons(f: string, fs: seq<string>)
    requires fs != []
    ensures Join(Enclose([f] + fs), ",") == "\"" + f + "\"" + "," + Join(Enclose(fs), ",")
  {
    assert Enclose([f] + fs) == ["\"" + f + "\""] + Enclose(fs);
    assert (["\"" + f + "\""] + Enclose(fs))[1..] == Enclose(fs);
  }

  /** The two doctors above are different, but toCSV writes each as a line
      of seven empty fields, so the export cannot be read back. */
  lemma ToCsvAsWrittenMergesDoctors()
    ensures CsvFields(MergedA) != CsvFields(MergedB)
    ensures ToCsvAsWritten([MergedA]) == ToCsvAsWritten([MergedB])
  {
    MergedFieldsA();
    MergedFieldsB();
    var f1 := CsvFields(MergedA);
    var f2 := CsvFields(MergedB);
    assert f1[1] != f2[1];
    QuoteCommaSplitsField([""], "", "", ["", "", "", ""]);
    QuoteCommaSplitsField(["", "", "", "", ""], "", "", []);
    assert "" + "\",\"" + "" == "\",\"";
    assert [""] + ["" + "\",\"" + ""] + ["", "", "", ""] == f1;
    assert ["", "", "", "", ""] + ["" + "\",\"" + ""] + [] == f2;
    assert [""] + ["", ""] + ["", "", "", ""] == ["", "", "", "", ""] + ["", ""] + [];
    assert seq(1, i requires 0 <= i < 1 => Join(Enclose(CsvFields([MergedA][i])), ","))
        == seq(1, i requires 0 <= i < 1 => Join(Enclose(CsvFields([MergedB][i])), ","));
  }

  /** toCSV with the inner quotes doubled, as section 2 of RFC 4180 asks. */
  function ToCsv(data: seq<Value>): string {
    Csv.QuotedTable(CsvHeader, CsvRows(data))
  }

  /** The export reads back as the header and every doctor's fields,
      whatever quotes, commas or line breaks the fields hold. */
  lemma ToCsvReadsBack(data: seq<Value>)
    ensures Csv.ParseFile(ToCsv(data)) == Some([CsvHeader] + CsvRows(data))
  {
    forall k | 0 <= k < |CsvHeader| ensures Csv.Plain(CsvHeader[k]) {
    }
    Csv.TableReadsBack(CsvHeader, CsvRows(data));
  }

  // ------------------------------------------------------------------- sort

  /** The property `item[sortBy]` reads; a null `sortBy` reads "null". */
  function KeyName(sortBy: Option<string>): string {
    match sortBy
    case None => "null"
    case Some(k) => k
  }

  /** getDoctorVal: `''` for a missing doctor, else `item[key] || ''` (the
      named keys read the same property as any other). */
  function DoctorVal(item: Value, key: string): (r: Value)
    ensures Truthy(item) && Truthy(Get(item, key)) ==> r == Get(item, key)
    ensures !(Truthy(item) && Truthy(Get(item, key))) ==> r == Str("")
  {
    if !Truthy(item) then Str("") else OrEmpty(Get(item, key))
  }

  /** What compareDoctors orders by: `('' + value).toLowerCase()`. */
  function SortText(item: Value, sortBy: Option<string>): string {
    Lower(ToStr(DoctorVal(item, KeyName(sortBy))))
  }

  /** compareDoctors: ascending only for 'asc'; any other direction, null
      included, reverses. */
  function CompareDoctors(a: Value, b: Value, sortBy: Option<string>, sortDir: Option<string>): int {
    CompareTexts(SortText(a, sortBy), SortText(b, sortBy), sortDir == Some("asc"))
  }

  /** The comparator is consistent and ignores case: swapping its arguments
      swaps the sign, it answers 0 exactly for equal lower-cased texts, and a
      negative answer puts the smaller text first only for 'asc'. */
  lemma CompareDoctorsConsistent(a: Value, b: Value, sortBy: Option<string>, sortDir: Option<string>)
    ensures CompareDoctors(a, b, sortBy, sortDir) == -CompareDoctors(b, a, sortBy, sortDir)
    ensures CompareDoctors(a, b, sortBy, sortDir) == 0 <==> SortText(a, sortBy) == SortText(b, sortBy)
    ensures sortDir == Some("asc") ==>
            (CompareDoctors(a, b, sortBy, sortDir) < 0 <==> LexLess(SortText(a, sortBy), SortText(b, sortBy)))
    ensures sortDir != Some("asc") ==>
            (CompareDoctors(a, b, sortBy, sortDir) < 0 <==> LexLess(SortText(b, sortBy), SortText(a, sortBy)))
  {
    CompareTextsConsistent(SortText(a, sortBy), SortText(b, sortBy), sortDir == Some("asc"));
  }

  function SortKey(sortBy: Option<string>): Value -> string {
    item => SortText(item, sortBy)
  }

  /** `list.slice().sort(compareDoctors)`. */
  function SortDoctors(list: seq<Value>, sortBy: Option<string>, sortDir: Option<string>): seq<Value> {
    SortRows(list, SortKey(sortBy), sortDir == Some("asc"))
  }

  /** The sorted list holds the same doctors, each pair in comparator order. */
  lemma SortDoctorsSorted(list: seq<Value>, sortBy: Option<string>, sortDir: Option<string>)
    ensures multiset(SortDoctors(list, sortBy, sortDir)) == multiset(list)
    ensures var s := SortDoctors(list, sortBy, sortDir);
            forall i, j :: 0 <= i < j < |s| ==> CompareDoctors(s[i], s[j], sortBy, sortDir) <= 0
  {
    SortRowsSorted(list, SortKey(sortBy), sortDir == Some("asc"));
  }

  // ------------------------------------------------------------------ search

  const SearchedFields: seq<string> := ["name", "specialty", "location", "address", "email", "phone"]
  const MaxGatherDepth := 5
  const MaxArrayItems := 20
  const MaxObjectKeys := 51

  /** `d[k]` again when it is a non-empty string. */
  function StringPart(d: Value, k: string): seq<string> {
    if Truthy(Get(d, k)) && IsString(Get(d, k)) then [Get(d, k).s] else []
  }

  /** `d.emails.join(' ')` when `d.emails` is an array. */
  function EmailsPart(d: Value): seq<string> {
    var e := Get(d, "emails");
    if e.Arr? then
      [Join(seq(|e.items|, i requires 0 <= i < |e.items| => if IsNullish(e.items[i]) then "" else ToStr(e.items[i])), " ")]
    else []
  }

  function Flatten(xss: seq<seq<string>>): (r: seq<string>)
    decreases |xss|
  {
    if xss == [] then [] else xss[0] + Flatten(xss[1..])
  }

  lemma {:induction false} FlattenHas(xss: seq<seq<string>>, k: nat, x: string)
    requires k < |xss| && x in xss[k]
    ensures x in Flatten(xss)
    decreases |xss|
  {
    if k > 0 {
      FlattenHas(xss[1..], k - 1, x);
    }
  }

  /** gather: the strings, numbers and booleans met in a walk of `v` that
      stops below depth 5, reads the first 20 items of an array and the
      first 51 properties of an object. */
  function Gather(v: Value, depth: nat): seq<string>
    decreases v
  {
    if depth > MaxGatherDepth then []
    else
      match v
      case Undefined => []
      case Null => []
      case Str(s) => [s]
      case Num(_) => [ToStr(v)]
      case Bool(_) => [ToStr(v)]
      case Arr(items) =>
        var n := Min(|items|, MaxArrayItems);
        Flatten(seq(n, i requires 0 <= i < n => Gather(items[i], depth + 1)))
      case Obj(fields) =>
        var n := Min(|fields|, MaxObjectKeys);
        Flatten(seq(n, i requires 0 <= i < n => Gather(fields[i].1, depth + 1)))
  }

  /** The gathered texts as one more part, when there are any. */
  function GatheredPart(d: Value): seq<string> {
    var g := Gather(d, 0);
    if g != [] then [Join(g, " ")] else []
  }

  /** The texts a doctor is searched by. */
  function Parts(d: Value): seq<string> {
    IdPart(d) + TruthyTexts(d, SearchedFields)
    + StringPart(d, "address") + StringPart(d, "location")
    + NestedPart(d, "clinic", "address") + NestedPart(d, "practice", "location")
    + NestedPart(d, "office", "location") + NestedPart(d, "contact", "email")
    + EmailsPart(d) + GatheredPart(d)
  }

  /** getFilteredDoctors. */
  function FilterDoctors(doctors: seq<Value>, filter: string, debounced: string): seq<Value> {
    SearchRows(doctors, filter, debounced, Parts)
  }

  /** A doctor whose name contains the term, ignoring case, is kept. */
  lemma NameMatchKeepsDoctor(doctors: seq<Value>, filter: string, debounced: string, d: Value, name: string)
    requires d in doctors && d.Obj? && Get(d, "name") == Str(name)
    requires Contains(Lower(name), SearchTerm(filter, debounced))
    ensures d in FilterDoctors(doctors, filter, debounced)
  {
    NameHits(d, name, SearchTerm(filter, debounced));
    HitIsKept(doctors, filter, debounced, Parts, d);
  }

  lemma NameHits(d: Value, name: string, term: string)
    requires d.Obj? && Get(d, "name") == Str(name) && Contains(Lower(name), term)
    ensures Hit(Parts(d), term)
  {
    var parts := Parts(d);
    if name == "" {
      assert |term| == 0;
      assert IsPrefix(term, Lower(Join(parts, " "))[0..]);
    } else {
      assert SearchedFields[0] == "name";
      assert name in TruthyTexts(d, SearchedFields);
      PartHits(parts, name, term);
    }
  }

  /** Any string among the first 51 properties of a doctor is searched,
      whatever its property is called. */
  lemma TopLevelTextKeepsDoctor(doctors: seq<Value>, filter: string, debounced: string, d: Value, k: nat, text: string)
    requires d in doctors && d.Obj? && k < |d.fields| && k < MaxObjectKeys
    requires d.fields[k].1 == Str(text) && Contains(Lower(text), SearchTerm(filter, debounced))
    ensures d in FilterDoctors(doctors, filter, debounced)
  {
    TopLevelTextHits(d, k, text, SearchTerm(filter, debounced));
    HitIsKept(doctors, filter, debounced, Parts, d);
  }

  lemma TopLevelTextHits(d: Value, k: nat, text: string, term: string)
    requires d.Obj? && k < |d.fields| && k < MaxObjectKeys
    requires d.fields[k].1 == Str(text) && Contains(Lower(text), term)
    ensures Hit(Parts(d), term)
  {
    var n := Min(|d.fields|, MaxObjectKeys);
    var xss := seq(n, i requires 0 <= i < n => Gather(d.fields[i].1, 1));
    assert xss[k] == [text];
    FlattenHas(xss, k, text);
    var g := Gather(d, 0);
    assert text in g;
    PartHits(g, text, term);
    assert Join(g, " ") in Parts(d);
    PartHits(Parts(d), Join(g, " "), term);
  }

  /** `v` inside `n` one-item arrays. */
  function Nest(v: Value, n: nat): Value {
    if n == 0 then v else Arr([Nest(v, n - 1)])
  }

  /** Each level of nesting costs one level of the walk's depth, so a value
      nested deeper than 5 levels is never gathered. */
  lemma {:induction false} GatherNested(v: Value, n: nat, depth: nat)
    ensures Gather(Nest(v, n), depth) == Gather(v, depth + n)
    ensures depth + n > MaxGatherDepth ==> Gather(Nest(v, n), depth) == []
  {
    if n > 0 {
      var w := Nest(v, n - 1);
      assert Nest(v, n) == Arr([w]);
      GatherNested(v, n - 1, depth + 1);
      if depth <= MaxGatherDepth {
        GatherOneItem(w, depth);
      }
    }
  }

  /** A one-item array gathers what its item gathers one level deeper. */
  lemma GatherOneItem(w: Value, depth: nat)
    requires depth <= MaxGatherDepth
    ensures Gather(Arr([w]), depth) == Gather(w, depth + 1)
  {
    var inner := [w];
    var g := Gather(w, depth + 1);
    var m := Min(|inner|, MaxArrayItems);
    var body := seq(m, i requires 0 <= i < m => Gather(inner[i], depth + 1));
    assert Gather(Arr(inner), depth) == Flatten(body);
    assert body == [g];
    assert Flatten([g]) == g + Flatten([]);
  }

  /** Only the first 20 items of an array are walked. */
  lemma GatherReadsTwentyItems(items: seq<Value>, depth: nat)
    ensures Gather(Arr(items), depth) == Gather(Arr(items[..Min(|items|, MaxArrayItems)]), depth)
  {
    var n := Min(|items|, MaxArrayItems);
    var short := items[..n];
    if depth <= MaxGatherDepth {
      var xss := seq(n, i requires 0 <= i < n => Gather(items[i], depth + 1));
      assert Gather(Arr(items), depth) == Flatten(xss);
      assert Min(|short|, MaxArrayItems) == n;
      assert seq(n, i requires 0 <= i < n => Gather(short[i], depth + 1)) == xss;
      assert Gather(Arr(short), depth) == Flatten(xss);
    }
  }

  // ------------------------------------------------------- the visible page

  /** getVisibleDoctors: the sorted list; with a server total it is already
      the page, else the client slices page `page`. */
  function VisibleDoctors(filtered: seq<Value>, sortBy: Option<string>, sortDir: Option<string>,
                          metaTotal: int, page: nat, perPage: nat): seq<Value> {
    var f := SortDoctors(filtered, sortBy, sortDir);
    if metaTotal > 0 then f else Page(f, page, perPage)
  }

  /** The rows the table renders: sorted only when a sort column is set. */
  function RenderedDoctors(filtered: seq<Value>, sortBy: Option<string>, sortDir: Option<string>,
                           metaTotal: int, page: nat, perPage: nat): seq<Value> {
    var sorted := if sortBy.Some? then SortDoctors(filtered, sortBy, sortDir) else filtered;
    if metaTotal > 0 then sorted else Page(sorted, page, perPage)
  }

  /** The two ways the screen builds its page agree.  With no sort column
      getVisibleDoctors still sorts, by the property "null"; when no doctor
      has a truthy one, every sort text is "" and the order is kept. */
  lemma VisibleIsRendered(filtered: seq<Value>, sortBy: Option<string>, sortDir: Option<string>,
                          metaTotal: int, page: nat, perPage: nat)
    requires sortBy == None ==> forall i :: 0 <= i < |filtered| ==> !Truthy(Get(filtered[i], "null"))
    ensures VisibleDoctors(filtered, sortBy, sortDir, metaTotal, page, perPage)
         == RenderedDoctors(filtered, sortBy, sortDir, metaTotal, page, perPage)
  {
    if sortBy == None {
      forall i | 0 <= i < |filtered| ensures SortText(filtered[i], sortBy) == "" {
      }
      SortRowsKeepsTies(filtered, SortKey(sortBy), sortDir == Some("asc"));
    }
  }

  /** The number of doctors the footer counts. */
  function TotalCount(filtered: seq<Value>, metaTotal: int): int {
    if metaTotal > 0 then metaTotal else |filtered|
  }

  /** The first number of the footer label. */
  function ShownUpTo(total: int, page: nat, perPage: nat): int {
    Min(total, (page + 1) * perPage)
  }

  /** Without a server total, the footer's page count is exactly the number
      of non-empty pages, and its label counts the doctors up to the end of
      the page shown. */
  lemma FooterMatchesPages(filtered: seq<Value>, sortBy: Option<string>, sortDir: Option<string>, page: nat, perPage: nat)
    requires perPage > 0 && |filtered| > 0
    ensures var c := PageCount(TotalCount(filtered, 0), perPage);
            VisibleDoctors(filtered, sortBy, sortDir, 0, c - 1, perPage) != []
            && VisibleDoctors(filtered, sortBy, sortDir, 0, c, perPage) == []
    ensures page * perPage <= |filtered| ==>
            ShownUpTo(TotalCount(filtered, 0), page, perPage)
            == page * perPage + |VisibleDoctors(filtered, sortBy, sortDir, 0, page, perPage)|
  {
    var f := SortDoctors(filtered, sortBy, sortDir);
    PageCountCoversList(f, perPage);
    assert (page + 1) * perPage == page * perPage + perPage;
  }

  // ------------------------------------------------------ the sort header

  /** What a header press changes: the sort column and direction the next
      fetch sends (held in refs) and the page.  The `sortBy` state the
      rendered rows read is never set, so it stays null. */
  class SortHeader {
    var sortByRef: Option<string>
    var sortDirRef: Option<string>
    var page: nat

    constructor ()
      ensures sortByRef == None && sortDirRef == None && page == 0
    {
      sortByRef := None;
      sortDirRef := None;
      page := 0;
    }

    /** toggleSort(col), once the press gets past the screen's locks. */
    method Toggle(col: string)
      modifies this
      ensures sortByRef == Some(col)
      ensures sortDirRef == Some(NextDir(old(sortByRef), old(sortDirRef), col))
      ensures page == 0
    {
      var nextDir := NextDir(sortByRef, sortDirRef, col);
      sortByRef := Some(col);
      sortDirRef := Some(nextDir);
      page := 0;
    }

    /** The rows the table shows: whatever was pressed, in the order the
        server sent them, as `sortBy` is null. */
    method Rendered(filtered: seq<Value>, sortDir: Option<string>, metaTotal: int, perPage: nat) returns (rows: seq<Value>)
      ensures rows == RenderedDoctors(filtered, None, sortDir, metaTotal, page, perPage)
      ensures rows == if metaTotal > 0 then filtered else Page(filtered, page, perPage)
    {
      rows := if metaTotal > 0 then filtered else Page(filtered, page, perPage);
    }
  }
}

/**
 * The patients table: its client-side search, the sort value of each column
 * and the rows it displays.  The header press and the page count are the
 * shared ones of `ClientTable`.
 */
module PatientsScreen {
  import opened Wrappers
  import opened JsText
  import opened JsValue
  import opened ClientTable

  /** The columns searched when truthy, after the id. */
  const SearchedFields: seq<string> := ["name", "dob", "email", "phone", "city", "address"]

  function Parts(p: Value): seq<string> {
    IdPart(p) + TruthyTexts(p, SearchedFields)
  }

  /** getFilteredPatients. */
  function FilterPatients(list: seq<Value>, filter: string, debounced: string): seq<Value> {
    SearchRows(list, filter, debounced, Parts)
  }

  /** A patient whose name, date of birth, email, phone, city or address
      contains the term, ignoring case, is kept. */
  lemma FieldMatchKeepsPatient(list: seq<Value>, filter: string, debounced: string, p: Value, key: string, text: string)
    requires p in list && p.Obj? && key in SearchedFields
    requires Get(p, key) == Str(text) && Contains(Lower(text), SearchTerm(filter, debounced))
    ensures p in FilterPatients(list, filter, debounced)
  {
    var term := SearchTerm(filter, debounced);
    var parts := Parts(p);
    if text == "" {
      assert |term| == 0;
      assert IsPrefix(term, Lower(Join(parts, " "))[0..]);
    } else {
      var k :| 0 <= k < |SearchedFields| && SearchedFields[k] == key;
      TextIsTruthyText(p, SearchedFields, k, text);
      PartHits(parts, text, term);
    }
    HitIsKept(list, filter, debounced, Parts, p);
  }

  /** A patient is found by its id, written out in decimal. */
  lemma IdMatchKeepsPatient(list: seq<Value>, filter: string, debounced: string, p: Value, id: int)
    requires p in list && p.Obj? && Get(p, "id") == Num(id)
    requires Contains(Lower(IntToString(id)), SearchTerm(filter, debounced))
    ensures p in FilterPatients(list, filter, debounced)
  {
    PartHits(Parts(p), IntToString(id), SearchTerm(filter, debounced));
    HitIsKept(list, filter, debounced, Parts, p);
  }

  /** getPatientVal: `dob` falls back to `date_of_birth`; every other column
      reads its own property. */
  function PatientVal(it: Value, key: string): Value {
    if !Truthy(it) then Str("")
    else if key == "name" then OrEmpty(Get(it, "name"))
    else if key == "dob" then Or(Or(Get(it, "dob"), Get(it, "date_of_birth")), Str(""))
    else OrEmpty(Get(it, key))
  }

  /** The text a column sorts by: `('' + value).toLowerCase()`. */
  function SortText(it: Value, key: string): string {
    Lower(ToStr(PatientVal(it, key)))
  }

  /** The birth-date column sorts by `dob` when it is set, else by
      `date_of_birth`; every other column by its own property. */
  lemma DobFallsBack(it: Value, key: string)
    requires it.Obj?
    ensures Truthy(Get(it, "dob")) ==> SortText(it, "dob") == Lower(ToStr(Get(it, "dob")))
    ensures !Truthy(Get(it, "dob")) ==> SortText(it, "dob") == SortText(it, "date_of_birth")
    ensures key != "dob" ==> SortText(it, key) == Lower(ToStr(OrEmpty(Get(it, key))))
  {
  }

  function SortKey(key: string): Value -> string {
    it => SortText(it, key)
  }

  /** The rows displayed: sorted by the chosen column, ascending unless the
      direction is 'desc', or as filtered when no column is chosen. */
  function Displayed(filtered: seq<Value>, v: SortView): seq<Value> {
    if v.sortBy.Some? && v.sortBy.value != "" then SortRows(filtered, SortKey(v.sortBy.value), v.sortDir != "desc")
    else filtered
  }

  /** The displayed rows are the filtered ones, each pair in the order the
      comparator asks for; with no column they are the filtered list itself. */
  lemma DisplayedSorted(filtered: seq<Value>, v: SortView)
    ensures multiset(Displayed(filtered, v)) == multiset(filtered)
    ensures v.sortBy.Some? && v.sortBy.value != "" ==>
            var s := Displayed(filtered, v);
            forall i, j :: 0 <= i < j < |s| ==>
              CompareTexts(SortText(s[i], v.sortBy.value), SortText(s[j], v.sortBy.value), v.sortDir != "desc") <= 0
    ensures v.sortBy == None ==> Displayed(filtered, v) == filtered
  {
    if v.sortBy.Some? && v.sortBy.value != "" {
      SortRowsSorted(filtered, SortKey(v.sortBy.value), v.sortDir != "desc");
    }
  }
}

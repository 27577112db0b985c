/**
 * The appointments table: its client-side search, the sort value of each
 * column with its fallbacks, and the rows it displays.  The header press and
 * the page count are the shared ones of `ClientTable`.
 */
module AppointmentsScreen {
  import opened Wrappers
  import opened JsText
  import opened JsValue
  import opened ClientTable

  /** The columns searched when truthy, after the names. */
  const SearchedFields: seq<string> := ["scheduled_at", "scheduledAt", "status", "notes"]

  /** The texts an appointment is searched by: its id, the patient and
      doctor names (flat or nested), the time, the status and the notes. */
  function Parts(it: Value): seq<string> {
    IdPart(it) + TruthyTexts(it, ["patient_name", "doctor_name"])
    + NestedPart(it, "patient", "name") + NestedPart(it, "doctor", "name")
    + TruthyTexts(it, SearchedFields)
  }

  /** getFilteredAppointments. */
  function FilterAppointments(list: seq<Value>, filter: string, debounced: string): seq<Value> {
    SearchRows(list, filter, debounced, Parts)
  }

  /** An appointment whose names, time, status or notes contain the term,
      ignoring case, is kept. */
  lemma FieldMatchKeepsAppointment(list: seq<Value>, filter: string, debounced: string, it: Value, key: string, text: string)
    requires it in list && it.Obj?
    requires key in ["patient_name", "doctor_name"] + SearchedFields
    requires Get(it, key) == Str(text) && Contains(Lower(text), SearchTerm(filter, debounced))
    ensures it in FilterAppointments(list, filter, debounced)
  {
    var term := SearchTerm(filter, debounced);
    var parts := Parts(it);
    if text == "" {
      assert |term| == 0;
      assert IsPrefix(term, Lower(Join(parts, " "))[0..]);
    } else {
      FieldTextIsPart(it, key, text);
      PartHits(parts, text, term);
    }
    HitIsKept(list, filter, debounced, Parts, it);
  }

  /** A searched field holding a non-empty text contributes that text. */
  lemma FieldTextIsPart(it: Value, key: string, text: string)
    requires key in ["patient_name", "doctor_name"] + SearchedFields
    requires Get(it, key) == Str(text) && text != ""
    ensures text in Parts(it)
  {
    var names := ["patient_name", "doctor_name"];
    if key in names {
      var k :| 0 <= k < |names| && names[k] == key;
      TextIsTruthyText(it, names, k, text);
    } else {
      var k :| 0 <= k < |SearchedFields| && SearchedFields[k] == key;
      TextIsTruthyText(it, SearchedFields, k, text);
    }
  }

  /** The same for the name of a nested `patient` object. */
  lemma NestedPatientKeepsAppointment(list: seq<Value>, filter: string, debounced: string, it: Value, name: string)
    requires it in list && it.Obj? && Get(it, "patient").Obj?
    requires Get(Get(it, "patient"), "name") == Str(name) && name != ""
    requires Contains(Lower(name), SearchTerm(filter, debounced))
    ensures it in FilterAppointments(list, filter, debounced)
  {
    assert name in NestedPart(it, "patient", "name");
    PartHits(Parts(it), name, SearchTerm(filter, debounced));
    HitIsKept(list, filter, debounced, Parts, it);
  }

  /** getAppointmentVal: the value a column sorts by, with the fallbacks
      each named column takes when its own property is empty. */
  function AppointmentVal(it: Value, key: string): Value {
    if !Truthy(it) then Str("")
    else if key == "id" then Str(ToStr(Or(Or(Get(it, "id"), Get(it, "appointmentId")), Str(""))))
    else if key == "patient_name" then
      Or(Or(Or(Get(it, "patient_name"), Get(Get(it, "patient"), "name")), Get(it, "patientId")), Str(""))
    else if key == "doctor_name" then
      Or(Or(Or(Get(it, "doctor_name"), Get(Get(it, "doctor"), "name")), Get(it, "doctorId")), Str(""))
    else if key == "scheduled_at" then Or(Or(Get(it, "scheduled_at"), Get(it, "scheduledAt")), Str(""))
    else OrEmpty(Get(it, key))
  }

  /** The text a column sorts by: `('' + value).toLowerCase()`. */
  function SortText(it: Value, key: string): string {
    Lower(ToStr(AppointmentVal(it, key)))
  }

  /** The patient column sorts by the first of `patient_name`,
      `patient.name` and `patientId` that is not empty, and by '' when none
      is; the time column by `scheduled_at`, else `scheduledAt`. */
  lemma SortFallbacks(it: Value)
    requires it.Obj?
    ensures var flat, nested, id := Get(it, "patient_name"), Get(Get(it, "patient"), "name"), Get(it, "patientId");
            var t := SortText(it, "patient_name");
            (Truthy(flat) ==> t == Lower(ToStr(flat)))
            && (!Truthy(flat) && Truthy(nested) ==> t == Lower(ToStr(nested)))
            && (!Truthy(flat) && !Truthy(nested) && Truthy(id) ==> t == Lower(ToStr(id)))
            && (!Truthy(flat) && !Truthy(nested) && !Truthy(id) ==> t == "")
    ensures !Truthy(Get(it, "scheduled_at")) ==> SortText(it, "scheduled_at") == SortText(it, "scheduledAt")
  {
    var flat, nested, id := Get(it, "patient_name"), Get(Get(it, "patient"), "name"), Get(it, "patientId");
    assert |"patient_name"| != |"id"|;
    assert AppointmentVal(it, "patient_name") == Or(Or(Or(flat, nested), id), Str(""));
    var at, camel := Get(it, "scheduled_at"), Get(it, "scheduledAt");
    assert |"scheduled_at"| != |"id"| && "scheduled_at"[0] != "patient_name"[0] && "scheduled_at"[0] != "doctor_name"[0];
    assert AppointmentVal(it, "scheduled_at") == Or(Or(at, camel), Str(""));
    assert |"scheduledAt"| != |"id"| && |"scheduledAt"| != |"patient_name"| && "scheduledAt"[0] != "doctor_name"[0]
           && |"scheduledAt"| != |"scheduled_at"|;
    assert AppointmentVal(it, "scheduledAt") == OrEmpty(camel);
  }

  function SortKey(key: string): Value -> string {
    it => SortText(it, key)
  }

  /** The rows displayed: sorted by the chosen column, ascending unless the
      direction is 'desc', or as filtered when no column is chosen. */
  function Displayed(filtered: seq<Value>, v: SortView): seq<Value> {
    if v.sortBy.Some? && v.sortBy.value != "" then SortRows(filtered, SortKey(v.sortBy.value), v.sortDir != "desc")
    else filtered
  }

  /** The displayed rows are the filtered ones, each pair in the order the
      comparator asks for; with no column they are the filtered list itself. */
  lemma DisplayedSorted(filtered: seq<Value>, v: SortView)
    ensures multiset(Displayed(filtered, v)) == multiset(filtered)
    ensures v.sortBy.Some? && v.sortBy.value != "" ==>
            var s := Displayed(filtered, v);
            forall i, j :: 0 <= i < j < |s| ==>
              CompareTexts(SortText(s[i], v.sortBy.value), SortText(s[j], v.sortBy.value), v.sortDir != "desc") <= 0
    ensures v.sortBy == None ==> Displayed(filtered, v) == filtered
  {
    if v.sortBy.Some? && v.sortBy.value != "" {
      SortRowsSorted(filtered, SortKey(v.sortBy.value), v.sortDir != "desc");
    }
  }
}

/**
 * The in-memory doctor list the back end falls back to when it runs without
 * a database: listing with search, sort and paging, creating a doctor with
 * the next free id, deleting one, and marking a doctor's account active or
 * its trial end.  Doctors are matched by `String(d.id) === String(id)`.
 */
module DoctorDirectory {
  import opened Wrappers
  import opened JsText
  import opened JsValue
  import opened JsArray
  import opened Paging
  import opened ClientTable

  /** One entry of the list.  `active` and `trial` are absent until set. */
  datatype Doctor = Doctor(
    id: int,
    name: Value,
    email: Value,
    specialty: Value,
    location: Value,
    phone: Value,
    active: Option<int>,
    trial: Option<Value>)

  /** `d[key]`. */
  function Prop(d: Doctor, key: string): Value {
    if key == "id" then Num(d.id)
    else if key == "name" then d.name
    else if key == "email" then d.email
    else if key == "specialty" then d.specialty
    else if key == "location" then d.location
    else if key == "phone" then d.phone
    else if key == "active" then (match d.active case None => Undefined case Some(n) => Num(n))
    else if key == "trial_expires_at" then (match d.trial case None => Undefined case Some(v) => v)
    else Undefined
  }

  /** `v || null`. */
  function OrNull(v: Value): (r: Value)
    ensures Truthy(v) ==> r == v
    ensures !Truthy(v) ==> r == Null
  {
    if Truthy(v) then v else Null
  }

  function Entry(id: int, name: string, specialty: string, location: string, email: string, phone: string): Doctor {
    Doctor(id, Str(name), Str(email), Str(specialty), Str(location), Str(phone), None, None)
  }

  /** The five sample doctors the list starts with. */
  const SampleDoctors: seq<Doctor> := [
    Entry(1, "Dr. Alice Smith", "Cardiology", "New York", "alice@hq.com", "555-1001"),
    Entry(2, "Dr. Bob Jones", "Dermatology", "Boston", "bob@hq.com", "555-1002"),
    Entry(3, "Dr. Carol Lee", "Pediatrics", "San Francisco", "carol@hq.com", "555-1003"),
    Entry(4, "Dr. Daniel Kim", "Neurology", "Chicago", "daniel@hq.com", "555-1004"),
    Entry(5, "Dr. Eva Green", "Oncology", "Seattle", "eva@hq.com", "555-1005")
  ]

  /** No two doctors share an id. */
  predicate UniqueIds(ds: seq<Doctor>) {
    forall i, j :: 0 <= i < j < |ds| ==> ds[i].id != ds[j].id
  }

  // ----------------------------------------------------------------- list

  /** The text the search looks in:
      `d.name + ' ' + d.specialty + ' ' + d.location + ' ' + (d.email || '')`. */
  function Hay(d: Doctor): string {
    ToStr(d.name) + " " + ToStr(d.specialty) + " " + ToStr(d.location) + " " + ToStr(OrEmpty(d.email))
  }

  function MatchesFilter(f: string): Doctor -> bool {
    d => Contains(Lower(Hay(d)), f)
  }

  /** What the sort compares: `(d[sortBy] || '').toString().toLowerCase()`. */
  function SortKeyOf(sortBy: string): Doctor -> string {
    d => Lower(ToStr(OrEmpty(Prop(d, sortBy))))
  }

  datatype Listing = Listing(data: seq<Doctor>, total: int)

  /** The doctors the search keeps: those whose text contains the
      lower-cased filter, or all of them for an empty filter. */
  function Found(ds: seq<Doctor>, filter: string): seq<Doctor> {
    if filter != "" then Filter(ds, MatchesFilter(Lower(filter))) else ds
  }

  /** listDoctors without a database: the doctors found, sorted by the
      chosen property, ascending unless 'desc', and the `page`-th slice of
      `limit` of them; `total` counts before slicing.  The routes admit only
      a page of at least 1 and a limit between 1 and 1000. */
  function ListDoctors(ds: seq<Doctor>, filter: string, sortBy: string, sortDir: string, page: int, limit: int): Listing
    requires page >= 1 && 1 <= limit <= 1000
  {
    var sorted := SortRows(Found(ds, filter), SortKeyOf(sortBy), sortDir != "desc");
    Listing(Page(sorted, page - 1, limit), |sorted|)
  }

  /** Every item of a page is an item of the list. */
  lemma PageItemsFromList<T>(xs: seq<T>, page: nat, size: nat)
    ensures forall x :: x in Page(xs, page, size) ==> x in xs
  {
    var p := Page(xs, page, size);
    forall x | x in p ensures x in xs {
      var k :| 0 <= k < |p| && p[k] == x;
      assert x == xs[page * size + k];
    }
  }

  /** Each pair of items in the comparator's order. */
  predicate InOrder<T>(xs: seq<T>, key: T -> string, ascending: bool) {
    forall i, j :: 0 <= i < j < |xs| ==> CompareTexts(key(xs[i]), key(xs[j]), ascending) <= 0
  }

  /** A page of a list in comparator order is in comparator order. */
  lemma PageKeepsOrder<T>(xs: seq<T>, key: T -> string, ascending: bool, page: nat, size: nat)
    requires forall i, j :: 0 <= i < j < |xs| ==> CompareTexts(key(xs[i]), key(xs[j]), ascending) <= 0
    ensures var data := Page(xs, page, size);
            forall i, j :: 0 <= i < j < |data| ==> CompareTexts(key(data[i]), key(data[j]), ascending) <= 0
  {
    var data := Page(xs, page, size);
    forall i, j | 0 <= i < j < |data|
      ensures CompareTexts(key(data[i]), key(data[j]), ascending) <= 0
    {
      assert data[i] == xs[page * size + i] && data[j] == xs[page * size + j];
    }
  }

  /** A page of the sorted list holds at most `size` items of the list, and
      the sort keeps the length. */
  lemma SortedPage<T>(xs: seq<T>, key: T -> string, ascending: bool, page: nat, size: nat)
    ensures |SortRows(xs, key, ascending)| == |xs|
    ensures var data := Page(SortRows(xs, key, ascending), page, size);
            |data| <= size && (forall x :: x in data ==> x in xs)
  {
    var sorted := SortRows(xs, key, ascending);
    SortRowsSorted(xs, key, ascending);
    assert |multiset(sorted)| == |multiset(xs)|;
    PageSize(sorted, page, size);
    PageItemsFromList(sorted, page, size);
    forall x | x in sorted ensures x in xs {
      assert x in multiset(sorted);
    }
  }

  /** A page of the sorted list is in the comparator's order. */
  lemma SortedPageInOrder<T>(xs: seq<T>, key: T -> string, ascending: bool, page: nat, size: nat)
    ensures InOrder(Page(SortRows(xs, key, ascending), page, size), key, ascending)
  {
    SortRowsSorted(xs, key, ascending);
    PageKeepsOrder(SortRows(xs, key, ascending), key, ascending, page, size);
  }

  /** A doctor the search admits: any doctor for an empty filter, else one
      whose text contains the filter, ignoring case. */
  predicate Matches(d: Doctor, filter: string) {
    filter != "" ==> Contains(Lower(Hay(d)), Lower(filter))
  }

  /** The search keeps exactly the doctors of the list it admits. */
  lemma FoundMatches(ds: seq<Doctor>, filter: string)
    ensures forall d :: d in Found(ds, filter) <==> d in ds && Matches(d, filter)
  {
  }

  /** The listing counts every doctor the search keeps and returns at most
      `limit` of them, only doctors of the list that match. */
  lemma ListDoctorsResult(ds: seq<Doctor>, filter: string, sortBy: string, sortDir: string, page: int, limit: int)
    requires page >= 1 && 1 <= limit <= 1000
    ensures var r := ListDoctors(ds, filter, sortBy, sortDir, page, limit);
            r.total == |Found(ds, filter)|
            && |r.data| <= limit
            && (forall d :: d in r.data ==> d in ds && Matches(d, filter))
  {
    var found := Found(ds, filter);
    var key, asc := SortKeyOf(sortBy), sortDir != "desc";
    SortedPage(found, key, asc, page - 1, limit);
    PageOfFound(ds, filter, Page(SortRows(found, key, asc), page - 1, limit));
  }

  /** The listing is in the order of the chosen property, ascending unless
      'desc'. */
  lemma ListDoctorsOrdered(ds: seq<Doctor>, filter: string, sortBy: string, sortDir: string, page: int, limit: int)
    requires page >= 1 && 1 <= limit <= 1000
    ensures InOrder(ListDoctors(ds, filter, sortBy, sortDir, page, limit).data, SortKeyOf(sortBy), sortDir != "desc")
  {
    var found := Found(ds, filter);
    var key, asc := SortKeyOf(sortBy), sortDir != "desc";
    var data := Page(SortRows(found, key, asc), page - 1, limit);
    assert ListDoctors(ds, filter, sortBy, sortDir, page, limit).data == data;
    SortedPageInOrder(found, key, asc, page - 1, limit);
    assert InOrder(data, key, asc);
  }

  /** Every item of a page drawn from the found doctors is a doctor of the
      list that the search admits. */
  lemma PageOfFound(ds: seq<Doctor>, filter: string, data: seq<Doctor>)
    requires forall d :: d in data ==> d in Found(ds, filter)
    ensures forall d :: d in data ==> d in ds && Matches(d, filter)
  {
    forall d | d in data ensures d in ds && Matches(d, filter) {
      FoundOne(ds, filter, d);
    }
  }

  lemma FoundOne(ds: seq<Doctor>, filter: string, d: Doctor)
    requires d in Found(ds, filter)
    ensures d in ds && Matches(d, filter)
  {
    FoundMatches(ds, filter);
  }

  /** Ids compare as text, not as numbers: doctor 10 sorts before doctor 9. */
  lemma IdsCompareAsText(a: Doctor, b: Doctor)
    requires a.id == 10 && b.id == 9
    ensures CompareTexts(SortKeyOf("id")(a), SortKeyOf("id")(b), true) == -1
  {
    assert IntToString(10) == "10" && IntToString(9) == "9";
    assert LexLess("10", "9");
  }

  // -------------------------------------------------------------- lookups

  /** `doctors.findIndex(d => String(d.id) === String(id))`. */
  function FindIndex(ds: seq<Doctor>, id: Value): (r: int)
    ensures -1 <= r < |ds|
    ensures r >= 0 ==> IntToString(ds[r].id) == ToStr(id) && forall j :: 0 <= j < r ==> IntToString(ds[j].id) != ToStr(id)
    ensures r == -1 ==> forall j :: 0 <= j < |ds| ==> IntToString(ds[j].id) != ToStr(id)
    decreases |ds|
  {
    if ds == [] then -1
    else if IntToString(ds[0].id) == ToStr(id) then 0
    else
      var r := FindIndex(ds[1..], id);
      if r == -1 then -1 else r + 1
  }

  /** Two ids with the same decimal text are the same id. */
  lemma IdTextInjective(a: int, b: int)
    requires IntToString(a) == IntToString(b)
    ensures a == b
  {
    JsNumberOfIntToString(a);
    JsNumberOfIntToString(b);
  }

  /** With unique ids at most one doctor answers to an id. */
  lemma OnlyOneMatch(ds: seq<Doctor>, id: Value, i: int)
    requires UniqueIds(ds) && 0 <= i < |ds| && IntToString(ds[i].id) == ToStr(id)
    ensures FindIndex(ds, id) == i
  {
    var r := FindIndex(ds, id);
    if r != i {
      IdTextInjective(ds[r].id, ds[i].id);
    }
  }

  /** The largest id, or 0 for an empty list:
      `doctors.reduce((m, d) => Math.max(m, d.id), 0)`. */
  function MaxId(ds: seq<Doctor>): (r: int)
    ensures r >= 0
    decreases |ds|
  {
    if ds == [] then 0
    else
      var m := MaxId(ds[..|ds| - 1]);
      if ds[|ds| - 1].id > m then ds[|ds| - 1].id else m
  }

  /** Every id is at most the largest, so one more is fresh. */
  lemma {:induction false} MaxIdBounds(ds: seq<Doctor>)
    ensures forall i :: 0 <= i < |ds| ==> ds[i].id <= MaxId(ds)
    decreases |ds|
  {
    if ds != [] {
      var init := ds[..|ds| - 1];
      MaxIdBounds(init);
      assert forall i :: 0 <= i < |ds| - 1 ==> ds[i] == init[i];
    }
  }

  /** Removing the doctor that answers to an id from a list with unique
      ids keeps the ids unique and leaves no doctor answering to it. */
  lemma DeleteRemovesTheOnlyMatch(ds: seq<Doctor>, id: Value)
    requires UniqueIds(ds) && FindIndex(ds, id) >= 0
    ensures var rest := Without(ds, FindIndex(ds, id));
            UniqueIds(rest) && FindIndex(rest, id) == -1 && |rest| == |ds| - 1
  {
    var idx := FindIndex(ds, id);
    var rest := Without(ds, idx);
    assert rest == ds[..idx] + ds[idx + 1..];
    forall i, j | 0 <= i < j < |rest| ensures rest[i].id != rest[j].id {
      WithoutAt(ds, idx, i);
      WithoutAt(ds, idx, j);
    }
    forall j | 0 <= j < |rest| ensures IntToString(rest[j].id) != ToStr(id) {
      WithoutAt(ds, idx, j);
      var k := if j < idx then j else j + 1;
      if IntToString(ds[k].id) == ToStr(id) {
        OnlyOneMatch(ds, id, k);
      }
    }
  }

  /** The item at `j` once the one at `idx` is taken out. */
  lemma WithoutAt<T>(xs: seq<T>, idx: int, j: int)
    requires 0 <= idx < |xs| && 0 <= j < |xs| - 1
    ensures Without(xs, idx)[j] == xs[if j < idx then j else j + 1]
  {
  }

  /** A doctor just created is found by its id, at the end of the list, so
      deleting that id gives the list back as it was before. */
  lemma {:induction false} CreatedIsFoundLast(ds: seq<Doctor>, doc: Doctor)
    requires doc.id == MaxId(ds) + 1
    ensures FindIndex(ds + [doc], Num(doc.id)) == |ds|
    ensures Without(ds + [doc], FindIndex(ds + [doc], Num(doc.id))) == ds
  {
    var all := ds + [doc];
    MaxIdBounds(ds);
    forall j | 0 <= j < |ds| ensures IntToString(all[j].id) != ToStr(Num(doc.id)) {
      assert all[j] == ds[j];
      if IntToString(ds[j].id) == IntToString(doc.id) {
        IdTextInjective(ds[j].id, doc.id);
      }
    }
    assert all[|ds|] == doc && ToStr(Num(doc.id)) == IntToString(doc.id);
    var r := FindIndex(all, Num(doc.id));
    assert r != -1;
    assert !(r < |ds|);
    assert all[..|ds|] == ds;
  }

  // -------------------------------------------------------- the list itself

  class Directory {
    var doctors: seq<Doctor>

    predicate Valid()
      reads this
    {
      UniqueIds(doctors)
    }

    constructor ()
      ensures doctors == SampleDoctors && Valid()
    {
      doctors := SampleDoctors;
    }

    /** createDoctor: a new doctor with the next id after the largest one,
        empty optional fields stored as null, appended to the list. */
    method Create(name: Value, email: Value, specialty: Value, location: Value, phone: Value) returns (doc: Doctor)
      requires Valid()
      modifies this
      ensures Valid()
      ensures doc == Doctor(MaxId(old(doctors)) + 1, name, email, OrNull(specialty), OrNull(location), OrNull(phone), None, None)
      ensures doctors == old(doctors) + [doc]
      ensures forall d :: d in old(doctors) ==> d.id < doc.id
    {
      MaxIdBounds(doctors);
      var id := MaxId(doctors) + 1;
      doc := Doctor(id, name, email, OrNull(specialty), OrNull(location), OrNull(phone), None, None);
      doctors := doctors + [doc];
    }

    /** deleteDoctor: the entry answering to `id` is removed and true is
        returned; false, with the list unchanged, when none does. */
    method Delete(id: Value) returns (found: bool)
      requires Valid()
      modifies this
      ensures Valid()
      ensures found <==> exists i :: 0 <= i < |old(doctors)| && IntToString(old(doctors)[i].id) == ToStr(id)
      ensures doctors == Without(old(doctors), FindIndex(old(doctors), id))
      ensures found ==> FindIndex(doctors, id) == -1 && |doctors| == |old(doctors)| - 1
    {
      var idx := FindIndex(doctors, id);
      if idx == -1 {
        return false;
      }
      DeleteRemovesTheOnlyMatch(doctors, id);
      doctors := Without(doctors, idx);
      found := true;
    }

    /** setUserActiveByDoctorId: the entry answering to `doctorId` gets
        `active` 1 or 0; false when none does. */
    method SetActive(doctorId: Value, active: bool) returns (found: bool)
      requires Valid()
      modifies this
      ensures Valid()
      ensures var i := FindIndex(old(doctors), doctorId);
              found == (i >= 0)
              && doctors == if i >= 0 then old(doctors)[i := old(doctors)[i].(active := Some(if active then 1 else 0))] else old(doctors)
    {
      var idx := FindIndex(doctors, doctorId);
      if idx == -1 {
        return false;
      }
      doctors := doctors[idx := doctors[idx].(active := Some(if active then 1 else 0))];
      found := true;
    }

    /** setTrialByDoctorId: the first entry answering to `doctorId` gets
        `trial_expires_at = trialExpiresAt || null`; false when none does. */
    method SetTrial(doctorId: Value, trialExpiresAt: Value) returns (found: bool)
      requires Valid()
      modifies this
      ensures Valid()
      ensures var i := FindIndex(old(doctors), doctorId);
              found == (i >= 0)
              && doctors == if i >= 0 then old(doctors)[i := old(doctors)[i].(trial := Some(OrNull(trialExpiresAt)))] else old(doctors)
    {
      var idx := FindIndex(doctors, doctorId);
      if idx == -1 {
        return false;
      }
      doctors := doctors[idx := doctors[idx].(trial := Some(OrNull(trialExpiresAt)))];
      found := true;
    }
  }

  /** The sample list has unique ids. */
  lemma SampleIdsUnique()
    ensures UniqueIds(SampleDoctors)
  {
  }
}

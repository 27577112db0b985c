/**
 * The dashboard's confirm button (healthQue-frontend/src/screens/DashboardScreen.js)
 * composed with the off-day handlers it calls: 'set' posts a one-day
 * emergency off-day; 'unset' patches the date and then patches each shown
 * row to 'working'.  Each request's failure is ignored by the screen, so the
 * model simply runs the handlers in order on the same table.
 */
module CalendarFlow {
  import opened Wrappers
  import opened OffDayStore
  import opened OffDayController
  import opened Dashboard
  import JsValue

  /** The body of the 'set' POST. */
  function SetBody(date: int): OffDayBody {
    OffDayBody(Some(date), Some(date), JsValue.Undefined, None, Some("emergency"), Some("Set from calendar"), None)
  }

  /** The confirm button's 'set' branch: one POST to the doctor's off-days. */
  method ConfirmSetRequest(store: OffDayTable, user: User, doctorOf: map<int, int>, doctorId: int, date: int)
    returns (reply: Reply)
    requires store.Valid()
    modifies store
    ensures store.Valid()
    ensures doctorId >= 1 && Authorize(user, doctorOf, doctorId).None? ==>
      reply.code == 201 && reply.body.Data?
      && (store.State(), reply.body.row) == Create(old(store.State()), AddPayload(doctorId, SetBody(date)))
    ensures doctorId < 1 || Authorize(user, doctorOf, doctorId).Some? ==> store.State() == old(store.State())
  {
    reply := AddOffDay(store, Some(user), doctorOf, doctorId, SetBody(date));
  }

  /** The 'set' POST passes the route's checks and writes a one-day
      'emergency' 'off' row for the date, which the dashboard lists among the
      day's 'off' rows, and shows for the day when no 'working' row applies
      to it. */
  lemma SetMarksDayOff(t: Table, doctorId: int, date: int)
    requires ValidTable(t) && doctorId >= 1
    ensures AddRequestValid(doctorId, SetBody(date))
    ensures var (t2, row) := Create(t, AddPayload(doctorId, SetBody(date)));
      row.Some? && row.value in t2.rows
      && row.value.doctorId == doctorId && row.value.startDate == date && row.value.endDate == Some(date)
      && !row.value.recurring && row.value.kind == "emergency" && row.value.reason == Some("Set from calendar")
      && row.value.status == Off
      && row.value in OffOn(t2.rows, date)
      && ((forall x :: x in t2.rows && Touches(x, date) ==> x.status != Working) ==> row.value in DayList(t2.rows, date))
  {
    var inp := AddPayload(doctorId, SetBody(date));
    CreateReturnsWrittenRow(t, inp);
    var (t2, row) := Create(t, inp);
    assert RowKey(row.value) == DateKey(doctorId, date);
    assert Touches(row.value, date);
    DayListAfterLastReset(t2.rows, date);
    if forall x :: x in t2.rows && Touches(x, date) ==> x.status != Working {
      var k := LastReset(t2.rows, date);
      if k > 0 {
        assert false;
      }
      assert t2.rows[k..] == t2.rows;
    }
  }

  /** The body of the date PATCH as the screen sends it: a date and a status,
      which the handler does not read, and no action. */
  function UnsetBodyAsWritten(date: int): DateBody {
    DateBody(Some(date), JsValue.Undefined, None, None)
  }

  /** The body the date PATCH needs to unset. */
  function UnsetBody(date: int): DateBody {
    DateBody(Some(date), JsValue.Str("unset"), None, None)
  }

  /** The per-row PATCHes, one after the other. */
  function FlipAll(t: Table, user: User, doctorOf: map<int, int>, rows: seq<OffDay>): (r: Table)
    decreases |rows|
  {
    if rows == [] then t
    else Toggle(FlipAll(t, user, doctorOf, rows[..|rows| - 1]), Some(user), doctorOf, rows[|rows| - 1].id, Some(Working)).0
  }

  /** The table after the screen's 'unset' of `date` for the shown `rows`. */
  function ConfirmUnsetAsWritten(t: Table, user: User, doctorOf: map<int, int>, doctorId: int, date: int, rows: seq<OffDay>): Table {
    FlipAll(SetByDate(t, Some(user), doctorOf, doctorId, UnsetBodyAsWritten(date)).0, user, doctorOf, rows)
  }

  /** The table after an 'unset' that names its action and sends nothing else. */
  function ConfirmUnset(t: Table, user: User, doctorOf: map<int, int>, doctorId: int, date: int): Table {
    SetByDate(t, Some(user), doctorOf, doctorId, UnsetBody(date)).0
  }

  /** The confirm button's 'unset' branch as the screen runs it. */
  method ConfirmUnsetRequests(store: OffDayTable, user: User, doctorOf: map<int, int>, doctorId: int, date: int, rows: seq<OffDay>)
    requires store.Valid()
    modifies store
    ensures store.Valid()
    ensures store.State() == ConfirmUnsetAsWritten(old(store.State()), user, doctorOf, doctorId, date, rows)
  {
    var _ := SetOffDayByDate(store, Some(user), doctorOf, doctorId, UnsetBodyAsWritten(date));
    ghost var t1 := store.State();
    for i := 0 to |rows|
      invariant store.Valid()
      invariant store.State() == FlipAll(t1, user, doctorOf, rows[..i])
    {
      assert rows[..i + 1][..i] == rows[..i];
      var _ := ToggleOffDayStatus(store, Some(user), doctorOf, rows[i].id, Some(Working));
    }
    assert rows[..|rows|] == rows;
  }

  /** A toggle only ever changes rows with the toggled id, and only their status. */
  lemma ToggleTouchesOnlyId(t: Table, user: User, doctorOf: map<int, int>, id: int, s: Option<string>)
    ensures var t2 := Toggle(t, Some(user), doctorOf, id, s).0;
      |t2.rows| == |t.rows|
      && (forall i :: 0 <= i < |t.rows| && t.rows[i].id != id ==> t2.rows[i] == t.rows[i])
      && (forall i :: 0 <= i < |t.rows| ==> t2.rows[i].(status := t.rows[i].status) == t.rows[i])
  {
  }

  lemma {:induction false} FlipAllKeepsLast(t: Table, user: User, doctorOf: map<int, int>, rows: seq<OffDay>, x: OffDay)
    requires |t.rows| > 0 && t.rows[|t.rows| - 1] == x
    requires forall r :: r in rows ==> r.id != x.id
    ensures var t2 := FlipAll(t, user, doctorOf, rows);
      |t2.rows| == |t.rows| && t2.rows[|t2.rows| - 1] == x
    decreases |rows|
  {
    if rows != [] {
      var init := rows[..|rows| - 1];
      assert forall r :: r in init ==> r in rows;
      FlipAllKeepsLast(t, user, doctorOf, init, x);
      ToggleTouchesOnlyId(FlipAll(t, user, doctorOf, init), user, doctorOf, rows[|rows| - 1].id, Some(Working));
    }
  }

  /** A row the listing selects, appended last, is listed last. */
  lemma ListedLast(rows: seq<OffDay>, x: OffDay, doctorId: int, q: Query)
    requires Selected(x, doctorId, q)
    ensures ListOffDays(rows + [x], doctorId, q) == ListOffDays(rows, doctorId, q) + [x]
  {
    assert (rows + [x])[..|rows + [x]| - 1] == rows;
  }

  /** When the doctor has no dated row starting on `date`, the screen's
      'unset' writes a new one-day 'off' row (the missing action means 'set')
      that none of the per-row patches reaches, so reloading the dashboard
      still shows the date as off. */
  lemma UnsetAsWrittenLeavesDayOff(t0: Table, user: User, doctorOf: map<int, int>, doctorId: int,
                                   date: int, rows: seq<OffDay>, from: int, to: int)
    requires ValidTable(t0) && Authorize(user, doctorOf, doctorId).None?
    requires forall x :: x in t0.rows ==> RowKey(x) != DateKey(doctorId, date)
    requires forall r :: r in rows ==> r in t0.rows
    requires from <= date <= to
    ensures var t := ConfirmUnsetAsWritten(t0, user, doctorOf, doctorId, date, rows);
      DayList(ListOffDays(t.rows, doctorId, Query(None, Some(from), Some(to))), date) != []
  {
    var v := Normalize(SetInput(doctorId, date, UnsetBodyAsWritten(date)));
    var t1 := SetByDate(t0, Some(user), doctorOf, doctorId, UnsetBodyAsWritten(date)).0;
    var x := NewRow(t0.nextId, v);
    UnsetAsWrittenAppends(t0, user, doctorOf, doctorId, date);
    forall r | r in rows ensures r.id != x.id {
      var i :| 0 <= i < |t0.rows| && t0.rows[i] == r;
    }
    FlipAllKeepsLast(t1, user, doctorOf, rows, x);
    var t := ConfirmUnsetAsWritten(t0, user, doctorOf, doctorId, date, rows);
    var q := Query(None, Some(from), Some(to));
    var p := t.rows[..|t.rows| - 1];
    assert t.rows == p + [x];
    ListedLast(p, x, doctorId, q);
    AppendedOffRowShows(ListOffDays(p, doctorId, q), x, date);
  }

  /** With no dated row on `date`, the screen's date PATCH appends a fresh
      one-day 'off' row. */
  lemma UnsetAsWrittenAppends(t0: Table, user: User, doctorOf: map<int, int>, doctorId: int, date: int)
    requires ValidTable(t0) && Authorize(user, doctorOf, doctorId).None?
    requires forall x :: x in t0.rows ==> RowKey(x) != DateKey(doctorId, date)
    ensures var v := Normalize(SetInput(doctorId, date, UnsetBodyAsWritten(date)));
      SetByDate(t0, Some(user), doctorOf, doctorId, UnsetBodyAsWritten(date)).0.rows == t0.rows + [NewRow(t0.nextId, v)]
  {
    var b := UnsetBodyAsWritten(date);
    var inp := SetInput(doctorId, date, b);
    var v := Normalize(inp);
    assert Sets(b);
    assert SetByDate(t0, Some(user), doctorOf, doctorId, b).0 == Create(t0, inp).0;
    assert ValuesKey(v) == DateKey(doctorId, date);
    assert FindKey(t0.rows, ValuesKey(v)) == -1;
  }

  /** The per-row patches, as written, also turn a shown weekly rule into
      'working' for every week, not just for `date`. */
  lemma UnsetAsWrittenCancelsRule(t0: Table, user: User, doctorOf: map<int, int>, doctorId: int,
                                  date: int, rows: seq<OffDay>, k: int)
    requires ValidTable(t0) && Authorize(user, doctorOf, doctorId).None?
    requires 0 <= k < |t0.rows| && t0.rows[k].recurring && t0.rows[k].doctorId == doctorId
    requires t0.rows[k] in rows
    ensures var t := ConfirmUnsetAsWritten(t0, user, doctorOf, doctorId, date, rows);
      k < |t.rows| && t.rows[k].id == t0.rows[k].id && t.rows[k].recurring && t.rows[k].status == Working
  {
    var inp := SetInput(doctorId, date, UnsetBodyAsWritten(date));
    var v := Normalize(inp);
    var t1 := SetByDate(t0, Some(user), doctorOf, doctorId, UnsetBodyAsWritten(date)).0;
    assert t1 == Upsert(t0, v).0;
    UpsertStores(t0, v);
    UpsertKeepsValid(t0, v);
    assert t1.rows[k] == t0.rows[k];
    FlipAllCancels(t1, user, doctorOf, rows, k, t0.rows[k]);
  }

  lemma ToggleKeepsValid(t: Table, user: User, doctorOf: map<int, int>, id: int, st: Option<string>)
    requires ValidTable(t)
    ensures ValidTable(Toggle(t, Some(user), doctorOf, id, st).0)
  {
    var od := GetOffDayById(t.rows, id);
    if od.Some? {
      SetStatusKeepsValid(t, id, Wanted(st, od.value.status));
    }
  }

  /** One per-row patch: the watched row `k` keeps everything but its status,
      and becomes 'working' when the patch names its id. */
  lemma FlipOne(t: Table, user: User, doctorOf: map<int, int>, id: int, k: int, rule: OffDay)
    requires ValidTable(t) && 0 <= k < |t.rows| && t.rows[k].id == rule.id
    requires t.rows[k].(status := rule.status) == rule
    requires RowAllowed(user, doctorOf, rule)
    ensures var t2 := Toggle(t, Some(user), doctorOf, id, Some(Working)).0;
      ValidTable(t2) && |t2.rows| == |t.rows| && t2.rows[k].(status := rule.status) == rule
      && (id == rule.id ==> t2.rows[k].status == Working)
  {
    var t2 := Toggle(t, Some(user), doctorOf, id, Some(Working)).0;
    ToggleKeepsValid(t, user, doctorOf, id, Some(Working));
    ToggleTouchesOnlyId(t, user, doctorOf, id, Some(Working));
    assert t2.rows[k].(status := t.rows[k].status) == t.rows[k];
    if id == rule.id {
      var row := t.rows[k];
      GetByIdAt(t, k);
      assert GetOffDayById(t.rows, id) == Some(row);
      assert row.doctorId == rule.doctorId;
      assert RowAllowed(user, doctorOf, row);
      assert Wanted(Some(Working), row.status) == Working;
      assert t2.rows == SetStatus(t.rows, id, Working);
    }
  }

  lemma {:induction false} FlipAllCancels(t: Table, user: User, doctorOf: map<int, int>, rows: seq<OffDay>, k: int, rule: OffDay)
    requires ValidTable(t) && 0 <= k < |t.rows| && t.rows[k].id == rule.id
    requires t.rows[k].(status := rule.status) == rule
    requires RowAllowed(user, doctorOf, rule)
    ensures var t2 := FlipAll(t, user, doctorOf, rows);
      ValidTable(t2) && |t2.rows| == |t.rows| && t2.rows[k].(status := rule.status) == rule
      && (rule in rows ==> t2.rows[k].status == Working)
    decreases |rows|
  {
    if rows != [] {
      var init := rows[..|rows| - 1];
      var last := rows[|rows| - 1];
      FlipAllCancels(t, user, doctorOf, init, k, rule);
      var t1 := FlipAll(t, user, doctorOf, init);
      FlipOne(t1, user, doctorOf, last.id, k, rule);
      var t2 := FlipAll(t, user, doctorOf, rows);
      assert t2 == Toggle(t1, Some(user), doctorOf, last.id, Some(Working)).0;
      if rule in rows && last != rule {
        assert rule in init;
        assert t1.rows[k].status == Working;
        ToggleTouchesOnlyId(t1, user, doctorOf, last.id, Some(Working));
        if last.id != rule.id {
          assert t2.rows[k] == t1.rows[k];
        }
      }
    }
  }

  /** With the action named and no per-row patches, the date resolves to
      clear: every dated row found for it is 'working', and any weekly rule
      is matched by a one-day 'working' entry for the date. */
  lemma UnsetClearsDay(t0: Table, user: User, doctorOf: map<int, int>, doctorId: int, date: int, from: int, to: int)
    requires ValidTable(t0) && Authorize(user, doctorOf, doctorId).None?
    requires from <= date <= to
    ensures var t := ConfirmUnset(t0, user, doctorOf, doctorId, date);
      Resolve(ListOffDays(t.rows, doctorId, Query(None, Some(from), Some(to))), date) == []
  {
    assert ConfirmUnset(t0, user, doctorOf, doctorId, date) == UnsetTable(t0, doctorId, date, None);
    if exists rule :: rule in t0.rows && rule.doctorId == doctorId && rule.recurring && Touches(rule, date) && rule.status == Off {
      var rule :| rule in t0.rows && rule.doctorId == doctorId && rule.recurring && Touches(rule, date) && rule.status == Off;
      ClearedByOverride(t0, doctorId, date, from, to, rule);
    } else {
      ClearedWithoutRule(t0, doctorId, date, from, to);
    }
  }

  lemma ClearedByOverride(t0: Table, doctorId: int, date: int, from: int, to: int, rule: OffDay)
    requires ValidTable(t0) && from <= date <= to
    requires rule in t0.rows && rule.doctorId == doctorId && rule.recurring
    ensures var t := UnsetTable(t0, doctorId, date, None);
      Resolve(ListOffDays(t.rows, doctorId, Query(None, Some(from), Some(to))), date) == []
  {
    var t := UnsetTable(t0, doctorId, date, None);
    var q := Query(None, Some(from), Some(to));
    UnsetOverridesRules(t0, doctorId, date, None, rule);
    var w :| 0 <= w < |t.rows| && RowKey(t.rows[w]) == DateKey(doctorId, date)
      && t.rows[w].endDate == Some(date) && t.rows[w].status == Working;
    assert Selected(t.rows[w], doctorId, q);
    assert t.rows[w] in ListOffDays(t.rows, doctorId, q) && Touches(t.rows[w], date);
  }

  lemma ClearedWithoutRule(t0: Table, doctorId: int, date: int, from: int, to: int)
    requires ValidTable(t0)
    requires forall rule :: rule in t0.rows && rule.doctorId == doctorId && rule.recurring && Touches(rule, date) ==> rule.status != Off
    ensures var t := UnsetTable(t0, doctorId, date, None);
      Resolve(ListOffDays(t.rows, doctorId, Query(None, Some(from), Some(to))), date) == []
  {
    var t := UnsetTable(t0, doctorId, date, None);
    var listed := ListOffDays(t.rows, doctorId, Query(None, Some(from), Some(to)));
    UnsetKeepsRules(t0, doctorId, date, None);
    UnsetClearsDatedRows(t0, doctorId, date, None);
    forall x | x in listed && Touches(x, date)
      ensures x.status != Off
    {
      var i :| 0 <= i < |t.rows| && t.rows[i] == x;
      if x.recurring {
        assert i < |t0.rows| && t.rows[i] == t0.rows[i];
      } else {
        assert x.doctorId == doctorId;
        assert CoversDate(t.rows[i], doctorId, date);
      }
    }
    NoOffRow(listed, date);
  }

  lemma {:induction false} NoOffRow(rows: seq<OffDay>, d: int)
    requires forall x :: x in rows && Touches(x, d) ==> x.status != Off
    ensures OffOn(rows, d) == []
    decreases |rows|
  {
    if rows != [] {
      var init := rows[..|rows| - 1];
      assert forall x :: x in init ==> x in rows;
      NoOffRow(init, d);
    }
  }

  /** Unsetting this way never touches a weekly rule. */
  lemma UnsetKeepsWeeklyRules(t0: Table, user: User, doctorOf: map<int, int>, doctorId: int, date: int)
    requires ValidTable(t0) && Authorize(user, doctorOf, doctorId).None?
    ensures var t := ConfirmUnset(t0, user, doctorOf, doctorId, date);
      |t.rows| >= |t0.rows| && forall i :: 0 <= i < |t0.rows| && t0.rows[i].recurring ==> t.rows[i] == t0.rows[i]
  {
    UnsetKeepsRules(t0, doctorId, date, None);
  }
}

/**
 * The off-day request handlers (healthQue-backend/controllers/doctorController.js,
 * getOffDays .. setOffDayByDate) over the off-day table.
 *
 * The signed-in user is what the access token carries: a role, the user id
 * and, possibly, a doctor id (tokens issued at login carry none).  The lookup
 * `SELECT id FROM doctors WHERE user_id = ?` is the map `doctorOf` from user
 * ids to doctor ids.  A reply is its status code and JSON body.
 */
module OffDayController {
  import opened Wrappers
  import opened OffDayStore
  import Dates
  import JsValue

  datatype User = User(role: string, userId: Option<int>, doctorId: Option<int>)

  datatype Body =
    | Rows(rows: seq<OffDay>)
    | Data(row: Option<OffDay>)
    | Results(items: seq<Option<OffDay>>)
    | Success
    | Failure(message: string)

  datatype Reply = Reply(code: int, body: Body)

  const Unauthorized := Reply(401, Failure("Unauthorized"))
  const Forbidden := Reply(403, Failure("Forbidden"))
  const NotFound := Reply(404, Failure("Not found"))

  /** The doctor id the users table gives for a user id. */
  function OwnDoctorId(doctorOf: map<int, int>, userId: Option<int>): Option<int> {
    if userId.Some? && userId.value in doctorOf then Some(doctorOf[userId.value]) else None
  }

  /** The caller owns doctor `doctorId` according to the users table. */
  predicate Owns(user: User, doctorOf: map<int, int>, doctorId: int) {
    var own := OwnDoctorId(doctorOf, user.userId);
    own.Some? && own.value != 0 && own.value == doctorId
  }

  /** The rule getOffDays, addOffDay and setOffDayByDate share: `None` lets the
      request through, otherwise the reply is 403. */
  function Authorize(user: User, doctorOf: map<int, int>, doctorId: int): (r: Option<Reply>)
    ensures r.None? <==> user.role == "admin" || (user.role == "doctor" && Owns(user, doctorOf, doctorId))
    ensures r.Some? ==> r.value == Forbidden
  {
    if user.role == "admin" then None
    else if user.role == "doctor" then
      var own := OwnDoctorId(doctorOf, user.userId);
      if own.None? || own.value == 0 || own.value != doctorId then Some(Forbidden) else None
    else Some(Forbidden)
  }

  /** GET /doctors/:id/offdays */
  function GetOffDays(t: Table, user: Option<User>, doctorOf: map<int, int>, doctorId: int, q: Query): (r: Reply)
    ensures user.None? ==> r == Unauthorized
    ensures user.Some? ==> (r.code == 200 <==> Authorize(user.value, doctorOf, doctorId).None?)
    ensures r.code == 200 ==> r.body == Rows(ListOffDays(t.rows, doctorId, q))
    ensures r.code == 200 ==> r.body.Rows? && forall x :: x in r.body.rows ==> x in t.rows && x.doctorId == doctorId
  {
    if user.None? then Unauthorized
    else
      var deny := Authorize(user.value, doctorOf, doctorId);
      if deny.Some? then deny.value else Reply(200, Rows(ListOffDays(t.rows, doctorId, q)))
  }

  // ---------------------------------------------------------------- POST

  /** The JSON body of POST /doctors/:id/offdays; `None` is an absent field.
      `is_recurring_weekly` is kept as the JSON value sent (`Undefined` when
      absent), since the handler reads it by truthiness. */
  datatype OffDayBody = OffDayBody(
    startDate: Option<int>,
    endDate: Option<int>,
    recurring: JsValue.Value,
    dayOfWeek: Option<int>,
    kind: Option<string>,
    reason: Option<string>,
    status: Option<string>)

  /** The route's validators, which addOffDay checks first. */
  predicate AddRequestValid(doctorId: int, b: OffDayBody) {
    doctorId >= 1
    && b.startDate.Some?
    && BooleanField(b.recurring)
    && (b.dayOfWeek.Some? ==> 0 <= b.dayOfWeek.value <= 6)
    && (b.kind.Some? ==> b.kind.value == "scheduled" || b.kind.value == "emergency")
  }

  /** `optional().isBoolean()` on `is_recurring_weekly`: an absent value
      passes; otherwise its text must be 'true', 'false', '1' or '0'. */
  predicate BooleanField(v: JsValue.Value) {
    match v
    case Undefined => true
    case Bool(_) => true
    case Num(n) => n == 0 || n == 1
    case Str(s) => s == "true" || s == "false" || s == "1" || s == "0"
    case _ => false
  }

  /** addOffDay's payload: each field falls back with `||`, and the weekly
      flag is the truthiness of the value sent. */
  function AddPayload(doctorId: int, b: OffDayBody): OffDayInput
    requires b.startDate.Some?
  {
    OffDayInput(
      doctorId,
      b.startDate.value,
      b.endDate,
      Some(JsValue.Truthy(b.recurring)),
      b.dayOfWeek,
      Some(if b.kind.Some? && b.kind.value != "" then b.kind.value else Scheduled),
      if b.reason.Some? && b.reason.value != "" then b.reason else None,
      Some(if b.status.Some? && b.status.value != "" then b.status.value else Off))
  }

  /** A body holding only a start date is stored as a one-day-or-open 'off'
      entry: no end date, not weekly, type 'scheduled', no reason. */
  lemma AddPayloadDefaults(t: Table, doctorId: int, start: int)
    requires ValidTable(t)
    ensures var b := OffDayBody(Some(start), None, JsValue.Undefined, None, None, None, None);
      var row := Create(t, AddPayload(doctorId, b)).1;
      row.Some? && row.value.doctorId == doctorId && row.value.startDate == start
      && row.value.endDate.None? && !row.value.recurring && row.value.dayOfWeek.None?
      && row.value.kind == Scheduled && row.value.reason.None? && row.value.status == Off
  {
    var b := OffDayBody(Some(start), None, JsValue.Undefined, None, None, None, None);
    CreateReturnsWrittenRow(t, AddPayload(doctorId, b));
    var row := Create(t, AddPayload(doctorId, b)).1.value;
    assert RowKey(row) == DateKey(doctorId, start);
  }

  /** Of the values the route lets through, `true`, `1` and every text,
      'false' and '0' included, store a weekly rule; `false`, `0` and an
      absent flag store a dated row. */
  lemma WeeklyFlagOfValidBody(doctorId: int, b: OffDayBody)
    requires AddRequestValid(doctorId, b)
    ensures AddPayload(doctorId, b).recurring
            == Some(b.recurring == JsValue.Bool(true) || b.recurring == JsValue.Num(1) || b.recurring.Str?)
  {
  }

  /** POST /doctors/:id/offdays */
  method AddOffDay(store: OffDayTable, user: Option<User>, doctorOf: map<int, int>, doctorId: int, b: OffDayBody)
    returns (reply: Reply)
    requires store.Valid()
    modifies store
    ensures store.Valid()
    ensures !AddRequestValid(doctorId, b) ==> reply.code == 400 && store.State() == old(store.State())
    ensures AddRequestValid(doctorId, b) && user.None? ==> reply == Unauthorized && store.State() == old(store.State())
    ensures AddRequestValid(doctorId, b) && user.Some? && Authorize(user.value, doctorOf, doctorId).Some? ==>
      reply == Forbidden && store.State() == old(store.State())
    ensures AddRequestValid(doctorId, b) && user.Some? && Authorize(user.value, doctorOf, doctorId).None? ==>
      reply.code == 201 && reply.body.Data?
      && (store.State(), reply.body.row) == Create(old(store.State()), AddPayload(doctorId, b))
  {
    if !AddRequestValid(doctorId, b) {
      reply := Reply(400, Failure("Invalid request"));
    } else if user.None? {
      reply := Unauthorized;
    } else {
      var deny := Authorize(user.value, doctorOf, doctorId);
      if deny.Some? {
        reply := deny.value;
      } else {
        var created := store.CreateOffDay(AddPayload(doctorId, b));
        reply := Reply(201, Data(created));
      }
    }
  }

  // ---------------------------------------------------------------- DELETE

  /** deleteOffDay's check as written: it compares the token's doctor id. */
  predicate DeleteAllowedAsWritten(user: User, od: OffDay) {
    user.role == "admin" || user.doctorId == Some(od.doctorId)
  }

  /** Owner-or-admin for a stored row: the token's doctor id or the users
      table must name the row's doctor. */
  predicate RowAllowed(user: User, doctorOf: map<int, int>, od: OffDay) {
    user.role == "admin"
    || (user.role == "doctor" && (user.doctorId == Some(od.doctorId) || Owns(user, doctorOf, od.doctorId)))
  }

  /** Tokens issued at login carry no doctor id, so as written a doctor can
      never delete an off-day, even their own; the owner rule admits them. */
  lemma DeleteAsWrittenRefusesOwner(user: User, doctorOf: map<int, int>, od: OffDay)
    requires user.role == "doctor" && user.doctorId.None?
    requires Owns(user, doctorOf, od.doctorId)
    ensures !DeleteAllowedAsWritten(user, od)
    ensures RowAllowed(user, doctorOf, od)
  {
  }

  /** DELETE /doctors/offdays/:id: the row is marked 'working', not removed. */
  method DeleteOffDay(store: OffDayTable, user: Option<User>, doctorOf: map<int, int>, id: int)
    returns (reply: Reply)
    requires store.Valid()
    modifies store
    ensures store.Valid()
    ensures user.None? ==> reply == Unauthorized && store.State() == old(store.State())
    ensures user.Some? && GetOffDayById(old(store.rows), id).None? ==>
      reply == NotFound && store.State() == old(store.State())
    ensures (user.Some? && GetOffDayById(old(store.rows), id).Some?
             && !RowAllowed(user.value, doctorOf, GetOffDayById(old(store.rows), id).value)) ==>
      reply == Forbidden && store.State() == old(store.State())
    ensures (user.Some? && GetOffDayById(old(store.rows), id).Some?
             && RowAllowed(user.value, doctorOf, GetOffDayById(old(store.rows), id).value)) ==>
      reply == Reply(200, Success) && store.State() == Delete(old(store.State()), id).0
  {
    if user.None? {
      reply := Unauthorized;
    } else {
      var od := GetOffDayById(store.rows, id);
      if od.None? {
        reply := NotFound;
      } else if !RowAllowed(user.value, doctorOf, od.value) {
        reply := Forbidden;
      } else {
        var ok := store.DeleteOffDay(id);
        reply := if ok then Reply(200, Success) else NotFound;
      }
    }
  }

  // ---------------------------------------------------------------- PATCH status

  /** toggleOffDayStatus's check as written: besides the token's doctor id it
      accepts a token whose *user* id equals the row's doctor id. */
  predicate ToggleAllowedAsWritten(user: User, doctorOf: map<int, int>, od: OffDay) {
    user.role == "admin"
    || (user.role == "doctor"
        && (user.doctorId == Some(od.doctorId) || user.userId == Some(od.doctorId)
            || (user.userId.Some? && user.userId.value != 0 && Owns(user, doctorOf, od.doctorId))))
  }

  /** A doctor whose user id happens to equal another doctor's id may change
      that doctor's off-days as written; the owner rule refuses. */
  lemma ToggleAsWrittenAdmitsStranger()
    ensures var user := User("doctor", Some(5), None);
      var doctorOf := map[5 := 9];
      var od := OffDay(1, 5, 100, None, false, None, Scheduled, None, Off);
      ToggleAllowedAsWritten(user, doctorOf, od) && !RowAllowed(user, doctorOf, od)
  {
  }

  /** The status the toggle writes: the body's, or the opposite of 'off'. */
  function Wanted(bodyStatus: Option<string>, current: string): (w: string)
    ensures bodyStatus.None? || bodyStatus.value == "" ==> (w == Working <==> current == Off)
    ensures bodyStatus.None? || bodyStatus.value == "" ==> (w == Off || w == Working)
  {
    if bodyStatus.Some? && bodyStatus.value != "" then bodyStatus.value
    else if current == Off then Working else Off
  }

  /** PATCH /doctors/offdays/:id */
  function Toggle(t: Table, user: Option<User>, doctorOf: map<int, int>, id: int, bodyStatus: Option<string>): (Table, Reply) {
    if user.None? then (t, Unauthorized)
    else
      var od := GetOffDayById(t.rows, id);
      if od.None? then (t, NotFound)
      else if !RowAllowed(user.value, doctorOf, od.value) then (t, Forbidden)
      else
        var wanted := Wanted(bodyStatus, od.value.status);
        if wanted != Off && wanted != Working then (t, Reply(400, Failure("Invalid status")))
        else
          var (t2, updated) := UpdateStatus(t, id, wanted);
          (t2, if updated.None? then Reply(500, Failure("Failed to update status")) else Reply(200, Data(updated)))
  }

  /** An unknown id is answered 404 before anything is written. */
  lemma ToggleUnknownId(t: Table, user: User, doctorOf: map<int, int>, id: int, bodyStatus: Option<string>)
    requires forall x :: x in t.rows ==> x.id != id
    ensures Toggle(t, Some(user), doctorOf, id, bodyStatus) == (t, NotFound)
  {
    assert GetOffDayById(t.rows, id).None?;
  }

  /** A status other than 'off' and 'working' is refused with 400 and nothing changes. */
  lemma ToggleRejectsOtherStatus(t: Table, user: Option<User>, doctorOf: map<int, int>, id: int, s: string)
    requires s != "" && s != Off && s != Working
    ensures Toggle(t, user, doctorOf, id, Some(s)).0 == t
    ensures Toggle(t, user, doctorOf, id, Some(s)).1.code in {400, 401, 403, 404}
  {
  }

  /** Two toggles without a status put an 'off' or 'working' row back to where
      it was, and change nothing else. */
  lemma ToggleTwiceRestores(t: Table, user: User, doctorOf: map<int, int>, i: int)
    requires ValidTable(t) && 0 <= i < |t.rows|
    requires t.rows[i].status == Off || t.rows[i].status == Working
    requires RowAllowed(user, doctorOf, t.rows[i])
    ensures var id := t.rows[i].id;
      var t1 := Toggle(t, Some(user), doctorOf, id, None).0;
      var t2 := Toggle(t1, Some(user), doctorOf, id, None).0;
      t2 == t && t1.rows[i].status != t.rows[i].status
  {
    var id := t.rows[i].id;
    var s0 := t.rows[i].status;
    var w1 := Wanted(None, s0);
    var t1 := Table(SetStatus(t.rows, id, w1), t.nextId);
    ToggleAllowed(t, user, doctorOf, i, None);
    SetStatusKeepsValid(t, id, w1);
    assert t1.rows[i] == t.rows[i].(status := w1);
    ToggleAllowed(t1, user, doctorOf, i, None);
    assert Wanted(None, w1) == s0;
    var t2 := Table(SetStatus(t1.rows, id, s0), t.nextId);
    forall j | 0 <= j < |t.rows|
      ensures t2.rows[j] == t.rows[j]
    {
      if t.rows[j].id == id {
        assert j == i;
      }
    }
  }

  /** A toggle of a row the user may change, to 'off' or 'working', writes
      that status to the rows with its id. */
  lemma ToggleAllowed(t: Table, user: User, doctorOf: map<int, int>, i: int, bodyStatus: Option<string>)
    requires ValidTable(t) && 0 <= i < |t.rows| && RowAllowed(user, doctorOf, t.rows[i])
    requires Wanted(bodyStatus, t.rows[i].status) == Off || Wanted(bodyStatus, t.rows[i].status) == Working
    ensures Toggle(t, Some(user), doctorOf, t.rows[i].id, bodyStatus).0
            == Table(SetStatus(t.rows, t.rows[i].id, Wanted(bodyStatus, t.rows[i].status)), t.nextId)
  {
    GetByIdAt(t, i);
  }

  /** Under the owner rule a user who may not change the row is answered 403
      and nothing is written, whatever the body asks for. */
  lemma ToggleRefusesStranger(t: Table, user: User, doctorOf: map<int, int>, i: int, bodyStatus: Option<string>)
    requires ValidTable(t) && 0 <= i < |t.rows| && !RowAllowed(user, doctorOf, t.rows[i])
    ensures Toggle(t, Some(user), doctorOf, t.rows[i].id, bodyStatus) == (t, Forbidden)
  {
    GetByIdAt(t, i);
  }

  method ToggleOffDayStatus(store: OffDayTable, user: Option<User>, doctorOf: map<int, int>, id: int, bodyStatus: Option<string>)
    returns (reply: Reply)
    requires store.Valid()
    modifies store
    ensures store.Valid()
    ensures (store.State(), reply) == Toggle(old(store.State()), user, doctorOf, id, bodyStatus)
  {
    if user.None? {
      reply := Unauthorized;
    } else {
      var od := GetOffDayById(store.rows, id);
      if od.None? {
        reply := NotFound;
      } else if !RowAllowed(user.value, doctorOf, od.value) {
        reply := Forbidden;
      } else {
        var wanted := Wanted(bodyStatus, od.value.status);
        if wanted != Off && wanted != Working {
          reply := Reply(400, Failure("Invalid status"));
        } else {
          var updated := store.UpdateOffDayStatus(id, wanted);
          reply := if updated.None? then Reply(500, Failure("Failed to update status")) else Reply(200, Data(updated));
        }
      }
    }
  }

  // ---------------------------------------------------------------- PATCH by date

  /** The JSON body of PATCH /doctors/:id/offdays; `None` is an absent field.
      `action` is kept as the JSON value sent (`Undefined` when absent): the
      route's validators run, but the handler never reads their result. */
  datatype DateBody = DateBody(date: Option<int>, action: JsValue.Value, kind: Option<string>, reason: Option<string>)

  /** `action = 'set'` in the destructuring, then `action === 'set'`: only an
      absent action takes the default, so `null` does not set. */
  predicate Sets(b: DateBody) {
    (if b.action.Undefined? then JsValue.Str("set") else b.action) == JsValue.Str("set")
  }

  /** The one-day 'off' entry a 'set' writes. */
  function SetInput(doctorId: int, date: int, b: DateBody): OffDayInput {
    OffDayInput(doctorId, date, Some(date), Some(false), None, Some(b.kind.GetOr(Scheduled)), b.reason, Some(Off))
  }

  /** The reason of an override: the body's, or a note naming the date. */
  function OverrideReason(reason: Option<string>, date: int): Option<string> {
    if reason.Some? && reason.value != "" then reason else Some("Override unset for " + Dates.IsoDate(date))
  }

  /** The one-day 'working' entry written over a weekly rule on `date`. */
  function OverrideInput(doctorId: int, date: int, rule: OffDay, reason: Option<string>): OffDayInput {
    OffDayInput(doctorId, date, Some(date), Some(false), None,
                Some(if rule.kind != "" then rule.kind else Scheduled), OverrideReason(reason, date), Some(Working))
  }

  /** One pass of the unset loop. */
  function UnsetOne(t: Table, r: OffDay, doctorId: int, date: int, reason: Option<string>): (Table, Option<OffDay>) {
    if r.recurring then Create(t, OverrideInput(doctorId, date, r, reason))
    else UpdateStatus(t, r.id, Working)
  }

  /** The unset loop over `rs`, collecting each pass's result. */
  function UnsetAll(t: Table, rs: seq<OffDay>, doctorId: int, date: int, reason: Option<string>): (r: (Table, seq<Option<OffDay>>))
    ensures |r.1| == |rs|
    decreases |rs|
  {
    if rs == [] then (t, [])
    else
      var (t1, done) := UnsetAll(t, rs[..|rs| - 1], doctorId, date, reason);
      var (t2, last) := UnsetOne(t1, rs[|rs| - 1], doctorId, date, reason);
      (t2, done + [last])
  }

  /** The rows 'unset' visits: every row of the doctor overlapping the date,
      and every weekly rule of the doctor. */
  function UnsetRows(t: Table, doctorId: int, date: int): seq<OffDay> {
    ListOffDays(t.rows, doctorId, Query(None, Some(date), Some(date)))
  }

  /** PATCH /doctors/:id/offdays */
  function SetByDate(t: Table, user: Option<User>, doctorOf: map<int, int>, doctorId: int, b: DateBody): (Table, Reply) {
    if user.None? then (t, Unauthorized)
    else if Authorize(user.value, doctorOf, doctorId).Some? then (t, Forbidden)
    else if b.date.None? then (t, Reply(400, Failure("Missing date")))
    else if Sets(b) then
      var (t2, created) := Create(t, SetInput(doctorId, b.date.value, b));
      (t2, Reply(201, Data(created)))
    else
      var (t2, results) := UnsetAll(t, UnsetRows(t, doctorId, b.date.value), doctorId, b.date.value, b.reason);
      (t2, Reply(200, Results(results)))
  }

  method SetOffDayByDate(store: OffDayTable, user: Option<User>, doctorOf: map<int, int>, doctorId: int, b: DateBody)
    returns (reply: Reply)
    requires store.Valid()
    modifies store
    ensures store.Valid()
    ensures (store.State(), reply) == SetByDate(old(store.State()), user, doctorOf, doctorId, b)
  {
    if user.None? {
      reply := Unauthorized;
    } else if Authorize(user.value, doctorOf, doctorId).Some? {
      reply := Forbidden;
    } else if b.date.None? {
      reply := Reply(400, Failure("Missing date"));
    } else if Sets(b) {
      var created := store.CreateOffDay(SetInput(doctorId, b.date.value, b));
      reply := Reply(201, Data(created));
    } else {
      var date := b.date.value;
      ghost var t0 := store.State();
      var rows := UnsetRows(store.State(), doctorId, date);
      var results: seq<Option<OffDay>> := [];
      for i := 0 to |rows|
        invariant store.Valid()
        invariant (store.State(), results) == UnsetAll(t0, rows[..i], doctorId, date, b.reason)
      {
        assert rows[..i + 1][..i] == rows[..i];
        var r := rows[i];
        var res: Option<OffDay>;
        if r.recurring {
          res := store.CreateOffDay(OverrideInput(doctorId, date, r, b.reason));
        } else {
          res := store.UpdateOffDayStatus(r.id, Working);
        }
        results := results + [res];
      }
      assert rows[..|rows|] == rows;
      reply := Reply(200, Results(results));
    }
  }

  /** A missing date is refused with 400 once the caller is authorized. */
  lemma SetByDateNeedsDate(t: Table, user: User, doctorOf: map<int, int>, doctorId: int, b: DateBody)
    requires Authorize(user, doctorOf, doctorId).None? && b.date.None?
    ensures SetByDate(t, Some(user), doctorOf, doctorId, b) == (t, Reply(400, Failure("Missing date")))
  {
  }

  /** 'set' (also the default action) leaves exactly one dated row for the
      doctor and the date, 'off' from the date to the same date. */
  lemma SetWritesOneDayOff(t: Table, user: User, doctorOf: map<int, int>, doctorId: int, b: DateBody)
    requires ValidTable(t) && Authorize(user, doctorOf, doctorId).None?
    requires b.date.Some? && (b.action.Undefined? || b.action == JsValue.Str("set"))
    ensures var t2 := SetByDate(t, Some(user), doctorOf, doctorId, b).0;
      var d := b.date.value;
      (exists i :: 0 <= i < |t2.rows| && t2.rows[i].doctorId == doctorId && t2.rows[i].startDate == d
         && !t2.rows[i].recurring && t2.rows[i].endDate == Some(d) && t2.rows[i].status == Off)
      && (forall i, j :: (0 <= i < |t2.rows| && 0 <= j < |t2.rows|
            && RowKey(t2.rows[i]) == DateKey(doctorId, d) && RowKey(t2.rows[j]) == DateKey(doctorId, d)) ==> i == j)
  {
    var d := b.date.value;
    var v := Normalize(SetInput(doctorId, d, b));
    assert Sets(b);
    var t2 := SetByDate(t, Some(user), doctorOf, doctorId, b).0;
    assert t2 == Upsert(t, v).0;
    assert ValuesKey(v) == DateKey(doctorId, d);
    UpsertStores(t, v);
    var i :| 0 <= i < |t2.rows| && RowKey(t2.rows[i]) == ValuesKey(v) && Holds(t2.rows[i], v);
    assert t2.rows[i].startDate == d;
  }

  /** Every action sent other than 'set', `null` and non-text values
      included, unsets. */
  lemma OtherActionUnsets(t: Table, user: Option<User>, doctorOf: map<int, int>, doctorId: int, b: DateBody, action: JsValue.Value)
    requires !action.Undefined? && action != JsValue.Str("set")
    ensures SetByDate(t, user, doctorOf, doctorId, b.(action := action))
         == SetByDate(t, user, doctorOf, doctorId, b.(action := JsValue.Str("unset")))
  {
  }

  // ---------------------------------------------------------------- what 'unset' leaves behind

  /** How a row of the table before an 'unset' may look after it: unchanged,
      a dated row marked 'working', or the doctor's row for the date turned
      into the 'working' override. */
  predicate UnsetChange(before: OffDay, after: OffDay, doctorId: int, date: int) {
    after == before
    || (!before.recurring && after == before.(status := Working))
    || (RowKey(before) == DateKey(doctorId, date) && RowKey(after) == DateKey(doctorId, date)
        && after.id == before.id && after.status == Working)
  }

  /** The table `t` arose from `t0` by unset writes for the doctor and date:
      old rows changed only as `UnsetChange` allows, and at most one row was
      added, the 'working' row for the date. */
  ghost predicate Evolved(t0: Table, t: Table, doctorId: int, date: int) {
    ValidTable(t)
    && |t0.rows| <= |t.rows| <= |t0.rows| + 1
    && (forall i :: 0 <= i < |t0.rows| ==> UnsetChange(t0.rows[i], t.rows[i], doctorId, date))
    && (forall i :: |t0.rows| <= i < |t.rows| ==>
          RowKey(t.rows[i]) == DateKey(doctorId, date) && t.rows[i].status == Working)
  }

  /** Every dated row among the first `k` visited rows is now 'working'. */
  ghost predicate FlippedUpTo(t: Table, rs: seq<OffDay>, k: int) {
    forall m, i :: 0 <= m < k && m < |rs| && 0 <= i < |t.rows| && !rs[m].recurring && t.rows[i].id == rs[m].id
      ==> t.rows[i].status == Working
  }

  /** The doctor's dated row for `date` is a one-day 'working' entry. */
  ghost predicate Overridden(t: Table, doctorId: int, date: int) {
    exists i :: 0 <= i < |t.rows| && RowKey(t.rows[i]) == DateKey(doctorId, date)
      && t.rows[i].endDate == Some(date) && t.rows[i].status == Working
  }

  ghost predicate UnsetInv(t0: Table, t: Table, doctorId: int, date: int, rs: seq<OffDay>, k: int) {
    Evolved(t0, t, doctorId, date)
    && FlippedUpTo(t, rs, k)
    && ((exists m :: 0 <= m < k && m < |rs| && rs[m].recurring) ==> Overridden(t, doctorId, date))
  }

  /** Under a valid table, a change allowed by `UnsetChange` keeps the id. */
  lemma UnsetChangeKeepsId(before: OffDay, after: OffDay, doctorId: int, date: int)
    requires UnsetChange(before, after, doctorId, date)
    ensures after.id == before.id && RowKey(after) == RowKey(before)
  {
  }

  lemma FlipEvolved(t0: Table, t: Table, doctorId: int, date: int, id: int, j: int)
    requires Evolved(t0, t, doctorId, date)
    requires 0 <= j < |t0.rows| && t0.rows[j].id == id && !t0.rows[j].recurring
    ensures Evolved(t0, Table(SetStatus(t.rows, id, Working), t.nextId), doctorId, date)
  {
    var t2 := Table(SetStatus(t.rows, id, Working), t.nextId);
    SetStatusKeepsValid(t, id, Working);
    UnsetChangeKeepsId(t0.rows[j], t.rows[j], doctorId, date);
    forall i | 0 <= i < |t0.rows|
      ensures UnsetChange(t0.rows[i], t2.rows[i], doctorId, date)
    {
      if t.rows[i].id == id {
        assert i == j;
        assert t2.rows[i] == t.rows[i].(status := Working);
      } else {
        assert t2.rows[i] == t.rows[i];
      }
    }
  }

  lemma FlipKeepsFlipped(t: Table, rs: seq<OffDay>, k: int)
    requires FlippedUpTo(t, rs, k) && 0 <= k < |rs|
    ensures FlippedUpTo(Table(SetStatus(t.rows, rs[k].id, Working), t.nextId), rs, k + 1)
  {
    var t2 := Table(SetStatus(t.rows, rs[k].id, Working), t.nextId);
    forall m, i | 0 <= m < k + 1 && m < |rs| && 0 <= i < |t2.rows| && !rs[m].recurring && t2.rows[i].id == rs[m].id
      ensures t2.rows[i].status == Working
    {
      if t.rows[i].id != rs[k].id {
        assert t2.rows[i] == t.rows[i];
      }
    }
  }

  lemma FlipKeepsOverride(t: Table, doctorId: int, date: int, id: int)
    requires Overridden(t, doctorId, date)
    ensures Overridden(Table(SetStatus(t.rows, id, Working), t.nextId), doctorId, date)
  {
    var t2 := Table(SetStatus(t.rows, id, Working), t.nextId);
    var w :| 0 <= w < |t.rows| && RowKey(t.rows[w]) == DateKey(doctorId, date)
      && t.rows[w].endDate == Some(date) && t.rows[w].status == Working;
    assert RowKey(t2.rows[w]) == DateKey(doctorId, date);
  }

  lemma FlipStep(t0: Table, t: Table, doctorId: int, date: int, reason: Option<string>, rs: seq<OffDay>, k: int)
    requires ValidTable(t0) && rs == UnsetRows(t0, doctorId, date) && 0 <= k < |rs| && !rs[k].recurring
    requires UnsetInv(t0, t, doctorId, date, rs, k)
    ensures UnsetInv(t0, UnsetOne(t, rs[k], doctorId, date, reason).0, doctorId, date, rs, k + 1)
  {
    var id := rs[k].id;
    assert UnsetOne(t, rs[k], doctorId, date, reason).0 == Table(SetStatus(t.rows, id, Working), t.nextId);
    assert rs[k] in t0.rows;
    var j :| 0 <= j < |t0.rows| && t0.rows[j] == rs[k];
    FlipEvolved(t0, t, doctorId, date, id, j);
    FlipKeepsFlipped(t, rs, k);
    if exists m :: 0 <= m < k + 1 && m < |rs| && rs[m].recurring {
      FlipKeepsOverride(t, doctorId, date, id);
    }
  }

  lemma OverrideEvolved(t0: Table, t: Table, doctorId: int, date: int, v: Values)
    requires Evolved(t0, t, doctorId, date)
    requires ValuesKey(v) == DateKey(doctorId, date) && v.status == Working
    ensures Evolved(t0, Upsert(t, v).0, doctorId, date)
  {
    var key := DateKey(doctorId, date);
    var t2 := Upsert(t, v).0;
    UpsertKeepsValid(t, v);
    var f := FindKey(t.rows, key);
    if f >= 0 {
      assert t2.rows == t.rows[f := Refresh(t.rows[f], v)];
      assert RowKey(t2.rows[f]) == key;
      if f < |t0.rows| {
        UnsetChangeKeepsId(t0.rows[f], t.rows[f], doctorId, date);
        assert UnsetChange(t0.rows[f], t2.rows[f], doctorId, date);
      }
    } else {
      assert |t.rows| == |t0.rows|;
      assert t2.rows == t.rows + [NewRow(t.nextId, v)];
    }
  }

  lemma OverrideKeepsFlipped(t: Table, rs: seq<OffDay>, k: int, v: Values)
    requires FlippedUpTo(t, rs, k) && 0 <= k < |rs| && rs[k].recurring
    requires ValuesKey(v) != NoKey && v.status == Working
    ensures FlippedUpTo(Upsert(t, v).0, rs, k + 1)
  {
    var t2 := Upsert(t, v).0;
    var f := FindKey(t.rows, ValuesKey(v));
    forall m, i | 0 <= m < k + 1 && m < |rs| && 0 <= i < |t2.rows| && !rs[m].recurring && t2.rows[i].id == rs[m].id
      ensures t2.rows[i].status == Working
    {
      if i < |t.rows| && i != f {
        assert t2.rows[i] == t.rows[i];
      }
    }
  }

  lemma OverrideStep(t0: Table, t: Table, doctorId: int, date: int, reason: Option<string>, rs: seq<OffDay>, k: int)
    requires ValidTable(t0) && rs == UnsetRows(t0, doctorId, date) && 0 <= k < |rs| && rs[k].recurring
    requires UnsetInv(t0, t, doctorId, date, rs, k)
    ensures UnsetInv(t0, UnsetOne(t, rs[k], doctorId, date, reason).0, doctorId, date, rs, k + 1)
  {
    var v := Normalize(OverrideInput(doctorId, date, rs[k], reason));
    assert ValuesKey(v) == DateKey(doctorId, date) && v.status == Working && v.endDate == Some(date);
    assert UnsetOne(t, rs[k], doctorId, date, reason).0 == Upsert(t, v).0;
    OverrideEvolved(t0, t, doctorId, date, v);
    OverrideKeepsFlipped(t, rs, k, v);
    UpsertStores(t, v);
  }

  /** The unset loop keeps `UnsetInv` after each visited row. */
  lemma {:induction false} UnsetAllInv(t0: Table, doctorId: int, date: int, reason: Option<string>, rs: seq<OffDay>, k: int)
    requires ValidTable(t0) && rs == UnsetRows(t0, doctorId, date) && 0 <= k <= |rs|
    ensures UnsetInv(t0, UnsetAll(t0, rs[..k], doctorId, date, reason).0, doctorId, date, rs, k)
    decreases k
  {
    if k == 0 {
      assert rs[..0] == [];
      assert forall i :: 0 <= i < |t0.rows| ==> UnsetChange(t0.rows[i], t0.rows[i], doctorId, date);
    } else {
      UnsetAllInv(t0, doctorId, date, reason, rs, k - 1);
      assert rs[..k][..k - 1] == rs[..k - 1];
      var t := UnsetAll(t0, rs[..k - 1], doctorId, date, reason).0;
      assert UnsetAll(t0, rs[..k], doctorId, date, reason).0 == UnsetOne(t, rs[k - 1], doctorId, date, reason).0;
      if rs[k - 1].recurring {
        OverrideStep(t0, t, doctorId, date, reason, rs, k - 1);
      } else {
        FlipStep(t0, t, doctorId, date, reason, rs, k - 1);
      }
    }
  }

  /** The table an authorized 'unset' leaves. */
  function UnsetTable(t: Table, doctorId: int, date: int, reason: Option<string>): Table {
    UnsetAll(t, UnsetRows(t, doctorId, date), doctorId, date, reason).0
  }

  lemma UnsetIsSetByDate(t: Table, user: User, doctorOf: map<int, int>, doctorId: int, b: DateBody)
    requires Authorize(user, doctorOf, doctorId).None? && b.date.Some? && !Sets(b)
    ensures SetByDate(t, Some(user), doctorOf, doctorId, b).0 == UnsetTable(t, doctorId, b.date.value, b.reason)
    ensures SetByDate(t, Some(user), doctorOf, doctorId, b).1.code == 200
    ensures |SetByDate(t, Some(user), doctorOf, doctorId, b).1.body.items| == |UnsetRows(t, doctorId, b.date.value)|
  {
  }

  lemma UnsetEvolves(t0: Table, doctorId: int, date: int, reason: Option<string>)
    requires ValidTable(t0)
    ensures UnsetInv(t0, UnsetTable(t0, doctorId, date, reason), doctorId, date,
                     UnsetRows(t0, doctorId, date), |UnsetRows(t0, doctorId, date)|)
  {
    var rs := UnsetRows(t0, doctorId, date);
    UnsetAllInv(t0, doctorId, date, reason, rs, |rs|);
    assert rs[..|rs|] == rs;
  }

  /** 'unset' never changes a weekly rule and adds at most one row: the
      one-day 'working' entry for the date, which every override writes. */
  lemma UnsetKeepsRules(t0: Table, doctorId: int, date: int, reason: Option<string>)
    requires ValidTable(t0)
    ensures var t := UnsetTable(t0, doctorId, date, reason);
      ValidTable(t) && |t0.rows| <= |t.rows| <= |t0.rows| + 1
      && (forall i :: 0 <= i < |t0.rows| && (t0.rows[i].recurring || t.rows[i].recurring) ==> t.rows[i] == t0.rows[i])
      && (forall i :: |t0.rows| <= i < |t.rows| ==>
            !t.rows[i].recurring && t.rows[i].doctorId == doctorId && t.rows[i].startDate == date
            && t.rows[i].status == Working)
  {
    UnsetEvolves(t0, doctorId, date, reason);
  }

  /** Any weekly rule of the doctor, whatever its weekday, makes 'unset' write
      the one-day 'working' entry for the date, and there is only one such row. */
  lemma UnsetOverridesRules(t0: Table, doctorId: int, date: int, reason: Option<string>, rule: OffDay)
    requires ValidTable(t0) && rule in t0.rows && rule.doctorId == doctorId && rule.recurring
    ensures var t := UnsetTable(t0, doctorId, date, reason);
      Overridden(t, doctorId, date)
      && forall i, j ::
           (0 <= i < |t.rows| && 0 <= j < |t.rows| && RowKey(t.rows[i]) == DateKey(doctorId, date)
            && RowKey(t.rows[j]) == DateKey(doctorId, date)) ==> i == j
  {
    var rs := UnsetRows(t0, doctorId, date);
    UnsetEvolves(t0, doctorId, date, reason);
    assert rule in rs;
    var m :| 0 <= m < |rs| && rs[m] == rule;
  }

  /** A dated row of the doctor whose span covers `date`: one the unset
      listing finds. */
  predicate CoversDate(r: OffDay, doctorId: int, date: int) {
    r.doctorId == doctorId && !r.recurring
    && r.startDate <= date && (r.endDate.None? || r.endDate.value >= date)
  }

  /** After 'unset' no dated row of the doctor that the server finds for the
      date is anything but 'working'; a dated row that does not start on the
      date is kept whole, only its status changes. */
  lemma UnsetClearsDatedRows(t0: Table, doctorId: int, date: int, reason: Option<string>)
    requires ValidTable(t0)
    ensures var t := UnsetTable(t0, doctorId, date, reason);
      forall i :: 0 <= i < |t.rows| && CoversDate(t.rows[i], doctorId, date) ==> t.rows[i].status == Working
    ensures var t := UnsetTable(t0, doctorId, date, reason);
      |t0.rows| <= |t.rows|
      && forall i :: 0 <= i < |t0.rows| && CoversDate(t0.rows[i], doctorId, date) && t0.rows[i].startDate != date
           ==> t.rows[i] == t0.rows[i].(status := Working)
  {
    var rs := UnsetRows(t0, doctorId, date);
    var t := UnsetTable(t0, doctorId, date, reason);
    UnsetEvolves(t0, doctorId, date, reason);
    forall i | 0 <= i < |t0.rows| && CoversDate(t0.rows[i], doctorId, date)
      ensures t.rows[i].status == Working
      ensures t0.rows[i].startDate != date ==> t.rows[i] == t0.rows[i].(status := Working)
    {
      CoveredRowFlipped(t0, t, doctorId, date, i);
    }
    forall i | 0 <= i < |t.rows| && CoversDate(t.rows[i], doctorId, date)
      ensures t.rows[i].status == Working
    {
      if i < |t0.rows| && t.rows[i] == t0.rows[i] {
        CoveredRowFlipped(t0, t, doctorId, date, i);
      }
    }
  }

  /** An old row the unset listing finds is 'working' afterwards, and only
      its status changed unless it is the row for the date itself. */
  lemma CoveredRowFlipped(t0: Table, t: Table, doctorId: int, date: int, i: int)
    requires var rs := UnsetRows(t0, doctorId, date); UnsetInv(t0, t, doctorId, date, rs, |rs|)
    requires 0 <= i < |t0.rows| && CoversDate(t0.rows[i], doctorId, date)
    ensures t.rows[i].status == Working
    ensures t0.rows[i].startDate != date ==> t.rows[i] == t0.rows[i].(status := Working)
  {
    var rs := UnsetRows(t0, doctorId, date);
    var before, after := t0.rows[i], t.rows[i];
    assert Selected(before, doctorId, Query(None, Some(date), Some(date)));
    assert before in rs;
    var m :| 0 <= m < |rs| && rs[m] == before;
    assert UnsetChange(before, after, doctorId, date);
    UnsetChangeKeepsId(before, after, doctorId, date);
  }
}

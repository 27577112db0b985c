/**
 * The `doctor_off_days` table and the model functions that read and write it
 * (healthQue-backend/models/doctorModel.js, listOffDays .. updateOffDayStatus).
 *
 * A row is either a dated range (`recurring` false, from `startDate` to
 * `endDate`, which may be absent) or a weekly rule (`recurring` true, on
 * `dayOfWeek`).  `status` is 'off' or 'working' in practice but the store
 * accepts any text.  The table is kept in insertion order, which is also the
 * order in which queries return rows.
 *
 * The table's unique keys are taken from the follow-up lookups createOffDay
 * makes after an update: (doctor, start date) for dated rows and
 * (doctor, weekday) for weekly rules.  A weekly rule without a weekday has a
 * NULL in its key and therefore never collides.
 */
module OffDayStore {
  import opened Wrappers

  const Off: string := "off"
  const Working: string := "working"
  const Scheduled: string := "scheduled"

  /** One row of the table; dates are day numbers. */
  datatype OffDay = OffDay(
    id: nat,
    doctorId: int,
    startDate: int,
    endDate: Option<int>,
    recurring: bool,
    dayOfWeek: Option<int>,
    kind: string,
    reason: Option<string>,
    status: string)

  datatype Key =
    | DateKey(doctor: int, date: int)
    | WeekdayKey(doctor: int, weekday: int)
    | NoKey

  function KeyFor(doctorId: int, startDate: int, recurring: bool, dayOfWeek: Option<int>): Key {
    if !recurring then DateKey(doctorId, startDate)
    else if dayOfWeek.Some? then WeekdayKey(doctorId, dayOfWeek.value)
    else NoKey
  }

  function RowKey(r: OffDay): Key {
    KeyFor(r.doctorId, r.startDate, r.recurring, r.dayOfWeek)
  }

  /** The table's rows and the next AUTO_INCREMENT id. */
  datatype Table = Table(rows: seq<OffDay>, nextId: nat)

  /** Ids are positive, below `nextId` and distinct; keys are distinct. */
  ghost predicate ValidTable(t: Table) {
    t.nextId >= 1
    && (forall i :: 0 <= i < |t.rows| ==> 1 <= t.rows[i].id < t.nextId)
    && (forall i, j :: 0 <= i < j < |t.rows| ==> t.rows[i].id != t.rows[j].id)
    && (forall i, j :: 0 <= i < j < |t.rows| && RowKey(t.rows[i]) != NoKey ==>
          RowKey(t.rows[i]) != RowKey(t.rows[j]))
  }

  // ---------------------------------------------------------------- reading

  /** The filters listOffDays accepts; `kind` is the `type` option. */
  datatype Query = Query(kind: Option<string>, from: Option<int>, to: Option<int>)

  /** The WHERE clause of listOffDays. */
  predicate Selected(r: OffDay, doctorId: int, q: Query) {
    r.doctorId == doctorId
    && (q.kind.Some? && q.kind.value != "" ==> r.kind == q.kind.value)
    && (q.from.Some? && q.to.Some? ==>
          (!r.recurring && r.startDate <= q.to.value && (r.endDate.None? || r.endDate.value >= q.from.value))
          || r.recurring)
  }

  /** listOffDays: the selected rows, in table order. */
  function ListOffDays(rows: seq<OffDay>, doctorId: int, q: Query): (r: seq<OffDay>)
    ensures |r| <= |rows|
    ensures forall x :: x in r <==> x in rows && Selected(x, doctorId, q)
    decreases |rows|
  {
    if rows == [] then []
    else
      var last := rows[|rows| - 1];
      assert rows == rows[..|rows| - 1] + [last];
      ListOffDays(rows[..|rows| - 1], doctorId, q) + (if Selected(last, doctorId, q) then [last] else [])
  }

  /** Only the doctor's rows come back, and only rows of the requested type. */
  lemma ListedRowsMatchFilters(rows: seq<OffDay>, doctorId: int, q: Query, x: OffDay)
    requires x in ListOffDays(rows, doctorId, q)
    ensures x in rows && x.doctorId == doctorId
    ensures q.kind.Some? && q.kind.value != "" ==> x.kind == q.kind.value
  {
  }

  /** With both bounds, a dated row comes back exactly when it overlaps
      [from, to] (an absent end date is open-ended), and every weekly rule of
      the doctor comes back whatever its weekday. */
  lemma ListedWithRange(rows: seq<OffDay>, doctorId: int, kind: Option<string>, from: int, to: int, x: OffDay)
    requires x in rows && x.doctorId == doctorId
    requires kind.None? || kind.value == "" || x.kind == kind.value
    ensures !x.recurring ==>
      (x in ListOffDays(rows, doctorId, Query(kind, Some(from), Some(to))) <==>
         x.startDate <= to && (x.endDate.None? || x.endDate.value >= from))
    ensures x.recurring ==> x in ListOffDays(rows, doctorId, Query(kind, Some(from), Some(to)))
  {
  }

  /** With a missing bound there is no date filter at all. */
  lemma ListedWithoutRange(rows: seq<OffDay>, doctorId: int, q: Query, x: OffDay)
    requires q.from.None? || q.to.None?
    requires x in rows && x.doctorId == doctorId
    requires q.kind.None? || q.kind.value == "" || x.kind == q.kind.value
    ensures x in ListOffDays(rows, doctorId, q)
  {
  }

  /** getOffDayById: the row with that id, if any. */
  function GetOffDayById(rows: seq<OffDay>, id: int): (r: Option<OffDay>)
    ensures r.Some? ==> r.value in rows && r.value.id == id
    ensures r.None? ==> forall x :: x in rows ==> x.id != id
  {
    if rows == [] then None
    else if rows[0].id == id then Some(rows[0])
    else GetOffDayById(rows[1..], id)
  }

  /** In a valid table, the row found by id is the one at the index holding it. */
  lemma GetByIdAt(t: Table, i: int)
    requires ValidTable(t) && 0 <= i < |t.rows|
    ensures GetOffDayById(t.rows, t.rows[i].id) == Some(t.rows[i])
  {
    var r := GetOffDayById(t.rows, t.rows[i].id);
    var j :| 0 <= j < |t.rows| && t.rows[j] == r.value;
    assert i == j;
  }

  // ---------------------------------------------------------------- writing

  /** The argument of createOffDay; `None` is a field left out (or null). */
  datatype OffDayInput = OffDayInput(
    doctorId: int,
    startDate: int,
    endDate: Option<int>,
    recurring: Option<bool>,
    dayOfWeek: Option<int>,
    kind: Option<string>,
    reason: Option<string>,
    status: Option<string>)

  /** The values the INSERT receives once createOffDay's defaults are applied. */
  datatype Values = Values(
    doctorId: int,
    startDate: int,
    endDate: Option<int>,
    recurring: bool,
    dayOfWeek: Option<int>,
    kind: string,
    reason: Option<string>,
    status: string)

  /** Defaults of createOffDay's parameters and the `||` fallbacks of its
      INSERT parameters. */
  function Normalize(inp: OffDayInput): Values {
    Values(
      inp.doctorId,
      inp.startDate,
      inp.endDate,
      inp.recurring == Some(true),
      inp.dayOfWeek,
      inp.kind.GetOr(Scheduled),
      inp.reason,
      if inp.status.Some? && inp.status.value != "" then inp.status.value else Off)
  }

  function ValuesKey(v: Values): Key {
    KeyFor(v.doctorId, v.startDate, v.recurring, v.dayOfWeek)
  }

  /** A row holds the values of an INSERT or of its ON DUPLICATE KEY UPDATE. */
  predicate Holds(r: OffDay, v: Values) {
    r.doctorId == v.doctorId && r.endDate == v.endDate && r.recurring == v.recurring
    && r.dayOfWeek == v.dayOfWeek && r.kind == v.kind && r.reason == v.reason && r.status == v.status
  }

  /** The index of the row with key `k`, or -1. */
  function FindKey(rows: seq<OffDay>, k: Key): (i: int)
    ensures -1 <= i < |rows|
    ensures i >= 0 ==> RowKey(rows[i]) == k
    ensures i == -1 ==> forall j :: 0 <= j < |rows| ==> RowKey(rows[j]) != k
  {
    if rows == [] then -1
    else
      var i := FindKey(rows[..|rows| - 1], k);
      if i >= 0 then i else if RowKey(rows[|rows| - 1]) == k then |rows| - 1 else -1
  }

  /** ON DUPLICATE KEY UPDATE: every column but id, doctor_id and start_date. */
  function Refresh(r: OffDay, v: Values): OffDay {
    r.(endDate := v.endDate, recurring := v.recurring, dayOfWeek := v.dayOfWeek,
       kind := v.kind, reason := v.reason, status := v.status)
  }

  function NewRow(id: nat, v: Values): OffDay {
    OffDay(id, v.doctorId, v.startDate, v.endDate, v.recurring, v.dayOfWeek, v.kind, v.reason, v.status)
  }

  /** INSERT ... ON DUPLICATE KEY UPDATE: the new table and the reported
      insertId, which is 0 when an existing row was updated. */
  function Upsert(t: Table, v: Values): (Table, nat) {
    var k := ValuesKey(v);
    var i := if k == NoKey then -1 else FindKey(t.rows, k);
    if i >= 0 then (Table(t.rows[i := Refresh(t.rows[i], v)], t.nextId), 0)
    else (Table(t.rows + [NewRow(t.nextId, v)], t.nextId + 1), t.nextId)
  }

  lemma UpsertKeepsValid(t: Table, v: Values)
    requires ValidTable(t)
    ensures ValidTable(Upsert(t, v).0)
  {
    var t2 := Upsert(t, v).0;
    var k := ValuesKey(v);
    var i := if k == NoKey then -1 else FindKey(t.rows, k);
    if i >= 0 {
      var r := t.rows[i];
      assert RowKey(Refresh(r, v)) == RowKey(r);
      forall a | 0 <= a < |t.rows|
        ensures RowKey(t2.rows[a]) == RowKey(t.rows[a]) && t2.rows[a].id == t.rows[a].id
      {
      }
      ValidWhenKeysAndIdsKept(t, t2);
    } else {
      ValidAfterAppend(t, NewRow(t.nextId, v));
    }
  }

  /** Rewriting rows in place without changing their keys or ids keeps a
      table valid. */
  lemma ValidWhenKeysAndIdsKept(t: Table, t2: Table)
    requires ValidTable(t) && |t2.rows| == |t.rows| && t2.nextId == t.nextId
    requires forall a :: 0 <= a < |t.rows| ==> RowKey(t2.rows[a]) == RowKey(t.rows[a]) && t2.rows[a].id == t.rows[a].id
    ensures ValidTable(t2)
  {
  }

  /** Appending a row with the next id and a key no row has keeps a table
      valid. */
  lemma ValidAfterAppend(t: Table, r: OffDay)
    requires ValidTable(t) && r.id == t.nextId
    requires RowKey(r) == NoKey || forall a :: 0 <= a < |t.rows| ==> RowKey(t.rows[a]) != RowKey(r)
    ensures ValidTable(Table(t.rows + [r], t.nextId + 1))
  {
  }

  /** After an upsert whose key is not NULL, exactly one row has that key and
      it holds the written values.  An existing row keeps its position, id and
      start date; otherwise a fresh row with the next id is appended. */
  lemma UpsertStores(t: Table, v: Values)
    requires ValidTable(t) && ValuesKey(v) != NoKey
    ensures var t2 := Upsert(t, v).0;
      exists i :: 0 <= i < |t2.rows| && RowKey(t2.rows[i]) == ValuesKey(v) && Holds(t2.rows[i], v)
    ensures var t2 := Upsert(t, v).0;
      forall i, j ::
        (0 <= i < |t2.rows| && 0 <= j < |t2.rows| && RowKey(t2.rows[i]) == ValuesKey(v)
         && RowKey(t2.rows[j]) == ValuesKey(v)) ==> i == j
    ensures var i := FindKey(t.rows, ValuesKey(v)); var t2 := Upsert(t, v).0;
      i >= 0 ==> |t2.rows| == |t.rows| && t2.rows[i].id == t.rows[i].id
                 && t2.rows[i].startDate == t.rows[i].startDate && Holds(t2.rows[i], v)
    ensures var i := FindKey(t.rows, ValuesKey(v)); var t2 := Upsert(t, v).0;
      i == -1 ==> t2.rows == t.rows + [NewRow(t.nextId, v)]
    ensures var t2 := Upsert(t, v).0;
      forall i :: 0 <= i < |t.rows| && RowKey(t.rows[i]) != ValuesKey(v) ==> t2.rows[i] == t.rows[i]
  {
    UpsertKeepsValid(t, v);
    var k := ValuesKey(v);
    var i := FindKey(t.rows, k);
    var t2 := Upsert(t, v).0;
    if i >= 0 {
      assert RowKey(t2.rows[i]) == k && Holds(t2.rows[i], v);
    } else {
      assert RowKey(t2.rows[|t.rows|]) == k && Holds(t2.rows[|t.rows|], v);
    }
  }

  /** Calling createOffDay's upsert twice with the same key leaves one row for
      the key, holding the second call's values, and adds at most one row. */
  lemma UpsertTwice(t: Table, v1: Values, v2: Values)
    requires ValidTable(t) && ValuesKey(v1) == ValuesKey(v2) != NoKey
    ensures var t1 := Upsert(t, v1).0; var t2 := Upsert(t1, v2).0;
      |t2.rows| == |t1.rows| <= |t.rows| + 1
      && (forall i :: 0 <= i < |t1.rows| ==> t2.rows[i].id == t1.rows[i].id)
      && (exists i :: 0 <= i < |t2.rows| && RowKey(t2.rows[i]) == ValuesKey(v2) && Holds(t2.rows[i], v2))
      && (forall i, j ::
            (0 <= i < |t2.rows| && 0 <= j < |t2.rows| && RowKey(t2.rows[i]) == ValuesKey(v2)
             && RowKey(t2.rows[j]) == ValuesKey(v2)) ==> i == j)
  {
    var k := ValuesKey(v2);
    var t1 := Upsert(t, v1).0;
    UpsertStores(t, v1);
    UpsertKeepsValid(t, v1);
    var i1 := FindKey(t1.rows, k);
    assert i1 >= 0;
    var t2 := Upsert(t1, v2).0;
    UpsertStores(t1, v2);
    forall i | 0 <= i < |t1.rows| ensures t2.rows[i].id == t1.rows[i].id {
      if RowKey(t1.rows[i]) == k {
        assert i == i1;
      }
    }
  }

  /** The follow-up SELECT createOffDay makes when insertId is 0, as written:
      the dated lookup does not filter on the recurring flag.  `Number(null)`
      is 0, hence the weekday default. */
  function ReLookupAsWritten(rows: seq<OffDay>, inp: OffDayInput): (r: Option<nat>)
    ensures r.Some? ==> exists i :: 0 <= i < |rows| && rows[i].id == r.value
  {
    if rows == [] then None
    else if (inp.recurring != Some(true) && rows[0].doctorId == inp.doctorId && rows[0].startDate == inp.startDate)
         || (inp.recurring == Some(true) && rows[0].doctorId == inp.doctorId
             && rows[0].dayOfWeek == Some(inp.dayOfWeek.GetOr(0)) && rows[0].recurring)
    then Some(rows[0].id)
    else
      var r := ReLookupAsWritten(rows[1..], inp);
      if r.Some? then
        var i :| 0 <= i < |rows[1..]| && rows[1..][i].id == r.value;
        assert rows[i + 1].id == r.value;
        r
      else r
  }

  /** The same lookup restricted to rows of the kind being written, i.e. by the key. */
  function ReLookup(rows: seq<OffDay>, inp: OffDayInput): (r: Option<nat>)
    ensures r.Some? ==> exists i :: 0 <= i < |rows| && rows[i].id == r.value
                          && RowKey(rows[i]) == ValuesKey(Normalize(inp))
  {
    var i := FindKey(rows, ValuesKey(Normalize(inp)));
    if i >= 0 then Some(rows[i].id) else None
  }

  /** createOffDay as written: upsert, then return the row found by the
      reported id or by the follow-up lookup. */
  function CreateAsWritten(t: Table, inp: OffDayInput): (Table, Option<OffDay>) {
    var (t2, insertId) := Upsert(t, Normalize(inp));
    var id := if insertId != 0 then Some(insertId) else ReLookupAsWritten(t2.rows, inp);
    (t2, if id.Some? && id.value != 0 then GetOffDayById(t2.rows, id.value) else None)
  }

  /** createOffDay with the follow-up lookup by key. */
  function Create(t: Table, inp: OffDayInput): (Table, Option<OffDay>) {
    var (t2, insertId) := Upsert(t, Normalize(inp));
    var id := if insertId != 0 then Some(insertId) else ReLookup(t2.rows, inp);
    (t2, if id.Some? && id.value != 0 then GetOffDayById(t2.rows, id.value) else None)
  }

  /** createOffDay returns the row it wrote, holding the normalized values. */
  lemma CreateReturnsWrittenRow(t: Table, inp: OffDayInput)
    requires ValidTable(t)
    ensures var (t2, r) := Create(t, inp);
      r.Some? && r.value in t2.rows && Holds(r.value, Normalize(inp))
      && (ValuesKey(Normalize(inp)) != NoKey ==> RowKey(r.value) == ValuesKey(Normalize(inp)))
  {
    var v := Normalize(inp);
    var k := ValuesKey(v);
    if k == NoKey || FindKey(t.rows, k) == -1 {
      CreateInserts(t, inp);
    } else {
      var j := FindKey(t.rows, k);
      RefreshKeepsKey(t.rows[j], v);
      CreateUpdates(t, inp);
    }
  }

  /** With no row holding its key, createOffDay appends a fresh row and
      returns it. */
  lemma CreateInserts(t: Table, inp: OffDayInput)
    requires ValidTable(t)
    requires var k := ValuesKey(Normalize(inp)); k == NoKey || FindKey(t.rows, k) == -1
    ensures var x := NewRow(t.nextId, Normalize(inp));
      Create(t, inp) == (Table(t.rows + [x], t.nextId + 1), Some(x))
  {
    var v := Normalize(inp);
    var t2 := Upsert(t, v).0;
    UpsertKeepsValid(t, v);
    GetByIdAt(t2, |t.rows|);
  }

  /** With a row holding its key, createOffDay updates that row in place and
      returns it. */
  lemma CreateUpdates(t: Table, inp: OffDayInput)
    requires ValidTable(t)
    requires var k := ValuesKey(Normalize(inp)); k != NoKey && FindKey(t.rows, k) >= 0
    ensures var v := Normalize(inp); var j := FindKey(t.rows, ValuesKey(v)); var x := Refresh(t.rows[j], v);
      Create(t, inp) == (Table(t.rows[j := x], t.nextId), Some(x))
  {
    var v := Normalize(inp);
    var k := ValuesKey(v);
    var j := FindKey(t.rows, k);
    var t2 := Upsert(t, v).0;
    RefreshKeepsKey(t.rows[j], v);
    UpsertKeepsValid(t, v);
    assert t2.rows == t.rows[j := Refresh(t.rows[j], v)];
    FindKeyUnique(t2, k, j);
    GetByIdAt(t2, j);
  }

  /** In a valid table the row holding a key is the one FindKey finds. */
  lemma FindKeyUnique(t: Table, k: Key, j: int)
    requires ValidTable(t) && 0 <= j < |t.rows| && RowKey(t.rows[j]) == k && k != NoKey
    ensures FindKey(t.rows, k) == j
  {
    var i := FindKey(t.rows, k);
    assert i >= 0;
  }

  /** The ON DUPLICATE KEY UPDATE of the row holding the key keeps its key
      and leaves it holding the written values. */
  lemma RefreshKeepsKey(r: OffDay, v: Values)
    requires RowKey(r) == ValuesKey(v) != NoKey
    ensures RowKey(Refresh(r, v)) == RowKey(r) && Holds(Refresh(r, v), v)
  {
  }

  /** createOffDay fills in its defaults: with no end date, flag, type or
      status given, the written row has no end date, is not weekly, has type
      'scheduled' and status 'off'. */
  lemma CreateDefaults(t: Table, inp: OffDayInput)
    requires ValidTable(t)
    requires inp.endDate.None? && inp.recurring.None? && inp.kind.None? && inp.status.None?
    ensures var r := Create(t, inp).1;
      r.Some? && r.value.endDate.None? && !r.value.recurring && r.value.kind == Scheduled && r.value.status == Off
  {
    CreateReturnsWrittenRow(t, inp);
  }

  /** The dated follow-up lookup can return a weekly rule that starts on the
      same day instead of the row that was just updated. */
  lemma CreateAsWrittenReturnsOtherRow()
    ensures var rule := OffDay(1, 7, 100, None, true, Some(1), Scheduled, None, Off);
      var dated := OffDay(2, 7, 100, Some(100), false, None, Scheduled, None, Off);
      var t := Table([rule, dated], 3);
      var inp := OffDayInput(7, 100, Some(100), Some(false), None, Some(Scheduled), None, Some(Working));
      ValidTable(t)
      && CreateAsWritten(t, inp).1 == Some(rule)
      && Create(t, inp).1 == Some(dated.(status := Working))
  {
    var rule := OffDay(1, 7, 100, None, true, Some(1), Scheduled, None, Off);
    var dated := OffDay(2, 7, 100, Some(100), false, None, Scheduled, None, Off);
    var t := Table([rule, dated], 3);
    var inp := OffDayInput(7, 100, Some(100), Some(false), None, Some(Scheduled), None, Some(Working));
    assert FindKey(t.rows, DateKey(7, 100)) == 1;
    var t2 := Upsert(t, Normalize(inp)).0;
    assert t2.rows == [rule, dated.(status := Working)];
    assert ReLookupAsWritten(t2.rows, inp) == Some(1);
    assert FindKey(t2.rows, DateKey(7, 100)) == 1;
  }

  /** UPDATE ... SET status = ? WHERE id = ?: the new rows. */
  function SetStatus(rows: seq<OffDay>, id: int, status: string): (r: seq<OffDay>)
    ensures |r| == |rows|
    ensures forall i :: 0 <= i < |rows| ==>
      r[i] == if rows[i].id == id then rows[i].(status := status) else rows[i]
  {
    seq(|rows|, i requires 0 <= i < |rows| => if rows[i].id == id then rows[i].(status := status) else rows[i])
  }

  /** affectedRows > 0 */
  predicate HasId(rows: seq<OffDay>, id: int) {
    exists i :: 0 <= i < |rows| && rows[i].id == id
  }

  /** deleteOffDay: marks the row 'working' and reports whether a row matched. */
  function Delete(t: Table, id: int): (Table, bool) {
    (Table(SetStatus(t.rows, id, Working), t.nextId), HasId(t.rows, id))
  }

  /** updateOffDayStatus: sets the status and returns the updated row, or
      nothing when no row has the id. */
  function UpdateStatus(t: Table, id: int, status: string): (Table, Option<OffDay>) {
    var rows := SetStatus(t.rows, id, status);
    (Table(rows, t.nextId), if HasId(t.rows, id) then GetOffDayById(rows, id) else None)
  }

  lemma SetStatusKeepsValid(t: Table, id: int, status: string)
    requires ValidTable(t)
    ensures ValidTable(Table(SetStatus(t.rows, id, status), t.nextId))
  {
    var r := SetStatus(t.rows, id, status);
    assert forall i :: 0 <= i < |t.rows| ==> RowKey(r[i]) == RowKey(t.rows[i]) && r[i].id == t.rows[i].id;
  }

  /** deleteOffDay never removes a row: every row is still there, only the
      matching row's status becomes 'working', and reading it back by id
      returns it. */
  lemma DeleteIsSoft(t: Table, id: int)
    requires ValidTable(t)
    ensures var (t2, ok) := Delete(t, id);
      |t2.rows| == |t.rows| && t2.nextId == t.nextId
      && (forall i :: 0 <= i < |t.rows| ==> t2.rows[i].id == t.rows[i].id)
      && (ok <==> exists x :: x in t.rows && x.id == id)
      && (ok ==> var old_ := GetOffDayById(t.rows, id).value;
                 GetOffDayById(t2.rows, id) == Some(old_.(status := Working)))
      && (forall i :: 0 <= i < |t.rows| && t.rows[i].id != id ==> t2.rows[i] == t.rows[i])
  {
    var (t2, ok) := Delete(t, id);
    if ok {
      SetStatusFound(t, id, Working);
    } else {
      assert forall x :: x in t.rows ==> x.id != id;
    }
  }

  /** updateOffDayStatus changes only `status`; it returns the updated row
      exactly when the id exists. */
  lemma UpdateStatusOnlyStatus(t: Table, id: int, status: string)
    requires ValidTable(t)
    ensures var (t2, r) := UpdateStatus(t, id, status);
      (r.Some? <==> exists x :: x in t.rows && x.id == id)
      && (r.Some? ==> r == Some(GetOffDayById(t.rows, id).value.(status := status)))
      && |t2.rows| == |t.rows|
      && (forall i :: 0 <= i < |t.rows| ==> t2.rows[i].(status := t.rows[i].status) == t.rows[i])
      && (forall i :: 0 <= i < |t.rows| && t.rows[i].id != id ==> t2.rows[i] == t.rows[i])
  {
    var (t2, r) := UpdateStatus(t, id, status);
    if HasId(t.rows, id) {
      SetStatusFound(t, id, status);
    } else {
      assert forall x :: x in t.rows ==> x.id != id;
    }
    assert forall i :: 0 <= i < |t.rows| ==> t2.rows[i].(status := t.rows[i].status) == t.rows[i];
  }

  /** In a valid table, the row an UPDATE by id matched reads back by id with
      the new status and nothing else changed. */
  lemma SetStatusFound(t: Table, id: int, status: string)
    requires ValidTable(t) && HasId(t.rows, id)
    ensures GetOffDayById(t.rows, id).Some?
    ensures GetOffDayById(SetStatus(t.rows, id, status), id) == Some(GetOffDayById(t.rows, id).value.(status := status))
  {
    var t2 := Table(SetStatus(t.rows, id, status), t.nextId);
    SetStatusKeepsValid(t, id, status);
    var i :| 0 <= i < |t.rows| && t.rows[i].id == id;
    GetByIdAt(t, i);
    GetByIdAt(t2, i);
  }

  /** The table as the server holds it: rows are written in place. */
  class OffDayTable {
    var rows: seq<OffDay>
    var nextId: nat

    function State(): Table
      reads this
    {
      Table(rows, nextId)
    }

    ghost predicate Valid()
      reads this
    {
      ValidTable(State())
    }

    constructor ()
      ensures Valid() && rows == [] && nextId == 1
    {
      rows := [];
      nextId := 1;
    }

    method CreateOffDay(inp: OffDayInput) returns (created: Option<OffDay>)
      requires Valid()
      modifies this
      ensures Valid()
      ensures (State(), created) == Create(old(State()), inp)
      ensures created.Some? && created.value in rows && Holds(created.value, Normalize(inp))
    {
      UpsertKeepsValid(State(), Normalize(inp));
      CreateReturnsWrittenRow(State(), inp);
      var (t, r) := Create(State(), inp);
      rows, nextId, created := t.rows, t.nextId, r;
    }

    method DeleteOffDay(id: int) returns (ok: bool)
      requires Valid()
      modifies this
      ensures Valid()
      ensures (State(), ok) == Delete(old(State()), id)
    {
      SetStatusKeepsValid(State(), id, Working);
      var (t, r) := Delete(State(), id);
      rows, nextId, ok := t.rows, t.nextId, r;
    }

    method UpdateOffDayStatus(id: int, status: string) returns (updated: Option<OffDay>)
      requires Valid()
      modifies this
      ensures Valid()
      ensures (State(), updated) == UpdateStatus(old(State()), id, status)
    {
      SetStatusKeepsValid(State(), id, status);
      var (t, r) := UpdateStatus(State(), id, status);
      rows, nextId, updated := t.rows, t.nextId, r;
    }
  }
}

/**
 * The doctor's dashboard (healthQue-frontend/src/screens/DashboardScreen.js):
 * the seven-day off-day map built from the rows the server returns, the
 * choice a press on a day offers, and the per-day appointment counts.
 *
 * Days are day numbers; the window is `today .. today + 6`.
 */
module Dashboard {
  import opened Wrappers
  import opened OffDayStore
  import Dates

  /** The window's length. */
  const WindowDays: nat := 7

  predicate InWindow(today: int, d: int) {
    today <= d < today + WindowDays
  }

  /** A row applies to day `d`: a weekly rule on its weekday (none when the
      weekday is missing); a dated row from its start to its end, which
      defaults to the start. */
  predicate Touches(r: OffDay, d: int) {
    if r.recurring then r.dayOfWeek.Some? && Dates.Weekday(d) == r.dayOfWeek.value
    else r.startDate <= d <= r.endDate.GetOr(r.startDate)
  }

  /** The effect of one row on a day's list: an 'off' row that applies is
      appended, a 'working' row that applies empties the list. */
  function Step(list: seq<OffDay>, r: OffDay, d: int): seq<OffDay> {
    if !Touches(r, d) then list
    else if r.status == Off then list + [r]
    else if r.status == Working then []
    else list
  }

  /** The list the dashboard shows for day `d` after folding over `rows` in order. */
  function DayList(rows: seq<OffDay>, d: int): seq<OffDay>
    decreases |rows|
  {
    if rows == [] then []
    else Step(DayList(rows[..|rows| - 1], d), rows[|rows| - 1], d)
  }

  /** Some row folded so far set an entry for `d` in the map. */
  predicate Marked(rows: seq<OffDay>, d: int) {
    exists r :: r in rows && Touches(r, d) && (r.status == Off || r.status == Working)
  }

  /** `map[iso] || []`. */
  function Lookup(m: map<int, seq<OffDay>>, d: int): seq<OffDay> {
    if d in m then m[d] else []
  }

  /** The rows that are 'off' on `d`, in order. */
  function OffOn(rows: seq<OffDay>, d: int): (r: seq<OffDay>)
    ensures forall x :: x in r <==> x in rows && Touches(x, d) && x.status == Off
    decreases |rows|
  {
    if rows == [] then []
    else
      var last := rows[|rows| - 1];
      OffOn(rows[..|rows| - 1], d) + (if Touches(last, d) && last.status == Off then [last] else [])
  }

  /** The position just after the last 'working' row that applies to `d`, or 0. */
  function LastReset(rows: seq<OffDay>, d: int): (k: nat)
    ensures k <= |rows|
    ensures k > 0 ==> Touches(rows[k - 1], d) && rows[k - 1].status == Working
    ensures forall i :: k <= i < |rows| ==> !(Touches(rows[i], d) && rows[i].status == Working)
    decreases |rows|
  {
    if rows == [] then 0
    else
      var last := rows[|rows| - 1];
      if Touches(last, d) && last.status == Working then |rows|
      else LastReset(rows[..|rows| - 1], d)
  }

  /** The shown list is the 'off' rows that come after the last 'working'
      row for the day, in order: a 'working' row only hides what precedes it. */
  lemma {:induction false} DayListAfterLastReset(rows: seq<OffDay>, d: int)
    ensures DayList(rows, d) == OffOn(rows[LastReset(rows, d)..], d)
    decreases |rows|
  {
    if rows != [] {
      var init := rows[..|rows| - 1];
      var last := rows[|rows| - 1];
      DayListAfterLastReset(init, d);
      if Touches(last, d) && last.status == Working {
        assert rows[|rows|..] == [];
      } else {
        NotResetStep(rows, d);
      }
    }
  }

  /** A last row that is not a 'working' row for the day adds itself, when
      'off', both to the fold and to the 'off' rows after the last reset. */
  lemma NotResetStep(rows: seq<OffDay>, d: int)
    requires rows != []
    requires var last := rows[|rows| - 1]; !(Touches(last, d) && last.status == Working)
    ensures var init, last := rows[..|rows| - 1], rows[|rows| - 1];
            var extra := if Touches(last, d) && last.status == Off then [last] else [];
            LastReset(rows, d) == LastReset(init, d)
            && DayList(rows, d) == DayList(init, d) + extra
            && OffOn(rows[LastReset(rows, d)..], d) == OffOn(init[LastReset(init, d)..], d) + extra
  {
    var init, last := rows[..|rows| - 1], rows[|rows| - 1];
    var k := LastReset(init, d);
    var tail := rows[k..];
    assert tail[..|tail| - 1] == init[k..];
    assert tail[|tail| - 1] == last;
  }

  /** Appending an 'off' row for the day always leaves the day marked off. */
  lemma AppendedOffRowShows(rows: seq<OffDay>, r: OffDay, d: int)
    requires Touches(r, d) && r.status == Off
    ensures DayList(rows + [r], d) == DayList(rows, d) + [r]
  {
    assert (rows + [r])[..|rows + [r]| - 1] == rows;
  }

  /** The fold depends on order: a 'working' row before an 'off' row for
      the same day does not cancel it, after it it does. */
  lemma DayListDependsOnOrder()
    ensures var work := OffDay(1, 7, 100, None, false, None, Scheduled, None, Working);
      var off := OffDay(2, 7, 100, None, false, None, Scheduled, None, Off);
      DayList([work, off], 100) == [off] && DayList([off, work], 100) == []
  {
    var work := OffDay(1, 7, 100, None, false, None, Scheduled, None, Working);
    var off := OffDay(2, 7, 100, None, false, None, Scheduled, None, Off);
    assert [work, off][..1] == [work];
    assert [off, work][..1] == [off];
  }

  /** The resolution the 'working' overrides are written for: a day is off
      unless some 'working' row applies to it; then it is clear. */
  function Resolve(rows: seq<OffDay>, d: int): (r: seq<OffDay>)
    ensures r == [] || r == OffOn(rows, d)
    ensures (exists x :: x in rows && Touches(x, d) && x.status == Working) ==> r == []
  {
    if exists x :: x in rows && Touches(x, d) && x.status == Working then [] else OffOn(rows, d)
  }

  /** `Resolve` does not depend on the order of the rows: any rearrangement
      gives the same rows, and is clear exactly when the original is. */
  lemma ResolveIgnoresOrder(a: seq<OffDay>, b: seq<OffDay>, d: int)
    requires multiset(a) == multiset(b)
    ensures Resolve(a, d) == [] <==> Resolve(b, d) == []
    ensures forall x :: x in Resolve(a, d) <==> x in Resolve(b, d)
  {
    forall x
      ensures x in a <==> x in b
    {
      assert x in a <==> x in multiset(a);
      assert x in b <==> x in multiset(b);
    }
    if Resolve(a, d) != [] {
      assert Resolve(a, d)[0] in b;
    }
    if Resolve(b, d) != [] {
      assert Resolve(b, d)[0] in a;
    }
  }

  /** When no 'working' row applies, the fold and `Resolve` agree. */
  lemma {:induction false} DayListWithoutOverride(rows: seq<OffDay>, d: int)
    requires forall x :: x in rows ==> !(Touches(x, d) && x.status == Working)
    ensures DayList(rows, d) == Resolve(rows, d)
    decreases |rows|
  {
    if rows != [] {
      var init := rows[..|rows| - 1];
      assert forall x :: x in init ==> x in rows;
      DayListWithoutOverride(init, d);
    }
  }

  /** Folding one more row updates every day by `Step`. */
  lemma FoldOneMore(rows: seq<OffDay>, i: int, d: int)
    requires 0 <= i < |rows|
    ensures DayList(rows[..i + 1], d) == Step(DayList(rows[..i], d), rows[i], d)
    ensures Marked(rows[..i + 1], d) <==>
      Marked(rows[..i], d) || (Touches(rows[i], d) && (rows[i].status == Off || rows[i].status == Working))
  {
    assert rows[..i + 1][..i] == rows[..i];
    assert rows[..i + 1] == rows[..i] + [rows[i]];
  }

  /** The inner loop of loadOffDays: one row applied to each window day. */
  method ApplyRow(m0: map<int, seq<OffDay>>, r: OffDay, today: int) returns (m: map<int, seq<OffDay>>)
    requires forall d :: d in m0 ==> InWindow(today, d)
    ensures forall d :: d in m ==> InWindow(today, d)
    ensures forall d :: InWindow(today, d) ==>
      (d in m <==> d in m0 || (Touches(r, d) && (r.status == Off || r.status == Working)))
    ensures forall d :: InWindow(today, d) ==> Lookup(m, d) == Step(Lookup(m0, d), r, d)
  {
    m := m0;
    for j := 0 to WindowDays
      invariant forall d :: d in m ==> InWindow(today, d)
      invariant forall d :: InWindow(today, d) && d >= today + j ==> (d in m <==> d in m0) && Lookup(m, d) == Lookup(m0, d)
      invariant forall d :: InWindow(today, d) && d < today + j ==>
        (d in m <==> d in m0 || (Touches(r, d) && (r.status == Off || r.status == Working)))
      invariant forall d :: InWindow(today, d) && d < today + j ==> Lookup(m, d) == Step(Lookup(m0, d), r, d)
    {
      var d := today + j;
      if Touches(r, d) {
        if r.status == Off {
          m := m[d := Lookup(m, d) + [r]];
        } else if r.status == Working {
          m := m[d := []];
        }
      }
    }
  }

  /** loadOffDays: the map built by looping over the rows and, for each, over
      the window's days. */
  method LoadOffDays(rows: seq<OffDay>, today: int) returns (m: map<int, seq<OffDay>>)
    ensures forall d :: d in m ==> InWindow(today, d)
    ensures forall d :: InWindow(today, d) ==> (d in m <==> Marked(rows, d))
    ensures forall d :: InWindow(today, d) ==> Lookup(m, d) == DayList(rows, d)
  {
    m := map[];
    for i := 0 to |rows|
      invariant forall d :: d in m ==> InWindow(today, d)
      invariant forall d :: InWindow(today, d) ==> (d in m <==> Marked(rows[..i], d))
      invariant forall d :: InWindow(today, d) ==> Lookup(m, d) == DayList(rows[..i], d)
    {
      m := ApplyRow(m, rows[i], today);
      forall d | InWindow(today, d)
        ensures (d in m <==> Marked(rows[..i + 1], d)) && Lookup(m, d) == DayList(rows[..i + 1], d)
      {
        FoldOneMore(rows, i, d);
      }
    }
    assert rows[..|rows|] == rows;
  }

  /** What pressing a day offers: to unset the rows shown for it, or to set
      the day off. */
  datatype Target = Unset(date: int, rows: seq<OffDay>) | Set(date: int)

  function OnDayPress(m: map<int, seq<OffDay>>, d: int): (t: Target)
    ensures t.date == d
    ensures t.Unset? <==> Lookup(m, d) != []
    ensures t.Unset? ==> t.rows == Lookup(m, d)
  {
    var rows := Lookup(m, d);
    if |rows| > 0 then Unset(d, rows) else Set(d)
  }

  /** On the map the dashboard builds, a press offers 'unset' exactly when
      the fold leaves 'off' rows for the day. */
  lemma PressFollowsFold(rows: seq<OffDay>, today: int, m: map<int, seq<OffDay>>, d: int)
    requires InWindow(today, d)
    requires forall e :: InWindow(today, e) ==> Lookup(m, e) == DayList(rows, e)
    ensures OnDayPress(m, d).Unset? <==> DayList(rows, d) != []
    ensures OnDayPress(m, d).Unset? ==> forall x :: x in OnDayPress(m, d).rows ==> x in rows && Touches(x, d) && x.status == Off
  {
    DayListAfterLastReset(rows, d);
    var k := LastReset(rows, d);
    forall x | x in OffOn(rows[k..], d) ensures x in rows {
      assert x in rows[k..];
    }
  }

  // ---------------------------------------------------------------- appointments per day

  /** The number of appointments on day `d`; an appointment whose time is
      missing or unreadable is `None`. */
  function CountOn(items: seq<Option<int>>, d: int): (n: nat)
    ensures n <= |items|
    decreases |items|
  {
    if items == [] then 0
    else CountOn(items[..|items| - 1], d) + (if items[|items| - 1] == Some(d) then 1 else 0)
  }

  /** The counts of the first `n` window days, summed. */
  function WindowTotal(items: seq<Option<int>>, today: int, n: nat): nat {
    if n == 0 then 0 else WindowTotal(items, today, n - 1) + CountOn(items, today + n - 1)
  }

  /** The appointments falling in the first `n` window days. */
  function InFirstDays(items: seq<Option<int>>, today: int, n: nat): (c: nat)
    ensures c <= |items|
    decreases |items|
  {
    if items == [] then 0
    else
      var last := items[|items| - 1];
      InFirstDays(items[..|items| - 1], today, n) + (if last.Some? && today <= last.value < today + n then 1 else 0)
  }

  lemma {:induction false} WindowTotalCountsItems(items: seq<Option<int>>, today: int, n: nat)
    ensures WindowTotal(items, today, n) == InFirstDays(items, today, n)
    decreases |items|, n
  {
    if items == [] {
      if n > 0 {
        WindowTotalCountsItems(items, today, n - 1);
      }
    } else {
      var init := items[..|items| - 1];
      WindowTotalCountsItems(init, today, n);
      WindowTotalStep(init, items[|items| - 1], today, n);
      assert init + [items[|items| - 1]] == items;
    }
  }

  lemma {:induction false} WindowTotalStep(items: seq<Option<int>>, x: Option<int>, today: int, n: nat)
    ensures WindowTotal(items + [x], today, n)
         == WindowTotal(items, today, n) + (if x.Some? && today <= x.value < today + n then 1 else 0)
    decreases n
  {
    assert (items + [x])[..|items + [x]| - 1] == items;
    if n > 0 {
      WindowTotalStep(items, x, today, n - 1);
    }
  }

  /** The seven counts never add up to more than the appointments fetched. */
  lemma UpcomingBounded(items: seq<Option<int>>, today: int)
    ensures WindowTotal(items, today, WindowDays) <= |items|
  {
    WindowTotalCountsItems(items, today, WindowDays);
  }

  /** loadUpcoming: one counter per window day, bumped for each appointment
      on that day. */
  method LoadUpcoming(items: seq<Option<int>>, today: int) returns (counts: array<nat>)
    ensures fresh(counts) && counts.Length == WindowDays
    ensures forall k :: 0 <= k < WindowDays ==> counts[k] == CountOn(items, today + k)
  {
    counts := new nat[WindowDays](_ => 0);
    for i := 0 to |items|
      invariant forall k :: 0 <= k < WindowDays ==> counts[k] == CountOn(items[..i], today + k)
    {
      assert items[..i + 1][..i] == items[..i];
      var it := items[i];
      if it.Some? && today <= it.value < today + WindowDays {
        var idx := it.value - today;
        counts[idx] := counts[idx] + 1;
      }
    }
    assert items[..|items|] == items;
  }
}

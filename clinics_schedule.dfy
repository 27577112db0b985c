/**
 * The weekly-schedule editor of the clinics screen.  A schedule maps day
 * names ('mon' … 'sun') to that day's opening slots, each a pair of `HH:MM`
 * texts under `start`/`end` or, as the add-clinic screen saves them, under
 * `from`/`to`.  The editor adds a slot (or replaces the one being
 * edited) after checking that its bounds are well formed and that it does
 * not overlap another slot of the day, removes a slot by position, and on
 * save de-duplicates and sorts every day, optionally copying one day's slots
 * to other days first.  The screen also formats times on a 12-hour clock,
 * exports the clinic list as comma-separated text and pages through it.
 */
module ClinicsSchedule {
  import opened Wrappers
  import opened JsText
  import opened Sorting
  import opened Paging
  import opened JsArray
  import Csv

  /** One opening slot as a schedule holds it.  The editor writes
      `{ start, end }`, the add-clinic screen `{ from, to }`, and `s`/`e` are
      read as a last fallback.  A missing field reads like an empty one (both
      are falsy), so each field is a text, empty when absent. */
  datatype Range = Range(start: string, end: string, from: string, to: string, s: string, e: string)

  /** The `{ start, end }` object the editor and the save write. */
  function Slot(start: string, end: string): (r: Range)
    ensures StartOf(r) == start && EndOf(r) == end
  {
    Range(start, end, "", "", "", "")
  }

  /** `a || b || c || ''` over texts: the first that is not empty. */
  function Bound(a: string, b: string, c: string): (r: string)
    ensures r == "" <==> a == "" && b == "" && c == ""
    ensures a != "" ==> r == a
    ensures a == "" && b != "" ==> r == b
  {
    if a != "" then a else if b != "" then b else c
  }

  /** `r.start || r.from || r.s || ''`: a stored slot's start as the overlap
      loop, the duplicate test, editRange and the save read it. */
  function StartOf(r: Range): string {
    Bound(r.start, r.from, r.s)
  }

  /** `r.end || r.to || r.e || ''`. */
  function EndOf(r: Range): string {
    Bound(r.end, r.to, r.e)
  }

  /** The slot's bounds are the ones under `start` and `end`: true of every
      slot the editor writes, false of a `{ from, to }` slot. */
  predicate ReadsStartEnd(r: Range) {
    StartOf(r) == r.start && EndOf(r) == r.end
  }

  predicate StartEndDay(rs: seq<Range>) {
    forall i :: 0 <= i < |rs| ==> ReadsStartEnd(rs[i])
  }

  /** A weekly schedule: day name to that day's slots. */
  type Hours = map<string, seq<Range>>

  /** A day's slots; a day without a list has none. */
  function Ranges(h: Hours, d: string): seq<Range> {
    if d in h then h[d] else []
  }

  // ------------------------------------------------------------------ times

  /** A time input as addRange reads it: trimmed, then cut to five characters. */
  function NormalizeInput(s: string): (r: string)
    ensures |r| <= 5 && IsPrefix(r, Trim(s))
  {
    Take(Trim(s), 5)
  }

  /** `hh * 60 + mm`, NaN as soon as either part is. */
  function Minutes(hh: Num, mm: Num): Num {
    if hh.Val? && mm.Val? then Val(hh.v * 60 + mm.v) else NaN
  }

  /** `toMinutes`: the number before the first ':' is the hour, the one after
      it the minute; a missing or empty part counts as 0. */
  function ToMinutes(hhmm: string): Num {
    var parts := Split(hhmm, ':');
    Minutes(JsNumber(parts[0]), if |parts| >= 2 then JsNumber(parts[1]) else Val(0))
  }

  /** `String(n).padStart(2, '0')`. */
  function Pad2(n: nat): string {
    PadStart(NatToString(n), 2, '0')
  }

  /** The `HH:MM` text the time picker writes. */
  function Clock(h: nat, m: nat): string {
    Pad2(h) + ":" + Pad2(m)
  }

  lemma Pad2Digits(n: nat)
    requires n < 100
    ensures |Pad2(n)| == 2 && AllDigits(Pad2(n))
  {
    var d := NatToString(n);
    if n >= 10 {
      assert d == NatToString(n / 10) + [DigitChar(n % 10)];
      assert |d| == 2;
      assert Pad2(n) == d;
    } else {
      assert d == [DigitChar(n)];
      var z := "0" + d;
      assert PadStart(d, 2, '0') == PadStart(z, 2, '0') == z;
      assert z[0] == '0' && z[1] == DigitChar(n);
    }
  }

  lemma ClockText(h: nat, m: nat)
    requires h < 100 && m < 100
    ensures |Clock(h, m)| == 5
    ensures forall i :: 0 <= i < 5 ==> !IsSpace(Clock(h, m)[i])
    ensures Split(Clock(h, m), ':') == [Pad2(h), Pad2(m)]
  {
    var c := Clock(h, m);
    Pad2Digits(h);
    Pad2Digits(m);
    NoSpaceInDigits(Pad2(h));
    NoSpaceInDigits(Pad2(m));
    forall i | 0 <= i < 5 ensures !IsSpace(c[i]) {
      if i < 2 { assert c[i] == Pad2(h)[i]; }
      else if i > 2 { assert c[i] == Pad2(m)[i - 3]; }
    }
    assert forall i :: 0 <= i < |Pad2(h)| ==> Pad2(h)[i] != ':';
    assert forall i :: 0 <= i < |Pad2(m)| ==> Pad2(m)[i] != ':';
    SplitAtFirst(Pad2(h), ':', Pad2(m));
    SplitWithout(Pad2(m), ':');
  }

  /** A picked time survives the input normalization and reads back as its
      number of minutes. */
  lemma ClockMinutes(h: nat, m: nat)
    requires h < 100 && m < 100
    ensures NormalizeInput(Clock(h, m)) == Clock(h, m)
    ensures ToMinutes(Clock(h, m)) == Val(h * 60 + m)
  {
    var c, a, b := Clock(h, m), Pad2(h), Pad2(m);
    ClockText(h, m);
    TrimNoSpace(c);
    assert Take(Trim(c), 5) == c;
    JsNumberOfPadded(h);
    JsNumberOfPadded(m);
    assert JsNumber(a) == Val(h) && JsNumber(b) == Val(m);
    MinutesOfParts(c, a, b, h, m);
  }

  lemma MinutesOfParts(c: string, a: string, b: string, h: int, m: int)
    requires Split(c, ':') == [a, b] && JsNumber(a) == Val(h) && JsNumber(b) == Val(m)
    ensures ToMinutes(c) == Val(h * 60 + m)
  {
    var parts := Split(c, ':');
    assert ToMinutes(c) == Minutes(JsNumber(parts[0]), if |parts| >= 2 then JsNumber(parts[1]) else Val(0));
  }

  function Max(a: int, b: int): int {
    if a < b then b else a
  }

  function Min(a: int, b: int): int {
    if a < b then a else b
  }

  /** `overlaps`: `Math.max(aStart, bStart) < Math.min(aEnd, bEnd)`; a NaN
      bound makes the comparison false. */
  predicate Overlaps(aStart: Num, aEnd: Num, bStart: Num, bEnd: Num) {
    aStart.Val? && aEnd.Val? && bStart.Val? && bEnd.Val?
    && Max(aStart.v, bStart.v) < Min(aEnd.v, bEnd.v)
  }

  /** Minute `t` lies in the half-open slot `[a, b)`. */
  predicate InSlot(t: int, a: int, b: int) {
    a <= t < b
  }

  /** Slots are half-open: two slots overlap exactly when some minute lies in
      both, so a slot ending at 10:00 and one starting at 10:00 do not. */
  lemma OverlapsIffSharedMinute(a1: int, a2: int, b1: int, b2: int)
    ensures Overlaps(Val(a1), Val(a2), Val(b1), Val(b2)) <==> exists t :: InSlot(t, a1, a2) && InSlot(t, b1, b2)
    ensures !Overlaps(Val(a1), Val(a2), Val(a2), Val(b2))
  {
    if Overlaps(Val(a1), Val(a2), Val(b1), Val(b2)) {
      var t := Max(a1, b1);
      assert InSlot(t, a1, a2) && InSlot(t, b1, b2);
    }
  }

  // ------------------------------------------------------------------ adding a slot

  /** How a bound is read as minutes.  addRange reads every bound with
      `ToMinutes`; the checks below are written for any reader `read`, so
      that what they promise rests on their own logic and holds for the
      screen's reader in particular. */
  type Reader = string -> Num

  /** A stored slot's bounds in minutes as the overlap loop reads them: the
      first five characters, not trimmed. */
  function StartMinutes(read: Reader, r: Range): Num {
    read(Take(StartOf(r), 5))
  }

  function EndMinutes(read: Reader, r: Range): Num {
    read(Take(EndOf(r), 5))
  }

  /** The candidate `[sMin, eMin)` overlaps the stored slot `r`. */
  predicate Clash(read: Reader, sMin: int, eMin: int, r: Range) {
    Overlaps(Val(sMin), Val(eMin), StartMinutes(read, r), EndMinutes(read, r))
  }

  /** `Clash` as the test the overlap loop applies to each stored slot. */
  function Clashes(read: Reader, sMin: int, eMin: int): Range -> bool {
    r => Clash(read, sMin, eMin, r)
  }

  /** No two slots of a day overlap. */
  predicate Disjoint(read: Reader, rs: seq<Range>) {
    forall i, j :: 0 <= i < |rs| && 0 <= j < |rs| && i != j ==>
      !Overlaps(StartMinutes(read, rs[i]), EndMinutes(read, rs[i]), StartMinutes(read, rs[j]), EndMinutes(read, rs[j]))
  }

  /** The index the overlap loop stops at, searching from `i` and skipping the
      slot being edited; `clashes` is the overlap test against the candidate. */
  function FirstClash(existing: seq<Range>, clashes: Range -> bool, editing: Option<nat>, i: nat): (r: Option<nat>)
    requires i <= |existing|
    ensures r.Some? ==> i <= r.value < |existing| && editing != Some(r.value) && clashes(existing[r.value])
    ensures forall j :: i <= j < |existing| && (r.None? || j < r.value) && editing != Some(j) ==> !clashes(existing[j])
    decreases |existing| - i
  {
    if i == |existing| then None
    else if editing != Some(i) && clashes(existing[i]) then Some(i)
    else FirstClash(existing, clashes, editing, i + 1)
  }

  /** The check at the head of addRange: both bounds present and numeric, and
      the start strictly before the end. */
  predicate ValidBounds(read: Reader, s: string, e: string) {
    s != "" && e != "" && read(s).Val? && read(e).Val? && read(s).v < read(e).v
  }

  /** The duplicate test's text comparison of `start|end` keys. */
  predicate SameText(r: Range, s: string, e: string) {
    Take(StartOf(r), 5) + "|" + Take(EndOf(r), 5) == s + "|" + e
  }

  /** `existing.some(...)`: some stored slot has the candidate's key text. */
  predicate HasSameText(existing: seq<Range>, s: string, e: string) {
    exists r :: r in existing && SameText(r, s, e)
  }

  /** The overlap loop of addRange: the first stored slot, other than the one
      being edited, that `clashes` picks out. */
  method FindClash(existing: seq<Range>, clashes: Range -> bool, editing: Option<nat>) returns (clash: Option<nat>)
    ensures clash == FirstClash(existing, clashes, editing, 0)
  {
    var i := 0;
    clash := None;
    while i < |existing| && clash.None?
      invariant 0 <= i <= |existing|
      invariant clash.None? ==> FirstClash(existing, clashes, editing, 0) == FirstClash(existing, clashes, editing, i)
      invariant clash.Some? ==> clash == FirstClash(existing, clashes, editing, 0)
      decreases |existing| - i, if clash.None? then 1 else 0
    {
      if editing != Some(i) && clashes(existing[i]) {
        clash := Some(i);
      } else {
        i := i + 1;
      }
    }
  }

  /** `scheduleDay || 'mon'`. */
  function DayOf(day: string): string {
    if day == "" then "mon" else day
  }

  /** The day's list is created empty when missing; the copy of the schedule
      shares its `hours` object, so the new empty list stays even when the
      slot is then refused. */
  function Prepared(h: Hours, d: string): (r: Hours)
    ensures d in r && r[d] == Ranges(h, d)
  {
    if d in h then h else h[d := []]
  }

  /** Index assignment while editing, a push otherwise. */
  function Placed(xs: seq<Range>, editing: Option<nat>, x: Range): seq<Range> {
    if editing.Some? && editing.value < |xs| then xs[editing.value := x] else xs + [x]
  }

  datatype Outcome = BadTime | Overlap(index: nat) | Duplicate | Added

  /** What addRange decides for the candidate slot `[s, e)` against the
      day's slots `xs`: refused as malformed, refused for overlapping the
      slot at the index given, refused as a duplicate, or added. */
  function AddOutcome(read: Reader, xs: seq<Range>, s: string, e: string, editing: Option<nat>): Outcome {
    if !ValidBounds(read, s, e) then BadTime
    else
      match FirstClash(xs, Clashes(read, read(s).v, read(e).v), editing, 0)
      case Some(i) => Overlap(i)
      case None => if editing.None? && HasSameText(xs, s, e) then Duplicate else Added
  }

  /** What addRange decides and the schedule it leaves behind. */
  function AddResult(read: Reader, hours: Hours, day: string, rangeStart: string, rangeEnd: string, editing: Option<nat>): (Outcome, Hours) {
    var d := DayOf(day);
    var h := Prepared(hours, d);
    var s := NormalizeInput(rangeStart);
    var e := NormalizeInput(rangeEnd);
    var o := AddOutcome(read, h[d], s, e, editing);
    (o, if o == Added then h[d := Placed(h[d], editing, Slot(s, e))] else h)
  }

  /** The checks of addRange in their order: the bounds, the overlap loop,
      then the duplicate test. */
  method CheckSlot(read: Reader, existing: seq<Range>, s: string, e: string, editing: Option<nat>) returns (outcome: Outcome)
    ensures outcome == AddOutcome(read, existing, s, e, editing)
  {
    if !ValidBounds(read, s, e) {
      outcome := BadTime;
    } else {
      var clash := FindClash(existing, Clashes(read, read(s).v, read(e).v), editing);
      if clash.Some? {
        outcome := Overlap(clash.value);
      } else if editing.None? && HasSameText(existing, s, e) {
        outcome := Duplicate;
      } else {
        outcome := Added;
      }
    }
  }

  /** The inline error under the time inputs. */
  datatype InputError = NoError | BadTimeError | OverlapError | DuplicateError

  /** The inline error addRange leaves. */
  function ErrorOf(o: Outcome): InputError {
    match o
    case BadTime => BadTimeError
    case Overlap(_) => OverlapError
    case Duplicate => DuplicateError
    case Added => NoError
  }

  /** The text shown for each error. */
  function ErrorText(k: InputError): string {
    match k
    case NoError => ""
    case BadTimeError => "Start must be before end (HH:MM)"
    case OverlapError => "New slot overlaps existing slot"
    case DuplicateError => "This slot already exists"
  }

  // ------------------------------------------------------------------ what addRange promises

  /** The candidate fits the day: its bounds are valid and it overlaps no
      stored slot other than the one being edited. */
  predicate Fits(read: Reader, xs: seq<Range>, s: string, e: string, editing: Option<nat>) {
    ValidBounds(read, s, e)
    && forall j :: 0 <= j < |xs| && editing != Some(j) ==> !Clash(read, read(s).v, read(e).v, xs[j])
  }

  /** The overlap loop finds nothing exactly when the candidate fits. */
  lemma NoClashIffFits(read: Reader, xs: seq<Range>, s: string, e: string, editing: Option<nat>)
    requires ValidBounds(read, s, e)
    ensures FirstClash(xs, Clashes(read, read(s).v, read(e).v), editing, 0).None? <==> Fits(read, xs, s, e, editing)
  {
    var c := FirstClash(xs, Clashes(read, read(s).v, read(e).v), editing, 0);
    if c.Some? {
      assert Clashes(read, read(s).v, read(e).v)(xs[c.value]);
    }
  }

  /** A slot is refused as malformed exactly when its bounds are not a
      valid `start < end` pair. */
  lemma AddRefusesBadTimes(read: Reader, xs: seq<Range>, s: string, e: string, editing: Option<nat>)
    ensures AddOutcome(read, xs, s, e, editing) == BadTime <==> !ValidBounds(read, s, e)
  {
  }

  /** An overlap is reported exactly when valid bounds do not fit the day,
      and it names the first stored slot, other than the edited one, that
      the candidate overlaps. */
  lemma AddReportsFirstOverlap(read: Reader, xs: seq<Range>, s: string, e: string, editing: Option<nat>)
    ensures var o := AddOutcome(read, xs, s, e, editing);
      (o.Overlap? <==> ValidBounds(read, s, e) && !Fits(read, xs, s, e, editing))
      && (o.Overlap? ==>
            o.index < |xs| && editing != Some(o.index)
            && Clash(read, read(s).v, read(e).v, xs[o.index])
            && forall j :: 0 <= j < o.index && editing != Some(j) ==> !Clash(read, read(s).v, read(e).v, xs[j]))
  {
    if ValidBounds(read, s, e) {
      NoClashIffFits(read, xs, s, e, editing);
      var c := FirstClash(xs, Clashes(read, read(s).v, read(e).v), editing, 0);
      if c.Some? {
        assert Clashes(read, read(s).v, read(e).v)(xs[c.value]);
        forall j | 0 <= j < c.value && editing != Some(j)
          ensures !Clash(read, read(s).v, read(e).v, xs[j])
        {
          assert !Clashes(read, read(s).v, read(e).v)(xs[j]);
        }
      }
    }
  }

  /** A slot is added exactly when it fits the day and, unless a slot is
      being edited, no stored slot has its key text. */
  lemma AddAcceptsIff(read: Reader, xs: seq<Range>, s: string, e: string, editing: Option<nat>)
    ensures AddOutcome(read, xs, s, e, editing) == Added
        <==> Fits(read, xs, s, e, editing) && !(editing.None? && HasSameText(xs, s, e))
  {
    if ValidBounds(read, s, e) {
      NoClashIffFits(read, xs, s, e, editing);
    }
  }

  /** addRange changes the selected day only, and only when it adds: the
      added slot then replaces the edited one, or is appended. */
  lemma AddChangesOnlyTheDay(read: Reader, hours: Hours, day: string, rangeStart: string, rangeEnd: string, editing: Option<nat>, d: string)
    ensures var (o, h) := AddResult(read, hours, day, rangeStart, rangeEnd, editing);
      Ranges(h, d) == if o == Added && d == DayOf(day)
                      then Placed(Ranges(hours, d), editing, Slot(NormalizeInput(rangeStart), NormalizeInput(rangeEnd)))
                      else Ranges(hours, d)
  {
  }

  /** With the screen's reader, a picked pair of times passes the bounds
      check exactly when the start comes before the end. */
  lemma AddAcceptsPickedTimes(xs: seq<Range>, h1: nat, m1: nat, h2: nat, m2: nat, editing: Option<nat>)
    requires h1 < 100 && m1 < 100 && h2 < 100 && m2 < 100
    ensures AddOutcome(ToMinutes, xs, NormalizeInput(Clock(h1, m1)), NormalizeInput(Clock(h2, m2)), editing) != BadTime
        <==> h1 * 60 + m1 < h2 * 60 + m2
  {
    ClockMinutes(h1, m1);
    ClockMinutes(h2, m2);
    ClockText(h1, m1);
    ClockText(h2, m2);
    AddRefusesBadTimes(ToMinutes, xs, Clock(h1, m1), Clock(h2, m2), editing);
  }

  /** A text of at most five characters is stored and read back whole. */
  lemma StoredBounds(read: Reader, s: string, e: string)
    requires |s| <= 5 && |e| <= 5
    ensures StartMinutes(read, Slot(s, e)) == read(s) && EndMinutes(read, Slot(s, e)) == read(e)
  {
    assert Take(s, 5) == s && Take(e, 5) == e;
  }

  /** Placing a fitting slot keeps the day free of overlaps. */
  lemma PlacedKeepsDisjoint(read: Reader, xs: seq<Range>, editing: Option<nat>, s: string, e: string)
    requires Disjoint(read, xs) && |s| <= 5 && |e| <= 5 && Fits(read, xs, s, e, editing)
    ensures Disjoint(read, Placed(xs, editing, Slot(s, e)))
  {
    var x := Slot(s, e);
    var ys := Placed(xs, editing, x);
    var p := if editing.Some? && editing.value < |xs| then editing.value else |xs|;
    StoredBounds(read, s, e);
    assert forall i :: 0 <= i < |ys| && i != p ==> ys[i] == xs[i] && editing != Some(i);
    assert ys[p] == x;
    forall i, j | 0 <= i < |ys| && 0 <= j < |ys| && i != j
      ensures !Overlaps(StartMinutes(read, ys[i]), EndMinutes(read, ys[i]), StartMinutes(read, ys[j]), EndMinutes(read, ys[j]))
    {
      if i == p {
        assert !Clash(read, read(s).v, read(e).v, xs[j]);
      } else if j == p {
        assert !Clash(read, read(s).v, read(e).v, xs[i]);
      }
    }
  }

  /** Adding never makes two slots of the day overlap. */
  lemma AddKeepsDisjoint(read: Reader, hours: Hours, day: string, rangeStart: string, rangeEnd: string, editing: Option<nat>)
    requires Disjoint(read, Ranges(hours, DayOf(day)))
    ensures Disjoint(read, Ranges(AddResult(read, hours, day, rangeStart, rangeEnd, editing).1, DayOf(day)))
  {
    var d := DayOf(day);
    var s, e := NormalizeInput(rangeStart), NormalizeInput(rangeEnd);
    AddChangesOnlyTheDay(read, hours, day, rangeStart, rangeEnd, editing, d);
    AddAcceptsIff(read, Ranges(hours, d), s, e, editing);
    if AddOutcome(read, Ranges(hours, d), s, e, editing) == Added {
      PlacedKeepsDisjoint(read, Ranges(hours, d), editing, s, e);
    }
  }

  /** The editor writes `{ start, end }` slots only: a day whose slots keep
      their bounds under `start` and `end` still does after an add. */
  lemma AddKeepsStartEnd(read: Reader, hours: Hours, day: string, rangeStart: string, rangeEnd: string, editing: Option<nat>)
    requires StartEndDay(Ranges(hours, DayOf(day)))
    ensures StartEndDay(Ranges(AddResult(read, hours, day, rangeStart, rangeEnd, editing).1, DayOf(day)))
  {
    var d := DayOf(day);
    var x := Slot(NormalizeInput(rangeStart), NormalizeInput(rangeEnd));
    AddChangesOnlyTheDay(read, hours, day, rangeStart, rangeEnd, editing, d);
    var ys := Placed(Ranges(hours, d), editing, x);
    assert ReadsStartEnd(x);
    assert forall i :: 0 <= i < |ys| ==> ys[i] == x || ys[i] == Ranges(hours, d)[i];
  }

  /** Keys joined with '|' split back into their parts when the stored-side
      parts hold no '|'. */
  lemma JoinedKeyParts(a: string, b: string, c: string, d: string)
    requires '|' !in c && '|' !in d
    requires a + "|" + b == c + "|" + d
    ensures a == c && b == d
  {
    var l := a + "|" + b;
    BarAfter(a, b);
    BarAfter(c, d);
    NoBarWithin(c, d, |a|);
    NoBarWithin(a, b, |c|);
    NoBarBeyond(c, d, |a|);
    if |a| != |c| {
      assert false;
    }
    assert a == l[..|a|] && c == l[..|c|];
    assert b == l[|a| + 1..] && d == l[|c| + 1..];
  }

  lemma BarAfter(a: string, b: string)
    ensures (a + "|" + b)[|a|] == '|'
  {
  }

  lemma NoBarWithin(a: string, b: string, i: int)
    ensures 0 <= i < |a| && '|' !in a ==> (a + "|" + b)[i] != '|'
  {
    if 0 <= i < |a| && '|' !in a {
      assert (a + "|" + b)[i] == a[i];
    }
  }

  lemma NoBarBeyond(a: string, b: string, i: int)
    ensures |a| < i < |a| + 1 + |b| && '|' !in b ==> (a + "|" + b)[i] != '|'
  {
    if |a| < i < |a| + 1 + |b| && '|' !in b {
      assert (a + "|" + b)[i] == b[i - |a| - 1];
    }
  }

  /** The normalized input keeps out any character the raw input lacks. */
  lemma NormalizeKeepsOut(s: string, ch: char)
    requires ch !in s
    ensures ch !in NormalizeInput(s)
  {
    var a := TrimSlice(s);
    var t := Trim(s);
    assert forall i :: 0 <= i < |NormalizeInput(s)| ==> NormalizeInput(s)[i] == t[i] == s[a + i];
  }

  /** The duplicate test never fires for inputs without '|': a stored slot
      with the same key text has the candidate's bounds, so the overlap test
      before it already refused the candidate. */
  lemma DuplicateUnreachable(read: Reader, xs: seq<Range>, rangeStart: string, rangeEnd: string, editing: Option<nat>)
    requires '|' !in rangeStart && '|' !in rangeEnd
    ensures AddOutcome(read, xs, NormalizeInput(rangeStart), NormalizeInput(rangeEnd), editing) != Duplicate
  {
    var s, e := NormalizeInput(rangeStart), NormalizeInput(rangeEnd);
    AddAcceptsIff(read, xs, s, e, editing);
    if ValidBounds(read, s, e) {
      NormalizeKeepsOut(rangeStart, '|');
      NormalizeKeepsOut(rangeEnd, '|');
      forall r | r in xs && SameText(r, s, e)
        ensures Clash(read, read(s).v, read(e).v, r)
      {
        JoinedKeyParts(Take(StartOf(r), 5), Take(EndOf(r), 5), s, e);
      }
      if HasSameText(xs, s, e) {
        var r :| r in xs && SameText(r, s, e);
        var j :| 0 <= j < |xs| && xs[j] == r;
        assert !Fits(read, xs, s, e, editing) || editing.Some?;
      }
    }
  }

  /** Saving an edited slot unchanged puts it back at its index, written as
      `{ start, end }`; a slot in that form is left exactly as it was. */
  lemma ReAddAfterEdit(read: Reader, hours: Hours, d: string, k: nat)
    requires d != "" && d in hours && k < |hours[d]| && Disjoint(read, hours[d])
    requires NormalizeInput(StartOf(hours[d][k])) == StartOf(hours[d][k])
    requires NormalizeInput(EndOf(hours[d][k])) == EndOf(hours[d][k])
    requires ValidBounds(read, StartOf(hours[d][k]), EndOf(hours[d][k]))
    ensures var x := hours[d][k];
      AddResult(read, hours, d, StartOf(x), EndOf(x), Some(k))
      == (Added, hours[d := hours[d][k := Slot(StartOf(x), EndOf(x))]])
    ensures var x := hours[d][k];
      x == Slot(x.start, x.end) ==> AddResult(read, hours, d, StartOf(x), EndOf(x), Some(k)) == (Added, hours)
  {
    var xs := hours[d];
    var x := xs[k];
    var s, e := StartOf(x), EndOf(x);
    StoredBounds(read, s, e);
    assert StartMinutes(read, x) == read(s) && EndMinutes(read, x) == read(e);
    forall j | 0 <= j < |xs| && j != k
      ensures !Clash(read, read(s).v, read(e).v, xs[j])
    {
      assert !Overlaps(StartMinutes(read, xs[k]), EndMinutes(read, xs[k]), StartMinutes(read, xs[j]), EndMinutes(read, xs[j]));
    }
    assert Fits(read, xs, s, e, Some(k));
    AddAcceptsIff(read, xs, s, e, Some(k));
    assert AddOutcome(read, xs, s, e, Some(k)) == Added;
    assert Prepared(hours, d) == hours;
    assert DayOf(d) == d;
    if x == Slot(x.start, x.end) {
      assert xs[k := Slot(s, e)] == xs;
      assert hours[d := xs] == hours;
    }
  }

  /** Removing a slot keeps the day free of overlaps. */
  lemma RemoveKeepsDisjoint(read: Reader, xs: seq<Range>, idx: int)
    requires Disjoint(read, xs)
    ensures Disjoint(read, Without(xs, idx))
  {
    var r := Without(xs, idx);
    if 0 <= idx < |xs| {
      forall i, j | 0 <= i < |r| && 0 <= j < |r| && i != j
        ensures !Overlaps(StartMinutes(read, r[i]), EndMinutes(read, r[i]), StartMinutes(read, r[j]), EndMinutes(read, r[j]))
      {
        var i' := if i < idx then i else i + 1;
        var j' := if j < idx then j else j + 1;
        assert r[i] == xs[i'] && r[j] == xs[j'];
      }
    }
  }

  // ---------------------------------------------------------- 12-hour clock

  /** `a % b` in JavaScript for `b > 0`: the remainder keeps the sign of `a`. */
  function JsRem(a: int, b: int): (r: int)
    requires b > 0
    ensures -b < r < b
    ensures a >= 0 ==> r == a % b
    ensures a < 0 ==> r <= 0 && r == -((-a) % b)
  {
    if a >= 0 then a % b else -((-a) % b)
  }

  /** formatAMPM: a time on a 12-hour clock with an AM or PM suffix.  Empty
      text stays empty; text that does not read as an hour and a minute is
      shown as it is. */
  function FormatAMPM(hhmm: string): string {
    if hhmm == "" then ""
    else
      var parts := Split(hhmm, ':');
      if |parts| < 2 then hhmm
      else
        var hh := JsNumber(parts[0]);
        var mm := JsNumber(parts[1]);
        if hh.NaN? || mm.NaN? then hhmm else Format12(hh.v, mm.v)
  }

  /** The text formatAMPM builds from an hour and a minute. */
  function Format12(hh: int, mm: int): string {
    IntToString(JsRem(hh + 11, 12) + 1) + ":" + PadStart(IntToString(mm), 2, '0')
    + " " + (if hh >= 12 then "PM" else "AM")
  }

  /** The hour a 12-hour clock shows for hour `h` of the day: 12 at midnight
      and at noon. */
  function Twelve(h: nat): (r: nat)
    ensures 1 <= r <= 12 && r % 12 == h % 12
  {
    if h % 12 == 0 then 12 else h % 12
  }

  /** A picked time is shown as its 12-hour hour, its two-digit minute and
      PM from noon on. */
  lemma FormatAMPMOfClock(h: nat, m: nat)
    requires h < 100 && m < 100
    ensures FormatAMPM(Clock(h, m)) == NatToString(Twelve(h)) + ":" + Pad2(m) + " " + (if h >= 12 then "PM" else "AM")
  {
    ClockText(h, m);
    JsNumberOfPadded(h);
    JsNumberOfPadded(m);
    FormatAMPMOfParts(Clock(h, m), Pad2(h), Pad2(m), h, m);
    Format12OfNat(h, m);
  }

  lemma Format12OfNat(h: nat, m: nat)
    ensures Format12(h, m) == NatToString(Twelve(h)) + ":" + Pad2(m) + " " + (if h >= 12 then "PM" else "AM")
  {
    assert JsRem(h + 11, 12) + 1 == Twelve(h);
    assert IntToString(m) == NatToString(m);
    assert IntToString(Twelve(h)) == NatToString(Twelve(h));
  }

  lemma FormatAMPMOfParts(c: string, a: string, b: string, h: int, m: int)
    requires c != "" && Split(c, ':') == [a, b] && JsNumber(a) == Val(h) && JsNumber(b) == Val(m)
    ensures FormatAMPM(c) == Format12(h, m)
  {
  }

  /** Text without a ':' is not a time and is shown unchanged. */
  lemma FormatAMPMKeepsNonTimes(s: string)
    requires forall i :: 0 <= i < |s| ==> s[i] != ':'
    ensures FormatAMPM(s) == s
  {
    SplitWithout(s, ':');
  }

  // ---------------------------------------------------------------- saving

  /** A slot as the save cleans it: each bound cut to five characters, then
      trimmed. */
  function Cleaned(r: Range): (c: Range)
    ensures |c.start| <= 5 && |c.end| <= 5
  {
    Slot(Trim(Take(StartOf(r), 5)), Trim(Take(EndOf(r), 5)))
  }

  function CleanAll(rs: seq<Range>): (r: seq<Range>)
    ensures |r| == |rs| && forall i :: 0 <= i < |rs| ==> r[i] == Cleaned(rs[i])
  {
    seq(|rs|, i requires 0 <= i < |rs| => Cleaned(rs[i]))
  }

  /** The de-duplication key `start|end`. */
  function Key(r: Range): string {
    r.start + "|" + r.end
  }

  function KeysOf(rs: seq<Range>): (r: seq<string>)
    ensures |r| == |rs| && forall i :: 0 <= i < |rs| ==> r[i] == Key(rs[i])
  {
    seq(|rs|, i requires 0 <= i < |rs| => Key(rs[i]))
  }

  predicate DistinctKeys(rs: seq<Range>) {
    forall i, j :: 0 <= i < j < |rs| ==> Key(rs[i]) != Key(rs[j])
  }

  /** The values of the `seen` map once every slot has been offered to it:
      the first slot of each key, in the order the keys first appear. */
  function Dedup(rs: seq<Range>): (r: seq<Range>)
    ensures |r| <= |rs| && (rs != [] ==> r != [])
    decreases |rs|
  {
    if rs == [] then []
    else
      var init := Dedup(rs[..|rs| - 1]);
      var last := rs[|rs| - 1];
      if Key(last) in KeysOf(init) then init else init + [last]
  }

  /** The `forEach` over a day's slots that fills the `seen` map; `keys`
      holds the map's keys and `vals` its values in insertion order. */
  method CollectFirst(arr: seq<Range>) returns (vals: seq<Range>)
    ensures vals == Dedup(CleanAll(arr))
  {
    vals := KeepFirstOfEachKey(CleanAll(arr));
  }

  /** The loop of the `forEach`, over the slots once cleaned. */
  method KeepFirstOfEachKey(cleaned: seq<Range>) returns (vals: seq<Range>)
    ensures vals == Dedup(cleaned)
  {
    var keys: set<string> := {};
    vals := [];
    var i := 0;
    while i < |cleaned|
      invariant 0 <= i <= |cleaned|
      invariant vals == Dedup(cleaned[..i])
      invariant SeenKeys(keys, vals)
    {
      var r := cleaned[i];
      CollectStep(cleaned, i, keys, vals);
      if Key(r) !in keys {
        keys := keys + {Key(r)};
        vals := vals + [r];
      }
      i := i + 1;
    }
    assert cleaned[..i] == cleaned;
  }

  /** The `seen` map's keys are the keys of its values. */
  ghost predicate SeenKeys(keys: set<string>, vals: seq<Range>) {
    forall k :: k in keys <==> k in KeysOf(vals)
  }

  /** One turn of the `forEach`: a slot whose key is new is added to the
      map, and the map stays the de-duplication of the slots so far. */
  lemma CollectStep(xs: seq<Range>, i: nat, keys: set<string>, vals: seq<Range>)
    requires i < |xs| && vals == Dedup(xs[..i]) && SeenKeys(keys, vals)
    ensures Key(xs[i]) in keys ==> vals == Dedup(xs[..i + 1])
    ensures Key(xs[i]) !in keys ==> vals + [xs[i]] == Dedup(xs[..i + 1])
                                    && SeenKeys(keys + {Key(xs[i])}, vals + [xs[i]])
  {
    DedupStep(xs, i);
    assert KeysOf(vals + [xs[i]]) == KeysOf(vals) + [Key(xs[i])];
  }

  /** One more slot offered to the `seen` map. */
  lemma DedupStep(xs: seq<Range>, i: nat)
    requires i < |xs|
    ensures Dedup(xs[..i + 1]) == if Key(xs[i]) in KeysOf(Dedup(xs[..i])) then Dedup(xs[..i]) else Dedup(xs[..i]) + [xs[i]]
  {
    assert xs[..i + 1][..i] == xs[..i];
  }

  /** De-duplication leaves one slot per key, each of them an input slot. */
  lemma {:induction false} DedupDistinctSubset(rs: seq<Range>)
    ensures DistinctKeys(Dedup(rs))
    ensures forall x :: x in Dedup(rs) ==> x in rs
    decreases |rs|
  {
    if rs != [] {
      var init := rs[..|rs| - 1];
      var last := rs[|rs| - 1];
      DedupDistinctSubset(init);
      var d := Dedup(init);
      assert init + [last] == rs;
      if Key(last) !in KeysOf(d) {
        var r := d + [last];
        forall i, j | 0 <= i < j < |r| ensures Key(r[i]) != Key(r[j]) {
          if j == |d| {
            assert KeysOf(d)[i] == Key(r[i]);
          }
        }
      }
    }
  }

  /** De-duplication keeps every slot whose key no earlier slot has: for each
      key, the first slot. */
  lemma {:induction false} DedupKeepsFirst(rs: seq<Range>)
    ensures forall i :: 0 <= i < |rs| && (forall j :: 0 <= j < i ==> Key(rs[j]) != Key(rs[i])) ==> rs[i] in Dedup(rs)
    decreases |rs|
  {
    if rs != [] {
      var init := rs[..|rs| - 1];
      var last := rs[|rs| - 1];
      DedupKeepsFirst(init);
      DedupDistinctSubset(init);
      var d := Dedup(init);
      assert forall i :: 0 <= i < |init| ==> rs[i] == init[i];
      if Key(last) in KeysOf(d) {
        var a :| 0 <= a < |d| && KeysOf(d)[a] == Key(last);
        assert d[a] in init;
        var j :| 0 <= j < |init| && init[j] == d[a];
        assert Key(rs[j]) == Key(last);
      }
    }
  }

  /** Slots whose keys are already distinct pass de-duplication unchanged. */
  lemma {:induction false} DedupDistinct(rs: seq<Range>)
    requires DistinctKeys(rs)
    ensures Dedup(rs) == rs
    decreases |rs|
  {
    if rs != [] {
      var init := rs[..|rs| - 1];
      var last := rs[|rs| - 1];
      DedupDistinct(init);
      assert init + [last] == rs;
      assert Key(last) !in KeysOf(init) by {
        forall i | 0 <= i < |init| ensures KeysOf(init)[i] != Key(last) {
          assert init[i] == rs[i];
        }
      }
    }
  }

  /** A slot that is already clean stays as it is. */
  lemma CleanedIdempotent(r: Range)
    ensures Cleaned(Cleaned(r)) == Cleaned(r)
  {
    TrimIdempotent(Take(StartOf(r), 5));
    TrimIdempotent(Take(EndOf(r), 5));
  }

  /** The sort key `ta[0] * 60 + (ta[1] || 0)` of a cleaned slot, `ta` its
      start split at ':': NaN when the hour is not a number, while a minute
      that is missing or not a number counts as 0. */
  function StartKey(r: Range): Num {
    var ta := Split(r.start, ':');
    var hour := JsNumber(ta[0]);
    var minute := if |ta| >= 2 then JsNumber(ta[1]) else NaN;
    if hour.NaN? then NaN else Val(hour.v * 60 + (if minute.Val? then minute.v else 0))
  }

  /** The comparator's verdict `a - b <= 0`; a NaN difference counts as 0,
      so a NaN key never moves a slot. */
  predicate StartLe(a: Num, b: Num) {
    a.NaN? || b.NaN? || a.v <= b.v
  }

  /** A consistent order on keys that agrees with `StartLe` on numbers. */
  predicate NumLe(a: Num, b: Num) {
    a.NaN? || (b.Val? && a.v <= b.v)
  }

  lemma NumLeTotalPreorder()
    ensures TotalPreorder(NumLe)
  {
  }

  /** normalizeDay: the cleaned slots, the first of each `start|end` key
      kept, sorted by start. */
  function NormalizeDay(rs: seq<Range>): (r: seq<Range>)
    ensures |r| <= |rs| && (r == [] <==> rs == [])
  {
    SortBy(Dedup(CleanAll(rs)), StartKey, StartLe)
  }

  lemma {:induction false} DistinctKeysOnce(a: seq<Range>, x: Range)
    requires DistinctKeys(a)
    ensures multiset(a)[x] <= 1
    decreases |a|
  {
    if a != [] {
      var init := a[..|a| - 1];
      var last := a[|a| - 1];
      DistinctKeysOnce(init, x);
      assert a == init + [last];
      forall j | 0 <= j < |init| ensures init[j] != last {
        assert Key(a[j]) != Key(a[|a| - 1]);
      }
    }
  }

  /** Reordering slots with distinct keys keeps their keys distinct. */
  lemma PermutationKeepsDistinctKeys(a: seq<Range>, b: seq<Range>)
    requires multiset(a) == multiset(b) && DistinctKeys(a)
    ensures DistinctKeys(b)
  {
    forall i, j | 0 <= i < j < |b| ensures Key(b[i]) != Key(b[j]) {
      assert b == b[..j] + b[j..];
      assert b[..j][i] == b[i] && b[j..][0] == b[j];
      DistinctKeysOnce(a, b[j]);
      assert multiset(b)[b[j]] == multiset(b[..j])[b[j]] + multiset(b[j..])[b[j]];
      assert b[i] != b[j];
      assert b[i] in multiset(a) && b[j] in multiset(a);
      var p :| 0 <= p < |a| && a[p] == b[i];
      var q :| 0 <= q < |a| && a[q] == b[j];
      assert p != q;
    }
  }

  /** A saved day holds one slot per key, each a cleaned input slot, and for
      each key the first input slot that has it. */
  lemma NormalizeDayKeepsFirst(rs: seq<Range>)
    ensures DistinctKeys(NormalizeDay(rs))
    ensures forall x :: x in NormalizeDay(rs) ==> x in CleanAll(rs)
    ensures forall i :: 0 <= i < |rs| && (forall j :: 0 <= j < i ==> Key(Cleaned(rs[j])) != Key(Cleaned(rs[i])))
                        ==> Cleaned(rs[i]) in NormalizeDay(rs)
  {
    var c := CleanAll(rs);
    var d := Dedup(c);
    var n := NormalizeDay(rs);
    DedupDistinctSubset(c);
    DedupKeepsFirst(c);
    PermutationKeepsDistinctKeys(d, n);
    NormalizeDayFromCleaned(rs);
    forall i | 0 <= i < |rs| && (forall j :: 0 <= j < i ==> Key(Cleaned(rs[j])) != Key(Cleaned(rs[i])))
      ensures Cleaned(rs[i]) in n
    {
      assert forall j :: 0 <= j < i ==> Key(c[j]) != Key(c[i]);
      assert c[i] in multiset(d);
    }
  }

  /** When every start reads as a number, a saved day is in order of start. */
  lemma NormalizeDaySorted(rs: seq<Range>)
    requires forall i :: 0 <= i < |rs| ==> StartKey(Cleaned(rs[i])).Val?
    ensures SortedBy(NormalizeDay(rs), StartKey, StartLe)
  {
    var c := CleanAll(rs);
    var d := Dedup(c);
    DedupDistinctSubset(c);
    forall a, b | a in d && b in d ensures StartLe(StartKey(a), StartKey(b)) == NumLe(StartKey(a), StartKey(b)) {
      assert a in c && b in c;
    }
    SortByCongruent(d, StartKey, StartLe, NumLe);
    NumLeTotalPreorder();
    SortBySorted(d, StartKey, NumLe);
  }

  /** Saving a saved day again changes nothing. */
  lemma NormalizeDayIdempotent(rs: seq<Range>)
    requires forall i :: 0 <= i < |rs| ==> StartKey(Cleaned(rs[i])).Val?
    ensures NormalizeDay(NormalizeDay(rs)) == NormalizeDay(rs)
  {
    var n := NormalizeDay(rs);
    SavedSlotsClean(rs);
    NormalizeDayKeepsFirst(rs);
    DedupDistinct(n);
    NormalizeDaySorted(rs);
    SortByKeepsOrdered(n, StartKey, StartLe);
  }

  lemma SavedSlotsClean(rs: seq<Range>)
    ensures CleanAll(NormalizeDay(rs)) == NormalizeDay(rs)
  {
    var n := NormalizeDay(rs);
    NormalizeDayFromCleaned(rs);
    var cn := CleanAll(n);
    forall k | 0 <= k < |n| ensures cn[k] == n[k] {
      CleanOfCleaned(rs, n[k]);
    }
  }

  /** Every slot a day normalizes to is one of its cleaned slots. */
  lemma NormalizeDayFromCleaned(rs: seq<Range>)
    ensures forall x :: x in NormalizeDay(rs) ==> x in CleanAll(rs)
  {
    var c := CleanAll(rs);
    var n := NormalizeDay(rs);
    DedupDistinctSubset(c);
    forall x | x in n ensures x in c {
      assert x in multiset(n);
    }
  }

  /** A cleaned slot is clean. */
  lemma CleanOfCleaned(rs: seq<Range>, x: Range)
    requires x in CleanAll(rs)
    ensures Cleaned(x) == x
  {
    var i :| 0 <= i < |rs| && CleanAll(rs)[i] == x;
    CleanedIdempotent(rs[i]);
  }

  /** The schedule a save sends: every day normalized, days left without a
      slot dropped. */
  function NormalizeSchedule(h: Hours): (r: Hours)
    ensures forall d :: d in r <==> d in h && h[d] != []
  {
    map d | d in h && NormalizeDay(h[d]) != [] :: NormalizeDay(h[d])
  }

  /** A day's slots in the sent schedule are its normalized slots. */
  lemma RangesOfNormalized(h: Hours, d: string)
    ensures Ranges(NormalizeSchedule(h), d) == NormalizeDay(Ranges(h, d))
  {
  }

  /** The `forEach` over the schedule's days that fills `normalized.hours`. */
  method NormalizeHours(h: Hours) returns (out: Hours)
    ensures out == NormalizeSchedule(h)
  {
    out := map[];
    var todo := h.Keys;
    while todo != {}
      invariant todo <= h.Keys
      invariant forall d :: d in out <==> d in h && d !in todo && h[d] != []
      invariant forall d :: d in out ==> out[d] == NormalizeDay(h[d])
      decreases |todo|
    {
      var d :| d in todo;
      var vals := CollectFirst(h[d]);
      var sorted := SortBy(vals, StartKey, StartLe);
      if |sorted| > 0 {
        out := out[d := sorted];
      }
      todo := todo - {d};
    }
  }

  /** `(x.start || '').slice(0, 5)` and the same for the end, slot by slot:
      the copy the repeat-weekly option makes of a day. */
  function Truncated(rs: seq<Range>): (r: seq<Range>)
    ensures |r| == |rs|
    ensures forall i :: 0 <= i < |rs| ==> r[i] == Slot(Take(rs[i].start, 5), Take(rs[i].end, 5))
  {
    seq(|rs|, i requires 0 <= i < |rs| => Slot(Take(rs[i].start, 5), Take(rs[i].end, 5)))
  }

  /** The copy loop: each selected day in turn receives a truncated copy of
      the slots the source day holds at that moment. */
  function CopyTo(h: Hours, src: string, days: seq<string>): Hours
    decreases |days|
  {
    if days == [] then h
    else
      var before := CopyTo(h, src, days[..|days| - 1]);
      before[days[|days| - 1] := Truncated(Ranges(before, src))]
  }

  method CopyDays(h: Hours, src: string, days: seq<string>) returns (out: Hours)
    ensures out == CopyTo(h, src, days)
  {
    out := h;
    var i := 0;
    while i < |days|
      invariant 0 <= i <= |days|
      invariant out == CopyTo(h, src, days[..i])
    {
      assert days[..i + 1][..i] == days[..i];
      out := out[days[i] := Truncated(Ranges(out, src))];
      i := i + 1;
    }
    assert days[..|days|] == days;
  }

  /** Truncating twice is truncating once. */
  lemma TruncatedIdempotent(rs: seq<Range>)
    ensures Truncated(Truncated(rs)) == Truncated(rs)
  {
  }

  /** After the copy every selected day holds the source day's slots, cut to
      five characters, and every other day is as it was. */
  lemma {:induction false} CopyFillsSelectedDays(h: Hours, src: string, days: seq<string>)
    ensures forall d :: d in CopyTo(h, src, days) <==> d in h || d in days
    ensures forall d :: Ranges(CopyTo(h, src, days), d) == if d in days then Truncated(Ranges(h, src)) else Ranges(h, d)
    decreases |days|
  {
    if days != [] {
      var init := days[..|days| - 1];
      CopyFillsSelectedDays(h, src, init);
      TruncatedIdempotent(Ranges(h, src));
      assert forall d :: d in days <==> d in init || d == days[|days| - 1];
    }
  }

  /** `filter` over the selected days: those that already have slots. */
  function Conflicts(h: Hours, days: seq<string>): (r: seq<string>)
    ensures |r| <= |days|
    ensures forall d :: d in r <==> d in days && Ranges(h, d) != []
  {
    if days == [] then []
    else (if Ranges(h, days[0]) != [] then [days[0]] else []) + Conflicts(h, days[1..])
  }

  /** What the Save button leads to. */
  datatype SaveStep =
    | NoClinic
    | NothingToReplicate
    | ConfirmOverwrite(days: seq<string>)
    | Put(schedule: Hours)

  /** saveSchedule for the schedule `h` with day `day` selected; `days` are
      the days ticked for weekly repetition, in the order the checkbox map
      lists them. */
  function SaveRequest(clinicSelected: bool, h: Hours, day: string, repeatWeekly: bool, days: seq<string>): SaveStep {
    if !clinicSelected then NoClinic
    else if repeatWeekly && days != [] then
      if Ranges(h, day) == [] then NothingToReplicate
      else
        var conflicts := Conflicts(h, days);
        if conflicts != [] then ConfirmOverwrite(conflicts)
        else Put(NormalizeSchedule(CopyTo(h, day, days)))
    else Put(NormalizeSchedule(h))
  }

  /** The Overwrite button of the confirmation dialog: the same copy and
      normalization, without looking for conflicts. */
  function OverwriteRequest(h: Hours, day: string, days: seq<string>): Hours {
    NormalizeSchedule(CopyTo(h, day, days))
  }

  /** The copied slots normalize exactly as the source day's own slots when
      those keep their bounds under `start` and `end`. */
  lemma NormalizeTruncated(rs: seq<Range>)
    requires StartEndDay(rs)
    ensures NormalizeDay(Truncated(rs)) == NormalizeDay(rs)
  {
    assert CleanAll(Truncated(rs)) == CleanAll(rs);
  }

  /** After copying, every selected day is saved with the normalized copy of
      the source day, and every other day with its own slots; when the source
      day keeps its bounds under `start` and `end`, the copy saves as the
      source day does. */
  lemma OverwriteCopiesDay(h: Hours, day: string, days: seq<string>)
    ensures forall d :: Ranges(OverwriteRequest(h, day, days), d)
                        == NormalizeDay(if d in days then Truncated(Ranges(h, day)) else Ranges(h, d))
    ensures StartEndDay(Ranges(h, day)) ==>
            forall d :: Ranges(OverwriteRequest(h, day, days), d)
                        == NormalizeDay(if d in days then Ranges(h, day) else Ranges(h, d))
  {
    var c := CopyTo(h, day, days);
    CopyFillsSelectedDays(h, day, days);
    forall d ensures Ranges(NormalizeSchedule(c), d) == NormalizeDay(if d in days then Truncated(Ranges(h, day)) else Ranges(h, d)) {
      RangesOfNormalized(c, d);
    }
    if StartEndDay(Ranges(h, day)) {
      NormalizeTruncated(Ranges(h, day));
    }
  }

  /** With repetition on: nothing is sent when the source day is empty; the
      user is asked to confirm exactly when some selected day already has
      slots, and is shown those days; otherwise every selected day receives
      the copy of the source day's slots, which saves as the source day does
      when its bounds are under `start` and `end`. */
  lemma RepeatWeeklySave(h: Hours, day: string, days: seq<string>)
    requires days != []
    ensures SaveRequest(true, h, day, true, days) == NothingToReplicate <==> Ranges(h, day) == []
    ensures SaveRequest(true, h, day, true, days).ConfirmOverwrite?
            <==> Ranges(h, day) != [] && exists d :: d in days && Ranges(h, d) != []
    ensures SaveRequest(true, h, day, true, days).ConfirmOverwrite? ==>
            forall d :: d in SaveRequest(true, h, day, true, days).days <==> d in days && Ranges(h, d) != []
    ensures SaveRequest(true, h, day, true, days).Put? ==>
            forall d :: Ranges(SaveRequest(true, h, day, true, days).schedule, d)
                        == NormalizeDay(if d in days then Truncated(Ranges(h, day)) else Ranges(h, d))
    ensures SaveRequest(true, h, day, true, days).Put? && StartEndDay(Ranges(h, day)) ==>
            forall d :: Ranges(SaveRequest(true, h, day, true, days).schedule, d)
                        == NormalizeDay(if d in days then Ranges(h, day) else Ranges(h, d))
  {
    var cs := Conflicts(h, days);
    if Ranges(h, day) != [] && cs == [] {
      OverwriteCopiesDay(h, day, days);
    }
    if cs != [] {
      assert cs[0] in cs;
    }
    if exists d :: d in days && Ranges(h, d) != [] {
      var d :| d in days && Ranges(h, d) != [];
      assert d in cs;
    }
  }

  /** A `{ from, to }` day as the add-clinic screen saves it, copied to
      another day with repetition on, reaches the server with empty bounds on
      that day, while the source day itself is saved with its times. */
  lemma RepeatWeeklyBlanksFromTo()
    ensures var h := map["mon" := [Range("", "", "09:00", "10:00", "", "")]];
      var step := SaveRequest(true, h, "mon", true, ["tue"]);
      step.Put? && Ranges(step.schedule, "mon") == [Slot("09:00", "10:00")]
      && Ranges(step.schedule, "tue") == [Slot("", "")]
  {
    var x := Range("", "", "09:00", "10:00", "", "");
    var h := map["mon" := [x]];
    var blank := Slot("", "");
    assert Conflicts(h, ["tue"]) == [];
    assert ["tue"][..0] == [];
    assert Truncated([x]) == [blank];
    var c := CopyTo(h, "mon", ["tue"]);
    assert c == map["mon" := [x], "tue" := [blank]];
    FromToDaySaved(x);
    NormalizeOne(blank);
    assert Cleaned(blank) == blank;
    RangesOfNormalized(c, "mon");
    RangesOfNormalized(c, "tue");
  }

  /** The `{ from, to }` slot cleans to its times. */
  lemma FromToDaySaved(x: Range)
    requires x == Range("", "", "09:00", "10:00", "", "")
    ensures NormalizeDay([x]) == [Slot("09:00", "10:00")]
  {
    assert StartOf(x) == "09:00" && EndOf(x) == "10:00";
    assert Take("09:00", 5) == "09:00" && Take("10:00", 5) == "10:00";
    TrimNoSpace("09:00");
    TrimNoSpace("10:00");
    NormalizeOne(x);
  }

  /** A day of one slot normalizes to that slot cleaned. */
  lemma NormalizeOne(x: Range)
    ensures NormalizeDay([x]) == [Cleaned(x)]
  {
    assert CleanAll([x]) == [Cleaned(x)];
    assert Dedup([Cleaned(x)]) == [Cleaned(x)];
  }

  /** The copy as it evidently should read each bound: through the same
      `start || from || s` chain as every other reader, cut to five
      characters. */
  function CopiedSlots(rs: seq<Range>): (r: seq<Range>)
    ensures |r| == |rs|
    ensures forall i :: 0 <= i < |rs| ==> StartOf(r[i]) == Take(StartOf(rs[i]), 5) && EndOf(r[i]) == Take(EndOf(rs[i]), 5)
  {
    seq(|rs|, i requires 0 <= i < |rs| => Slot(Take(StartOf(rs[i]), 5), Take(EndOf(rs[i]), 5)))
  }

  /** Whatever field names the source day uses, the corrected copy saves as
      the source day does; on a day the editor wrote it is the copy the
      screen makes. */
  lemma NormalizeCopiedSlots(rs: seq<Range>)
    ensures NormalizeDay(CopiedSlots(rs)) == NormalizeDay(rs)
    ensures StartEndDay(rs) ==> CopiedSlots(rs) == Truncated(rs)
  {
    assert CleanAll(CopiedSlots(rs)) == CleanAll(rs);
  }

  /** Ticking the source day itself for repetition always asks to confirm. */
  lemma SourceDayTickedAsks(h: Hours, day: string, days: seq<string>)
    requires day in days && Ranges(h, day) != []
    ensures SaveRequest(true, h, day, true, days).ConfirmOverwrite?
  {
    assert day in Conflicts(h, days);
  }

  // ------------------------------------------------------------ clinic list

  /** A clinic as the list holds it; an `id` of 0 stands for a missing one. */
  datatype Clinic = Clinic(id: int, name: string, address: string, location: string, hasSchedule: bool)

  const ItemsPerPage: nat := 10

  /** getVisibleClinics: a list the server paged (its reported total is
      positive) is shown as fetched; otherwise the current page's slice. */
  function VisibleClinics(clinics: seq<Clinic>, metaTotal: int, page: nat): (r: seq<Clinic>)
    ensures metaTotal > 0 ==> r == clinics
    ensures metaTotal <= 0 ==> |r| <= ItemsPerPage
    ensures metaTotal <= 0 ==> forall k :: 0 <= k < |r| ==> page * ItemsPerPage + k < |clinics| && r[k] == clinics[page * ItemsPerPage + k]
  {
    PageSize(clinics, page, ItemsPerPage);
    if metaTotal > 0 then clinics else Page(clinics, page, ItemsPerPage)
  }

  /** Without server paging every clinic is shown on the page its position
      falls in. */
  lemma EveryClinicOnItsPage(clinics: seq<Clinic>, metaTotal: int, i: nat)
    requires metaTotal <= 0 && i < |clinics|
    ensures i % ItemsPerPage < |VisibleClinics(clinics, metaTotal, i / ItemsPerPage)|
    ensures VisibleClinics(clinics, metaTotal, i / ItemsPerPage)[i % ItemsPerPage] == clinics[i]
  {
    ItemOnItsPage(clinics, ItemsPerPage, i);
  }

  const ExportHeader: seq<string> := ["id", "name", "location", "schedule"]

  /** The exported fields of a clinic: `String(id || '')`, its name, its
      address or else its location, and whether it has a schedule. */
  function ExportFields(c: Clinic): (r: seq<string>)
    ensures |r| == |ExportHeader|
  {
    [if c.id == 0 then "" else IntToString(c.id),
     c.name,
     if c.address != "" then c.address else c.location,
     if c.hasSchedule then "configured" else "none"]
  }

  /** The exported row of every clinic. */
  function ExportRows(cs: seq<Clinic>): (r: seq<seq<string>>)
    ensures |r| == |cs| && forall i :: 0 <= i < |cs| ==> r[i] == ExportFields(cs[i])
  {
    seq(|cs|, i requires 0 <= i < |cs| => ExportFields(cs[i]))
  }

  /** exportCsv: the header line, then one line per clinic with every field
      in quotes and inner quotes doubled. */
  function ExportCsv(cs: seq<Clinic>): string {
    Csv.QuotedTable(ExportHeader, ExportRows(cs))
  }

  /** Reading the export back gives the header, then each clinic's fields,
      whatever quotes, commas or line breaks they hold. */
  lemma ExportCsvReadsBack(cs: seq<Clinic>)
    ensures Csv.ParseFile(ExportCsv(cs)) == Some([ExportHeader] + ExportRows(cs))
  {
    forall k | 0 <= k < |ExportHeader| ensures Csv.Plain(ExportHeader[k]) {
    }
    Csv.TableReadsBack(ExportHeader, ExportRows(cs));
  }

  /** The editor's state: the schedule being edited, the selected day tab,
      the two time inputs, the index of the slot being edited and the inline
      error with the day and index of the slot it points at. */
  class ScheduleEditor {
    var hours: Hours
    var day: string
    var rangeStart: string
    var rangeEnd: string
    var editing: Option<nat>
    var inputError: InputError
    var conflict: Option<(string, nat)>

    /** Opening the editor on a clinic's schedule. */
    constructor (schedule: Hours)
      ensures hours == schedule && day == "mon" && rangeStart == "" && rangeEnd == ""
      ensures editing == None && inputError == NoError && conflict == None
    {
      hours := schedule;
      day := "mon";
      rangeStart := "";
      rangeEnd := "";
      editing := None;
      inputError := NoError;
      conflict := None;
    }

    /** addRange: validate the inputs, look for an overlapping slot, then
        replace the edited slot or append a new one. */
    method AddRange() returns (outcome: Outcome)
      modifies this
      ensures (outcome, hours) == AddResult(ToMinutes, old(hours), old(day), old(rangeStart), old(rangeEnd), old(editing))
      ensures editing == (if outcome == Added then None else old(editing))
      ensures inputError == ErrorOf(outcome)
      ensures conflict == match outcome
                          case Overlap(i) => Some((DayOf(old(day)), i))
                          case Duplicate => old(conflict)
                          case _ => None
      ensures day == old(day) && rangeStart == old(rangeStart) && rangeEnd == old(rangeEnd)
    {
      var d := DayOf(day);
      var h := Prepared(hours, d);
      var existing := h[d];
      var s := NormalizeInput(rangeStart);
      var e := NormalizeInput(rangeEnd);
      outcome := CheckSlot(ToMinutes, existing, s, e, editing);
      match outcome {
        case BadTime =>
          conflict := None;
        case Overlap(i) =>
          conflict := Some((d, i));
        case Duplicate =>
        case Added =>
          h := h[d := Placed(existing, editing, Slot(s, e))];
          editing := None;
          conflict := None;
      }
      inputError := ErrorOf(outcome);
      hours := h;
    }

    /** removeRange: drop the `idx`-th slot of day `d`; nothing happens when
        the day has no list. */
    method RemoveRange(d: string, idx: int)
      modifies this
      ensures hours == if d in old(hours) then old(hours)[d := Without(old(hours)[d], idx)] else old(hours)
      ensures day == old(day) && rangeStart == old(rangeStart) && rangeEnd == old(rangeEnd)
      ensures editing == old(editing) && inputError == old(inputError) && conflict == old(conflict)
    {
      if d in hours {
        hours := hours[d := Without(hours[d], idx)];
      }
    }

    /** editRange: load the `idx`-th slot of day `d` into the inputs and
        remember its index; nothing happens when there is no such slot. */
    method EditRange(d: string, idx: int)
      modifies this
      ensures if d in old(hours) && 0 <= idx < |old(hours)[d]|
              then day == d && rangeStart == StartOf(old(hours)[d][idx]) && rangeEnd == EndOf(old(hours)[d][idx])
                   && editing == Some(idx)
              else day == old(day) && rangeStart == old(rangeStart) && rangeEnd == old(rangeEnd)
                   && editing == old(editing)
      ensures hours == old(hours) && inputError == old(inputError) && conflict == old(conflict)
    {
      if d in hours && 0 <= idx < |hours[d]| {
        var r := hours[d][idx];
        day := d;
        rangeStart := StartOf(r);
        rangeEnd := EndOf(r);
        editing := Some(idx);
      }
    }
  }
}

/**
 * The clinic set-up form: a list of opening times per weekday, a copy of
 * one day's list to the ticked days, the slot length and patients-per-slot
 * pickers, and the request the Save button sends.  Every updater returns a
 * new form, as the screen's state setters do.
 */
module AddClinic {
  import opened JsText
  import opened JsArray

  /** One opening time as the form stores it. */
  datatype Timing = Timing(from: string, to: string)

  /** Weekday name to that day's opening times. */
  type Days = map<string, seq<Timing>>

  const WeekDays: set<string> := {"Mon", "Tue", "Wed", "Thu", "Fri", "Sat", "Sun"}

  /** The slot lengths the picker offers, in minutes. */
  const SlotChoices: seq<int> := [15, 30, 45, 60]

  /** The largest number of patients per slot the picker offers. */
  const MaxPatientsPerSlot := 10

  datatype Form = Form(
    name: string,
    location: string,
    description: string,
    slotMinutes: int,
    patientsPerSlot: int,
    days: Days,
    selected: set<string>)

  /** What every reachable form satisfies: one list per weekday, only
      weekdays ticked, and picker values the pickers offer. */
  predicate FormValid(f: Form) {
    f.days.Keys == WeekDays
    && f.selected <= WeekDays
    && f.slotMinutes in SlotChoices
    && 1 <= f.patientsPerSlot <= MaxPatientsPerSlot
  }

  /** The form as the screen opens it. */
  function InitialForm(): (f: Form)
    ensures FormValid(f)
    ensures forall d :: d in f.days ==> f.days[d] == []
  {
    Form("", "", "", 15, 1, map d | d in WeekDays :: [], {})
  }

  /** A day's opening times; a day without a list has none. */
  function TimingsOf(days: Days, d: string): seq<Timing> {
    if d in days then days[d] else []
  }

  // ------------------------------------------------------------ the updaters

  /** addTimingForDay: one more opening time at the end of `day`'s list. */
  function AddTiming(days: Days, day: string, from: string, to: string): (r: Days)
    ensures r.Keys == days.Keys + {day}
    ensures TimingsOf(r, day) == TimingsOf(days, day) + [Timing(from, to)]
    ensures forall d :: d != day ==> TimingsOf(r, d) == TimingsOf(days, d)
  {
    days[day := TimingsOf(days, day) + [Timing(from, to)]]
  }

  /** copyTimingsFrom: every ticked day other than the source receives the
      source's list; with an empty source nothing changes. */
  function CopyTimings(days: Days, source: string, selected: set<string>): (r: Days)
    ensures TimingsOf(days, source) == [] ==> r == days
    ensures TimingsOf(days, source) != [] ==> r.Keys == days.Keys + (selected - {source})
    ensures TimingsOf(days, source) != [] ==>
            forall d :: TimingsOf(r, d) == if d in selected && d != source then TimingsOf(days, source) else TimingsOf(days, d)
  {
    var src := TimingsOf(days, source);
    if src == [] then days
    else map d | d in days.Keys + (selected - {source}) :: if d in selected && d != source then src else days[d]
  }

  /** removeTiming: the `idx`-th opening time of `day` is dropped.  The list
      of `day` must exist, as `prev[day].filter` reads it. */
  function RemoveTiming(days: Days, day: string, idx: int): (r: Days)
    requires day in days
    ensures r.Keys == days.Keys
    ensures forall d :: d != day ==> TimingsOf(r, d) == TimingsOf(days, d)
    ensures 0 <= idx < |days[day]| ==> r[day] == days[day][..idx] + days[day][idx + 1..]
    ensures !(0 <= idx < |days[day]|) ==> r == days
  {
    days[day := Without(days[day], idx)]
  }

  /** The slot-length picker's `k`-th button. */
  function PickSlot(f: Form, k: nat): Form
    requires k < |SlotChoices|
  {
    f.(slotMinutes := SlotChoices[k])
  }

  /** The patients-per-slot picker's button `v`. */
  function PickPatients(f: Form, v: int): Form
    requires 1 <= v <= MaxPatientsPerSlot
  {
    f.(patientsPerSlot := v)
  }

  /** The checkbox of weekday `d`. */
  function ToggleDay(f: Form, d: string): Form
    requires d in WeekDays
  {
    f.(selected := if d in f.selected then f.selected - {d} else f.selected + {d})
  }

  /** Every updater the form offers keeps it valid. */
  lemma UpdatersKeepFormValid(f: Form, d: string, from: string, to: string, idx: int, k: nat, v: int)
    requires FormValid(f) && d in WeekDays && k < |SlotChoices| && 1 <= v <= MaxPatientsPerSlot
    ensures FormValid(f.(days := AddTiming(f.days, d, from, to)))
    ensures FormValid(f.(days := CopyTimings(f.days, d, f.selected)))
    ensures FormValid(f.(days := RemoveTiming(f.days, d, idx)))
    ensures FormValid(PickSlot(f, k))
    ensures FormValid(PickPatients(f, v))
    ensures FormValid(ToggleDay(f, d))
  {
  }

  // -------------------------------------------------------------------- save

  datatype Schedule = Schedule(slotMinutes: int, patientsPerSlot: int, hours: Days)

  /** The body of the profile request. */
  datatype ClinicBody = ClinicBody(name: string, location: string, schedule: Schedule, description: string)

  datatype SaveOutcome = NameRequired | Submit(body: ClinicBody)

  /** The days that have opening times, with their lists. */
  function Hours(days: Days): (r: Days)
    ensures forall d :: d in r <==> d in days && days[d] != []
    ensures forall d :: d in r ==> r[d] == days[d]
  {
    map d | d in days && days[d] != [] :: days[d]
  }

  /** onSave: a blank name stops the save before any request; otherwise the
      request carries the trimmed name and the days that have opening times. */
  function Save(f: Form): SaveOutcome {
    if Trim(f.name) == "" then NameRequired
    else Submit(ClinicBody(Trim(f.name), f.location, Schedule(f.slotMinutes, f.patientsPerSlot, Hours(f.days)), f.description))
  }

  lemma SaveResult(f: Form)
    requires FormValid(f)
    ensures Save(f) == NameRequired <==> Trim(f.name) == ""
    ensures Save(f).Submit? ==>
            var s := Save(f).body.schedule;
            s.slotMinutes in SlotChoices && 1 <= s.patientsPerSlot <= MaxPatientsPerSlot
            && (forall d :: d in s.hours <==> TimingsOf(f.days, d) != [])
            && (forall d :: d in s.hours ==> s.hours[d] == f.days[d])
  {
  }
}

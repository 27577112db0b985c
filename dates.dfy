/**
 * Calendar dates as day numbers: day 0 is 1970-01-01, a Thursday.  The
 * application handles dates as 'YYYY-MM-DD' text and JavaScript `Date`
 * objects; the model keeps only the day they denote.
 */
module Dates {
  import opened JsText

  /** `date.getDay()`: 0 is Sunday, 6 is Saturday. */
  function Weekday(d: int): (w: int)
    ensures 0 <= w < 7
  {
    (d + 4) % 7
  }

  /** Seven consecutive days fall on seven different weekdays, so each weekday
      occurs exactly once among them. */
  lemma WeekdayOncePerWeek(start: int, w: int)
    requires 0 <= w < 7
    ensures exists d :: start <= d < start + 7 && Weekday(d) == w
    ensures forall d, e ::
              (start <= d < start + 7 && start <= e < start + 7 && Weekday(d) == w && Weekday(e) == w)
              ==> d == e
  {
    var k := (w - Weekday(start)) % 7;
    assert Weekday(start + k) == w;
  }

  /** The 'YYYY-MM-DD' text of a day (proleptic Gregorian calendar). */
  function IsoDate(d: int): string {
    var z := d + 719468;
    var era := z / 146097;
    var doe := z - era * 146097;
    var yoe := (doe - doe / 1460 + doe / 36524 - doe / 146096) / 365;
    var doy := doe - (365 * yoe + yoe / 4 - yoe / 100);
    var mp := (5 * doy + 2) / 153;
    var day := doy - (153 * mp + 2) / 5 + 1;
    var month := if mp < 10 then mp + 3 else mp - 9;
    var year := yoe + era * 400 + (if month <= 2 then 1 else 0);
    PadStart(IntToString(year), 4, '0') + "-" + PadStart(IntToString(month), 2, '0')
      + "-" + PadStart(IntToString(day), 2, '0')
  }
}

/** The time-value arithmetic of ECMA-262 section 21.4.1 (Day, DayFromYear,
    YearFromTime, MonthFromTime, DateFromTime, HourFromTime, ...), TimeClip as
    applied by `new Date(x)`, and `Date.prototype.toISOString`, which is what
    the forecast grouping uses to name a day. Time values are integers of
    milliseconds since 1970-01-01T00:00:00Z; in the range TimeClip admits
    (|t| <= 8.64e15 < 2^53) every integer is an exact double, so `int` is exact. */
module EcmaDate {
  import opened Wrappers
  import opened Decimal

  const MsPerSecond: int := 1000
  const MsPerMinute: int := 60000
  const MsPerHour: int := 3600000
  const MsPerDay: int := 86400000
  /** TimeClip turns every time value of larger magnitude into NaN. */
  const MaxTimeValue: int := 8_640_000_000_000_000

  /** TimeClip(time) for an integral `time`: NaN (`None`) outside +-8.64e15 ms. */
  function TimeClip(time: int): (r: Option<int>)
    ensures r.Some? <==> -MaxTimeValue <= time <= MaxTimeValue
    ensures r.Some? ==> r.value == time
  {
    if time < -MaxTimeValue || time > MaxTimeValue then None else Some(time)
  }

  /** Day(t) = floor(t / msPerDay); Dafny's `/` with a positive divisor is floor. */
  function Day(t: int): int {
    t / MsPerDay
  }

  function DaysInYear(y: int): int {
    if y % 4 != 0 then 365
    else if y % 100 != 0 then 366
    else if y % 400 != 0 then 365
    else 366
  }

  /** The day number of the first day of year y (closed form of the standard). */
  function DayFromYear(y: int): int {
    365 * (y - 1970) + (y - 1969) / 4 - (y - 1901) / 100 + (y - 1601) / 400
  }

  function TimeFromYear(y: int): int {
    MsPerDay * DayFromYear(y)
  }

  /** Consecutive years start DaysInYear(y) days apart. */
  lemma DayFromYearStep(y: int)
    ensures DayFromYear(y + 1) == DayFromYear(y) + DaysInYear(y)
  {
    LeapDaysStep4(y);
    LeapDaysStep100(y);
    LeapDaysStep400(y);
    DivisibleBy100(y);
    DivisibleBy400(y);
  }

  /** A multiple of 100 is a multiple of 4, and one of 400 a multiple of 100. */
  lemma DivisibleBy100(y: int)
    ensures y % 100 == 0 ==> y % 4 == 0
  {
    if y % 100 == 0 {
      assert y == 4 * (25 * (y / 100));
    }
  }

  lemma DivisibleBy400(y: int)
    ensures y % 400 == 0 ==> y % 100 == 0
  {
    if y % 400 == 0 {
      assert y == 100 * (4 * (y / 400));
    }
  }

  /** The three leap-day counts of DayFromYear each step by one exactly at
      the years divisible by their period. */
  lemma LeapDaysStep4(y: int)
    ensures (y + 1 - 1969) / 4 == (y - 1969) / 4 + (if y % 4 == 0 then 1 else 0)
  {
  }

  lemma LeapDaysStep100(y: int)
    ensures (y + 1 - 1901) / 100 == (y - 1901) / 100 + (if y % 100 == 0 then 1 else 0)
  {
  }

  lemma LeapDaysStep400(y: int)
    ensures (y + 1 - 1601) / 400 == (y - 1601) / 400 + (if y % 400 == 0 then 1 else 0)
  {
  }

  /** Year starts strictly increase. */
  lemma {:induction false} DayFromYearIncreasing(a: int, b: int)
    requires a < b
    ensures DayFromYear(a) + 365 * (b - a) <= DayFromYear(b)
    decreases b - a
  {
    DayFromYearStep(b - 1);
    if a < b - 1 {
      DayFromYearIncreasing(a, b - 1);
    }
  }

  /** Searches upward from year y for the year holding day d. */
  function YearUpFrom(d: int, y: int): (r: int)
    requires DayFromYear(y) <= d
    ensures y <= r
    ensures DayFromYear(r) <= d < DayFromYear(r + 1)
    decreases d - DayFromYear(y)
  {
    DayFromYearStep(y);
    if d < DayFromYear(y + 1) then y else YearUpFrom(d, y + 1)
  }

  /** Searches downward from year y for the year holding day d. */
  function YearDownFrom(d: int, y: int): (r: int)
    requires d < DayFromYear(y + 1)
    ensures r <= y
    ensures DayFromYear(r) <= d < DayFromYear(r + 1)
    decreases DayFromYear(y + 1) - d
  {
    DayFromYearStep(y);
    if DayFromYear(y) <= d then y else YearDownFrom(d, y - 1)
  }

  /** The year that holds day number d. */
  function YearFromDay(d: int): (y: int)
    ensures DayFromYear(y) <= d < DayFromYear(y + 1)
  {
    if d >= 0 then YearUpFrom(d, 1970) else YearDownFrom(d, 1969)
  }

  /** YearFromTime(t): the largest integral y such that TimeFromYear(y) <= t. */
  function YearFromTime(t: int): int {
    YearFromDay(Day(t))
  }

  /** YearFromTime meets its definition in the standard: its year starts at or
      before t, and every later year starts after t. */
  lemma YearFromTimeIsLargest(t: int, y: int)
    ensures TimeFromYear(YearFromTime(t)) <= t < TimeFromYear(YearFromTime(t) + 1)
    ensures TimeFromYear(y) <= t ==> y <= YearFromTime(t)
  {
    var r := YearFromTime(t);
    TimeFromYearBefore(r, t);
    TimeFromYearBefore(r + 1, t);
    TimeFromYearBefore(y, t);
    if y > r + 1 {
      DayFromYearIncreasing(r + 1, y);
    }
  }

  /** A year starts at or before t exactly when its first day is at or
      before the day of t. */
  lemma TimeFromYearBefore(y: int, t: int)
    ensures TimeFromYear(y) <= t <==> DayFromYear(y) <= Day(t)
  {
  }

  function InLeapYear(t: int): int {
    if DaysInYear(YearFromTime(t)) == 366 then 1 else 0
  }

  function DayWithinYear(t: int): int {
    Day(t) - DayFromYear(YearFromTime(t))
  }

  /** The month (0 for January to 11 for December) of the day numbered d
      from 0 within a year whose leap flag is `leap`. */
  function MonthOfDay(d: int, leap: int): (m: int)
    ensures 0 <= m <= 11
  {
    if d < 31 then 0
    else if d < 59 + leap then 1
    else if d < 90 + leap then 2
    else if d < 120 + leap then 3
    else if d < 151 + leap then 4
    else if d < 181 + leap then 5
    else if d < 212 + leap then 6
    else if d < 243 + leap then 7
    else if d < 273 + leap then 8
    else if d < 304 + leap then 9
    else if d < 334 + leap then 10
    else 11
  }

  /** The day of the month, from 1, of the day numbered d within the year. */
  function DateOfDay(d: int, leap: int): int {
    match MonthOfDay(d, leap)
    case 0 => d + 1
    case 1 => d - 30
    case 2 => d - 58 - leap
    case 3 => d - 89 - leap
    case 4 => d - 119 - leap
    case 5 => d - 150 - leap
    case 6 => d - 180 - leap
    case 7 => d - 211 - leap
    case 8 => d - 242 - leap
    case 9 => d - 272 - leap
    case 10 => d - 303 - leap
    case _ => d - 333 - leap
  }

  /** MonthFromTime(t). */
  function MonthFromTime(t: int): (m: int)
    ensures 0 <= m <= 11
  {
    MonthOfDay(DayWithinYear(t), InLeapYear(t))
  }

  /** DateFromTime(t). */
  function DateFromTime(t: int): int {
    DateOfDay(DayWithinYear(t), InLeapYear(t))
  }

  function HourFromTime(t: int): int { (t / MsPerHour) % 24 }
  function MinFromTime(t: int): int { (t / MsPerMinute) % 60 }
  function SecFromTime(t: int): int { (t / MsPerSecond) % 60 }
  function MsFromTime(t: int): int { t % MsPerSecond }

  /** Days in month m (0-based) of a year whose leap flag is `leap`. */
  function DaysInMonth(m: int, leap: int): int
    requires 0 <= m <= 11
  {
    if m == 1 then 28 + leap
    else if m == 3 || m == 5 || m == 8 || m == 10 then 30
    else 31
  }

  /** Days of the year before the first of month m (0-based). */
  function MonthStart(m: int, leap: int): int
    requires 0 <= m <= 11
  {
    match m
    case 0 => 0
    case 1 => 31
    case 2 => 59 + leap
    case 3 => 90 + leap
    case 4 => 120 + leap
    case 5 => 151 + leap
    case 6 => 181 + leap
    case 7 => 212 + leap
    case 8 => 243 + leap
    case 9 => 273 + leap
    case 10 => 304 + leap
    case _ => 334 + leap
  }

  /** The month table agrees with the month lengths: each month starts where
      the previous one ends, and December ends with the year. */
  lemma MonthStartsAdd(m: int, leap: int)
    requires 0 <= m <= 11
    ensures m < 11 ==> MonthStart(m + 1, leap) == MonthStart(m, leap) + DaysInMonth(m, leap)
    ensures m == 11 ==> MonthStart(m, leap) + DaysInMonth(m, leap) == 365 + leap
  {
  }

  function LeapFlag(y: int): int {
    if DaysInYear(y) == 366 then 1 else 0
  }

  /** The day number of a calendar date: MakeDay(year, month, date) for an
      in-range month. */
  function MakeDay(year: int, month: int, date: int): int
    requires 0 <= month <= 11
  {
    DayFromYear(year) + MonthStart(month, LeapFlag(year)) + date - 1
  }

  /** Within one year, the month and date of a day number describe a real
      day of that month, and lead back to the day number. */
  lemma DayOfYearRoundTrip(d: int, leap: int)
    requires 0 <= leap <= 1 && 0 <= d < 365 + leap
    ensures 1 <= DateOfDay(d, leap) <= DaysInMonth(MonthOfDay(d, leap), leap)
    ensures MonthStart(MonthOfDay(d, leap), leap) + DateOfDay(d, leap) - 1 == d
  {
    var m := MonthOfDay(d, leap);
    assert MonthStart(m, leap) <= d < MonthStart(m, leap) + DaysInMonth(m, leap);
  }

  /** The year, month and date a time value falls on describe a real calendar
      day, and that day is Day(t): nothing is lost between them. */
  lemma CalendarRoundTrip(t: int)
    ensures 1 <= DateFromTime(t) <= DaysInMonth(MonthFromTime(t), InLeapYear(t))
    ensures MakeDay(YearFromTime(t), MonthFromTime(t), DateFromTime(t)) == Day(t)
  {
    DayFromYearStep(YearFromTime(t));
    DayOfYearRoundTrip(DayWithinYear(t), InLeapYear(t));
  }

  /** The day of the month is between 1 and 31, so it fits two digits. */
  lemma DateFromTimeInMonth(t: int)
    ensures 1 <= DateFromTime(t) <= 31
  {
    CalendarRoundTrip(t);
  }

  /** Every time value TimeClip admits lies in a year of at most six digits. */
  lemma YearInRange(t: int)
    requires -MaxTimeValue <= t <= MaxTimeValue
    ensures -999999 <= YearFromTime(t) <= 999999
  {
    var y := YearFromTime(t);
    if y > 1970 {
      DayFromYearIncreasing(1970, y);
    } else if y < 1969 {
      DayFromYearIncreasing(y + 1, 1970);
    }
  }

  /** The year field of the date-time string format: four digits for years
      0 to 9999, otherwise a sign and six digits (an expanded year). */
  function YearText(y: int): (s: string)
    requires -999999 <= y <= 999999
    ensures |s| == (if 0 <= y <= 9999 then 4 else 7)
    ensures 'T' !in s
  {
    if 0 <= y <= 9999 then Padded(y, 4)
    else if y < 0 then "-" + Padded(-y, 6)
    else "+" + Padded(y, 6)
  }

  /** Distinct years have distinct year fields. */
  lemma YearTextInjective(y1: int, y2: int)
    requires -999999 <= y1 <= 999999 && -999999 <= y2 <= 999999
    ensures YearText(y1) == YearText(y2) <==> y1 == y2
  {
    var s1, s2 := YearText(y1), YearText(y2);
    if s1 == s2 {
      if 0 <= y1 <= 9999 {
        PaddedInjective(y1, y2, 4);
      } else {
        assert s1[0] == s2[0] && s1[1..] == s2[1..];
        if y1 < 0 {
          PaddedInjective(-y1, -y2, 6);
        } else {
          PaddedInjective(y1, y2, 6);
        }
      }
    }
  }

  /** The date part of toISOString: YYYY-MM-DD (or +YYYYYY-MM-DD / -YYYYYY-MM-DD),
      ten characters long for the years 0 to 9999 and thirteen otherwise, with
      no 'T' in it. */
  function IsoDateText(t: int): (s: string)
    requires -MaxTimeValue <= t <= MaxTimeValue
    ensures |s| == (if 0 <= YearFromTime(t) <= 9999 then 10 else 13)
    ensures 'T' !in s
  {
    YearInRange(t);
    DateFromTimeInMonth(t);
    DateText(YearFromTime(t), MonthFromTime(t) + 1, DateFromTime(t))
  }

  /** The text YEAR-MM-DD of a calendar date, month numbered from 1. */
  function DateText(y: int, month: nat, date: nat): (s: string)
    requires -999999 <= y <= 999999 && month < 100 && date < 100
    ensures |s| == (if 0 <= y <= 9999 then 10 else 13)
    ensures 'T' !in s
  {
    var mm, dd := Padded(month, 2), Padded(date, 2);
    DigitsHaveNoT(mm);
    DigitsHaveNoT(dd);
    YearText(y) + "-" + mm + "-" + dd
  }

  /** Distinct calendar dates have distinct texts. */
  lemma DateTextInjective(y1: int, month1: nat, date1: nat, y2: int, month2: nat, date2: nat)
    requires -999999 <= y1 <= 999999 && month1 < 100 && date1 < 100
    requires -999999 <= y2 <= 999999 && month2 < 100 && date2 < 100
    requires DateText(y1, month1, date1) == DateText(y2, month2, date2)
    ensures y1 == y2 && month1 == month2 && date1 == date2
  {
    DatePartsUnique(YearText(y1), Padded(month1, 2), Padded(date1, 2),
                    YearText(y2), Padded(month2, 2), Padded(date2, 2));
    YearTextInjective(y1, y2);
    PaddedInjective(month1, month2, 2);
    PaddedInjective(date1, date2, 2);
  }

  /** The time part of toISOString: HH:mm:ss.sssZ. */
  function IsoTimeText(t: int): string {
    Padded(HourFromTime(t), 2) + ":" + Padded(MinFromTime(t), 2) + ":" + Padded(SecFromTime(t), 2)
      + "." + Padded(MsFromTime(t), 3) + "Z"
  }

  /** Date.prototype.toISOString on a time value; NaN (`None`) throws a
      RangeError (`None`). Splitting the string at its first 'T' gives back
      exactly the date part. */
  function ToIsoString(tv: Option<int>): (r: Option<string>)
    requires tv.Some? ==> -MaxTimeValue <= tv.value <= MaxTimeValue
    ensures r.Some? <==> tv.Some?
    ensures tv.Some? ==> SplitFirst(r.value, 'T') == IsoDateText(tv.value)
  {
    match tv
    case None => None
    case Some(t) =>
      SplitAtFirst(IsoDateText(t), 'T', IsoTimeText(t));
      Some(IsoDateText(t) + "T" + IsoTimeText(t))
  }

  /** `s.split(sep)[0]`: the text before the first `sep`, or all of `s`. */
  function SplitFirst(s: string, sep: char): (r: string)
    ensures r <= s && sep !in r
    ensures |r| < |s| ==> s[|r|] == sep
  {
    if s == [] || s[0] == sep then "" else [s[0]] + SplitFirst(s[1..], sep)
  }

  /** Splitting at the first separator gives back the text before it. */
  lemma SplitAtFirst(a: string, sep: char, b: string)
    requires sep !in a
    ensures SplitFirst(a + [sep] + b, sep) == a
  {
    var s := a + [sep] + b;
    var r := SplitFirst(s, sep);
    assert s[|a|] == sep;
    assert forall i :: 0 <= i < |a| ==> s[i] == a[i] && s[i] != sep;
    assert |r| == |a|;
  }

  lemma DigitsHaveNoT(s: string)
    requires AllDigits(s)
    ensures 'T' !in s
  {
  }

  /** The fields of YEAR-MM-DD can be read back from the joined text. */
  lemma DatePartsUnique(y1: string, m1: string, d1: string, y2: string, m2: string, d2: string)
    requires |m1| == |m2| == |d1| == |d2| == 2
    requires y1 + "-" + m1 + "-" + d1 == y2 + "-" + m2 + "-" + d2
    ensures y1 == y2 && m1 == m2 && d1 == d2
  {
    var s := y1 + "-" + m1 + "-" + d1;
    var n := |y1|;
    assert |y2| == n;
    assert y1 == s[..n] == y2;
    assert m1 == s[n + 1..n + 3] == m2;
    assert d1 == s[n + 4..] == d2;
  }

  /** The calendar fields of a time value depend on its day number only. */
  lemma FieldsDependOnDay(t1: int, t2: int)
    requires Day(t1) == Day(t2)
    ensures YearFromTime(t1) == YearFromTime(t2)
    ensures MonthFromTime(t1) == MonthFromTime(t2)
    ensures DateFromTime(t1) == DateFromTime(t2)
  {
    assert DayWithinYear(t1) == DayWithinYear(t2);
    assert InLeapYear(t1) == InLeapYear(t2);
  }

  /** Equal ISO dates come from equal calendar fields. */
  lemma IsoDateTextFields(t1: int, t2: int)
    requires -MaxTimeValue <= t1 <= MaxTimeValue
    requires -MaxTimeValue <= t2 <= MaxTimeValue
    requires IsoDateText(t1) == IsoDateText(t2)
    ensures YearFromTime(t1) == YearFromTime(t2)
    ensures MonthFromTime(t1) == MonthFromTime(t2)
    ensures DateFromTime(t1) == DateFromTime(t2)
  {
    YearInRange(t1);
    YearInRange(t2);
    DateFromTimeInMonth(t1);
    DateFromTimeInMonth(t2);
    DateTextInjective(YearFromTime(t1), MonthFromTime(t1) + 1, DateFromTime(t1),
                      YearFromTime(t2), MonthFromTime(t2) + 1, DateFromTime(t2));
  }

  /** Two in-range time values have the same ISO date exactly when they fall
      on the same day, so the date text names the day number faithfully. */
  lemma IsoDateTextSameDay(t1: int, t2: int)
    requires -MaxTimeValue <= t1 <= MaxTimeValue
    requires -MaxTimeValue <= t2 <= MaxTimeValue
    ensures IsoDateText(t1) == IsoDateText(t2) <==> Day(t1) == Day(t2)
  {
    if Day(t1) == Day(t2) {
      FieldsDependOnDay(t1, t2);
    }
    if IsoDateText(t1) == IsoDateText(t2) {
      IsoDateTextFields(t1, t2);
      CalendarRoundTrip(t1);
      CalendarRoundTrip(t2);
    }
  }
}

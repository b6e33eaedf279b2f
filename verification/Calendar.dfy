/** The civil calendar, and the closed form that turns calendar fields into Unix seconds. */
module Calendar {
  import opened Prelude

  const DAY_SECS := 86_400

  // ---- the calendar itself, year by year and month by month ----

  predicate IsLeap(y: int) { (y % 4 == 0 && y % 100 != 0) || y % 400 == 0 }

  function YearLength(y: int): nat { if IsLeap(y) then 366 else 365 }

  /** Days of each month, January first. */
  function Months(leap: bool): (lengths: seq<nat>)
    ensures |lengths| == 12
  {
    [31, if leap then 29 else 28, 31, 30, 31, 30, 31, 31, 30, 31, 30, 31]
  }

  /** Days from 1970-01-01 to January 1 of `y`. */
  function DaysToYear(y: int): int
    decreases if y > 1970 then y - 1970 else 1970 - y
  {
    if y == 1970 then 0
    else if y > 1970 then DaysToYear(y - 1) + YearLength(y - 1)
    else DaysToYear(y + 1) - YearLength(y)
  }

  /** Days of the first `months` months. */
  function DaysOfMonths(leap: bool, months: nat): nat
    requires months <= 12
  {
    if months == 0 then 0 else DaysOfMonths(leap, months - 1) + Months(leap)[months - 1]
  }

  datatype Fields = Fields(year: i64, month: i64, day: i64, hour: i64, minute: i64, second: i64) {
    predicate NonNegative() {
      year >= 0 && month >= 0 && day >= 0 && hour >= 0 && minute >= 0 && second >= 0
    }

    /** A date of the calendar and a time of day without a leap second. */
    predicate Valid() {
      && 1 <= month <= 12 && 1 <= day as int <= Months(IsLeap(year as int))[month as int - 1]
      && 0 <= hour < 24 && 0 <= minute < 60 && 0 <= second < 60
    }

    function TimeOfDay(): int { hour as int * 3_600 + minute as int * 60 + second as int }

    /** Unix seconds, counted along the calendar. */
    function Instant(): int
      requires Valid()
    {
      (DaysToYear(year as int) + DaysOfMonths(IsLeap(year as int), month as int - 1) + day as int - 1) * DAY_SECS
      + TimeOfDay()
    }
  }

  // ---- the closed form, in checked i64 ----

  // Operations written plainly are unchecked in the program; `i64` makes the
  // verifier show that none of them overflows.

  /** The 400-year era of `y` and the year's place in it. The program checks
      these operations too; the verifier shows that the checks never fail. */
  function CheckedEra(y: i64): (r: (i64, i64))
    requires y >= -1
    ensures r.0 as int == y as int / 400 && r.1 as int == y as int % 400
  {
    var era: i64 := y / 400;
    var eraYears := Checked(era as int * 400).Extract();
    var yoe := Checked(y as int - eraYears as int).Extract();
    (era, yoe)
  }

  /** The day of the year that starts in March. */
  function CheckedDayOfYear(month: i64, day: i64): (r: Option<i64>)
    requires month >= 0 && day >= 0
    ensures r.Some? ==> r.value as int == DaysSinceMarch(month as int) + day as int - 1
    ensures r.Some? <==> FitsI64(153 * MonthsSinceMarch(month as int) + 2)
                         && FitsI64(DaysSinceMarch(month as int) + day as int)
  {
    var monthAdj: i64 := if month > 2 then month - 3 else month + 9;
    var doy0 :- Checked(153 * monthAdj as int);
    var doy1 :- Checked(doy0 as int + 2);
    var doy2 := Checked(doy1 as int / 5).Extract();
    var doy3 :- Checked(doy2 as int + day as int);
    Checked(doy3 as int - 1)
  }

  /** Days since 1970-01-01. */
  function CheckedDays(year: i64, month: i64, day: i64): (r: Option<i64>)
    requires year >= 0 && month >= 0 && day >= 0
  {
    var y :- if month <= 2 then Checked(year as int - 1) else Some(year);
    var (era, yoe) := CheckedEra(y);
    var doy :- CheckedDayOfYear(month, day);
    var doe :- Checked((yoe * 365 + yoe / 4 - yoe / 100) as int + doy as int);
    var eraDays :- Checked(era as int * 146_097);
    var days :- Checked(eraDays as int + doe as int);
    Checked(days as int - 719_468)
  }

  function CheckedClock(hour: i64, minute: i64, second: i64): (r: Option<i64>) {
    var hours :- Checked(hour as int * 3_600);
    var minutes :- Checked(minute as int * 60);
    var both :- Checked(hours as int + minutes as int);
    Checked(both as int + second as int)
  }

  /** The parser's arithmetic. */
  function ToSeconds(f: Fields): (r: Option<i64>)
    requires f.NonNegative()
  {
    var days :- CheckedDays(f.year, f.month, f.day);
    var hms :- CheckedClock(f.hour, f.minute, f.second);
    var secs :- Checked(days as int * DAY_SECS);
    Checked(secs as int + hms as int)
  }

  /** Days from March 1 of year 0 to March 1 of year `y`. */
  function DaysToMarch(y: int): int { y / 400 * 146_097 + DaysIntoEra(y) }

  /** Days from the start of the 400-year era to March 1 of year `y`. */
  function DaysIntoEra(y: int): int {
    var yoe := y % 400;
    yoe * 365 + yoe / 4 - yoe / 100
  }

  function MarchYear(year: int, month: int): int { if month <= 2 then year - 1 else year }

  /** Days of the months since March, by the 153-days-in-five-months rule. */
  function DaysSinceMarch(month: int): int { (153 * MonthsSinceMarch(month) + 2) / 5 }

  function MonthsSinceMarch(month: int): int { if month > 2 then month - 3 else month + 9 }

  /** The closed form over the integers. */
  function ClosedDays(year: int, month: int, day: int): int {
    DaysToMarch(MarchYear(year, month)) + DaysSinceMarch(month) + day - 1 - 719_468
  }

  function ClosedSeconds(f: Fields): int {
    ClosedDays(f.year as int, f.month as int, f.day as int) * DAY_SECS + f.TimeOfDay()
  }

  /** The quantities of the date that can outgrow an `i64`. */
  predicate DateFits(year: int, month: int, day: int) {
    && FitsI64(153 * MonthsSinceMarch(month) + 2)
    && FitsI64(DaysSinceMarch(month) + day)
    && FitsI64(DaysIntoEra(MarchYear(year, month)) + DaysSinceMarch(month) + day - 1)
    && FitsI64(ClosedDays(year, month, day) + 719_468)
  }

  predicate Representable(f: Fields) {
    && DateFits(f.year as int, f.month as int, f.day as int)
    && FitsI64(ClosedDays(f.year as int, f.month as int, f.day as int) * DAY_SECS)
    && FitsI64(f.TimeOfDay())
    && FitsI64(ClosedSeconds(f))
  }

  lemma CheckedDaysExact(year: i64, month: i64, day: i64)
    requires year >= 0 && month >= 0 && day >= 0
    ensures var r := CheckedDays(year, month, day);
            && (r.Some? <==> DateFits(year as int, month as int, day as int))
            && (r.Some? ==> r.value as int == ClosedDays(year as int, month as int, day as int))
  {
    var y := MarchYear(year as int, month as int);
    EraFits(y / 400, DaysIntoEra(y) + DaysSinceMarch(month as int) + day as int - 1);
  }

  lemma EraFits(era: int, doe: int)
    requires -1 <= era && -1 <= doe
    ensures FitsI64(era * 146_097 + doe) ==> FitsI64(era * 146_097)
  {
  }

  /** Checked arithmetic refines the integers: however absurd the fields, the
      answer is the exact value, and it is refused exactly when a quantity on
      the way does not fit. */
  lemma CheckedRefinesIntegers(f: Fields)
    requires f.NonNegative()
    ensures ToSeconds(f).Some? ==> ToSeconds(f).value as int == ClosedSeconds(f)
    ensures ToSeconds(f).Some? <==> Representable(f)
  {
    CheckedDaysExact(f.year, f.month, f.day);
  }

  // ---- the closed form is the calendar ----

  lemma LeapFours(r: int)
    requires r > 0
    ensures r / 4 == (r - 1) / 4 + if r % 4 == 0 then 1 else 0
  {
  }

  lemma Centuries(r: int)
    requires r > 0
    ensures r / 100 == (r - 1) / 100 + if r % 100 == 0 then 1 else 0
  {
  }

  lemma EraStep(r: int)
    requires 0 < r < 400
    ensures DaysIntoEra(r) == DaysIntoEra(r - 1) + YearLength(r)
  {
    LeapFours(r);
    Centuries(r);
  }

  lemma Mod4(q: int, r: int)
    requires 0 <= r < 4
    ensures (4 * q + r) % 4 == r
  {
  }

  lemma Mod100(q: int, r: int)
    requires 0 <= r < 100
    ensures (100 * q + r) % 100 == r
  {
  }

  lemma RemainderOfEra(era: int, r: nat)
    requires r < 400
    ensures (400 * era + r) % 4 == r % 4
    ensures (400 * era + r) % 100 == r % 100
    ensures (400 * era + r) % 400 == r
  {
    var a, b := 100 * era + r / 4, 4 * era + r / 100;
    Mod4(a, r % 4);
    Mod100(b, r % 100);
    assert 400 * era + r == 4 * a + r % 4 == 100 * b + r % 100;
  }

  /** Every era of 400 years is like every other. */
  lemma EraRepeats(era: int, r: nat)
    requires r < 400
    ensures YearLength(400 * era + r) == YearLength(r)
    ensures DaysToMarch(400 * era + r) == era * 146_097 + DaysIntoEra(r)
  {
    var y := 400 * era + r;
    assert y % 4 == r % 4 && y % 100 == r % 100 && y % 400 == r == r % 400 by {
      RemainderOfEra(era, r);
    }
    assert y / 400 == era by {
      QuotientOfEra(era, r);
    }
  }

  lemma QuotientOfEra(era: int, r: nat)
    requires r < 400
    ensures (400 * era + r) / 400 == era
  {
  }

  lemma MarchStep(y: int)
    ensures DaysToMarch(y) == DaysToMarch(y - 1) + YearLength(y)
  {
    MarchStepInEra(y / 400, y % 400);
  }

  lemma MarchStepInEra(era: int, r: nat)
    requires r < 400
    ensures DaysToMarch(400 * era + r) == DaysToMarch(400 * era + r - 1) + YearLength(400 * era + r)
  {
    EraRepeats(era, r);
    if r == 0 {
      EraRepeats(era - 1, 399);
      assert 400 * (era - 1) + 399 == 400 * era + r - 1;
    } else {
      EraRepeats(era, r - 1);
      assert 400 * era + (r - 1) == 400 * era + r - 1;
      EraStep(r);
    }
  }

  /** January 1 of `y` falls 306 days after March 1 of the year before. */
  lemma {:induction false} YearStart(y: int)
    ensures DaysToYear(y) == DaysToMarch(y - 1) + 306 - 719_468
    decreases if y > 1970 then y - 1970 else 1970 - y
  {
    if y > 1970 {
      YearStart(y - 1);
      MarchStep(y - 1);
    } else if y < 1970 {
      YearStart(y + 1);
      MarchStep(y);
    }
  }

  lemma MonthSums(leap: bool)
    ensures var march := if leap then 60 else 59;
            && DaysOfMonths(leap, 0) == 0 && DaysOfMonths(leap, 1) == 31 && DaysOfMonths(leap, 2) == march
            && DaysOfMonths(leap, 3) == march + 31 && DaysOfMonths(leap, 4) == march + 61
            && DaysOfMonths(leap, 5) == march + 92 && DaysOfMonths(leap, 6) == march + 122
            && DaysOfMonths(leap, 7) == march + 153 && DaysOfMonths(leap, 8) == march + 184
            && DaysOfMonths(leap, 9) == march + 214 && DaysOfMonths(leap, 10) == march + 245
            && DaysOfMonths(leap, 11) == march + 275 && DaysOfMonths(leap, 12) == march + 306
  {
  }

  lemma MonthStart(leap: bool, month: int)
    requires 1 <= month <= 12
    ensures DaysOfMonths(leap, month - 1)
         == DaysSinceMarch(month) + (if month <= 2 then -306 else if leap then 60 else 59)
  {
    MonthSums(leap);
  }

  /** On every date of the calendar, in any year, the closed form counts the
      days the calendar has. */
  lemma ClosedFormIsCalendar(f: Fields)
    requires f.Valid()
    ensures ClosedSeconds(f) == f.Instant()
  {
    var y, m := f.year as int, f.month as int;
    YearStart(y);
    MarchStep(y);
    MonthStart(IsLeap(y), m);
  }

  /** On a date of the calendar the answer is refused only when it does not fit itself. */
  lemma InstantRepresentable(f: Fields)
    requires f.Valid() && f.year >= 0
    ensures Representable(f) <==> FitsI64(ClosedSeconds(f))
  {
    var y := MarchYear(f.year as int, f.month as int);
    var era, yoe := y / 400, y % 400;
    assert y == 400 * era + yoe;
    assert 0 <= DaysIntoEra(y) < 146_097 && 0 <= DaysSinceMarch(f.month as int) < 400;
    assert 0 <= f.TimeOfDay() < DAY_SECS;
    assert era >= -1;
    var days := ClosedDays(f.year as int, f.month as int, f.day as int);
    assert days >= -146_097 - 719_468;
  }

  // ---- the order of dates ----

  predicate DateLess(f: Fields, g: Fields) {
    || f.year < g.year
    || (f.year == g.year && (f.month < g.month
    || (f.month == g.month && (f.day < g.day
    || (f.day == g.day && (f.hour < g.hour
    || (f.hour == g.hour && (f.minute < g.minute
    || (f.minute == g.minute && f.second < g.second)))))))))
  }

  lemma {:induction false} YearsGrow(y: int, z: int)
    requires y < z
    ensures DaysToYear(y) + YearLength(y) <= DaysToYear(z)
    decreases z - y
  {
    if y + 1 < z {
      YearsGrow(y, z - 1);
    }
    assert DaysToYear(z) == DaysToYear(z - 1) + YearLength(z - 1);
  }

  lemma {:induction false} MonthsGrow(leap: bool, m: nat, n: nat)
    requires m < n <= 12
    ensures DaysOfMonths(leap, m) + Months(leap)[m] <= DaysOfMonths(leap, n)
    decreases n - m
  {
    if m + 1 < n {
      MonthsGrow(leap, m, n - 1);
    }
  }

  lemma YearHoldsItsMonths(y: int)
    ensures DaysOfMonths(IsLeap(y), 12) == YearLength(y)
  {
    MonthSums(IsLeap(y));
  }

  /** Counted instants order dates as their fields do. */
  lemma EarlierInTime(f: Fields, g: Fields)
    requires f.Valid() && g.Valid() && DateLess(f, g)
    ensures f.Instant() < g.Instant()
  {
    var leap := IsLeap(f.year as int);
    if f.year < g.year {
      YearsGrow(f.year as int, g.year as int);
      YearHoldsItsMonths(f.year as int);
      MonthsGrow(leap, f.month as int - 1, 12);
    } else if f.month < g.month {
      MonthsGrow(leap, f.month as int - 1, g.month as int - 1);
    }
  }

  lemma InstantOrdersDates(f: Fields, g: Fields)
    requires f.Valid() && g.Valid()
    ensures f.Instant() < g.Instant() <==> DateLess(f, g)
  {
    if DateLess(f, g) {
      EarlierInTime(f, g);
    } else if f != g {
      EarlierInTime(g, f);
    }
  }
}

/** Reading and printing ISO 8601 stamps, `YYYY-MM-DDTHH:MM:SS`. */
module IsoStamp {
  import opened Prelude
  import opened Text
  import opened Calendar

  // ---- the reader ----

  /** Year, month and day; further parts are ignored. */
  function ReadDate(date: string): (r: Option<(i64, i64, i64)>)
    ensures r.Some? ==> r.value.0 >= 0 && r.value.1 >= 0 && r.value.2 >= 0
  {
    var parts := Split(date, '-');
    var year :- ParseI64(parts[0]);
    var monthText :- Part(parts, 1);
    var month :- ParseI64(monthText);
    var dayText :- Part(parts, 2);
    var day :- ParseI64(dayText);
    Some((year, month, day))
  }

  /** The time of day, without what follows a dot or an offset sign. */
  function ClockPart(rest: string): (time: string)
    ensures '-' !in time
  {
    Before(Before(rest, {'Z', '+', '-'}), {'.'})
  }

  function ReadTime(time: string): (r: Option<(i64, i64, i64)>)
    ensures r.Some? && '-' !in time ==> r.value.0 >= 0 && r.value.1 >= 0 && r.value.2 >= 0
  {
    SplitLacksDash(time);
    var parts := Split(time, ':');
    var hour :- ParseI64(parts[0]);
    var minuteText :- Part(parts, 1);
    var minute :- ParseI64(minuteText);
    var secondText := if |parts| > 2 then parts[2] else "0";
    var second :- ParseI64(secondText);
    Some((hour, minute, second))
  }

  lemma SplitLacksDash(time: string)
    ensures '-' !in time ==> forall i | 0 <= i < |Split(time, ':')| :: '-' !in Split(time, ':')[i]
  {
    if '-' !in time {
      SplitLacks(time, ':', '-');
    }
  }

  function Part(parts: seq<string>, i: nat): Option<string> {
    if i < |parts| then Some(parts[i]) else None
  }

  /** The six fields of a stamp, taken verbatim. None of them can be negative. */
  function ReadFields(iso: string): (r: Option<Fields>)
    ensures r.Some? ==> r.value.NonNegative()
  {
    var (date, rest) :- SplitOnce(iso, {'T'});
    ReadParts(date, rest)
  }

  function ReadParts(date: string, rest: string): (r: Option<Fields>)
    ensures r.Some? ==> r.value.NonNegative()
  {
    var (year, month, day) :- ReadDate(date);
    var (hour, minute, second) :- ReadTime(ClockPart(rest));
    Some(Fields(year, month, day, hour, minute, second))
  }

  /** `parse_iso8601_to_unix_secs`. */
  function Parse(iso: string): Option<i64> {
    var fields :- ReadFields(iso);
    ToSeconds(fields)
  }

  /** `last_activity_secs_from_iso`: 0 stands for "could not read it". */
  function SecondsOrZero(iso: string): i64 {
    match Parse(iso)
    case Some(secs) => secs
    case None => 0
  }

  // ---- the printer ----

  function DateText(f: Fields): string
    requires f.NonNegative()
  {
    Decimal(f.year as nat, 4) + ['-'] + (Decimal(f.month as nat, 2) + ['-'] + Decimal(f.day as nat, 2))
  }

  function ClockText(f: Fields): string
    requires f.NonNegative()
  {
    Decimal(f.hour as nat, 2) + [':'] + (Decimal(f.minute as nat, 2) + [':'] + Decimal(f.second as nat, 2))
  }

  function StampText(f: Fields, ending: string): string
    requires f.NonNegative()
  {
    DateText(f) + ['T'] + (ClockText(f) + ending)
  }

  /** What may follow the seconds and is ignored: nothing, or text that starts
      with a dot or an offset. */
  predicate Ignorable(ending: string) { ending == "" || ending[0] in {'Z', '+', '-', '.'} }

  lemma DigitsLack(s: string, c: char)
    requires AllDigits(s) && !IsDigit(c)
    ensures c !in s
  {
  }

  /** A character that is neither a digit nor `mark` is not in `mark`-joined numbers. */
  lemma JoinedLacks(a: string, mark: char, b: string, d: string, c: char)
    requires AllDigits(a) && AllDigits(b) && AllDigits(d) && !IsDigit(c) && c != mark
    ensures c !in a + [mark] + (b + [mark] + d)
  {
    DigitsLack(a, c);
    DigitsLack(b, c);
    DigitsLack(d, c);
  }

  lemma SplitJoined(a: string, mark: char, b: string, d: string)
    requires AllDigits(a) && AllDigits(b) && AllDigits(d) && !IsDigit(mark)
    ensures Split(a + [mark] + (b + [mark] + d), mark) == [a, b, d]
  {
    DigitsLack(a, mark);
    DigitsLack(b, mark);
    DigitsLack(d, mark);
    SplitOff(a, mark, b + [mark] + d);
    SplitOff(b, mark, d);
    SpanAll(d, {mark});
  }

  lemma ReadDateOf(a: string, b: string, c: string, year: i64, month: i64, day: i64)
    requires AllDigits(a) && AllDigits(b) && AllDigits(c)
    requires ParseI64(a) == Some(year) && ParseI64(b) == Some(month) && ParseI64(c) == Some(day)
    ensures ReadDate(a + ['-'] + (b + ['-'] + c)) == Some((year, month, day))
  {
    SplitJoined(a, '-', b, c);
  }

  lemma ReadTimeOf(a: string, b: string, c: string, hour: i64, minute: i64, second: i64)
    requires AllDigits(a) && AllDigits(b) && AllDigits(c)
    requires ParseI64(a) == Some(hour) && ParseI64(b) == Some(minute) && ParseI64(c) == Some(second)
    ensures ReadTime(a + [':'] + (b + [':'] + c)) == Some((hour, minute, second))
  {
    SplitJoined(a, ':', b, c);
  }

  lemma DateReadsBack(f: Fields)
    requires f.NonNegative()
    ensures ReadDate(DateText(f)) == Some((f.year, f.month, f.day))
  {
    var y, m, d := Decimal(f.year as nat, 4), Decimal(f.month as nat, 2), Decimal(f.day as nat, 2);
    ParseDecimal(f.year as nat, 4);
    ParseDecimal(f.month as nat, 2);
    ParseDecimal(f.day as nat, 2);
    ReadDateOf(y, m, d, f.year, f.month, f.day);
  }

  lemma ClockReadsBack(f: Fields)
    requires f.NonNegative()
    ensures ReadTime(ClockText(f)) == Some((f.hour, f.minute, f.second))
  {
    var h, m, s := Decimal(f.hour as nat, 2), Decimal(f.minute as nat, 2), Decimal(f.second as nat, 2);
    ParseDecimal(f.hour as nat, 2);
    ParseDecimal(f.minute as nat, 2);
    ParseDecimal(f.second as nat, 2);
    ReadTimeOf(h, m, s, f.hour, f.minute, f.second);
  }

  lemma BeforeOf(head: string, tail: string, stops: set<char>)
    requires forall c | c in stops :: c !in head
    requires tail == "" || tail[0] in stops
    ensures Before(head + tail, stops) == head
  {
    if tail == "" {
      assert head + tail == head;
      SpanAll(head, stops);
    } else {
      assert head + tail == head + [tail[0]] + tail[1..];
      SpanOf(head, tail[0], tail[1..], stops);
    }
  }

  lemma BeforePast(head: string, tail: string, stops: set<char>)
    requires forall c | c in stops :: c !in head
    ensures Before(head + tail, stops) == head + Before(tail, stops)
    decreases |head|
  {
    if head == "" {
      assert head + tail == tail;
    } else {
      assert (head + tail)[1..] == head[1..] + tail;
      BeforePast(head[1..], tail, stops);
    }
  }

  lemma ClockPartOf(f: Fields, ending: string)
    requires f.NonNegative() && Ignorable(ending)
    ensures ClockPart(ClockText(f) + ending) == ClockText(f)
  {
    var clock, offsets := ClockText(f), {'Z', '+', '-'};
    var h, m, s := Decimal(f.hour as nat, 2), Decimal(f.minute as nat, 2), Decimal(f.second as nat, 2);
    JoinedLacks(h, ':', m, s, 'Z');
    JoinedLacks(h, ':', m, s, '+');
    JoinedLacks(h, ':', m, s, '-');
    JoinedLacks(h, ':', m, s, '.');
    BeforePast(clock, ending, offsets);
    var kept := Before(ending, offsets);
    assert kept == "" || kept[0] == ending[0] == '.';
    BeforeOf(clock, kept, {'.'});
  }

  /** Every stamp the printer can make is read back field for field. */
  lemma ReadBack(f: Fields, ending: string)
    requires f.NonNegative() && Ignorable(ending)
    ensures ReadFields(StampText(f, ending)) == Some(f)
  {
    var date, rest := DateText(f), ClockText(f) + ending;
    JoinedLacks(Decimal(f.year as nat, 4), '-', Decimal(f.month as nat, 2), Decimal(f.day as nat, 2), 'T');
    SpanOf(date, 'T', rest, {'T'});
    var text := StampText(f, ending);
    assert text[..|date|] == date && text[|date| + 1..] == rest;
    DateReadsBack(f);
    ClockPartOf(f, ending);
    ClockReadsBack(f);
  }

  /** Whenever the instant of a calendar date fits, reading the stamp printed
      from that date gives exactly that instant. */
  lemma PrintedDateReadsBack(f: Fields, ending: string, text: string, unix: i64)
    requires f.Valid() && f.year >= 0 && Ignorable(ending)
    requires f.Instant() == unix as int && text == StampText(f, ending)
    ensures Parse(text) == Some(unix)
  {
    ReadBack(f, ending);
    ClosedFormIsCalendar(f);
    CheckedRefinesIntegers(f);
    InstantRepresentable(f);
  }

  lemma SecondsOfADate(f: Fields, ending: string, unix: i64)
    requires f.Valid() && f.year >= 0 && Ignorable(ending) && f.Instant() == unix as int
    ensures SecondsOrZero(StampText(f, ending)) == unix
  {
    PrintedDateReadsBack(f, ending, StampText(f, ending), unix);
  }

  lemma {:induction false} YearsTakeDays(y: nat)
    requires y >= 1970
    ensures DaysToYear(y) >= y - 1970
  {
    if y > 1970 {
      YearsTakeDays(y - 1);
    }
  }

  /** The date `days` after 1970-01-01: whole years, then whole months, are
      taken off one by one. */
  method SubtractYearsAndMonths(days: nat) returns (y: nat, m: nat, d: nat)
    ensures y >= 1970 && m < 12 && d < Months(IsLeap(y))[m]
    ensures DaysToYear(y) + DaysOfMonths(IsLeap(y), m) + d == days
  {
    y, d := 1970, days;
    while d >= YearLength(y)
      invariant y >= 1970
      invariant DaysToYear(y) + d == days
      decreases d
    {
      d := d - YearLength(y);
      y := y + 1;
    }
    var months := Months(IsLeap(y));
    YearHoldsItsMonths(y);
    m := 0;
    while d >= months[m]
      invariant m < 12
      invariant DaysToYear(y) + DaysOfMonths(IsLeap(y), m) + d == days
      invariant DaysOfMonths(IsLeap(y), m) + d < YearLength(y)
    {
      d := d - months[m];
      m := m + 1;
    }
  }

  /** The `chrono_like` printer. For every Unix second from 0 on, the reader's
      closed form inverts the two subtracting loops. */
  method ChronoLike(unix: i64) returns (stamp: string, ghost date: Fields)
    requires unix >= 0
    ensures Parse(stamp) == Some(unix)
    ensures date.Valid() && date.year >= 1970 && stamp == StampText(date, ".000Z")
  {
    var days, rem := SplitDay(unix as int);
    var y, m, d := SubtractYearsAndMonths(days);
    YearsTakeDays(y);
    var f := Assemble(y, m, d, rem);
    stamp, date := StampText(f, ".000Z"), f;
    PrintedDateReadsBack(f, ".000Z", stamp, unix);
  }

  method SplitDay(unix: nat) returns (days: nat, rem: nat)
    ensures rem < DAY_SECS && days * DAY_SECS + rem == unix && days <= unix
  {
    days, rem := unix / 86_400, unix % 86_400;
  }

  function Assemble(y: nat, m: nat, d: nat, rem: nat): (f: Fields)
    requires y <= I64_MAX && m < 12 && d < Months(IsLeap(y))[m] && rem < DAY_SECS
    ensures f.Valid() && f.year as int == y
    ensures f.Instant() == (DaysToYear(y) + DaysOfMonths(IsLeap(y), m) + d) * DAY_SECS + rem
  {
    var f := Fields(y as i64, m as i64 + 1, d as i64 + 1,
                    (rem / 3_600) as i64, (rem % 3_600 / 60) as i64, (rem % 60) as i64);
    TimeOfRemainder(rem, f);
    f
  }

  lemma TimeOfRemainder(rem: nat, f: Fields)
    requires rem < DAY_SECS
    requires f.hour as int == rem / 3_600 && f.minute as int == rem % 3_600 / 60 && f.second as int == rem % 60
    ensures f.TimeOfDay() == rem && 0 <= f.hour < 24 && 0 <= f.minute < 60 && 0 <= f.second < 60
  {
    assert rem == 3_600 * (rem / 3_600) + rem % 3_600;
    assert rem % 60 == rem % 3_600 % 60 by {
      assert rem == 60 * (60 * (rem / 3_600) + rem % 3_600 / 60) + rem % 3_600 % 60;
    }
  }

  // ---- string order is time order ----

  /** Dates a four-digit year can name. */
  predicate FourDigitDate(f: Fields) { f.Valid() && 0 <= f.year <= 9_999 }

  /** Two texts of one length that compare as two numbers do. */
  predicate Tracks(p: string, q: string, a: int, b: int) {
    |p| == |q| && (LexLess(p, q) <==> a < b) && (p == q <==> a == b)
  }

  lemma DecimalsTrack(a: nat, b: nat, width: nat)
    requires width > 0 && a < Pow10(width) && b < Pow10(width)
    ensures Tracks(Decimal(a, width), Decimal(b, width), a, b)
  {
    DecimalWidth(a, width);
    DecimalWidth(b, width);
    LexLessOfDecimals(a, b, width);
    assert Value(Decimal(a, width)) == a && Value(Decimal(b, width)) == b;
  }

  lemma MarkedOrder(p: string, q: string, a: int, b: int, mark: char, s: string, t: string)
    requires Tracks(p, q, a, b)
    ensures LexLess(p + [mark] + s, q + [mark] + t) <==> a < b || (a == b && LexLess(s, t))
  {
    assert p + [mark] + s == p + ([mark] + s) && q + [mark] + t == q + ([mark] + t);
    LexLessOfHeads(p, [mark] + s, q, [mark] + t);
    LexLessOfHeads([mark], s, [mark], t);
    LexLessTotal([mark], [mark]);
  }

  /** Triples joined by `mark` compare like their numbers. */
  lemma TripleOrder(p1: string, q1: string, a: int, x: int, p2: string, q2: string, b: int, y: int,
                    p3: string, q3: string, c: int, z: int, mark: char, s: string, t: string)
    requires Tracks(p1, q1, a, x) && Tracks(p2, q2, b, y) && Tracks(p3, q3, c, z)
    ensures LexLess(p1 + [mark] + (p2 + [mark] + p3) + s, q1 + [mark] + (q2 + [mark] + q3) + t)
       <==> a < x || (a == x && (b < y || (b == y && (c < z || (c == z && LexLess(s, t))))))
  {
    MarkedOrder(p1, q1, a, x, mark, p2 + [mark] + (p3 + s), q2 + [mark] + (q3 + t));
    MarkedOrder(p2, q2, b, y, mark, p3 + s, q3 + t);
    LexLessOfHeads(p3, s, q3, t);
    RegroupTriple(p1, mark, p2, p3, s);
    RegroupTriple(q1, mark, q2, q3, t);
  }

  lemma RegroupTriple(a: string, mark: char, b: string, c: string, tail: string)
    ensures a + [mark] + (b + [mark] + c) + tail == a + [mark] + (b + [mark] + (c + tail))
  {
  }

  predicate ClockLess(f: Fields, g: Fields) {
    f.hour < g.hour || (f.hour == g.hour && (f.minute < g.minute || (f.minute == g.minute && f.second < g.second)))
  }

  lemma ClockOrder(f: Fields, g: Fields, s: string, t: string)
    requires FourDigitDate(f) && FourDigitDate(g)
    ensures LexLess(ClockText(f) + s, ClockText(g) + t)
       <==> ClockLess(f, g) || (f.hour == g.hour && f.minute == g.minute && f.second == g.second && LexLess(s, t))
  {
    TwoAndFourDigits();
    DecimalsTrack(f.hour as nat, g.hour as nat, 2);
    DecimalsTrack(f.minute as nat, g.minute as nat, 2);
    DecimalsTrack(f.second as nat, g.second as nat, 2);
    TripleOrder(Decimal(f.hour as nat, 2), Decimal(g.hour as nat, 2), f.hour as nat, g.hour as nat,
                Decimal(f.minute as nat, 2), Decimal(g.minute as nat, 2), f.minute as nat, g.minute as nat,
                Decimal(f.second as nat, 2), Decimal(g.second as nat, 2), f.second as nat, g.second as nat,
                ':', s, t);
  }

  lemma DateOrder(f: Fields, g: Fields, s: string, t: string)
    requires FourDigitDate(f) && FourDigitDate(g)
    ensures LexLess(DateText(f) + s, DateText(g) + t)
       <==> f.year < g.year || (f.year == g.year && (f.month < g.month || (f.month == g.month
            && (f.day < g.day || (f.day == g.day && LexLess(s, t))))))
  {
    var y, m, d := Decimal(f.year as nat, 4), Decimal(f.month as nat, 2), Decimal(f.day as nat, 2);
    var y', m', d' := Decimal(g.year as nat, 4), Decimal(g.month as nat, 2), Decimal(g.day as nat, 2);
    DatesTrack(f, g);
    TripleOrder(y, y', f.year as nat, g.year as nat, m, m', f.month as nat, g.month as nat,
                d, d', f.day as nat, g.day as nat, '-', s, t);
  }

  lemma DaysAreFew(leap: bool, month: nat)
    requires month < 12
    ensures Months(leap)[month] <= 31
  {
  }

  lemma DatesTrack(f: Fields, g: Fields)
    requires FourDigitDate(f) && FourDigitDate(g)
    ensures Tracks(Decimal(f.year as nat, 4), Decimal(g.year as nat, 4), f.year as nat, g.year as nat)
    ensures Tracks(Decimal(f.month as nat, 2), Decimal(g.month as nat, 2), f.month as nat, g.month as nat)
    ensures Tracks(Decimal(f.day as nat, 2), Decimal(g.day as nat, 2), f.day as nat, g.day as nat)
  {
    TwoAndFourDigits();
    DaysAreFew(IsLeap(f.year as int), f.month as nat - 1);
    DaysAreFew(IsLeap(g.year as int), g.month as nat - 1);
    DecimalsTrack(f.year as nat, g.year as nat, 4);
    DecimalsTrack(f.month as nat, g.month as nat, 2);
    DecimalsTrack(f.day as nat, g.day as nat, 2);
  }

  lemma TwoAndFourDigits()
    ensures Pow10(2) == 100 && Pow10(4) == 10_000
  {
    assert Pow10(3) == 1_000;
  }

  /** A fraction of `width` digits, or none, and the zone; agents write three digits. */
  function Ending(fraction: nat, width: nat): string {
    if width == 0 then "Z" else ['.'] + Decimal(fraction, width) + ['Z']
  }

  lemma EndingOrder(n: nat, m: nat, width: nat)
    requires n < Pow10(width) && m < Pow10(width)
    ensures Ignorable(Ending(n, width))
    ensures LexLess(Ending(n, width), Ending(m, width)) <==> n < m
  {
    if width == 0 {
      LexLessTotal("Z", "Z");
    } else {
      var p, q := Decimal(n, width), Decimal(m, width);
      DecimalsTrack(n, m, width);
      LexLessOfHeads(p, "Z", q, "Z");
      LexLessTotal("Z", "Z");
      assert ['.'] + p + ['Z'] == ['.'] + (p + "Z") && ['.'] + q + ['Z'] == ['.'] + (q + "Z");
      AfterMark('.', p + "Z", q + "Z");
    }
  }

  /** For stamps of four-digit calendar dates with fractions of one width,
      comparing the texts is comparing the seconds they parse to and then the
      fractions, strictly and both ways. */
  lemma StampOrderIsTimeOrder(f: Fields, n: nat, g: Fields, m: nat, width: nat)
    requires FourDigitDate(f) && FourDigitDate(g) && n < Pow10(width) && m < Pow10(width)
    ensures var s, t := StampText(f, Ending(n, width)), StampText(g, Ending(m, width));
            && Parse(s).Some? && Parse(t).Some?
            && (LexLess(s, t) <==> Parse(s).value < Parse(t).value || (Parse(s) == Parse(t) && n < m))
  {
    EndingOrder(n, m, width);
    EndingOrder(m, n, width);
    StampOrderIsDateOrder(f, g, Ending(n, width), Ending(m, width));
    InstantOrdersDates(f, g);
    InstantOrdersDates(g, f);
    StampParses(f, n, width);
    StampParses(g, m, width);
  }

  lemma StampParses(f: Fields, n: nat, width: nat)
    requires FourDigitDate(f) && n < Pow10(width)
    ensures FitsI64(f.Instant()) && Parse(StampText(f, Ending(n, width))) == Some(f.Instant() as i64)
  {
    EndingOrder(n, n, width);
    FourDigitInstantFits(f);
    PrintedDateReadsBack(f, Ending(n, width), StampText(f, Ending(n, width)), f.Instant() as i64);
  }

  lemma AfterMark(mark: char, s: string, t: string)
    ensures LexLess([mark] + s, [mark] + t) <==> LexLess(s, t)
  {
    assert ([mark] + s)[1..] == s && ([mark] + t)[1..] == t;
  }

  lemma StampParts(f: Fields, s: string)
    requires f.NonNegative()
    ensures StampText(f, s) == DateText(f) + (['T'] + (ClockText(f) + s))
  {
  }

  lemma StampOrderIsDateOrder(f: Fields, g: Fields, s: string, t: string)
    requires FourDigitDate(f) && FourDigitDate(g)
    ensures LexLess(StampText(f, s), StampText(g, t)) <==> DateLess(f, g) || (f == g && LexLess(s, t))
  {
    var c, c' := ClockText(f) + s, ClockText(g) + t;
    StampParts(f, s);
    StampParts(g, t);
    ClockOrder(f, g, s, t);
    AfterMark('T', c, c');
    DateOrder(f, g, ['T'] + c, ['T'] + c');
  }

  lemma FourDigitInstantFits(f: Fields)
    requires FourDigitDate(f)
    ensures FitsI64(f.Instant())
  {
    ClosedFormIsCalendar(f);
    var y := MarchYear(f.year as int, f.month as int);
    assert -1 <= y / 400 <= 25 && 0 <= DaysIntoEra(y) < 146_097 && 0 <= DaysSinceMarch(f.month as int) < 400;
  }
}

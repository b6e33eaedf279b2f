/** Exactly which texts are read as stamps, and as what. */
module IsoGrammar {
  import opened Prelude
  import opened Text
  import opened Calendar
  import opened IsoStamp

  /** Digits, with or without a plus sign in front. */
  predicate IsNumber(s: string, v: i64) {
    var digits := if s != "" && s[0] == '+' then s[1..] else s;
    digits != "" && AllDigits(digits) && Value(digits) == v as int
  }

  lemma ParsesNumbers(s: string, v: i64)
    requires '-' !in s
    ensures ParseI64(s) == Some(v) <==> IsNumber(s, v)
  {
    assert s != "" ==> s[0] in s;
  }

  /** Nothing, or `mark` and whatever else. */
  predicate More(tail: string, mark: char) { tail == "" || tail[0] == mark }

  ghost predicate IsDate(date: string, year: i64, month: i64, day: i64) {
    exists y, m, d, more :: DateParts(date, y, m, d, more) && IsNumber(y, year) && IsNumber(m, month) && IsNumber(d, day)
  }

  predicate DateParts(date: string, y: string, m: string, d: string, more: string) {
    date == y + ['-'] + (m + ['-'] + (d + more)) && '-' !in y && '-' !in m && '-' !in d && More(more, '-')
  }

  /** Hours and minutes, with no seconds or with seconds and whatever follows a further colon. */
  ghost predicate IsClock(clock: string, hour: i64, minute: i64, second: i64) {
    exists h, m, s, more :: ClockIs(clock, h, m, s, more) && IsNumber(h, hour) && IsNumber(m, minute) && IsNumber(s, second)
  }

  predicate ClockIs(clock: string, h: string, m: string, s: string, more: string) {
    ClockParts(clock, h, m, s, more) || (ShortClock(clock, h, m) && s == "0" && more == "")
  }

  predicate ClockParts(clock: string, h: string, m: string, s: string, more: string) {
    clock == h + [':'] + (m + [':'] + (s + more)) && ':' !in h && ':' !in m && ':' !in s && More(more, ':')
  }

  predicate ShortClock(clock: string, h: string, m: string) { clock == h + [':'] + m && ':' !in h && ':' !in m }

  // ---- splitting, both ways ----

  lemma SplitHead(s: string, c: char)
    ensures var parts := Split(s, c);
            if |parts| == 1 then s == parts[0]
            else |parts[0]| < |s| && s == parts[0] + [c] + s[|parts[0]| + 1..] && Split(s[|parts[0]| + 1..], c) == parts[1..]
  {
    var n := Span(s, {c});
    assert s[..|s|] == s;
  }

  lemma SplitTail(d: string, more: string, c: char)
    requires c !in d && More(more, c)
    ensures Split(d + more, c)[0] == d
  {
    if more == "" {
      assert d + more == d;
      SpanAll(d, {c});
    } else {
      assert d + more == d + [c] + more[1..];
      SplitOff(d, c, more[1..]);
    }
  }

  lemma SplitThree(a: string, b: string, d: string, more: string, c: char)
    requires c !in a && c !in b && c !in d && More(more, c)
    ensures var parts := Split(a + [c] + (b + [c] + (d + more)), c);
            |parts| > 2 && parts[0] == a && parts[1] == b && parts[2] == d
  {
    SplitOff(a, c, b + [c] + (d + more));
    SplitOff(b, c, d + more);
    SplitTail(d, more, c);
  }

  lemma SplitTwo(a: string, b: string, c: char)
    requires c !in a && c !in b
    ensures Split(a + [c] + b, c) == [a, b]
  {
    SplitOff(a, c, b);
    SpanAll(b, {c});
  }

  lemma Joined(a: string, b: string, rest: string, d: string, more: string, c: char)
    requires rest == b + [c] + (d + more)
    ensures a + [c] + rest == a + [c] + (b + [c] + (d + more))
  {
  }

  lemma HeadAndMore(s: string, c: char) returns (more: string)
    ensures s == Split(s, c)[0] + more && More(more, c)
  {
    SplitHead(s, c);
    more := s[|Split(s, c)[0]|..];
  }

  /** The first three parts, and the rest. */
  lemma ThreeParts(s: string, c: char) returns (more: string)
    requires |Split(s, c)| > 2
    ensures var parts := Split(s, c); s == parts[0] + [c] + (parts[1] + [c] + (parts[2] + more)) && More(more, c)
  {
    var parts := Split(s, c);
    SplitHead(s, c);
    var second := s[|parts[0]| + 1..];
    assert Split(second, c) == parts[1..];
    SplitHead(second, c);
    var third := second[|parts[1]| + 1..];
    assert Split(third, c)[0] == parts[2];
    more := HeadAndMore(third, c);
    assert second == parts[1] + [c] + (parts[2] + more);
    Joined(parts[0], parts[1], second, parts[2], more, c);
  }

  lemma TwoParts(s: string, c: char)
    requires |Split(s, c)| == 2
    ensures s == Split(s, c)[0] + [c] + Split(s, c)[1]
  {
    SplitHead(s, c);
    SplitHead(s[|Split(s, c)[0]| + 1..], c);
  }

  // ---- dates and clocks ----

  lemma DateFound(date: string, year: i64, month: i64, day: i64)
    requires ReadDate(date) == Some((year, month, day))
    ensures IsDate(date, year, month, day)
  {
    var parts := Split(date, '-');
    var more := ThreeParts(date, '-');
    ParsesNumbers(parts[0], year);
    ParsesNumbers(parts[1], month);
    ParsesNumbers(parts[2], day);
    assert DateParts(date, parts[0], parts[1], parts[2], more);
  }

  lemma ReadsDates(date: string, year: i64, month: i64, day: i64)
    ensures ReadDate(date) == Some((year, month, day)) <==> IsDate(date, year, month, day)
  {
    if ReadDate(date) == Some((year, month, day)) {
      DateFound(date, year, month, day);
    }
    if y, m, d, more :| DateParts(date, y, m, d, more) && IsNumber(y, year) && IsNumber(m, month) && IsNumber(d, day) {
      SplitThree(y, m, d, more, '-');
      ParsesNumbers(y, year);
      ParsesNumbers(m, month);
      ParsesNumbers(d, day);
    }
  }

  lemma ReadsLongClock(clock: string, h: string, m: string, s: string, more: string, hour: i64, minute: i64, second: i64)
    requires '-' !in clock && ClockParts(clock, h, m, s, more)
    requires IsNumber(h, hour) && IsNumber(m, minute) && IsNumber(s, second)
    ensures ReadTime(clock) == Some((hour, minute, second))
  {
    SplitLacksDash(clock);
    SplitThree(h, m, s, more, ':');
    ParsesNumbers(h, hour);
    ParsesNumbers(m, minute);
    ParsesNumbers(s, second);
  }

  lemma ReadsShortClock(clock: string, h: string, m: string, hour: i64, minute: i64, second: i64)
    requires '-' !in clock && ShortClock(clock, h, m)
    requires IsNumber(h, hour) && IsNumber(m, minute) && IsNumber("0", second)
    ensures ReadTime(clock) == Some((hour, minute, second))
  {
    SplitLacksDash(clock);
    SplitTwo(h, m, ':');
    ParsesNumbers(h, hour);
    ParsesNumbers(m, minute);
    ParsesNumbers("0", second);
  }

  lemma ClockFound(clock: string, hour: i64, minute: i64, second: i64)
    requires '-' !in clock && ReadTime(clock) == Some((hour, minute, second))
    ensures IsClock(clock, hour, minute, second)
  {
    SplitLacksDash(clock);
    var parts := Split(clock, ':');
    ParsesNumbers(parts[0], hour);
    ParsesNumbers(parts[1], minute);
    if |parts| > 2 {
      var more := ThreeParts(clock, ':');
      ParsesNumbers(parts[2], second);
      assert ClockIs(clock, parts[0], parts[1], parts[2], more);
    } else {
      TwoParts(clock, ':');
      ParsesNumbers("0", second);
      assert ClockIs(clock, parts[0], parts[1], "0", "");
    }
  }

  lemma ReadsClocks(clock: string, hour: i64, minute: i64, second: i64)
    requires '-' !in clock
    ensures ReadTime(clock) == Some((hour, minute, second)) <==> IsClock(clock, hour, minute, second)
  {
    if ReadTime(clock) == Some((hour, minute, second)) {
      ClockFound(clock, hour, minute, second);
    }
    if h, m, s, more :| ClockIs(clock, h, m, s, more) && IsNumber(h, hour) && IsNumber(m, minute) && IsNumber(s, second) {
      if ClockParts(clock, h, m, s, more) {
        ReadsLongClock(clock, h, m, s, more, hour, minute, second);
      } else {
        ReadsShortClock(clock, h, m, hour, minute, second);
      }
    }
  }

  // ---- whole stamps ----

  /** A date, `T`, a clock, and then nothing or what starts with a dot, a `Z` or a sign. */
  predicate StampParts(iso: string, date: string, clock: string, ending: string) {
    && iso == date + ['T'] + (clock + ending) && 'T' !in date && Ignorable(ending)
    && forall k | 0 <= k < |clock| :: clock[k] !in {'Z', '+', '-', '.'}
  }

  lemma ClockPartIs(clock: string, ending: string)
    requires Ignorable(ending) && forall k | 0 <= k < |clock| :: clock[k] !in {'Z', '+', '-', '.'}
    ensures ClockPart(clock + ending) == clock
  {
    BeforePast(clock, ending, {'Z', '+', '-'});
    var kept := Before(ending, {'Z', '+', '-'});
    assert kept == "" || kept[0] == ending[0] == '.';
    BeforeOf(clock, kept, {'.'});
  }

  lemma ClockPartCuts(rest: string)
    ensures var clock := ClockPart(rest);
            && clock <= rest && Ignorable(rest[|clock|..])
            && forall k | 0 <= k < |clock| :: clock[k] !in {'Z', '+', '-', '.'}
  {
    var zoned := Before(rest, {'Z', '+', '-'});
    var clock := Before(zoned, {'.'});
    assert clock == ClockPart(rest) && clock == rest[..|clock|];
    if |clock| < |zoned| {
      assert rest[|clock|] == zoned[|clock|] == '.';
    }
  }

  lemma PartsRead(date: string, rest: string, f: Fields)
    ensures ReadParts(date, rest) == Some(f)
       <==> && ReadDate(date) == Some((f.year, f.month, f.day))
            && ReadTime(ClockPart(rest)) == Some((f.hour, f.minute, f.second))
  {
  }

  lemma FieldsRead(iso: string, f: Fields) returns (n: nat)
    requires ReadFields(iso) == Some(f)
    ensures n < |iso| && iso[n] == 'T' && 'T' !in iso[..n]
    ensures ReadDate(iso[..n]) == Some((f.year, f.month, f.day))
    ensures ReadTime(ClockPart(iso[n + 1..])) == Some((f.hour, f.minute, f.second))
  {
    n := Span(iso, {'T'});
    PartsRead(iso[..n], iso[n + 1..], f);
  }

  lemma StampFound(iso: string, f: Fields) returns (date: string, clock: string, ending: string)
    requires ReadFields(iso) == Some(f)
    ensures StampParts(iso, date, clock, ending)
    ensures IsDate(date, f.year, f.month, f.day) && IsClock(clock, f.hour, f.minute, f.second)
  {
    var n := FieldsRead(iso, f);
    var rest := iso[n + 1..];
    date, clock := iso[..n], ClockPart(rest);
    ending := rest[|clock|..];
    assert IsDate(date, f.year, f.month, f.day) by {
      ReadsDates(date, f.year, f.month, f.day);
    }
    assert IsClock(clock, f.hour, f.minute, f.second) by {
      ReadsClocks(clock, f.hour, f.minute, f.second);
    }
    ClockPartCuts(rest);
    StampPartsOf(iso, n, clock);
  }

  lemma StampPartsOf(iso: string, n: nat, clock: string)
    requires n < |iso| && iso[n] == 'T' && 'T' !in iso[..n]
    requires clock <= iso[n + 1..] && Ignorable(iso[n + 1..][|clock|..])
    requires forall k | 0 <= k < |clock| :: clock[k] !in {'Z', '+', '-', '.'}
    ensures StampParts(iso, iso[..n], clock, iso[n + 1..][|clock|..])
  {
    var rest := iso[n + 1..];
    assert rest == clock + rest[|clock|..] && iso == iso[..n] + ['T'] + rest;
  }

  /** A text is read as a stamp exactly when it is one, and then as its numbers;
      seconds may be missing, and what follows them is ignored. */
  lemma ReadsStamps(iso: string, f: Fields)
    ensures ReadFields(iso) == Some(f)
       <==> exists date, clock, ending ::
              && StampParts(iso, date, clock, ending)
              && IsDate(date, f.year, f.month, f.day) && IsClock(clock, f.hour, f.minute, f.second)
  {
    if ReadFields(iso) == Some(f) {
      var date, clock, ending := StampFound(iso, f);
    }
    if date, clock, ending :|
      && StampParts(iso, date, clock, ending)
      && IsDate(date, f.year, f.month, f.day) && IsClock(clock, f.hour, f.minute, f.second)
    {
      StampReads(iso, f, date, clock, ending);
    }
  }

  lemma StampReads(iso: string, f: Fields, date: string, clock: string, ending: string)
    requires StampParts(iso, date, clock, ending)
    requires IsDate(date, f.year, f.month, f.day) && IsClock(clock, f.hour, f.minute, f.second)
    ensures ReadFields(iso) == Some(f)
  {
    SpanOf(date, 'T', clock + ending, {'T'});
    assert iso[..|date|] == date && iso[|date| + 1..] == clock + ending;
    ClockPartIs(clock, ending);
    ReadsDates(date, f.year, f.month, f.day);
    ReadsClocks(clock, f.hour, f.minute, f.second);
    PartsRead(date, clock + ending, f);
  }
}

/** The string operations of Rust's standard library that the components use. */
module Text {
  import opened Prelude

  /** `char::is_whitespace`: the characters with the Unicode White_Space property. */
  predicate IsWhitespace(c: char) {
    var u := c as int;
    || 0x9 <= u <= 0xD || u == 0x20 || u == 0x85 || u == 0xA0 || u == 0x1680
    || 0x2000 <= u <= 0x200A || u == 0x2028 || u == 0x2029 || u == 0x202F || u == 0x205F || u == 0x3000
  }

  /** Of the ASCII characters, tab, line feed, vertical tab, form feed, carriage return and space. */
  lemma AsciiBlanks(c: char)
    requires c as int < 128
    ensures IsWhitespace(c) <==> c as int in {9, 10, 11, 12, 13, 32}
  {
  }

  predicate IsBlank(s: string) { forall c | c in s :: IsWhitespace(c) }

  /** `str::trim_end`. */
  function TrimEnd(s: string): (t: string)
    ensures t <= s
    ensures IsBlank(s[|t|..])
    ensures t == "" || !IsWhitespace(t[|t| - 1])
  {
    if s == "" || !IsWhitespace(s[|s| - 1]) then s else TrimEnd(s[..|s| - 1])
  }

  function LeadingBlanks(s: string): (n: nat)
    ensures n <= |s| && forall i | 0 <= i < n :: IsWhitespace(s[i])
    ensures n < |s| ==> !IsWhitespace(s[n])
  {
    if s == "" || !IsWhitespace(s[0]) then 0 else 1 + LeadingBlanks(s[1..])
  }

  /** `str::trim_start`. */
  function TrimStart(s: string): string { s[LeadingBlanks(s)..] }

  /** How far `s` runs before the first character in `stops`. */
  function Span(s: string, stops: set<char>): (n: nat)
    ensures n <= |s|
    ensures forall i | 0 <= i < n :: s[i] !in stops
    ensures n < |s| ==> s[n] in stops
  {
    if s == "" || s[0] in stops then 0 else 1 + Span(s[1..], stops)
  }

  /** `str::split_once` with a set of one-character patterns. */
  function SplitOnce(s: string, stops: set<char>): Option<(string, string)> {
    var n := Span(s, stops);
    if n == |s| then None else Some((s[..n], s[n + 1..]))
  }

  /** What stands before the first of `stops`, or all of `s`. */
  function Before(s: string, stops: set<char>): string { s[..Span(s, stops)] }

  /** `str::split` on one character; never empty. */
  function Split(s: string, c: char): (parts: seq<string>)
    ensures |parts| > 0
    ensures forall i | 0 <= i < |parts| :: c !in parts[i]
    decreases |s|
  {
    var n := Span(s, {c});
    if n == |s| then [s] else [s[..n]] + Split(s[n + 1..], c)
  }

  /** A character `s` does not have is in none of its parts. */
  lemma {:induction false} SplitLacks(s: string, c: char, absent: char)
    requires absent !in s
    ensures forall i | 0 <= i < |Split(s, c)| :: absent !in Split(s, c)[i]
    decreases |s|
  {
    var n := Span(s, {c});
    if n < |s| {
      SplitLacks(s[n + 1..], c, absent);
    }
  }

  lemma SpanOf(head: string, stop: char, tail: string, stops: set<char>)
    requires stop in stops
    requires forall c | c in head :: c !in stops
    ensures Span(head + [stop] + tail, stops) == |head|
  {
    var s := head + [stop] + tail;
    assert s[|head|] == stop;
    assert forall i | 0 <= i < |head| :: s[i] == head[i] && head[i] in head;
  }

  lemma SpanAll(s: string, stops: set<char>)
    requires forall c | c in s :: c !in stops
    ensures Span(s, stops) == |s|
  {
  }

  lemma SplitOff(head: string, c: char, tail: string)
    requires c !in head
    ensures Split(head + [c] + tail, c) == [head] + Split(tail, c)
  {
    var s := head + [c] + tail;
    SpanOf(head, c, tail, {c});
    assert s[..|head|] == head && s[|head| + 1..] == tail;
  }

  // ---- decimal numbers ----

  predicate IsDigit(c: char) { '0' <= c <= '9' }

  function DigitChar(d: nat): (c: char)
    requires d < 10
    ensures IsDigit(c) && c as int - '0' as int == d
  {
    ('0' as int + d) as char
  }

  predicate AllDigits(s: string) { forall i | 0 <= i < |s| :: IsDigit(s[i]) }

  function Value(digits: string): nat
    requires AllDigits(digits)
  {
    if digits == "" then 0 else 10 * Value(digits[..|digits| - 1]) + (digits[|digits| - 1] as int - '0' as int)
  }

  /** `str::parse::<i64>`: an optional sign, at least one digit, and a value that fits. */
  function ParseI64(s: string): (r: Option<i64>)
    ensures r.Some? && '-' !in s ==> r.value >= 0
  {
    var negative := s != "" && s[0] == '-';
    var digits := if s != "" && (s[0] == '+' || s[0] == '-') then s[1..] else s;
    if digits == "" || !AllDigits(digits) then None
    else
      var magnitude: int := Value(digits);
      Checked(if negative then -magnitude else magnitude)
  }

  /** `{n:0w}`: decimal digits, padded with zeros to `width`. */
  function Decimal(n: nat, width: nat): (s: string)
    ensures s != ""
    ensures AllDigits(s)
    ensures Value(s) == n
    decreases n, width
  {
    if n < 10 && width <= 1 then
      [DigitChar(n)]
    else
      var front := Decimal(n / 10, if width > 0 then width - 1 else 0);
      var s := front + [DigitChar(n % 10)];
      assert s[..|s| - 1] == front;
      s
  }

  lemma ParseDecimal(n: nat, width: nat)
    requires n <= I64_MAX
    ensures ParseI64(Decimal(n, width)) == Some(n as i64)
  {
    var s := Decimal(n, width);
    assert IsDigit(s[0]);
  }

  function Pow10(w: nat): nat { if w == 0 then 1 else 10 * Pow10(w - 1) }

  lemma {:induction false} DecimalWidth(n: nat, width: nat)
    requires width > 0 && n < Pow10(width)
    ensures |Decimal(n, width)| == width
  {
    if width > 1 {
      DecimalWidth(n / 10, width - 1);
    }
  }

  // ---- lexical order ----

  /** `str::cmp` is `Less`: character by character, a proper prefix first. */
  predicate LexLess(a: string, b: string) {
    if b == "" then false
    else if a == "" then true
    else a[0] < b[0] || (a[0] == b[0] && LexLess(a[1..], b[1..]))
  }

  /** The first difference decides. */
  lemma {:induction false} FirstDifferenceDecides(common: string, a: string, b: string)
    requires a != "" && b != "" ==> a[0] != b[0]
    ensures LexLess(common + a, common + b) <==> b != "" && (a == "" || a[0] < b[0])
  {
    if common == "" {
      assert common + a == a && common + b == b;
    } else {
      assert (common + a)[1..] == common[1..] + a && (common + b)[1..] == common[1..] + b;
      FirstDifferenceDecides(common[1..], a, b);
    }
  }

  lemma {:induction false} LexLessTotal(a: string, b: string)
    ensures LexLess(a, b) || LexLess(b, a) || a == b
    ensures !(LexLess(a, b) && LexLess(b, a))
    ensures !LexLess(a, a)
  {
    if a != "" {
      LexLessTotal(a[1..], a[1..]);
      if b != "" {
        LexLessTotal(a[1..], b[1..]);
        if a[0] == b[0] && a[1..] == b[1..] {
          assert a == [a[0]] + a[1..] && b == [b[0]] + b[1..];
        }
      }
    }
  }

  lemma {:induction false} LexLessTransitive(a: string, b: string, c: string)
    requires LexLess(a, b) && LexLess(b, c)
    ensures LexLess(a, c)
  {
    if a != "" && a[0] == b[0] == c[0] {
      LexLessTransitive(a[1..], b[1..], c[1..]);
    }
  }

  /** Heads of one length decide unless they are equal. */
  lemma {:induction false} LexLessOfHeads(p: string, s: string, q: string, t: string)
    requires |p| == |q|
    ensures LexLess(p + s, q + t) <==> LexLess(p, q) || (p == q && LexLess(s, t))
  {
    if p == "" {
      assert p + s == s && q + t == t;
    } else {
      assert (p + s)[1..] == p[1..] + s && (q + t)[1..] == q[1..] + t;
      LexLessOfHeads(p[1..], s, q[1..], t);
      assert p == [p[0]] + p[1..] && q == [q[0]] + q[1..];
    }
  }

  lemma LexLessOfDigits(a: nat, b: nat)
    requires a < 10 && b < 10
    ensures LexLess([DigitChar(a)], [DigitChar(b)]) <==> a < b
  {
    var s, t := [DigitChar(a)], [DigitChar(b)];
    assert s[1..] == "" && t[1..] == "";
  }

  lemma DigitDecides(p: string, q: string, m: nat, n: nat, x: nat, y: nat)
    requires |p| == |q| && (LexLess(p, q) <==> m < n) && (p == q <==> m == n) && x < 10 && y < 10
    ensures LexLess(p + [DigitChar(x)], q + [DigitChar(y)]) <==> 10 * m + x < 10 * n + y
  {
    LexLessOfHeads(p, [DigitChar(x)], q, [DigitChar(y)]);
    LexLessOfDigits(x, y);
  }

  /** On decimals of one width, lexical order is numeric order. */
  lemma {:induction false} LexLessOfDecimals(a: nat, b: nat, width: nat)
    requires width > 0 && a < Pow10(width) && b < Pow10(width)
    ensures LexLess(Decimal(a, width), Decimal(b, width)) <==> a < b
  {
    if width == 1 {
      LexLessOfDigits(a, b);
    } else {
      var m, n := a / 10, b / 10;
      var p, q := Decimal(m, width - 1), Decimal(n, width - 1);
      DecimalWidth(m, width - 1);
      DecimalWidth(n, width - 1);
      LexLessOfDecimals(m, n, width - 1);
      assert Value(p) == m && Value(q) == n;
      DigitDecides(p, q, m, n, a % 10, b % 10);
    }
  }
}

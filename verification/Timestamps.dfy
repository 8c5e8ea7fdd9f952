/** UTC timestamps as the store writes them: RFC 3339 with the trailing zeros of the
    fraction dropped. Every time comparison in SQL is a comparison of these texts. */
module Timestamps {
  import Text

  const SECOND: int := 1_000_000_000

  datatype Civil = Civil(year: nat, month: nat, day: nat, hour: nat, minute: nat, second: nat, nanos: nat)

  predicate Leap(year: nat) {
    year % 4 == 0 && (year % 100 != 0 || year % 400 == 0)
  }

  function DaysInMonth(year: nat, month: nat): nat {
    if month == 2 then (if Leap(year) then 29 else 28)
    else if month == 4 || month == 6 || month == 9 || month == 11 then 30
    else 31
  }

  predicate ValidCivil(c: Civil) {
    && c.year <= 9999
    && 1 <= c.month <= 12
    && 1 <= c.day <= DaysInMonth(c.year, c.month)
    && c.hour < 24 && c.minute < 60 && c.second < 60
    && c.nanos < SECOND
  }

  type Instant = c: Civil | ValidCivil(c) witness Civil(1, 1, 1, 0, 0, 0, 0)

  // ---- the clock -------------------------------------------------------

  function DaysBeforeYear(year: nat): nat {
    if year == 0 then 0 else DaysBeforeYear(year - 1) + (if Leap(year - 1) then 366 else 365)
  }

  function DaysBeforeMonth(year: nat, month: nat): nat {
    if month <= 1 then 0 else DaysBeforeMonth(year, month - 1) + DaysInMonth(year, month - 1)
  }

  function Days(t: Instant): nat {
    DaysBeforeYear(t.year) + DaysBeforeMonth(t.year, t.month) + t.day - 1
  }

  /** Whole seconds since the start of year 0. */
  function Seconds(t: Instant): nat {
    Days(t) * 86400 + t.hour * 3600 + t.minute * 60 + t.second
  }

  /** Nanoseconds since the start of year 0: the chronological order. */
  function Nanos(t: Instant): nat {
    Seconds(t) * SECOND + t.nanos
  }

  // ---- the text --------------------------------------------------------

  function DigitChar(d: nat): char
    requires d < 10
  {
    '0' + d as char
  }

  /** The last `width` decimal digits of n, zero padded. */
  function Digits(n: nat, width: nat): (s: string)
    ensures |s| == width
    ensures forall i :: 0 <= i < |s| ==> '0' <= s[i] <= '9'
  {
    if width == 0 then "" else Digits(n / 10, width - 1) + [DigitChar(n % 10)]
  }

  function TrimZeros(s: string): (r: string)
    ensures r <= s
    ensures forall i :: |r| <= i < |s| ==> s[i] == '0'
    ensures r != [] ==> r[|r| - 1] != '0'
  {
    if s != [] && s[|s| - 1] == '0' then TrimZeros(s[..|s| - 1]) else s
  }

  function Fraction(t: Instant): string {
    TrimZeros(Digits(t.nanos, 9))
  }

  function DateText(t: Instant): string {
    Digits(t.year, 4) + ("-" + (Digits(t.month, 2) + ("-" + Digits(t.day, 2))))
  }

  function ClockText(t: Instant): string {
    Digits(t.hour, 2) + (":" + (Digits(t.minute, 2) + (":" + Digits(t.second, 2))))
  }

  function SecondText(t: Instant): (s: string)
    ensures |s| == 19
  {
    DateText(t) + ("T" + ClockText(t))
  }

  function FractionText(fraction: string): string {
    (if fraction == "" then "" else "." + fraction) + "Z"
  }

  function Format(t: Instant): string {
    SecondText(t) + FractionText(Fraction(t))
  }

  /** The corner in which text and clock disagree: one whole second, and the digits of
      one fraction continue the digits of the other. */
  predicate FractionClash(a: Instant, b: Instant) {
    Seconds(a) == Seconds(b) && (Fraction(a) < Fraction(b) || Fraction(b) < Fraction(a))
  }

  // ---- digits ----------------------------------------------------------

  function Pow10(n: nat): nat {
    if n == 0 then 1 else 10 * Pow10(n - 1)
  }

  lemma {:induction false} DigitsOrder(n: nat, m: nat, width: nat)
    requires n < Pow10(width) && m < Pow10(width)
    ensures Text.Less(Digits(n, width), Digits(m, width)) <==> n < m
    ensures Digits(n, width) == Digits(m, width) <==> n == m
  {
    if width > 0 {
      DigitsOrder(n / 10, m / 10, width - 1);
      var a, b := Digits(n / 10, width - 1), Digits(m / 10, width - 1);
      var x, y := [DigitChar(n % 10)], [DigitChar(m % 10)];
      Text.SplitOrder(a, b, x, y);
      assert Text.Less(x, y) <==> n % 10 < m % 10;
      assert Digits(n, width)[..width - 1] == a && Digits(m, width)[..width - 1] == b;
      assert Digits(n, width)[width - 1] == x[0] && Digits(m, width)[width - 1] == y[0];
    }
  }

  /** A fixed-width number followed by a separator and the rest. */
  lemma FieldOrder(n: nat, m: nat, width: nat, separator: string, x: string, y: string)
    requires n < Pow10(width) && m < Pow10(width)
    ensures Text.Less(Digits(n, width) + (separator + x), Digits(m, width) + (separator + y))
       <==> n < m || (n == m && Text.Less(x, y))
    ensures Digits(n, width) + (separator + x) == Digits(m, width) + (separator + y) <==> n == m && x == y
  {
    DigitsOrder(n, m, width);
    Text.SplitOrder(Digits(n, width), Digits(m, width), separator + x, separator + y);
    Text.SplitOrder(separator, separator, x, y);
    Text.Trichotomy(separator, separator);
    var s, t := Digits(n, width) + (separator + x), Digits(m, width) + (separator + y);
    if s == t {
      assert s[..width] == Digits(n, width) && t[..width] == Digits(m, width);
      assert s[width + |separator|..] == x && t[width + |separator|..] == y;
    }
  }

  // ---- whole seconds ---------------------------------------------------

  predicate DateLess(a: Instant, b: Instant) {
    a.year < b.year || (a.year == b.year && (a.month < b.month || (a.month == b.month && a.day < b.day)))
  }

  predicate SameDate(a: Instant, b: Instant) {
    a.year == b.year && a.month == b.month && a.day == b.day
  }

  lemma DateTextOrder(a: Instant, b: Instant)
    ensures Text.Less(DateText(a), DateText(b)) <==> DateLess(a, b)
    ensures DateText(a) == DateText(b) <==> SameDate(a, b)
  {
    assert Pow10(2) == 100 && Pow10(4) == 10000;
    DigitsOrder(a.day, b.day, 2);
    FieldOrder(a.month, b.month, 2, "-", Digits(a.day, 2), Digits(b.day, 2));
    FieldOrder(a.year, b.year, 4, "-", Digits(a.month, 2) + ("-" + Digits(a.day, 2)),
               Digits(b.month, 2) + ("-" + Digits(b.day, 2)));
  }

  function ClockSeconds(t: Instant): nat {
    t.hour * 3600 + t.minute * 60 + t.second
  }

  lemma ClockTextOrder(a: Instant, b: Instant)
    ensures Text.Less(ClockText(a), ClockText(b)) <==> ClockSeconds(a) < ClockSeconds(b)
    ensures ClockText(a) == ClockText(b) <==> ClockSeconds(a) == ClockSeconds(b)
  {
    assert Pow10(2) == 100;
    DigitsOrder(a.second, b.second, 2);
    FieldOrder(a.minute, b.minute, 2, ":", Digits(a.second, 2), Digits(b.second, 2));
    FieldOrder(a.hour, b.hour, 2, ":", Digits(a.minute, 2) + (":" + Digits(a.second, 2)),
               Digits(b.minute, 2) + (":" + Digits(b.second, 2)));
  }

  lemma {:induction false} MonthFits(year: nat, month: nat, later: nat)
    requires 1 <= month < later <= 13
    ensures DaysBeforeMonth(year, month) + DaysInMonth(year, month) <= DaysBeforeMonth(year, later)
    decreases later
  {
    if month + 1 < later {
      MonthFits(year, month, later - 1);
    }
  }

  lemma YearLength(year: nat)
    ensures DaysBeforeMonth(year, 13) == if Leap(year) then 366 else 365
  {
    QuarterLength(year, 1);
    QuarterLength(year, 4);
    QuarterLength(year, 7);
    QuarterLength(year, 10);
  }

  lemma QuarterLength(year: nat, month: nat)
    requires 1 <= month
    ensures DaysBeforeMonth(year, month + 3)
         == DaysBeforeMonth(year, month) + DaysInMonth(year, month) + DaysInMonth(year, month + 1)
             + DaysInMonth(year, month + 2)
  {
    assert DaysBeforeMonth(year, month + 3) == DaysBeforeMonth(year, month + 2) + DaysInMonth(year, month + 2);
    assert DaysBeforeMonth(year, month + 2) == DaysBeforeMonth(year, month + 1) + DaysInMonth(year, month + 1);
  }

  lemma {:induction false} YearFits(year: nat, later: nat)
    requires year < later
    ensures DaysBeforeYear(year) + (if Leap(year) then 366 else 365) <= DaysBeforeYear(later)
    decreases later
  {
    if year + 1 < later {
      YearFits(year, later - 1);
    }
  }

  /** Calendar order is day order. */
  lemma DaysIncrease(a: Instant, b: Instant)
    requires DateLess(a, b)
    ensures Days(a) < Days(b)
  {
    if a.year < b.year {
      YearFits(a.year, b.year);
      YearLength(a.year);
      MonthFits(a.year, a.month, 13);
    } else if a.month < b.month {
      MonthFits(a.year, a.month, b.month);
    }
  }

  /** The text of a second is ordered by its date, then by its clock. */
  lemma SecondTextSplit(a: Instant, b: Instant)
    ensures Text.Less(SecondText(a), SecondText(b))
       <==> Text.Less(DateText(a), DateText(b)) || (DateText(a) == DateText(b) && Text.Less(ClockText(a), ClockText(b)))
    ensures SecondText(a) == SecondText(b) <==> DateText(a) == DateText(b) && ClockText(a) == ClockText(b)
  {
    Text.SplitOrder(DateText(a), DateText(b), "T" + ClockText(a), "T" + ClockText(b));
    Text.SplitOrder("T", "T", ClockText(a), ClockText(b));
    Text.Trichotomy("T", "T");
    assert SecondText(a)[..10] == DateText(a) && SecondText(b)[..10] == DateText(b);
    assert SecondText(a)[11..] == ClockText(a) && SecondText(b)[11..] == ClockText(b);
  }

  lemma SameDays(a: Instant, b: Instant)
    requires SameDate(a, b)
    ensures Days(a) == Days(b)
  {}

  /** So is the count of seconds. */
  lemma SecondsSplit(a: Instant, b: Instant)
    ensures Seconds(a) < Seconds(b) <==> DateLess(a, b) || (SameDate(a, b) && ClockSeconds(a) < ClockSeconds(b))
    ensures Seconds(a) == Seconds(b) <==> SameDate(a, b) && ClockSeconds(a) == ClockSeconds(b)
  {
    assert Seconds(a) == Days(a) * 86400 + ClockSeconds(a) && Seconds(b) == Days(b) * 86400 + ClockSeconds(b);
    ClockWithinDay(a);
    ClockWithinDay(b);
    if DateLess(a, b) {
      DaysIncrease(a, b);
    } else if DateLess(b, a) {
      DaysIncrease(b, a);
    } else {
      SameDays(a, b);
    }
  }

  lemma ClockWithinDay(t: Instant)
    ensures ClockSeconds(t) < 86400
  {}

  lemma SecondTextOrder(a: Instant, b: Instant)
    ensures Text.Less(SecondText(a), SecondText(b)) <==> Seconds(a) < Seconds(b)
    ensures SecondText(a) == SecondText(b) <==> Seconds(a) == Seconds(b)
    ensures Seconds(a) == Seconds(b) ==> a.(nanos := 0) == b.(nanos := 0)
  {
    SecondTextSplit(a, b);
    SecondsSplit(a, b);
    DateTextOrder(a, b);
    ClockTextOrder(a, b);
  }

  // ---- fractions -------------------------------------------------------

  /** Where the digits of two numbers of one width first differ. */
  lemma {:induction false} FirstDifference(s: string, t: string) returns (i: nat)
    requires |s| == |t| && Text.Less(s, t)
    ensures i < |s| && s[..i] == t[..i] && s[i] < t[i]
  {
    if s[0] < t[0] {
      i := 0;
    } else {
      var j := FirstDifference(s[1..], t[1..]);
      i := j + 1;
      assert s[..i] == [s[0]] + s[1..][..j];
      assert t[..i] == [t[0]] + t[1..][..j];
    }
  }

  lemma LessAt(s: string, t: string, i: nat)
    requires i < |s| && i < |t| && s[..i] == t[..i] && s[i] < t[i]
    ensures Text.Less(s, t)
  {
    assert s == s[..i] + s[i..] && t == t[..i] + t[i..];
    Text.SplitOrder(s[..i], t[..i], s[i..], t[i..]);
  }

  /** Two trimmed digit strings first differ where the padded ones do, or one continues the other. */
  lemma TrimmedDifference(s: string, t: string, i: nat)
    requires |s| == |t| && i < |s| && s[..i] == t[..i] && '0' <= s[i] < t[i]
    ensures i < |TrimZeros(t)|
    ensures i < |TrimZeros(s)| ==> TrimZeros(s)[..i] == TrimZeros(t)[..i] && TrimZeros(s)[i] < TrimZeros(t)[i]
    ensures |TrimZeros(s)| <= i ==> TrimZeros(s) < TrimZeros(t)
  {
    var f, g := TrimZeros(s), TrimZeros(t);
    if i < |f| {
      assert f[..i] == s[..i] == t[..i] == g[..i];
    } else {
      assert f == s[..|f|] == s[..i][..|f|] == t[..i][..|f|] == t[..|f|] == g[..|f|];
    }
  }

  lemma NanosDifference(n: nat, m: nat) returns (i: nat)
    requires n < m < SECOND
    ensures i < 9 && Digits(n, 9)[..i] == Digits(m, 9)[..i] && Digits(n, 9)[i] < Digits(m, 9)[i]
  {
    assert Pow10(9) == SECOND by {
      assert Pow10(5) == 100_000;
    }
    DigitsOrder(n, m, 9);
    i := FirstDifference(Digits(n, 9), Digits(m, 9));
  }

  lemma FractionDifference(a: Instant, b: Instant) returns (i: nat)
    requires a.nanos < b.nanos
    ensures i < |Fraction(b)|
    ensures i < |Fraction(a)| ==> Fraction(a)[..i] == Fraction(b)[..i] && Fraction(a)[i] < Fraction(b)[i]
    ensures |Fraction(a)| <= i ==> Fraction(a) < Fraction(b)
  {
    i := NanosDifference(a.nanos, b.nanos);
    TrimmedDifference(Digits(a.nanos, 9), Digits(b.nanos, 9), i);
  }

  lemma DigitBelowZ(t: Instant)
    ensures forall i :: 0 <= i < |Fraction(t)| ==> '0' <= Fraction(t)[i] < 'Z'
  {}

  lemma FractionTextLess(f: string, g: string, i: nat)
    requires i < |f| && i < |g| && f[..i] == g[..i] && f[i] < g[i]
    ensures Text.Less(FractionText(f), FractionText(g))
  {
    var x, y := FractionText(f), FractionText(g);
    assert x == "." + f + "Z" && y == "." + g + "Z";
    assert x[..i + 1] == "." + f[..i] == "." + g[..i] == y[..i + 1];
    LessAt(x, y, i + 1);
  }

  lemma FractionTextContinued(f: string, g: string)
    requires f < g && g[|f|] < 'Z'
    ensures Text.Less(FractionText(g), FractionText(f))
  {
    var x, y := FractionText(f), FractionText(g);
    if f == "" {
      LessAt(y, x, 0);
    } else {
      assert x[..|f| + 1] == "." + f == "." + g[..|f|] == y[..|f| + 1];
      LessAt(y, x, |f| + 1);
    }
  }

  /** For two fractions of one second, the earlier first: the texts are in order exactly
      when the shorter digit string is not continued by the longer one. */
  lemma FractionOrder(a: Instant, b: Instant)
    requires a.nanos < b.nanos
    ensures Text.Less(FractionText(Fraction(a)), FractionText(Fraction(b))) <==> !(Fraction(a) < Fraction(b))
    ensures Text.Less(FractionText(Fraction(b)), FractionText(Fraction(a))) <==> Fraction(a) < Fraction(b)
    ensures !(Fraction(b) < Fraction(a))
  {
    var f, g := Fraction(a), Fraction(b);
    var i := FractionDifference(a, b);
    if i < |f| {
      FractionTextLess(f, g, i);
    } else {
      DigitBelowZ(b);
      FractionTextContinued(f, g);
    }
    Text.Trichotomy(FractionText(f), FractionText(g));
  }

  // ---- the theorems ----------------------------------------------------

  lemma FormatSplit(a: Instant, b: Instant)
    ensures Text.Less(Format(a), Format(b))
       <==> Seconds(a) < Seconds(b)
            || (Seconds(a) == Seconds(b) && Text.Less(FractionText(Fraction(a)), FractionText(Fraction(b))))
  {
    SecondTextOrder(a, b);
    Text.SplitOrder(SecondText(a), SecondText(b), FractionText(Fraction(a)), FractionText(Fraction(b)));
  }

  /** Distinct times have distinct texts. */
  lemma FormatInjective(a: Instant, b: Instant)
    requires Format(a) == Format(b)
    ensures a == b
  {
    assert Format(a)[..19] == SecondText(a) && Format(b)[..19] == SecondText(b);
    assert Format(a)[19..] == FractionText(Fraction(a)) && Format(b)[19..] == FractionText(Fraction(b));
    SecondTextOrder(a, b);
    Text.Trichotomy(FractionText(Fraction(a)), FractionText(Fraction(a)));
    if a.nanos < b.nanos {
      FractionOrder(a, b);
    } else if b.nanos < a.nanos {
      FractionOrder(b, a);
    }
  }

  /** Text order is clock order for two different times, except exactly in a fraction clash,
      where it is the reverse. */
  lemma TextOrderIsClockOrder(a: Instant, b: Instant)
    requires a != b
    ensures (Text.Less(Format(a), Format(b)) <==> Nanos(a) < Nanos(b)) <==> !FractionClash(a, b)
    ensures Seconds(a) != Seconds(b) ==> (Text.Less(Format(a), Format(b)) <==> Nanos(a) < Nanos(b))
  {
    FormatSplit(a, b);
    SecondTextOrder(a, b);
    if Seconds(a) == Seconds(b) {
      if a.nanos < b.nanos {
        FractionOrder(a, b);
      } else {
        FractionOrder(b, a);
      }
    }
  }

  lemma NanosInjective(a: Instant, b: Instant)
    requires Nanos(a) == Nanos(b)
    ensures a == b
  {
    SecondTextOrder(a, b);
  }

  /** A time that has not passed yet is taken for a past one exactly in a fraction clash. */
  lemma EarlyExactlyInClash(until: Instant, now: Instant)
    requires Nanos(now) <= Nanos(until)
    ensures Text.Less(Format(until), Format(now)) <==> FractionClash(until, now)
  {
    if Nanos(until) == Nanos(now) {
      NanosInjective(until, now);
      Text.Trichotomy(Format(until), Format(now));
    } else {
      TextOrderIsClockOrder(until, now);
    }
  }

  /** A time still to come is taken for one that has been reached exactly in a fraction clash. */
  lemma ReachedExactlyInClash(due: Instant, now: Instant)
    requires Nanos(now) < Nanos(due)
    ensures Text.AtMost(Format(due), Format(now)) <==> FractionClash(due, now)
  {
    EarlyExactlyInClash(due, now);
    if Format(due) == Format(now) {
      FormatInjective(due, now);
    }
  }

  /** However the fractions fall, text order is right to within a second. */
  lemma TextOrderSlack(a: Instant, b: Instant)
    ensures Text.AtMost(Format(a), Format(b)) ==> Nanos(a) < Nanos(b) + SECOND
    ensures Nanos(a) + SECOND <= Nanos(b) ==> Text.Less(Format(a), Format(b))
  {
    if Format(a) == Format(b) {
      FormatInjective(a, b);
    }
    FormatSplit(a, b);
  }

  const EARLIER := Civil(2026, 8, 1, 10, 0, 5, 123_456_780)
  const LATER := Civil(2026, 8, 1, 10, 0, 5, 123_456_789)

  /** 10:00:05.12345678 is before 10:00:05.123456789, but its text sorts after. */
  lemma ClashExample()
    ensures Nanos(EARLIER) < Nanos(LATER)
    ensures Text.Less(Format(LATER), Format(EARLIER))
    ensures FractionClash(EARLIER, LATER)
  {
    var digits := Digits(12_345_678, 8);
    assert Digits(123_456_780, 9) == digits + "0" && Digits(123_456_789, 9) == digits + "9";
    assert digits[7] == '8';
    assert (digits + "0")[..8] == digits;
    assert Fraction(EARLIER) == digits && Fraction(LATER) == digits + "9";
    FormatSplit(LATER, EARLIER);
    FractionOrder(EARLIER, LATER);
  }

  lemma TwoDigits(n: nat)
    requires n < 100
    ensures Digits(n, 2) == [DigitChar(n / 10), DigitChar(n % 10)]
  {
    assert Digits(n / 10, 1) == Digits(n / 100, 0) + [DigitChar(n / 10)];
  }

  lemma DateExample()
    ensures DateText(EARLIER) == "2026-08-01"
  {
    TwoDigits(20);
    assert Digits(202, 3) == "202" && Digits(2026, 4) == "2026";
    TwoDigits(8);
    TwoDigits(1);
  }

  lemma ClockExample()
    ensures ClockText(EARLIER) == "10:00:05"
  {
    TwoDigits(10);
    TwoDigits(0);
    TwoDigits(5);
  }

  /** A whole second as it is written, without a fraction. */
  lemma FormatExample()
    ensures Format(EARLIER.(nanos := 0)) == "2026-08-01T10:00:05Z"
  {
    DateExample();
    ClockExample();
    assert SecondText(EARLIER.(nanos := 0)) == "2026-08-01T10:00:05";
    assert Digits(0, 9) == "000000000";
    assert Fraction(EARLIER.(nanos := 0)) == "";
  }

  lemma ClashExists() returns (earlier: Instant, later: Instant)
    ensures Nanos(earlier) < Nanos(later) && FractionClash(earlier, later) && FractionClash(later, earlier)
  {
    ClashExample();
    earlier, later := EARLIER, LATER;
  }
}

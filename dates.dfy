/**
  Calendar dates as the report compares them. An input of type "date"
  holds either "" or an ISO calendar date "YYYY-MM-DD"; `new Date` reads
  that form as midnight UTC, so two such dates are a whole number of days
  (of 86 400 000 ms each) apart. A date is therefore modelled by its day
  number, and a string that is not a valid ISO date by `None` (JavaScript's
  Invalid Date, whose comparisons are all false).
 */
module Dates {
  import opened Wrappers
  import opened Text

  datatype Ymd = Ymd(year: nat, month: nat, day: nat)

  predicate IsLeapYear(y: nat) { y % 4 == 0 && (y % 100 != 0 || y % 400 == 0) }

  function DaysInMonth(y: nat, m: nat): nat
    requires 1 <= m <= 12
  {
    if m == 2 then (if IsLeapYear(y) then 29 else 28)
    else if m == 4 || m == 6 || m == 9 || m == 11 then 30
    else 31
  }

  predicate ValidYmd(d: Ymd)
  {
    1 <= d.month <= 12 && 1 <= d.day <= DaysInMonth(d.year, d.month)
  }

  /** Days in the months of year `y` before month `m` (`m == 13`: the whole year). */
  function DaysBeforeMonth(y: nat, m: nat): nat
    requires 1 <= m <= 13
  {
    [0, 31, 59, 90, 120, 151, 181, 212, 243, 273, 304, 334, 365][m - 1]
      + (if m > 2 && IsLeapYear(y) then 1 else 0)
  }

  function YearLength(y: nat): nat { if IsLeapYear(y) then 366 else 365 }

  /** Days from 0000-01-01 to the first of January of year `y`. */
  function DaysBeforeYear(y: nat): nat
  {
    365 * y + (y + 3) / 4 - (y + 99) / 100 + (y + 399) / 400
  }

  /** The day number of a date: its distance in days from 0000-01-01. */
  function DayNumber(d: Ymd): int
    requires ValidYmd(d)
  {
    DaysBeforeYear(d.year) + DaysBeforeMonth(d.year, d.month) + d.day - 1
  }

  /** The date as an ISO string, `YYYY-MM-DD`. */
  function IsoText(d: Ymd): (s: string)
    requires ValidYmd(d) && d.year < 10000
    ensures |s| == 10
  {
    Pad4(d.year) + "-" + Pad2(d.month) + "-" + Pad2(d.day)
  }

  /** `new Date(s)` for the date-only ISO form; anything else is an invalid date. */
  function ParseIso(s: string): (r: Option<Ymd>)
    ensures r.Some? ==> ValidYmd(r.value) && r.value.year < 10000
  {
    if |s| == 10 && s[4] == '-' && s[7] == '-'
       && AllDigits(s[..4]) && AllDigits(s[5..7]) && AllDigits(s[8..]) then
      DigitsValueBound(s[..4]);
      var d := Ymd(DigitsValue(s[..4]), DigitsValue(s[5..7]), DigitsValue(s[8..]));
      if ValidYmd(d) then Some(d) else None
    else
      None
  }

  /** The time value of `new Date(s)` in days, or `None` for an invalid date. */
  function Timestamp(s: string): (t: Option<int>)
    ensures t.Some? <==> ParseIso(s).Some?
  {
    match ParseIso(s)
    case None => None
    case Some(d) => Some(DayNumber(d))
  }

  /** Chronological order on dates, field by field. */
  predicate Before(a: Ymd, b: Ymd)
  {
    a.year < b.year
    || (a.year == b.year && a.month < b.month)
    || (a.year == b.year && a.month == b.month && a.day < b.day)
  }

  // ---------------------------------------------------------------- round trip

  lemma FourDigits(s: string)
    requires |s| == 4 && AllDigits(s)
    ensures DigitsValue(s) == 1000 * DigitValue(s[0]) + 100 * DigitValue(s[1]) + 10 * DigitValue(s[2]) + DigitValue(s[3])
  {
    var s1, s2, s3 := s[..1], s[..2], s[..3];
    assert s1[..0] == [] && s2[..1] == s1 && s3[..2] == s2 && s[..3] == s3;
    assert DigitsValue(s1) == DigitValue(s[0]);
    assert DigitsValue(s2) == 10 * DigitValue(s[0]) + DigitValue(s[1]);
    assert DigitsValue(s3) == 100 * DigitValue(s[0]) + 10 * DigitValue(s[1]) + DigitValue(s[2]);
  }

  lemma Pad4Value(n: nat)
    requires n < 10000
    ensures DigitsValue(Pad4(n)) == n
  {
    var s := Pad4(n);
    var r := n % 1000;
    FourDigits(s);
    assert DigitValue(s[0]) == n / 1000 && DigitValue(s[1]) == r / 100;
    assert DigitValue(s[2]) == r / 10 % 10 && DigitValue(s[3]) == r % 10;
    PlaceValues(n);
  }

  lemma PlaceValues(n: nat)
    ensures n == 1000 * (n / 1000) + 100 * (n % 1000 / 100) + 10 * (n % 1000 / 10 % 10) + n % 1000 % 10
  {
    var r := n % 1000;
    assert n == 1000 * (n / 1000) + r;
    assert r == 100 * (r / 100) + r % 100;
    assert r % 100 == 10 * (r / 10 % 10) + r % 10;
  }

  lemma SplitThousands(a: nat, r: nat)
    requires r < 1000
    ensures (1000 * a + r) / 1000 == a && (1000 * a + r) % 1000 == r
  {
  }

  lemma ThreeDigits(b: nat, c: nat, e: nat)
    requires b < 10 && c < 10 && e < 10
    ensures (100 * b + 10 * c + e) / 100 == b
    ensures (100 * b + 10 * c + e) / 10 % 10 == c
    ensures (100 * b + 10 * c + e) % 10 == e
  {
    assert (100 * b + 10 * c + e) / 10 == 10 * b + c;
  }

  lemma FourDigitsArePadded(s: string)
    requires |s| == 4 && AllDigits(s)
    ensures DigitsValue(s) < 10000 && Pad4(DigitsValue(s)) == s
  {
    FourDigits(s);
    var a, b, c, e := DigitValue(s[0]), DigitValue(s[1]), DigitValue(s[2]), DigitValue(s[3]);
    var r := 100 * b + 10 * c + e;
    ThreeDigits(b, c, e);
    SplitThousands(a, r);
    assert DigitChar(a) == s[0] && DigitChar(b) == s[1] && DigitChar(c) == s[2] && DigitChar(e) == s[3];
    assert Pad3(r) == s[1..];
  }

  /** Reading the ISO text of a date gives the date back. */
  lemma ParseIsoText(d: Ymd)
    requires ValidYmd(d) && d.year < 10000
    ensures ParseIso(IsoText(d)) == Some(d)
  {
    var s := IsoText(d);
    assert s[..4] == Pad4(d.year);
    assert s[5..7] == Pad2(d.month);
    assert s[8..] == Pad2(d.day);
    Pad4Value(d.year);
  }

  /** A string that reads as a date is the ISO text of that date. */
  lemma IsoTextOfParse(s: string)
    requires ParseIso(s).Some?
    ensures IsoText(ParseIso(s).value) == s
  {
    var d := ParseIso(s).value;
    FourDigitsArePadded(s[..4]);
    TwoDigitsArePadded(s[5..7]);
    TwoDigitsArePadded(s[8..]);
    assert s == s[..4] + "-" + s[5..7] + "-" + s[8..];
  }

  // ---------------------------------------------------------------- order

  lemma MonthStep(y: nat, m: nat)
    requires 1 <= m <= 12
    ensures DaysBeforeMonth(y, m + 1) == DaysBeforeMonth(y, m) + DaysInMonth(y, m)
  {
  }

  lemma {:induction false} MonthsFit(y: nat, m1: nat, m2: nat)
    requires 1 <= m1 < m2 <= 13
    ensures DaysBeforeMonth(y, m1) + DaysInMonth(y, m1) <= DaysBeforeMonth(y, m2)
    decreases m2 - m1
  {
    MonthStep(y, m1);
    if m1 + 1 < m2 {
      MonthsFit(y, m1 + 1, m2);
    }
  }

  lemma YearIsTwelveMonths(y: nat)
    ensures DaysBeforeMonth(y, 13) == YearLength(y)
  {
  }

  /** Moving the numerator of `(y + k - 1) / k` up by one adds a day exactly at multiples of `k`. */
  lemma CeilStep(y: nat, k: nat, q: nat, r: nat)
    requires k >= 1 && y == q * k + r && r < k
    ensures (y + k) / k - (y + k - 1) / k == (if y % k == 0 then 1 else 0)
  {
    DivOf(y, k, q, r);
    DivOf(y + k, k, q + 1, r);
    if r == 0 {
      DivOf(y + k - 1, k, q, k - 1);
    } else {
      DivOf(y + k - 1, k, q + 1, r - 1);
    }
  }

  /** Quotient and remainder are unique. */
  lemma DivOf(n: nat, k: nat, q: nat, r: nat)
    requires k >= 1 && n == q * k + r && r < k
    ensures n / k == q && n % k == r
  {
    var q', r' := n / k, n % k;
    assert n == q' * k + r' && 0 <= r' < k;
    var x := q - q';
    assert x * k == r' - r;
    AtLeastOnce(x, k);
    AtLeastOnce(-x, k);
    assert (-x) * k == -(x * k);
  }

  lemma {:induction false} AtLeastOnce(x: int, k: nat)
    ensures x >= 1 ==> x * k >= k
  {
    if x > 1 {
      AtLeastOnce(x - 1, k);
      assert x * k == (x - 1) * k + k;
    }
  }

  lemma YearStep(y: nat)
    ensures DaysBeforeYear(y + 1) == DaysBeforeYear(y) + YearLength(y)
  {
    CeilStep(y, 4, y / 4, y % 4);
    CeilStep(y, 100, y / 100, y % 100);
    CeilStep(y, 400, y / 400, y % 400);
    var a := (y + 4) / 4 - (y + 3) / 4;
    var b := (y + 100) / 100 - (y + 99) / 100;
    var c := (y + 400) / 400 - (y + 399) / 400;
    assert DaysBeforeYear(y + 1) == DaysBeforeYear(y) + 365 + a - b + c;
    Multiples(y);
    if IsLeapYear(y) {
      assert a - b + c == 1;
    } else {
      assert a - b + c == 0;
    }
  }

  /** A multiple of 400 is a multiple of 100, which is a multiple of 4. */
  lemma Multiples(y: nat)
    ensures y % 100 == 0 ==> y % 4 == 0
    ensures y % 400 == 0 ==> y % 100 == 0
  {
    if y % 100 == 0 {
      DivOf(y, 4, 25 * (y / 100), 0);
    }
    if y % 400 == 0 {
      DivOf(y, 100, 4 * (y / 400), 0);
    }
  }

  lemma {:induction false} YearsFit(y1: nat, y2: nat)
    requires y1 < y2
    ensures DaysBeforeYear(y1) + YearLength(y1) <= DaysBeforeYear(y2)
    decreases y2 - y1
  {
    YearStep(y1);
    if y1 + 1 < y2 {
      YearsFit(y1 + 1, y2);
    }
  }

  /** A date's day number lies within its year. */
  lemma WithinYear(d: Ymd)
    requires ValidYmd(d)
    ensures DaysBeforeYear(d.year) <= DayNumber(d) < DaysBeforeYear(d.year) + YearLength(d.year)
  {
    if d.month < 12 {
      MonthsFit(d.year, d.month, 13);
    }
    YearIsTwelveMonths(d.year);
  }

  /** An earlier date has a smaller day number. */
  lemma BeforeIsSmaller(a: Ymd, b: Ymd)
    requires ValidYmd(a) && ValidYmd(b) && Before(a, b)
    ensures DayNumber(a) < DayNumber(b)
  {
    if a.year < b.year {
      WithinYear(a);
      WithinYear(b);
      YearsFit(a.year, b.year);
    } else if a.month < b.month {
      MonthsFit(a.year, a.month, b.month);
    }
  }

  /** Comparing day numbers is comparing the dates chronologically. */
  lemma DayNumberOrder(a: Ymd, b: Ymd)
    requires ValidYmd(a) && ValidYmd(b)
    ensures DayNumber(a) < DayNumber(b) <==> Before(a, b)
    ensures DayNumber(a) == DayNumber(b) <==> a == b
  {
    if Before(a, b) {
      BeforeIsSmaller(a, b);
    } else if Before(b, a) {
      BeforeIsSmaller(b, a);
    }
  }

  /** The day after the last of a month is the first of the next one. */
  lemma NextMonth(y: nat, m: nat)
    requires 1 <= m < 12
    ensures DayNumber(Ymd(y, m + 1, 1)) == DayNumber(Ymd(y, m, DaysInMonth(y, m))) + 1
  {
  }

  /** The day after the thirty-first of December is the first of January. */
  lemma NextYear(y: nat)
    ensures DayNumber(Ymd(y + 1, 1, 1)) == DayNumber(Ymd(y, 12, 31)) + 1
  {
    YearStep(y);
    YearIsTwelveMonths(y);
  }
}

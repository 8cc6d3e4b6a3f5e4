/** Proleptic Gregorian calendar dates, day numbers counted from 1970-01-01
    (the day number of Unix time), and the ISO 8601 calendar-date text
    `YYYY-MM-DD` (RFC 3339, section 5.6, full-date), with the expanded
    `+YYYYYY-MM-DD` / `-YYYYYY-MM-DD` form for years outside 0..9999. */
module Calendar {
  import opened Js

  datatype Date = Date(year: int, month: int, day: int)

  predicate IsLeapYear(y: int) {
    y % 4 == 0 && (y % 100 != 0 || y % 400 == 0)
  }

  function DaysInYear(y: int): int {
    if IsLeapYear(y) then 366 else 365
  }

  function DaysInMonth(y: int, m: int): int
    requires 1 <= m <= 12
  {
    if m == 2 then (if IsLeapYear(y) then 29 else 28)
    else if m == 4 || m == 6 || m == 9 || m == 11 then 30
    else 31
  }

  predicate IsValidDate(d: Date) {
    1 <= d.month <= 12 && 1 <= d.day <= DaysInMonth(d.year, d.month)
  }

  /** The days of year y in the months before month m; m = 13 gives the whole year. */
  function DaysBeforeMonth(y: int, m: int): int
    requires 1 <= m <= 13
  {
    var common :=
      if m == 1 then 0 else if m == 2 then 31 else if m == 3 then 59
      else if m == 4 then 90 else if m == 5 then 120 else if m == 6 then 151
      else if m == 7 then 181 else if m == 8 then 212 else if m == 9 then 243
      else if m == 10 then 273 else if m == 11 then 304 else if m == 12 then 334
      else 365;
    common + (if m > 2 && IsLeapYear(y) then 1 else 0)
  }

  /** The number of leap years before year y, up to a constant (floor division). */
  function LeapYearsBefore(y: int): int {
    (y - 1) / 4 - (y - 1) / 100 + (y - 1) / 400
  }

  /** The day number of January 1 of year y. */
  function DaysBeforeYear(y: int): int {
    365 * (y - 1970) + LeapYearsBefore(y) - LeapYearsBefore(1970)
  }

  /** Days-from-civil: the number of days from 1970-01-01 to d. */
  function DayNumber(d: Date): int
    requires 1 <= d.month <= 12
  {
    DaysBeforeYear(d.year) + DaysBeforeMonth(d.year, d.month) + d.day - 1
  }

  lemma YearLength(y: int)
    ensures DaysBeforeYear(y + 1) == DaysBeforeYear(y) + DaysInYear(y)
  {
    var step := (y / 4 - (y - 1) / 4) - (y / 100 - (y - 1) / 100) + (y / 400 - (y - 1) / 400);
    MultipleStep(y);
    Divisibility(y);
    assert LeapYearsBefore(y + 1) - LeapYearsBefore(y) == step;
    assert step == if IsLeapYear(y) then 1 else 0;
  }

  /** A multiple of 400 is one of 100, and a multiple of 100 is one of 4. */
  lemma Divisibility(y: int)
    ensures y % 400 == 0 ==> y % 100 == 0
    ensures y % 100 == 0 ==> y % 4 == 0
  {
    if y % 400 == 0 {
      var k := y / 400;
      assert y == 400 * k;
      assert y == 100 * (4 * k);
      assert y / 100 == 4 * k;
    }
    if y % 100 == 0 {
      var k := y / 100;
      assert y == 100 * k;
      assert y == 4 * (25 * k);
      assert y / 4 == 25 * k;
    }
  }

  /** Stepping from y - 1 to y passes one more multiple of 4, 100 or 400
      exactly when y is one. */
  lemma MultipleStep(y: int)
    ensures y / 4 - (y - 1) / 4 == if y % 4 == 0 then 1 else 0
    ensures y / 100 - (y - 1) / 100 == if y % 100 == 0 then 1 else 0
    ensures y / 400 - (y - 1) / 400 == if y % 400 == 0 then 1 else 0
  {
  }

  lemma MonthLength(y: int, m: int)
    requires 1 <= m <= 12
    ensures DaysBeforeMonth(y, m + 1) == DaysBeforeMonth(y, m) + DaysInMonth(y, m)
    ensures DaysBeforeMonth(y, 13) == DaysInYear(y)
  {
  }

  /** Later years start later: the day numbers of January 1 grow by at least
      the length of the earlier year. */
  lemma DaysBeforeYearGrows(a: int, b: int)
    requires a < b
    ensures DaysBeforeYear(b) >= DaysBeforeYear(a) + DaysInYear(a)
  {
    YearLength(a);
  }

  /** Locates the day r days after January 1 of year y: its year and its
      offset within that year. */
  function YearSplit(y: int, r: int): (p: (int, int))
    ensures 0 <= p.1 < DaysInYear(p.0)
    ensures DaysBeforeYear(p.0) + p.1 == DaysBeforeYear(y) + r
    decreases if r < 0 then 366 - r else r
  {
    YearLength(y);
    YearLength(y - 1);
    if 0 <= r < DaysInYear(y) then (y, r)
    else if r >= DaysInYear(y) then YearSplit(y + 1, r - DaysInYear(y))
    else YearSplit(y - 1, r + DaysInYear(y - 1))
  }

  /** Locates the day r days after the first of month m of year y: its month
      and its day of the month. */
  function MonthSplit(y: int, m: int, r: int): (p: (int, int))
    requires 1 <= m <= 12
    requires 0 <= r < DaysInYear(y) - DaysBeforeMonth(y, m)
    ensures m <= p.0 <= 12 && 1 <= p.1 <= DaysInMonth(y, p.0)
    ensures DaysBeforeMonth(y, p.0) + p.1 - 1 == DaysBeforeMonth(y, m) + r
    decreases 12 - m
  {
    MonthLength(y, m);
    if r < DaysInMonth(y, m) then (m, r + 1)
    else MonthSplit(y, m + 1, r - DaysInMonth(y, m))
  }

  /** Civil-from-days: the valid date whose day number is n. */
  function CivilFromDays(n: int): (d: Date)
    ensures IsValidDate(d)
    ensures DayNumber(d) == n
  {
    var (y, r) := YearSplit(1970, n);
    var (m, day) := MonthSplit(y, 1, r);
    Date(y, m, day)
  }

  lemma {:induction false} MonthSplitOf(y: int, k: int, m: int, d: int)
    requires 1 <= k <= m <= 12 && 1 <= d <= DaysInMonth(y, m)
    ensures DaysBeforeMonth(y, k) <= DaysBeforeMonth(y, m)
    ensures DaysBeforeMonth(y, m) - DaysBeforeMonth(y, k) + d - 1 < DaysInYear(y) - DaysBeforeMonth(y, k)
    ensures MonthSplit(y, k, DaysBeforeMonth(y, m) - DaysBeforeMonth(y, k) + d - 1) == (m, d)
    decreases m - k
  {
    DaysBeforeMonthGrows(y, k, m);
    MonthEnd(y, m);
    if k < m {
      MonthLength(y, k);
      MonthSplitOf(y, k + 1, m, d);
      var r := DaysBeforeMonth(y, m) - DaysBeforeMonth(y, k) + d - 1;
      var r' := DaysBeforeMonth(y, m) - DaysBeforeMonth(y, k + 1) + d - 1;
      assert r == r' + DaysInMonth(y, k);
      MonthSplitStep(y, k, r);
    }
  }

  /** A day past the end of month k lies in a later month. */
  lemma MonthSplitStep(y: int, k: int, r: int)
    requires 1 <= k < 12 && DaysInMonth(y, k) <= r < DaysInYear(y) - DaysBeforeMonth(y, k)
    ensures MonthSplit(y, k, r) == MonthSplit(y, k + 1, r - DaysInMonth(y, k))
  {
    MonthLength(y, k);
  }

  /** Later months start later in the year. */
  lemma {:induction false} DaysBeforeMonthGrows(y: int, k: int, m: int)
    requires 1 <= k <= m <= 13
    ensures DaysBeforeMonth(y, k) <= DaysBeforeMonth(y, m)
    decreases m - k
  {
    if k < m {
      MonthLength(y, k);
      DaysBeforeMonthGrows(y, k + 1, m);
    }
  }

  /** A month ends within its year. */
  lemma MonthEnd(y: int, m: int)
    requires 1 <= m <= 12
    ensures DaysBeforeMonth(y, m) + DaysInMonth(y, m) <= DaysInYear(y)
  {
  }

  /** Day numbers and valid dates are in one-to-one correspondence: the date of
      the day number of a valid date is that date. */
  lemma {:induction false} CivilOfDayNumber(d: Date)
    requires IsValidDate(d)
    ensures CivilFromDays(DayNumber(d)) == d
  {
    var r := DaysBeforeMonth(d.year, d.month) + d.day - 1;
    MonthSplitOf(d.year, 1, d.month, d.day);
    var (y', r') := YearSplit(1970, DayNumber(d));
    if y' < d.year {
      DaysBeforeYearGrows(y', d.year);
    } else if d.year < y' {
      DaysBeforeYearGrows(d.year, y');
    }
    assert y' == d.year && r' == r;
  }

  /** The largest day number (in magnitude) this model formats: about
      820,000 years either side of 1970, well beyond JavaScript's Date range. */
  const MaxDayNumber := 300_000_000

  lemma {:induction false} CivilYearBounds(n: int)
    requires -MaxDayNumber <= n <= MaxDayNumber
    ensures -999999 <= CivilFromDays(n).year <= 999999
  {
    var d := CivilFromDays(n);
    MonthLength(d.year, d.month);
    assert DaysBeforeMonth(d.year, d.month) + d.day - 1 < 366;
  }

  // ISO 8601 calendar-date text

  predicate IsDigitChar(c: char) {
    '0' <= c <= '9'
  }

  function DigitChar(v: nat): (c: char)
    requires v < 10
    ensures IsDigitChar(c) && DigitOf(c) == v
  {
    ('0' as int + v) as char
  }

  /** n as exactly two decimal digits. */
  function Digits2(n: nat): (s: string)
    requires n < 100
    ensures |s| == 2
  {
    [DigitChar(n / 10), DigitChar(n % 10)]
  }

  /** n as exactly four decimal digits. */
  function Digits4(n: nat): (s: string)
    requires n < 10000
    ensures |s| == 4
  {
    Digits2(n / 100) + Digits2(n % 100)
  }

  /** n as exactly six decimal digits. */
  function Digits6(n: nat): (s: string)
    requires n < 1000000
    ensures |s| == 6
  {
    Digits2(n / 10000) + Digits4(n % 10000)
  }

  /** The decimal digits of n, left-padded with zeros to at least w characters
      (String.prototype.padStart, which never truncates). */
  function Pad(n: nat, w: nat): (s: string)
    ensures |s| >= 1 && |s| >= w
    decreases n + w
  {
    if n < 10 && w <= 1 then [DigitChar(n)]
    else Pad(n / 10, if w == 0 then 0 else w - 1) + [DigitChar(n % 10)]
  }

  /** The year as luxon writes it: four digits for 0..9999, otherwise a sign
      and at least six digits. */
  function FormatYear(y: int): string {
    if 0 <= y <= 9999 then Digits4(y)
    else if 9999 < y < 1000000 then "+" + Digits6(y)
    else if -1000000 < y < 0 then "-" + Digits6(-y)
    else if y > 0 then "+" + Pad(y, 6)
    else "-" + Pad(-y, 6)
  }

  /** DateTime.toISODate(): the date as `YYYY-MM-DD`, or `±YYYYYY-MM-DD` for
      years outside 0..9999. */
  function FormatIsoDate(d: Date): (s: string)
    requires IsValidDate(d)
    ensures |s| >= 10
  {
    FormatYear(d.year) + "-" + Digits2(d.month) + "-" + Digits2(d.day)
  }

  predicate Digits2At(s: string, i: nat) {
    i + 2 <= |s| && IsDigitChar(s[i]) && IsDigitChar(s[i + 1])
  }

  predicate Digits4At(s: string, i: nat) {
    Digits2At(s, i) && Digits2At(s, i + 2)
  }

  predicate Digits6At(s: string, i: nat) {
    Digits2At(s, i) && Digits4At(s, i + 2)
  }

  /** The value of the two digits of s at i, i + 1. */
  function Value2(s: string, i: nat): nat
    requires i + 2 <= |s|
  {
    10 * DigitOf(s[i]) + DigitOf(s[i + 1])
  }

  function Value4(s: string, i: nat): nat
    requires i + 4 <= |s|
  {
    100 * Value2(s, i) + Value2(s, i + 2)
  }

  function Value6(s: string, i: nat): nat
    requires i + 6 <= |s|
  {
    10000 * Value2(s, i) + Value4(s, i + 2)
  }

  /** The shape `^\d{4}-\d{2}-\d{2}$`. */
  predicate IsYmdShape(s: string) {
    |s| == 10 && Digits4At(s, 0) && s[4] == '-' && Digits2At(s, 5) && s[7] == '-' && Digits2At(s, 8)
  }

  /** The shape `^[+-]\d{6}-\d{2}-\d{2}$`. */
  predicate IsExpandedShape(s: string) {
    |s| == 13 && (s[0] == '+' || s[0] == '-') && Digits6At(s, 1) && s[7] == '-'
    && Digits2At(s, 8) && s[10] == '-' && Digits2At(s, 11)
  }

  function Checked(y: int, m: int, d: int): Option<Date> {
    if IsValidDate(Date(y, m, d)) then Some(Date(y, m, d)) else None
  }

  /** DateTime.fromISO restricted to calendar dates: the date a `YYYY-MM-DD`
      or `±YYYYYY-MM-DD` text names, None (an invalid DateTime) for any other
      text and for a day the month does not have. */
  function ParseIsoDate(s: string): (r: Option<Date>)
    ensures r.Some? ==> IsValidDate(r.value)
  {
    if IsYmdShape(s) then Checked(Value4(s, 0), Value2(s, 5), Value2(s, 8))
    else if IsExpandedShape(s) then
      var v: int := Value6(s, 1);
      Checked(if s[0] == '-' then -v else v, Value2(s, 8), Value2(s, 11))
    else None
  }

  /** Two digits read back as their value, wherever they are placed. */
  lemma Digits2Read(n: nat, s: string, i: nat)
    requires n < 100 && i + 2 <= |s| && s[i..i + 2] == Digits2(n)
    ensures Digits2At(s, i) && Value2(s, i) == n
  {
    assert s[i] == s[i..i + 2][0] && s[i + 1] == s[i..i + 2][1];
  }

  lemma Digits4Read(n: nat, s: string, i: nat)
    requires n < 10000 && i + 4 <= |s| && s[i..i + 4] == Digits4(n)
    ensures Digits4At(s, i) && Value4(s, i) == n
  {
    assert s[i..i + 2] == s[i..i + 4][..2] == Digits2(n / 100);
    assert s[i + 2..i + 4] == s[i..i + 4][2..] == Digits2(n % 100);
    Digits2Read(n / 100, s, i);
    Digits2Read(n % 100, s, i + 2);
  }

  lemma Digits6Read(n: nat, s: string, i: nat)
    requires n < 1000000 && i + 6 <= |s| && s[i..i + 6] == Digits6(n)
    ensures Digits6At(s, i) && Value6(s, i) == n
  {
    assert s[i..i + 2] == s[i..i + 6][..2] == Digits2(n / 10000);
    assert s[i + 2..i + 6] == s[i..i + 6][2..] == Digits4(n % 10000);
    Digits2Read(n / 10000, s, i);
    Digits4Read(n % 10000, s, i + 2);
  }

  /** A four-digit year gives the `YYYY-MM-DD` shape. */
  lemma FormatShape(d: Date)
    requires IsValidDate(d) && 0 <= d.year <= 9999
    ensures IsYmdShape(FormatIsoDate(d))
  {
    var s := FormatIsoDate(d);
    Digits4Read(d.year, s, 0);
    Digits2Read(d.month, s, 5);
    Digits2Read(d.day, s, 8);
  }

  /** Reading back the text of a date gives the date. */
  lemma ParseFormat(d: Date)
    requires IsValidDate(d) && -999999 <= d.year <= 999999
    ensures ParseIsoDate(FormatIsoDate(d)) == Some(d)
  {
    if 0 <= d.year <= 9999 {
      ParseFormatFourDigits(d);
    } else {
      ParseFormatExpanded(d);
    }
  }

  /** A year of four digits: the YYYY-MM-DD form. */
  lemma ParseFormatFourDigits(d: Date)
    requires IsValidDate(d) && 0 <= d.year <= 9999
    ensures ParseIsoDate(FormatIsoDate(d)) == Some(d)
  {
    var s := FormatIsoDate(d);
    Digits4Read(d.year, s, 0);
    Digits2Read(d.month, s, 5);
    Digits2Read(d.day, s, 8);
  }

  /** A year outside 0..9999: the signed six-digit form. */
  lemma ParseFormatExpanded(d: Date)
    requires IsValidDate(d) && -999999 <= d.year <= 999999 && !(0 <= d.year <= 9999)
    ensures ParseIsoDate(FormatIsoDate(d)) == Some(d)
  {
    var a: nat := if d.year < 0 then -d.year else d.year;
    var sign := if d.year < 0 then '-' else '+';
    ExpandedText(d, sign, a);
    ReadExpanded(FormatIsoDate(d), d, sign, a);
  }

  /** A text with a sign, six year digits, the month and the day in the
      expanded places reads as that date. */
  lemma ReadExpanded(s: string, d: Date, sign: char, a: nat)
    requires IsValidDate(d) && a < 1000000
    requires sign == (if d.year < 0 then '-' else '+') && d.year == (if sign == '-' then -(a as int) else a as int)
    requires |s| == 13 && s[0] == sign && s[1..7] == Digits6(a) && s[7] == '-'
    requires s[8..10] == Digits2(d.month) && s[10] == '-' && s[11..13] == Digits2(d.day)
    ensures ParseIsoDate(s) == Some(d)
  {
    Digits6Read(a, s, 1);
    Digits2Read(d.month, s, 8);
    Digits2Read(d.day, s, 11);
    assert IsExpandedShape(s) && !IsYmdShape(s);
  }

  /** Where the sign, the year digits, the month and the day sit in the text
      of a date whose year is outside 0..9999. */
  lemma ExpandedText(d: Date, sign: char, a: nat)
    requires IsValidDate(d) && -999999 <= d.year <= 999999 && !(0 <= d.year <= 9999)
    requires sign == (if d.year < 0 then '-' else '+') && d.year == (if d.year < 0 then -(a as int) else a as int)
    ensures var s := FormatIsoDate(d);
            && |s| == 13 && s[0] == sign && s[1..7] == Digits6(a) && s[7] == '-'
            && s[8..10] == Digits2(d.month) && s[10] == '-' && s[11..13] == Digits2(d.day)
  {
    assert FormatYear(d.year) == [sign] + Digits6(a);
    ExpandedPlaces(sign, Digits6(a), Digits2(d.month), Digits2(d.day));
  }

  lemma ExpandedPlaces(sign: char, q: string, r: string, u: string)
    requires |q| == 6 && |r| == 2 && |u| == 2
    ensures var t := [sign] + q + "-" + r + "-" + u;
            && |t| == 13 && t[0] == sign && t[1..7] == q && t[7] == '-'
            && t[8..10] == r && t[10] == '-' && t[11..13] == u
  {
  }

  /** The ISO text of the date with day number n. */
  function IsoOfDay(n: int): (s: string)
    ensures |s| >= 10
  {
    FormatIsoDate(CivilFromDays(n))
  }

  /** The text of every day number in range reads back as that day. */
  lemma ParseIsoOfDay(n: int)
    requires -MaxDayNumber <= n <= MaxDayNumber
    ensures ParseIsoDate(IsoOfDay(n)).Some?
    ensures DayNumber(ParseIsoDate(IsoOfDay(n)).value) == n
  {
    CivilYearBounds(n);
    ParseFormat(CivilFromDays(n));
  }

  /** The day number of the date an ISO text names, if it names one. */
  function IsoDayNumber(s: string): Option<int> {
    match ParseIsoDate(s)
    case None => None
    case Some(d) => Some(DayNumber(d))
  }

  /** The text of every day number in range names that day number. */
  lemma IsoDayNumberOfDay(n: int)
    requires -MaxDayNumber <= n <= MaxDayNumber
    ensures IsoDayNumber(IsoOfDay(n)) == Some(n)
  {
    ParseIsoOfDay(n);
  }
}

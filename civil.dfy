/** Civil (proleptic Gregorian) calendar dates, the part of JavaScript's
    `Date` and of pandas' timestamps that the dashboard relies on: month
    lengths, the next day, chronological order, and the `YYYY-MM-DD` text
    form that the backend writes and the browser reads back. */
module Civil {
  import opened Wrappers

  /** A calendar date; `month` runs from 1 (January) to 12 (December), so the
      month index that JavaScript's `getMonth()` returns is `month - 1`. */
  datatype Date = Date(year: int, month: int, day: int)

  /** The Gregorian leap-year rule. Only comparisons with zero are made, so
      Dafny's Euclidean `%` agrees with JavaScript's truncating `%` here even
      for negative (astronomical) years. */
  predicate IsLeapYear(y: int)
  {
    (y % 4 == 0 && y % 100 != 0) || y % 400 == 0
  }

  /** The number of days of a month, which the calendar obtains as the day
      number of "day 0 of the following month". */
  function DaysInMonth(y: int, m: int): (n: int)
    requires 1 <= m <= 12
    ensures 28 <= n <= 31
  {
    if m == 2 then (if IsLeapYear(y) then 29 else 28)
    else if m == 4 || m == 6 || m == 9 || m == 11 then 30
    else 31
  }

  predicate Valid(d: Date)
  {
    1 <= d.month <= 12 && 1 <= d.day <= DaysInMonth(d.year, d.month)
  }

  /** A date that exists in the calendar: what a JavaScript `Date` object
      that is not "Invalid Date" denotes once the time of day is ignored. */
  type CivilDate = d: Date | Valid(d) witness Date(1970, 1, 1)

  /** Months counted from January of year 0; one more per calendar month. */
  function MonthIndex(d: Date): int
  {
    d.year * 12 + d.month - 1
  }

  /** Chronological order, compared field by field. */
  predicate Before(a: Date, b: Date)
  {
    a.year < b.year || (a.year == b.year && (a.month < b.month || (a.month == b.month && a.day < b.day)))
  }

  predicate AtOrBefore(a: Date, b: Date)
  {
    a == b || Before(a, b)
  }

  /** An integer whose order is the chronological order of valid dates. */
  function Key(d: Date): int
  {
    MonthIndex(d) * 32 + d.day
  }

  lemma KeyOrder(a: CivilDate, b: CivilDate)
    ensures Before(a, b) <==> Key(a) < Key(b)
    ensures a == b <==> Key(a) == Key(b)
  {
  }

  lemma MonthIndexOrder(a: CivilDate, b: CivilDate)
    ensures AtOrBefore(a, b) ==> MonthIndex(a) <= MonthIndex(b)
    ensures MonthIndex(a) < MonthIndex(b) ==> Before(a, b)
  {
  }

  /** Day 1 of the month after the month of `d`. */
  function NextMonthStart(d: CivilDate): (r: CivilDate)
    ensures r.day == 1 && MonthIndex(r) == MonthIndex(d) + 1
  {
    if d.month == 12 then Date(d.year + 1, 1, 1) else Date(d.year, d.month + 1, 1)
  }

  /** The following calendar day (`setDate(getDate() + 1)` in JavaScript). */
  function NextDay(d: CivilDate): (r: CivilDate)
    ensures Before(d, r)
  {
    if d.day < DaysInMonth(d.year, d.month) then Date(d.year, d.month, d.day + 1)
    else NextMonthStart(d)
  }

  /** `NextDay` is the immediate successor in chronological order: it comes
      after `d`, and no date lies strictly between the two. */
  lemma NextDayIsSuccessor(d: CivilDate)
    ensures Before(d, NextDay(d))
    ensures forall x: CivilDate :: !(Before(d, x) && Before(x, NextDay(d)))
  {
  }

  /** Two dates with the same next day are the same date. */
  lemma NextDayInjective(a: CivilDate, b: CivilDate)
    requires NextDay(a) == NextDay(b)
    ensures a == b
  {
    NextDayIsSuccessor(a);
    NextDayIsSuccessor(b);
  }

  // ---- The `YYYY-MM-DD` text form ----

  predicate IsDigit(c: char)
  {
    '0' <= c <= '9'
  }

  function DigitChar(n: int): (c: char)
    requires 0 <= n <= 9
    ensures IsDigit(c)
  {
    ('0' as int + n) as char
  }

  function DigitValue(c: char): int
  {
    c as int - '0' as int
  }

  /** The decimal value of a string of digits. */
  function Number(s: string): int
  {
    if s == [] then 0 else Number(s[..|s| - 1]) * 10 + DigitValue(s[|s| - 1])
  }

  function Pad2(n: int): string
    requires 0 <= n <= 99
  {
    [DigitChar(n / 10), DigitChar(n % 10)]
  }

  function Pad4(n: int): string
    requires 0 <= n <= 9999
  {
    [DigitChar(n / 1000), DigitChar(n / 100 % 10), DigitChar(n / 10 % 10), DigitChar(n % 10)]
  }

  /** `date.strftime('%Y-%m-%d')`: four-digit year, two-digit month and day.
      pandas timestamps lie within the years 1677 to 2262, inside the range
      required here. */
  function FormatIsoDate(d: CivilDate): (s: string)
    requires 0 <= d.year <= 9999
    ensures |s| == 10 && s[4] == '-' && s[7] == '-'
    ensures forall i | 0 <= i < 10 && i != 4 && i != 7 :: IsDigit(s[i])
  {
    Pad4(d.year) + "-" + Pad2(d.month) + "-" + Pad2(d.day)
  }

  predicate IsIsoShape(s: string)
  {
    |s| == 10 && s[4] == '-' && s[7] == '-' &&
    forall i | 0 <= i < 10 && i != 4 && i != 7 :: IsDigit(s[i])
  }

  /** Reads a `YYYY-MM-DD` string as a civil date; a string of another shape
      yields `None` (JavaScript's "Invalid Date", whose fields compare unequal
      to every number). A well-shaped string that names no calendar day
      (`2024-02-30`) also yields `None` here; JavaScript engines differ on
      that case, and the backend never writes such a string. */
  function ParseIsoDate(s: string): (r: Option<CivilDate>)
    ensures r.Some? ==> IsIsoShape(s) && 0 <= r.value.year <= 9999
    ensures !IsIsoShape(s) ==> r.None?
  {
    if IsIsoShape(s) then
      Number4(s[0..4]);
      assert forall i | 0 <= i < 4 :: s[0..4][i] == s[i];
      var d := Date(Number(s[0..4]), Number(s[5..7]), Number(s[8..10]));
      if Valid(d) then Some(d) else None
    else None
  }

  lemma Pad2Number(n: int)
    requires 0 <= n <= 99
    ensures Number(Pad2(n)) == n
  {
    var s := Pad2(n);
    assert s[..1] == [s[0]];
    assert Number(s[..1]) == DigitValue(s[0]) by {
      assert s[..1][..0] == [];
    }
  }

  /** The value of four digits, place by place. */
  lemma Number4(s: string)
    requires |s| == 4
    ensures Number(s) == DigitValue(s[0]) * 1000 + DigitValue(s[1]) * 100 + DigitValue(s[2]) * 10 + DigitValue(s[3])
  {
    assert s[..3][..2][..1][..0] == [];
    assert s[..3][..2][..1] == s[..1];
    assert s[..3][..2] == s[..2];
    assert Number(s[..1]) == DigitValue(s[0]);
    assert Number(s[..2]) == DigitValue(s[0]) * 10 + DigitValue(s[1]);
    assert Number(s[..3]) == (DigitValue(s[0]) * 10 + DigitValue(s[1])) * 10 + DigitValue(s[2]);
  }

  /** Appending a decimal digit and taking it off again. */
  lemma ShiftDigit(q: int, r: int)
    requires 0 <= r < 10
    ensures (q * 10 + r) / 10 == q && (q * 10 + r) % 10 == r
  {
  }

  /** A number below 10000 is the sum of its four decimal places. */
  lemma Places4(n: int)
    requires 0 <= n <= 9999
    ensures n / 1000 * 1000 + n / 100 % 10 * 100 + n / 10 % 10 * 10 + n % 10 == n
  {
    assert n / 10 * 10 + n % 10 == n;
    assert n / 100 == n / 10 / 10;
    assert n / 1000 == n / 100 / 10;
    assert n / 100 * 10 + n / 10 % 10 == n / 10;
    assert n / 1000 * 10 + n / 100 % 10 == n / 100;
  }

  lemma Pad4Number(n: int)
    requires 0 <= n <= 9999
    ensures Number(Pad4(n)) == n
  {
    Number4(Pad4(n));
    Places4(n);
  }

  lemma NumberPad2(s: string)
    requires |s| == 2 && IsDigit(s[0]) && IsDigit(s[1])
    ensures 0 <= Number(s) <= 99 && Pad2(Number(s)) == s
  {
    assert s[..1][..0] == [];
    var a, b := DigitValue(s[0]), DigitValue(s[1]);
    assert Number(s[..1]) == a;
    assert Number(s) == a * 10 + b;
    assert (a * 10 + b) / 10 == a && (a * 10 + b) % 10 == b;
  }

  lemma NumberPad4(s: string)
    requires |s| == 4 && forall i | 0 <= i < 4 :: IsDigit(s[i])
    ensures 0 <= Number(s) <= 9999 && Pad4(Number(s)) == s
  {
    var a, b, c, e := DigitValue(s[0]), DigitValue(s[1]), DigitValue(s[2]), DigitValue(s[3]);
    var n := Number(s);
    Number4(s);
    ShiftDigit(a * 100 + b * 10 + c, e);
    ShiftDigit(a * 10 + b, c);
    ShiftDigit(a, b);
    assert n == (a * 10 + b) * 100 + (c * 10 + e);
    assert n / 100 == a * 10 + b;
    assert n == a * 1000 + (b * 100 + c * 10 + e);
    assert n / 1000 == a;
  }

  /** Reading back what `FormatIsoDate` wrote gives the date. */
  lemma ParseFormat(d: CivilDate)
    requires 0 <= d.year <= 9999
    ensures ParseIsoDate(FormatIsoDate(d)) == Some(d)
  {
    var s := FormatIsoDate(d);
    assert s[0..4] == Pad4(d.year);
    assert s[5..7] == Pad2(d.month);
    assert s[8..10] == Pad2(d.day);
    Pad4Number(d.year);
    Pad2Number(d.month);
    Pad2Number(d.day);
  }

  /** Every string that reads as a date is the text form of that date: the
      `YYYY-MM-DD` form of a day is unique. */
  lemma FormatParse(s: string)
    requires ParseIsoDate(s).Some?
    ensures 0 <= ParseIsoDate(s).value.year <= 9999
    ensures FormatIsoDate(ParseIsoDate(s).value) == s
  {
    NumberPad4(s[0..4]);
    NumberPad2(s[5..7]);
    NumberPad2(s[8..10]);
    var d := ParseIsoDate(s).value;
    var f := FormatIsoDate(d);
    assert f[0..4] == s[0..4] && f[5..7] == s[5..7] && f[8..10] == s[8..10];
    assert forall i | 0 <= i < 10 :: f[i] == s[i] by {
      forall i | 0 <= i < 10 ensures f[i] == s[i] {
        if i < 4 { assert f[i] == f[0..4][i]; assert s[i] == s[0..4][i]; }
        else if i == 4 || i == 7 { }
        else if i < 7 { assert f[i] == f[5..7][i - 5]; assert s[i] == s[5..7][i - 5]; }
        else { assert f[i] == f[8..10][i - 8]; assert s[i] == s[8..10][i - 8]; }
      }
    }
  }
}

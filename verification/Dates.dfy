/** Due dates: the YYYY-MM-DD text form, its parsing, and its order. */
module Dates {
  import opened Strings

  datatype Date = Date(year: nat, month: nat, day: nat)

  predicate IsLeap(year: nat) { year % 4 == 0 && (year % 100 != 0 || year % 400 == 0) }

  function DaysIn(year: nat, month: nat): nat {
    if month == 2 then (if IsLeap(year) then 29 else 28)
    else if month in {4, 6, 9, 11} then 30 else 31
  }

  predicate IsDate(d: Date) { 1 <= d.month <= 12 && 1 <= d.day <= DaysIn(d.year, d.month) }

  // ---- Day numbers ----

  /** The days of the Gregorian calendar before the year `y`, for years that begin in March: 365 to a year, and a
      leap day every fourth year but for three in four hundred. */
  function YearDays(y: int): int { 365 * y + y / 4 - y / 100 + y / 400 }

  /** The days before a month in a year that begins in March: 153 to five months. */
  function MonthDays(m: nat): nat { (153 * ((m + 9) % 12) + 2) / 5 }

  function DayNumber(d: Date): int {
    YearDays(if d.month <= 2 then d.year - 1 else d.year) + MonthDays(d.month) + d.day
  }

  function NextMonth(d: Date): Date {
    if d.month == 12 then Date(d.year + 1, 1, 1) else Date(d.year, d.month + 1, 1)
  }

  /** One more quotient at each multiple. */
  lemma MultipleOf(y: int, n: nat)
    requires n > 0
    ensures y / n - (y - 1) / n == if y % n == 0 then 1 else 0
  {
    QuotientOf(y - 1, if y % n == 0 then y / n - 1 else y / n, n);
  }

  lemma QuotientOf(x: int, q: int, n: nat)
    requires n > 0 && n * q <= x < n * (q + 1)
    ensures x / n == q
  {
    assert n * (x / n) <= x < n * (x / n + 1);
  }

  lemma Multiples(y: nat)
    ensures (y % 400 == 0 ==> y % 100 == 0) && (y % 100 == 0 ==> y % 4 == 0)
  {
    assert y == 400 * (y / 400) + y % 400 == 100 * (y / 100) + y % 100;
    if y % 400 == 0 { assert y == 100 * (4 * (y / 400)); }
    if y % 100 == 0 { assert y == 4 * (25 * (y / 100)); }
  }

  lemma LeapDay(y: nat)
    ensures YearDays(y) == YearDays(y - 1) + 365 + if IsLeap(y) then 1 else 0
  {
    Multiples(y);
    var a, b, c := y / 4 - (y - 1) / 4, y / 100 - (y - 1) / 100, y / 400 - (y - 1) / 400;
    assert a == (if y % 4 == 0 then 1 else 0) by { MultipleOf(y, 4); }
    assert b == (if y % 100 == 0 then 1 else 0) by { MultipleOf(y, 100); }
    assert c == (if y % 400 == 0 then 1 else 0) by { MultipleOf(y, 400); }
    assert a - b + c == if IsLeap(y) then 1 else 0;
  }

  lemma MonthLength(m: nat, leap: nat, before: int, after: int)
    requires 1 <= m <= 12 && leap <= 1 && after == before + 365 + leap
    ensures var days := if m == 2 then 28 + leap else if m in {4, 6, 9, 11} then 30 else 31;
      days == (if m == 1 then before else after) + MonthDays(if m == 12 then 1 else m + 1)
              - ((if m <= 2 then before else after) + MonthDays(m))
  {}

  /** A month has as many days as lie between its first day and the first of the next. */
  lemma DaysInMonth(y: nat, m: nat)
    requires 1 <= m <= 12
    ensures DaysIn(y, m) == DayNumber(NextMonth(Date(y, m, 1))) - DayNumber(Date(y, m, 1))
  {
    var before, after := YearDays(y - 1), YearDays(y);
    assert after == before + 365 + if IsLeap(y) then 1 else 0 by { LeapDay(y); }
    MonthLength(m, if IsLeap(y) then 1 else 0, before, after);
  }

  /** A date is a day of the calendar exactly if its month is one and its number lies before the next month's. */
  lemma IsDateIff(d: Date)
    ensures IsDate(d) <==> 1 <= d.month <= 12 && 1 <= d.day && DayNumber(d) < DayNumber(NextMonth(d))
  {
    if 1 <= d.month <= 12 {
      DaysInMonth(d.year, d.month);
      FromFirst(d);
    }
  }

  lemma FromFirst(d: Date)
    ensures var first := Date(d.year, d.month, 1);
      DayNumber(d) == DayNumber(first) + d.day - 1 && NextMonth(d) == NextMonth(first)
  {}

  /** Chronological order. */
  predicate DateLess(a: Date, b: Date) {
    a.year < b.year || (a.year == b.year && (a.month < b.month || (a.month == b.month && a.day < b.day)))
  }

  // ---- Text ----

  function Digit(n: nat): char { ('0' as int + n % 10) as char }

  predicate IsDigit(c: char) { '0' <= c <= '9' }

  function Value(c: char): nat { if IsDigit(c) then c as int - '0' as int else 0 }

  function Two(n: nat): string { [Digit(n / 10), Digit(n)] }

  /** At least four digits; more from the year 10000 on. */
  function YearText(y: nat): string {
    if y < 10000 then [Digit(y / 1000), Digit(y / 100), Digit(y / 10), Digit(y)]
    else YearText(y / 10) + [Digit(y)]
  }

  /** `t.Format("2006-01-02")`. */
  function Format(d: Date): string { YearText(d.year) + "-" + Two(d.month) + "-" + Two(d.day) }

  /** `dueDateRegex`: four digits, two digits, two digits. */
  predicate DateShaped(s: string) {
    && |s| == 10 && s[4] == '-' && s[7] == '-'
    && IsDigit(s[0]) && IsDigit(s[1]) && IsDigit(s[2]) && IsDigit(s[3])
    && IsDigit(s[5]) && IsDigit(s[6]) && IsDigit(s[8]) && IsDigit(s[9])
  }

  /** The numbers in a date-shaped string, which need not be a calendar day. */
  function Fields(s: string): Date {
    if |s| != 10 then Date(0, 0, 0)
    else Date(1000 * Value(s[0]) + 100 * Value(s[1]) + 10 * Value(s[2]) + Value(s[3]),
         10 * Value(s[5]) + Value(s[6]), 10 * Value(s[8]) + Value(s[9]))
  }

  /** `time.Parse("2006-01-02", s)`. */
  function Parse(s: string): Option<Date> {
    if DateShaped(s) && IsDate(Fields(s)) then Some(Fields(s)) else None
  }

  lemma DigitValue(n: nat)
    ensures IsDigit(Digit(n)) && Value(Digit(n)) == n % 10
  {}

  lemma FourDigits(y: nat)
    requires y < 10000
    ensures y == 1000 * (y / 1000 % 10) + 100 * (y / 100 % 10) + 10 * (y / 10 % 10) + y % 10
  {
    assert y / 100 == 10 * (y / 1000) + y / 100 % 10 by { assert y / 1000 == (y / 100) / 10; }
    assert y / 10 == 10 * (y / 100) + y / 10 % 10 by { assert y / 100 == (y / 10) / 10; }
  }

  function Chars(d: Date): string {
    [Digit(d.year / 1000), Digit(d.year / 100), Digit(d.year / 10), Digit(d.year), '-',
     Digit(d.month / 10), Digit(d.month), '-', Digit(d.day / 10), Digit(d.day)]
  }

  lemma FormatChars(d: Date)
    requires d.year < 10000
    ensures Format(d) == Chars(d)
  {}

  /** A calendar day up to the year 9999 is written as a date-shaped string that parses back to it. */
  lemma ParseFormat(d: Date)
    requires IsDate(d) && d.year < 10000
    ensures Parse(Format(d)) == Some(d)
  {
    FormatChars(d);
    FourDigits(d.year);
    DigitValue(d.year / 1000);
    DigitValue(d.year / 100);
    DigitValue(d.year / 10);
    DigitValue(d.year);
    DigitValue(d.month / 10);
    DigitValue(d.month);
    DigitValue(d.day / 10);
    DigitValue(d.day);
    ParseFields(Chars(d), d);
  }

  lemma ParseFields(s: string, d: Date)
    requires DateShaped(s) && IsDate(d) && d.year < 10000
    requires Value(s[0]) == d.year / 1000 % 10 && Value(s[1]) == d.year / 100 % 10 && Value(s[2]) == d.year / 10 % 10
    requires Value(s[3]) == d.year % 10
    requires Value(s[5]) == d.month / 10 % 10 && Value(s[6]) == d.month % 10
    requires Value(s[8]) == d.day / 10 % 10 && Value(s[9]) == d.day % 10
    ensures Parse(s) == Some(d)
  {
    FourDigits(d.year);
    assert Fields(s).year == d.year;
    assert Fields(s).month == d.month && Fields(s).day == d.day;
  }

  lemma DigitOf(c: char, n: nat)
    requires IsDigit(c) && n % 10 == Value(c)
    ensures Digit(n) == c
  {}

  lemma DigitsOfNumber(a: nat, b: nat, c: nat, e: nat)
    requires a < 10 && b < 10 && c < 10 && e < 10
    ensures var y := 1000 * a + 100 * b + 10 * c + e;
      y / 1000 == a && y / 100 % 10 == b && y / 10 % 10 == c && y % 10 == e
  {
    var y := 1000 * a + 100 * b + 10 * c + e;
    assert y / 10 == 100 * a + 10 * b + c;
    assert y / 100 == 10 * a + b;
  }

  /** Parsing loses nothing. */
  lemma FormatParse(s: string)
    requires Parse(s).Some?
    ensures Format(Parse(s).value) == s
  {
    var d := Fields(s);
    FormatChars(d);
    DigitsOfNumber(Value(s[0]), Value(s[1]), Value(s[2]), Value(s[3]));
    DigitsOfNumber(0, 0, Value(s[5]), Value(s[6]));
    DigitsOfNumber(0, 0, Value(s[8]), Value(s[9]));
    DigitOf(s[0], d.year / 1000);
    DigitOf(s[1], d.year / 100);
    DigitOf(s[2], d.year / 10);
    DigitOf(s[3], d.year);
    DigitOf(s[5], d.month / 10);
    DigitOf(s[6], d.month);
    DigitOf(s[8], d.day / 10);
    DigitOf(s[9], d.day);
    assert Chars(d) == s;
  }

  // ---- Order ----

  lemma {:induction false} LessAtFirstDifference(a: string, b: string) returns (k: nat)
    requires |a| == |b| && Less(a, b)
    ensures k < |a| && a[k] < b[k] && forall i | 0 <= i < k :: a[i] == b[i]
  {
    if a[0] < b[0] { return 0; }
    var j := LessAtFirstDifference(a[1..], b[1..]);
    k := j + 1;
    forall i | 0 <= i < k ensures a[i] == b[i] { if i > 0 { assert a[1..][i - 1] == b[1..][i - 1]; } }
  }

  lemma LessIsEarlier(s: string, t: string)
    requires DateShaped(s) && DateShaped(t) && Less(s, t)
    ensures DateLess(Fields(s), Fields(t))
  {
    var k := LessAtFirstDifference(s, t);
  }

  /** On date-shaped strings, the order the database compares by is chronological order. */
  lemma TextOrderIsDateOrder(s: string, t: string)
    requires DateShaped(s) && DateShaped(t)
    ensures Less(s, t) <==> DateLess(Fields(s), Fields(t))
  {
    LessTotal(s, t);
    if Less(s, t) { LessIsEarlier(s, t); }
    if Less(t, s) { LessIsEarlier(t, s); }
  }

  /** Across the year 10000 the text order can be wrong: the day after 9999-12-31 sorts before it. */
  lemma YearTenThousandSortsFirst()
    ensures DateLess(Date(9999, 12, 31), Date(10000, 1, 1))
    ensures Less(Format(Date(10000, 1, 1)), Format(Date(9999, 12, 31)))
  {
    var a, b := Format(Date(10000, 1, 1)), Format(Date(9999, 12, 31));
    assert YearText(1000) == "1000" && YearText(10000) == "10000";
    assert a[0] == '1' && b[0] == '9';
  }
}

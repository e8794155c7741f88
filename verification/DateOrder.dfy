/** When comparing due dates as text, as the database does, is comparing them as dates. */
module DateOrder {
  import opened Strings
  import opened Dates

  /** Month and day fit the two digits they are written with. */
  predicate TwoDigits(d: Date) { d.month < 100 && d.day < 100 }

  /** The number of digits a year is written with: four, and more from the year 10000 on. */
  function Digits(y: nat): (n: nat)
    ensures n == |YearText(y)| && n >= 4
    ensures n == 4 <==> y < 10000
  {
    if y < 10000 then 4 else Digits(y / 10) + 1
  }

  /** The number that the first `n` digits of a year make. */
  function Leading(y: nat, n: nat): (r: nat)
    requires 4 <= n <= Digits(y)
    ensures Digits(r) == n
  {
    if n == Digits(y) then y else Leading(y / 10, n)
  }

  /** What can be read off two years: written with equally many digits, or the shorter one is at most
      what the longer one begins with. */
  predicate SameOrder(y: nat, z: nat) {
    if Digits(y) < Digits(z) then y <= Leading(z, Digits(y))
    else if Digits(z) < Digits(y) then z <= Leading(y, Digits(z))
    else true
  }

  // ---- Parts of a date's text ----

  function DayText(d: Date): string { "-" + Two(d.month) + "-" + Two(d.day) }

  lemma FormatParts(d: Date)
    ensures Format(d) == YearText(d.year) + DayText(d)
  {}

  lemma {:induction false} LessAppend(a: string, b: string, s: string, t: string)
    requires |a| == |b|
    ensures Less(a + s, b + t) <==> Less(a, b) || (a == b && Less(s, t))
  {
    if a == [] {
      assert a + s == s && b + t == t;
    } else {
      LessAppend(a[1..], b[1..], s, t);
      ConcatTail(a, s);
      ConcatTail(b, t);
      assert a == b <==> a[0] == b[0] && a[1..] == b[1..] by { assert a == [a[0]] + a[1..] && b == [b[0]] + b[1..]; }
    }
  }

  lemma DigitOrder(a: nat, b: nat)
    requires a < 10 && b < 10
    ensures Less([Digit(a)], [Digit(b)]) <==> a < b
    ensures Digit(a) == Digit(b) <==> a == b
  {
    DigitValue(a);
    DigitValue(b);
  }

  lemma TensFirst(m: nat, n: nat)
    ensures m < n <==> m / 10 < n / 10 || (m / 10 == n / 10 && m % 10 < n % 10)
  {}

  lemma TwoOrder(m: nat, n: nat)
    requires m < 100 && n < 100
    ensures Less(Two(m), Two(n)) <==> m < n
    ensures Two(m) == Two(n) <==> m == n
  {
    DigitOrder(m / 10, n / 10);
    DigitOrder(m % 10, n % 10);
    TensFirst(m, n);
    assert Two(m) == [Digit(m / 10)] + [Digit(m % 10)] && Two(n) == [Digit(n / 10)] + [Digit(n % 10)];
    LessAppend([Digit(m / 10)], [Digit(n / 10)], [Digit(m % 10)], [Digit(n % 10)]);
    assert Two(m)[0] == Digit(m / 10) && Two(n)[0] == Digit(n / 10) && Two(m)[1] == Digit(m % 10)
      && Two(n)[1] == Digit(n % 10);
  }

  lemma DayOrder(d: Date, e: Date)
    requires TwoDigits(d) && TwoDigits(e)
    ensures Less(DayText(d), DayText(e)) <==> d.month < e.month || (d.month == e.month && d.day < e.day)
  {
    TwoOrder(d.month, e.month);
    TwoOrder(d.day, e.day);
    LessAppend("-" + Two(d.month), "-" + Two(e.month), "-" + Two(d.day), "-" + Two(e.day));
    LessAppend("-", "-", Two(d.month), Two(e.month));
    LessAppend("-", "-", Two(d.day), Two(e.day));
    LessIrreflexive("-");
    assert DayText(d) == ("-" + Two(d.month)) + ("-" + Two(d.day))
      && DayText(e) == ("-" + Two(e.month)) + ("-" + Two(e.day));
    assert ("-" + Two(d.month))[1..] == Two(d.month) && ("-" + Two(e.month))[1..] == Two(e.month);
  }

  // ---- Years ----

  lemma {:induction false} YearDigits(y: nat)
    ensures forall i | 0 <= i < |YearText(y)| :: IsDigit(YearText(y)[i])
  {
    if y < 10000 {
    } else {
      YearDigits(y / 10);
    }
  }

  lemma {:induction false} MoreDigits(y: nat, z: nat)
    requires y <= z
    ensures Digits(y) <= Digits(z)
  {
    if y < 10000 {
    } else {
      MoreDigits(y / 10, z / 10);
    }
  }

  /** Years with equally many digits sort as numbers. */
  lemma {:induction false} YearOrder(y: nat, z: nat)
    requires Digits(y) == Digits(z)
    ensures Less(YearText(y), YearText(z)) <==> y < z
    ensures YearText(y) == YearText(z) <==> y == z
  {
    if y < 10000 {
      FourDigits(y);
      FourDigits(z);
      TwoOrder(y / 100, z / 100);
      TwoOrder(y % 100, z % 100);
      LessAppend(Two(y / 100), Two(z / 100), Two(y % 100), Two(z % 100));
      FourIsTwoTwo(y);
      FourIsTwoTwo(z);
      assert (Two(y / 100) + Two(y % 100))[..2] == Two(y / 100) && (Two(z / 100) + Two(z % 100))[..2] == Two(z / 100);
      assert (Two(y / 100) + Two(y % 100))[2..] == Two(y % 100) && (Two(z / 100) + Two(z % 100))[2..] == Two(z % 100);
    } else {
      YearOrder(y / 10, z / 10);
      DigitValue(y);
      DigitValue(z);
      LessAppend(YearText(y / 10), YearText(z / 10), [Digit(y)], [Digit(z)]);
      assert YearText(y)[..|YearText(y)| - 1] == YearText(y / 10)
        && YearText(z)[..|YearText(z)| - 1] == YearText(z / 10);
      assert YearText(y)[|YearText(y)| - 1] == Digit(y) && YearText(z)[|YearText(z)| - 1] == Digit(z);
    }
  }

  lemma SplitHundreds(y: nat)
    ensures y / 1000 == y / 100 / 10
    ensures y / 10 == 10 * (y / 100) + y % 100 / 10
  {}

  lemma LowDigit(t: nat, h: nat)
    ensures (10 * h + t) % 10 == t % 10
  {}

  lemma FourIsTwoTwo(y: nat)
    requires y < 10000
    ensures YearText(y) == Two(y / 100) + Two(y % 100)
  {
    var h, t := y / 100, y % 100;
    SplitHundreds(y);
    LowDigit(t / 10, h);
    LowDigit(t, 10 * h);
    assert y == 10 * (10 * h) + t;
  }

  /** A longer year's text begins with the text of its leading digits. */
  lemma {:induction false} LeadingText(z: nat, n: nat)
    requires 4 <= n < Digits(z)
    ensures YearText(z)[..n] == YearText(Leading(z, n))
  {
    if n == Digits(z / 10) {
      assert YearText(z)[..n] == YearText(z / 10);
    } else {
      LeadingText(z / 10, n);
      assert YearText(z)[..n] == YearText(z / 10)[..n];
    }
  }

  // ---- The exact condition ----

  /** A shorter year against a longer one: the hyphen that ends it sorts before every digit. */
  lemma ShorterYear(d: Date, e: Date)
    requires Digits(d.year) < Digits(e.year)
    ensures Less(Format(d), Format(e)) <==> d.year <= Leading(e.year, Digits(d.year))
    ensures Less(Format(e), Format(d)) <==> d.year > Leading(e.year, Digits(d.year))
  {
    var n, z := Digits(d.year), YearText(e.year);
    var rest := z[n..] + DayText(e);
    FormatParts(d);
    FormatParts(e);
    LeadingText(e.year, n);
    YearDigits(e.year);
    YearOrder(d.year, Leading(e.year, n));
    YearOrder(Leading(e.year, n), d.year);
    assert Format(e) == z[..n] + rest by { assert z == z[..n] + z[n..]; }
    LessAppend(YearText(d.year), z[..n], DayText(d), rest);
    LessAppend(z[..n], YearText(d.year), rest, DayText(d));
    assert DayText(d)[0] == '-' && rest[0] == z[n];
  }

  /** The text order of two dates is their order in time exactly between the years `SameOrder` admits. */
  lemma TextOrderIff(d: Date, e: Date)
    requires TwoDigits(d) && TwoDigits(e)
    ensures (Less(Format(d), Format(e)) <==> DateLess(d, e)) <==> SameOrder(d.year, e.year)
  {
    if Digits(d.year) < Digits(e.year) {
      ShorterYear(d, e);
      if d.year >= e.year { MoreDigits(e.year, d.year); }
    } else if Digits(e.year) < Digits(d.year) {
      ShorterYear(e, d);
      if e.year >= d.year { MoreDigits(d.year, e.year); }
    } else {
      FormatParts(d);
      FormatParts(e);
      YearOrder(d.year, e.year);
      DayOrder(d, e);
      LessAppend(YearText(d.year), YearText(e.year), DayText(d), DayText(e));
    }
  }

  // ---- Reading any formatted date ----

  function Number(s: string): nat {
    if s == [] then 0 else 10 * Number(s[..|s| - 1]) + Value(s[|s| - 1])
  }

  /** The date a text of any length stands for. */
  function DateOf(s: string): Date {
    if |s| < 10 then Date(0, 0, 0)
    else var n := |s| - 6; Date(Number(s[..n]), Number(s[n + 1..n + 3]), Number(s[n + 4..]))
  }

  /** The text of some date: what `Format` writes, in any year. */
  predicate Dated(s: string) { TwoDigits(DateOf(s)) && Format(DateOf(s)) == s }

  lemma {:induction false} NumberYear(y: nat)
    ensures Number(YearText(y)) == y
  {
    var s := YearText(y);
    DigitValue(y);
    if y < 10000 {
      FourDigits(y);
      DigitValue(y / 10);
      DigitValue(y / 100);
      DigitValue(y / 1000);
      NumberFour(s);
    } else {
      NumberYear(y / 10);
      assert s[..|s| - 1] == YearText(y / 10);
    }
  }

  lemma NumberTwo(s: string)
    requires |s| == 2
    ensures Number(s) == 10 * Value(s[0]) + Value(s[1])
  {
    assert s[..1][..0] == [] && s[..1][0] == s[0];
    assert Number(s[..1]) == Value(s[0]);
  }

  lemma NumberFour(s: string)
    requires |s| == 4
    ensures Number(s) == 1000 * Value(s[0]) + 100 * Value(s[1]) + 10 * Value(s[2]) + Value(s[3])
  {
    NumberTwo(s[..2]);
    assert s[..3][..2] == s[..2] && Number(s[..3]) == 10 * Number(s[..2]) + Value(s[2]);
  }

  lemma NumberOfTwo(n: nat)
    requires n < 100
    ensures Number(Two(n)) == n
  {
    NumberTwo(Two(n));
    DigitValue(n / 10);
    DigitValue(n);
  }

  /** Every date is read back from its text; in particular no two dates have the same text. */
  lemma DateOfFormat(d: Date)
    requires TwoDigits(d)
    ensures DateOf(Format(d)) == d && Dated(Format(d))
  {
    var s, n := Format(d), Digits(d.year);
    FormatParts(d);
    NumberYear(d.year);
    NumberOfTwo(d.month);
    NumberOfTwo(d.day);
    assert |s| == n + 6 && s[..n] == YearText(d.year) && s[n + 1..n + 3] == Two(d.month) && s[n + 4..] == Two(d.day);
  }

  /** A formatted date has the shape validation asks for exactly up to the year 9999. */
  lemma FormatShapedIff(d: Date)
    ensures DateShaped(Format(d)) <==> d.year < 10000
    ensures |Format(d)| == Digits(d.year) + 6
  {
    FormatParts(d);
    assert |Format(d)| == Digits(d.year) + 6;
    if d.year < 10000 {
      FormatChars(d);
      assert Format(d) == Chars(d);
      DigitValue(d.year / 1000);
      DigitValue(d.year / 100);
      DigitValue(d.year / 10);
      DigitValue(d.year);
      DigitValue(d.month / 10);
      DigitValue(d.month);
      DigitValue(d.day / 10);
      DigitValue(d.day);
    }
  }

  /** On date-shaped text this reading is the one by fields. */
  lemma ShapedIsDated(s: string)
    requires DateShaped(s)
    ensures Dated(s) && DateOf(s) == Fields(s) && Fields(s).year < 10000
  {
    var d := Fields(s);
    FormatChars(d);
    DigitsOfNumber(Value(s[0]), Value(s[1]), Value(s[2]), Value(s[3]));
    DigitsOfNumber(0, 0, Value(s[5]), Value(s[6]));
    DigitsOfNumber(0, 0, Value(s[8]), Value(s[9]));
    ShapedChars(s, d);
    DateOfFormat(d);
  }

  lemma ShapedChars(s: string, d: Date)
    requires DateShaped(s) && d.year < 10000
    requires d.year / 1000 == Value(s[0]) && d.year / 100 % 10 == Value(s[1]) && d.year / 10 % 10 == Value(s[2])
    requires d.year % 10 == Value(s[3])
    requires d.month / 10 % 10 == Value(s[5]) && d.month % 10 == Value(s[6])
    requires d.day / 10 % 10 == Value(s[8]) && d.day % 10 == Value(s[9])
    ensures Format(d) == s
  {
    FormatChars(d);
    DigitOf(s[0], d.year / 1000);
    DigitOf(s[1], d.year / 100);
    DigitOf(s[2], d.year / 10);
    DigitOf(s[3], d.year);
    DigitOf(s[5], d.month / 10);
    DigitOf(s[6], d.month);
    DigitOf(s[8], d.day / 10);
    DigitOf(s[9], d.day);
    assert Chars(d) == s;
  }

  /** Up to the year 9999 any two dates sort right, and 0999 sorts right against 10000; 9999 does not. */
  lemma FourDigitYears(y: nat, z: nat)
    requires y < 10000
    ensures z < 10000 ==> SameOrder(y, z)
    ensures SameOrder(999, 10000) && !SameOrder(9999, 10000)
  {
    assert Digits(1000) == 4 && Digits(10000) == 5;
    assert Leading(10000, 4) == Leading(1000, 4) == 1000;
  }
}

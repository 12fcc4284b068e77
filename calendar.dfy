/**
 * Proleptic Gregorian calendar dates as (year, month, day) triples: leap years,
 * month lengths, the weekday (0 = Sunday, as JavaScript's `getDay`), month
 * arithmetic with year wrap-around (JavaScript's `new Date(y, m - k, 1)`), and the
 * zero-padded `yyyy-MM-dd` rendering (ISO 8601 extended calendar date) with its parser.
 */
module Calendar {
  import opened Basics
  import opened Text

  datatype Date = Date(year: nat, month: nat, day: nat)

  predicate IsLeapYear(y: int)
  {
    y % 4 == 0 && (y % 100 != 0 || y % 400 == 0)
  }

  function DaysInMonth(y: int, m: nat): (n: nat)
    requires 1 <= m <= 12
    ensures 28 <= n <= 31
    ensures m == 2 ==> (n == 29 <==> IsLeapYear(y))
  {
    if m == 2 then (if IsLeapYear(y) then 29 else 28)
    else if m == 4 || m == 6 || m == 9 || m == 11 then 30
    else 31
  }

  predicate Valid(d: Date)
  {
    1 <= d.month <= 12 && 1 <= d.day <= DaysInMonth(d.year, d.month)
  }

  /** Chronological order of dates. */
  predicate Before(a: Date, b: Date)
  {
    a.year < b.year
    || (a.year == b.year && a.month < b.month)
    || (a.year == b.year && a.month == b.month && a.day < b.day)
  }

  predicate NotAfter(a: Date, b: Date) { a == b || Before(a, b) }

  /** The day after `d`. */
  function NextDay(d: Date): (r: Date)
    requires Valid(d)
    ensures Valid(r) && Before(d, r)
  {
    if d.day < DaysInMonth(d.year, d.month) then d.(day := d.day + 1)
    else if d.month < 12 then Date(d.year, d.month + 1, 1)
    else Date(d.year + 1, 1, 1)
  }

  function MonthOffset(m: nat): int
    requires 1 <= m <= 12
  {
    [0, 3, 2, 5, 0, 3, 5, 1, 4, 6, 2, 4][m - 1]
  }

  function YearShift(y: int): int { y + y / 4 - y / 100 + y / 400 }

  /** Day of the week of year `y`, month `m`, day `d`: 0 is Sunday, 6 is Saturday. */
  function Weekday(y: int, m: nat, d: int): (w: nat)
    requires 1 <= m <= 12
    ensures w < 7
  {
    var yy := if m < 3 then y - 1 else y;
    (YearShift(yy) + MonthOffset(m) + d) % 7
  }

  function WeekdayOf(d: Date): (w: nat)
    requires 1 <= d.month <= 12
    ensures w < 7
  {
    Weekday(d.year, d.month, d.day)
  }

  lemma YearShiftStep(y: int)
    ensures YearShift(y) - YearShift(y - 1) == 1 + (if IsLeapYear(y) then 1 else 0)
  {
    DivStep4(y);
    DivStep100(y);
    DivStep400(y);
    CenturyDivisors(y);
    assert YearShift(y) == y + y / 4 - y / 100 + y / 400;
    assert YearShift(y - 1) == (y - 1) + (y - 1) / 4 - (y - 1) / 100 + (y - 1) / 400;
  }

  lemma CenturyDivisors(y: int)
    ensures y % 400 == 0 ==> y % 100 == 0
    ensures y % 100 == 0 ==> y % 4 == 0
  {
    if y % 400 == 0 {
      var q := y / 400;
      assert y == 400 * q;
      MultipleOf100(y, 4 * q);
    }
    if y % 100 == 0 {
      var q := y / 100;
      assert y == 100 * q;
      MultipleOf4(y, 25 * q);
    }
  }

  lemma MultipleOf100(y: int, t: int)
    requires y == 100 * t
    ensures y % 100 == 0
  {
    var q, r := y / 100, y % 100;
    assert y == 100 * q + r;
    assert 100 * (t - q) == r && 0 <= r < 100;
  }

  lemma MultipleOf4(y: int, t: int)
    requires y == 4 * t
    ensures y % 4 == 0
  {
    var q, r := y / 4, y % 4;
    assert y == 4 * q + r;
    assert 4 * (t - q) == r && 0 <= r < 4;
  }

  lemma DivStep4(y: int)
    ensures y / 4 - (y - 1) / 4 == if y % 4 == 0 then 1 else 0
  {
    var q, r := (y - 1) / 4, (y - 1) % 4;
    assert y - 1 == 4 * q + r;
    if r == 3 { assert y == 4 * (q + 1); } else { assert y == 4 * q + (r + 1); }
  }

  lemma DivStep100(y: int)
    ensures y / 100 - (y - 1) / 100 == if y % 100 == 0 then 1 else 0
  {
    var q, r := (y - 1) / 100, (y - 1) % 100;
    assert y - 1 == 100 * q + r;
    if r == 99 { assert y == 100 * (q + 1); } else { assert y == 100 * q + (r + 1); }
  }

  lemma DivStep400(y: int)
    ensures y / 400 - (y - 1) / 400 == if y % 400 == 0 then 1 else 0
  {
    var q, r := (y - 1) / 400, (y - 1) % 400;
    assert y - 1 == 400 * q + r;
    if r == 399 { assert y == 400 * (q + 1); } else { assert y == 400 * q + (r + 1); }
  }

  lemma ModStep(a: int, b: int, k: int)
    requires b == a + 1 - 7 * k
    ensures b % 7 == (a % 7 + 1) % 7
  {
    var q, r := a / 7, a % 7;
    assert a == 7 * q + r;
    if r < 6 {
      assert b == 7 * (q - k) + (r + 1);
    } else {
      assert b == 7 * (q - k + 1);
    }
  }

  /** Consecutive days have consecutive weekdays, across month and year ends and leap days. */
  lemma WeekdayNext(d: Date)
    requires Valid(d)
    ensures WeekdayOf(NextDay(d)) == (WeekdayOf(d) + 1) % 7
  {
    var y, m := d.year, d.month;
    if d.day < DaysInMonth(y, m) {
      assert NextDay(d) == Date(y, m, d.day + 1);
      WeekdayStep(y, m, d.day, y, m, d.day + 1, 0);
    } else if m == 12 {
      assert d.day == 31 && NextDay(d) == Date(y + 1, 1, 1);
      WeekdayStep(y, 12, 31, y + 1, 1, 1, 5);
    } else if m == 2 {
      assert NextDay(d) == Date(y, 3, 1);
      WeekdayNextFebruary(y);
    } else {
      assert NextDay(d) == Date(y, m + 1, 1);
      WeekdayNextMonthEnd(y, m);
    }
  }

  lemma WeekdayNextFebruary(y: int)
    ensures Weekday(y, 3, 1) == (Weekday(y, 2, DaysInMonth(y, 2)) + 1) % 7
  {
    YearShiftStep(y);
    WeekdayStep(y, 2, DaysInMonth(y, 2), y, 3, 1, 4);
  }

  lemma WeekdayNextMonthEnd(y: int, m: nat)
    requires 1 <= m < 12 && m != 2
    ensures Weekday(y, m + 1, 1) == (Weekday(y, m, DaysInMonth(y, m)) + 1) % 7
  {
    if m == 4 || m == 7 || m == 10 {
      WeekdayStep(y, m, DaysInMonth(y, m), y, m + 1, 1, 5);
    } else {
      WeekdayStep(y, m, DaysInMonth(y, m), y, m + 1, 1, 4);
    }
  }

  lemma WeekdayStep(y: int, m: nat, day: int, y': int, m': nat, day': int, k: int)
    requires 1 <= m <= 12 && 1 <= m' <= 12
    requires var yy := if m < 3 then y - 1 else y;
             var yy' := if m' < 3 then y' - 1 else y';
             YearShift(yy') + MonthOffset(m') + day' == YearShift(yy) + MonthOffset(m) + day + 1 - 7 * k
    ensures Weekday(y', m', day') == (Weekday(y, m, day) + 1) % 7
  {
    var yy := if m < 3 then y - 1 else y;
    var yy' := if m' < 3 then y' - 1 else y';
    ModStep(YearShift(yy) + MonthOffset(m) + day, YearShift(yy') + MonthOffset(m') + day', k);
  }

  /** 1 January 1970 was a Thursday. */
  lemma WeekdayEpoch()
    ensures Weekday(1970, 1, 1) == 4
  {
  }

  /** The weekday of day `k` of a month, counted from the weekday of its first day. */
  lemma WeekdayInMonth(y: int, m: nat, k: int)
    requires 1 <= m <= 12
    ensures Weekday(y, m, k) == (Weekday(y, m, 1) + k - 1) % 7
  {
    var yy := if m < 3 then y - 1 else y;
    ModShift(YearShift(yy) + MonthOffset(m) + 1, k - 1);
  }

  /** Reducing a summand modulo 7 first does not change the sum modulo 7. */
  lemma ModShift(a: int, b: int)
    ensures (a % 7 + b) % 7 == (a + b) % 7
  {
    var q, q1, q2 := a / 7, (a + b) / 7, (a % 7 + b) / 7;
    assert a == 7 * q + a % 7;
    assert a + b == 7 * q1 + (a + b) % 7;
    assert a % 7 + b == 7 * q2 + (a % 7 + b) % 7;
  }

  function StartOfMonth(d: Date): (r: Date)
    requires 1 <= d.month <= 12
    ensures Valid(r) && r.day == 1 && r.year == d.year && r.month == d.month
  {
    Date(d.year, d.month, 1)
  }

  function EndOfMonth(d: Date): (r: Date)
    requires 1 <= d.month <= 12
    ensures Valid(r) && r.year == d.year && r.month == d.month
    ensures Valid(d) ==> NotAfter(d, r)
    ensures NextDay(r).day == 1 && (NextDay(r).month != d.month || NextDay(r).year != d.year)
  {
    Date(d.year, d.month, DaysInMonth(d.year, d.month))
  }

  /**
   * The first day of the month `k` months before the month of `d`, wrapping
   * back over year ends the way JavaScript's `new Date(year, month - k, 1)` does.
   */
  function MonthsBefore(d: Date, k: nat): (r: Date)
    requires 1 <= d.month <= 12 && 12 * d.year + d.month - 1 >= k
    ensures Valid(r) && r.day == 1
    ensures 12 * r.year + r.month == 12 * d.year + d.month - k
  {
    var index := 12 * d.year + (d.month - 1) - k;
    Date(index / 12, index % 12 + 1, 1)
  }

  /** The year JavaScript's `new Date(year, monthIndex, day)` uses: 0 to 99 are read as 1900 to 1999. */
  function ConstructorYear(y: nat): (r: nat)
    ensures r >= 100
    ensures y >= 100 ==> r == y
    ensures r < 10000 <==> y < 10000
  {
    if y <= 99 then 1900 + y else y
  }

  /**
   * `new Date(d.getFullYear(), d.getMonth() - k, 1)`: the first day of the month
   * `k` months before the month of `d`, after the year has gone through `ConstructorYear`.
   */
  function ConstructedMonthStart(d: Date, k: nat): (r: Date)
    requires 1 <= d.month <= 12 && k <= 12
    ensures Valid(r) && r.day == 1
    ensures 12 * r.year + r.month == 12 * ConstructorYear(d.year) + d.month - k
  {
    MonthsBefore(d.(year := ConstructorYear(d.year)), k)
  }

  // ---------------------------------------------------------------------------
  // yyyy-MM-dd
  // ---------------------------------------------------------------------------

  /** The year date-fns prints for the `yyyy` token: the era year, so year 0 (1 BC) prints as 1. */
  function EraYear(y: nat): (r: nat)
    ensures r >= 1
    ensures y >= 1 ==> r == y
  {
    if y == 0 then 1 else y
  }

  /** The date whose fields `Format` prints. */
  function Printed(d: Date): Date
  {
    d.(year := EraYear(d.year))
  }

  /** date-fns `format(d, "yyyy-MM-dd")`: era year padded to four digits, month and day to two. */
  function Format(d: Date): string
  {
    PadLeft(NatToString(EraYear(d.year)), 4, '0') + "-" + PadLeft(NatToString(d.month), 2, '0') + "-" + PadLeft(NatToString(d.day), 2, '0')
  }

  predicate FourDigitYear(d: Date) { d.year < 10000 }

  /** Year 0 is printed as year 1. */
  lemma YearZeroPrintsAsOne(m: nat, day: nat)
    ensures Format(Date(0, m, day)) == Format(Date(1, m, day))
  {
  }

  lemma FormatFixed(d: Date)
    requires Valid(d) && FourDigitYear(d)
    ensures Format(d) == FixedDigits(EraYear(d.year), 4) + "-" + FixedDigits(d.month, 2) + "-" + FixedDigits(d.day, 2)
  {
    PaddedIsFixed(EraYear(d.year), 4);
    PaddedIsFixed(d.month, 2);
    PaddedIsFixed(d.day, 2);
  }

  /** Three dash-separated fields of equal widths compare field by field. */
  lemma LexFields(ya: string, ma: string, da: string, yb: string, mb: string, db: string)
    requires |ya| == |yb| && |ma| == |mb|
    ensures LexLess(ya + "-" + ma + "-" + da, yb + "-" + mb + "-" + db)
        <==> LexLess(ya, yb) || (ya == yb && (LexLess(ma, mb) || (ma == mb && LexLess(da, db))))
  {
    var va, vb := "-" + da, "-" + db;
    var ua, ub := ma + va, mb + vb;
    var ta, tb := "-" + ua, "-" + ub;
    assert ya + "-" + ma + "-" + da == ya + ta;
    assert yb + "-" + mb + "-" + db == yb + tb;
    LexConcat(ya, ta, yb, tb);
    LexConcat("-", ua, "-", ub);
    LexIrreflexive("-");
    LexConcat(ma, va, mb, vb);
    LexConcat("-", da, "-", db);
  }

  /**
   * For four-digit years, string order of the rendered dates is chronological
   * order of the printed dates, which are the dates themselves from year 1 on.
   */
  lemma FormatOrder(a: Date, b: Date)
    requires Valid(a) && Valid(b) && FourDigitYear(a) && FourDigitYear(b)
    ensures LexLess(Format(a), Format(b)) <==> Before(Printed(a), Printed(b))
    ensures Format(a) == Format(b) <==> Printed(a) == Printed(b)
  {
    FormatFixed(a);
    FormatFixed(b);
    var ya, ma, da := FixedDigits(EraYear(a.year), 4), FixedDigits(a.month, 2), FixedDigits(a.day, 2);
    var yb, mb, db := FixedDigits(EraYear(b.year), 4), FixedDigits(b.month, 2), FixedDigits(b.day, 2);
    FixedDigitsOrder(EraYear(a.year), EraYear(b.year), 4);
    FixedDigitsOrder(a.month, b.month, 2);
    FixedDigitsOrder(a.day, b.day, 2);
    LexFields(ya, ma, da, yb, mb, db);
    FormatInjective(a, b);
  }

  /** Rendered dates are equal exactly when the printed dates are. */
  lemma FormatInjective(a: Date, b: Date)
    requires Valid(a) && Valid(b) && FourDigitYear(a) && FourDigitYear(b)
    ensures Format(a) == Format(b) <==> Printed(a) == Printed(b)
  {
    if Format(a) == Format(b) {
      FormatFixed(a);
      FormatFixed(b);
      var ya, ma, da := FixedDigits(EraYear(a.year), 4), FixedDigits(a.month, 2), FixedDigits(a.day, 2);
      var yb, mb, db := FixedDigits(EraYear(b.year), 4), FixedDigits(b.month, 2), FixedDigits(b.day, 2);
      SplitRendered(ya, ma, da);
      SplitRendered(yb, mb, db);
      FixedDigitsOrder(EraYear(a.year), EraYear(b.year), 4);
      FixedDigitsOrder(a.month, b.month, 2);
      FixedDigitsOrder(a.day, b.day, 2);
    }
  }

  lemma FormatNotAfter(a: Date, b: Date)
    requires Valid(a) && Valid(b) && FourDigitYear(a) && FourDigitYear(b)
    ensures LexLe(Format(a), Format(b)) <==> NotAfter(Printed(a), Printed(b))
  {
    FormatOrder(a, b);
  }

  /** Reads a `YYYY-MM-DD` string; anything else, or a day that does not exist, gives `None`. */
  function ParseIsoDate(s: string): Option<Date>
  {
    if |s| == 10 && s[4] == '-' && s[7] == '-'
       && AllDigits(s[..4]) && AllDigits(s[5..7]) && AllDigits(s[8..])
    then
      var d := Date(ParseDigits(s[..4]), ParseDigits(s[5..7]), ParseDigits(s[8..]));
      if Valid(d) then Some(d) else None
    else
      None
  }

  lemma {:induction false} ParseDigitsBound(x: string)
    requires AllDigits(x)
    ensures ParseDigits(x) < Pow10(|x|)
  {
    if x != [] { ParseDigitsBound(x[..|x| - 1]); }
  }

  lemma {:induction false} FixedParse(x: string)
    requires AllDigits(x)
    ensures FixedDigits(ParseDigits(x), |x|) == x
  {
    if x != [] {
      var n := ParseDigits(x);
      var p := x[..|x| - 1];
      FixedParse(p);
      assert n / 10 == ParseDigits(p) && n % 10 == DigitValue(x[|x| - 1]);
      assert x == p + [x[|x| - 1]];
    }
  }

  lemma SplitRendered(y: string, m: string, d: string)
    requires |y| == 4 && |m| == 2 && |d| == 2
    ensures var s := y + "-" + m + "-" + d;
      |s| == 10 && s[..4] == y && s[4] == '-' && s[5..7] == m && s[7] == '-' && s[8..] == d
  {
  }

  /** What reading back the rendering of `d` gives: the printed date, when that day exists. */
  function ReadBack(d: Date): (r: Option<Date>)
    ensures Valid(d) && d.year >= 1 ==> r == Some(d)
  {
    if Valid(Printed(d)) then Some(Printed(d)) else None
  }

  /**
   * Rendering then reading a date gives the date back from year 1 on; a year-0
   * date reads back as the same day of year 1, or not at all for 29 February.
   */
  lemma ParseFormat(d: Date)
    requires Valid(d) && FourDigitYear(d)
    ensures ParseIsoDate(Format(d)) == ReadBack(d)
    ensures d.year >= 1 ==> ParseIsoDate(Format(d)) == Some(d)
    ensures d.year == 0 ==> ParseIsoDate(Format(d)) == (if d.month == 2 && d.day == 29 then None else Some(d.(year := 1)))
  {
    FormatFixed(d);
    SplitRendered(FixedDigits(EraYear(d.year), 4), FixedDigits(d.month, 2), FixedDigits(d.day, 2));
    ParseFixedDigits(EraYear(d.year), 4);
    ParseFixedDigits(d.month, 2);
    ParseFixedDigits(d.day, 2);
  }

  /**
   * Reading a string as a date and rendering it again gives the same string,
   * except that a year written "0000" comes back as "0001".
   */
  lemma FormatParse(s: string)
    requires ParseIsoDate(s).Some?
    ensures FourDigitYear(ParseIsoDate(s).value)
    ensures Format(ParseIsoDate(s).value) == if s[..4] == "0000" then "0001" + s[4..] else s
  {
    var ys, ms, ds := s[..4], s[5..7], s[8..];
    var d := Date(ParseDigits(ys), ParseDigits(ms), ParseDigits(ds));
    assert ParseIsoDate(s) == Some(d);
    ParseDigitsBound(ys);
    assert Pow10(4) == 10000;
    FixedParse(ys);
    FixedParse(ms);
    FixedParse(ds);
    FormatFixed(d);
    Reassemble(s);
    YearFieldZero(ys);
    if ys == "0000" {
      ReplaceYear(s, "0001");
    }
  }

  /** Writing another four-character year in front of the rest of a rendered date. */
  lemma ReplaceYear(s: string, y: string)
    requires |s| == 10 && s[4] == '-' && s[7] == '-' && |y| == 4
    ensures y + s[4..] == y + "-" + s[5..7] + "-" + s[8..]
  {
    SplitRendered(y, s[5..7], s[8..]);
    Reassemble(s);
    assert s[4..] == (s[..4] + "-" + s[5..7] + "-" + s[8..])[4..];
  }

  /** A four-digit year field reads as 0 exactly when it is "0000", and year 1 is written "0001". */
  lemma YearFieldZero(ys: string)
    requires |ys| == 4 && AllDigits(ys)
    ensures ParseDigits(ys) == 0 <==> ys == "0000"
    ensures FixedDigits(1, 4) == "0001"
  {
    FixedParse(ys);
    ZerosAreFixed(4);
    assert FixedDigits(0, 4) == "0000";
    if ys == "0000" {
      ParseFixedDigits(0, 4);
    }
  }

  /** A ten-character string with dashes at 4 and 7 is its three fields joined by dashes. */
  lemma Reassemble(s: string)
    requires |s| == 10 && s[4] == '-' && s[7] == '-'
    ensures s == s[..4] + "-" + s[5..7] + "-" + s[8..]
  {
    SplitRendered(s[..4], s[5..7], s[8..]);
  }
}

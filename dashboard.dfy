/**
 * The dashboard page: the selected date range as the `yyyy-MM-dd` strings the
 * transactions request carries, its three presets (this month, last month, last
 * three months), the category badge classes, and which of the empty-state card
 * and the KPI cards is on screen.
 */
module Dashboard {
  import opened Basics
  import opened Text
  import opened Calendar

  /** The selected range: two rendered dates and the label shown in the picker. */
  datatype Range = Range(start: string, end: string, labelText: string)

  /** The range from `first` to `last`, rendered as date-fns `format(_, "yyyy-MM-dd")` does. */
  function Span(first: Date, last: Date, labelText: string): Range
  {
    Range(Format(first), Format(last), labelText)
  }

  /**
   * The range reads back as the dates printed for `first` and `last`: those very
   * dates from year 1 on (see `Calendar.ReadBack`).
   */
  ghost predicate Spans(r: Range, first: Date, last: Date)
  {
    ParseIsoDate(r.start) == ReadBack(first) && ParseIsoDate(r.end) == ReadBack(last)
  }

  /** The current calendar month, first day to last day; also the range the page starts with. */
  function ThisMonth(now: Date): Range
    requires 1 <= now.month <= 12
  {
    Span(StartOfMonth(now), EndOfMonth(now), "This Month")
  }

  /** The whole previous calendar month (`new Date(year, month - 1, 1)`). */
  function LastMonth(now: Date): Range
    requires 1 <= now.month <= 12
  {
    var first := ConstructedMonthStart(now, 1);
    Span(StartOfMonth(first), EndOfMonth(first), "Last Month")
  }

  /** From the first day of the month two months back to the last day of the current month. */
  function Last3Months(now: Date): Range
    requires 1 <= now.month <= 12
  {
    Span(StartOfMonth(ConstructedMonthStart(now, 2)), EndOfMonth(now), "Last 3 Months")
  }

  /** The selected range after choosing a preset; any other value keeps the current range. */
  function HandleRangeChange(current: Range, value: string, now: Date): (r: Range)
    requires 1 <= now.month <= 12
    ensures value == "thisMonth" ==> r == ThisMonth(now)
    ensures value == "lastMonth" ==> r == LastMonth(now)
    ensures value == "last3Months" ==> r == Last3Months(now)
    ensures value !in {"thisMonth", "lastMonth", "last3Months"} ==> r == current
    ensures r == current || r.labelText in {"This Month", "Last Month", "Last 3 Months"}
  {
    if value == "thisMonth" then ThisMonth(now)
    else if value == "lastMonth" then LastMonth(now)
    else if value == "last3Months" then Last3Months(now)
    else current
  }

  /** The last day of the month of `d`. */
  function LastDay(d: Date): Date
    requires 1 <= d.month <= 12
  {
    Date(d.year, d.month, DaysInMonth(d.year, d.month))
  }

  /**
   * A span of two valid four-digit-year dates reads back as them (as their printed
   * dates in year 0), and is ordered as strings as the printed dates are as dates.
   */
  lemma SpanFacts(first: Date, last: Date, labelText: string)
    requires Valid(first) && Valid(last) && FourDigitYear(first) && FourDigitYear(last)
    ensures Spans(Span(first, last, labelText), first, last)
    ensures LexLe(Span(first, last, labelText).start, Span(first, last, labelText).end)
      <==> NotAfter(Printed(first), Printed(last))
    ensures first.year >= 1 && last.year >= 1 ==>
      ParseIsoDate(Span(first, last, labelText).start) == Some(first)
      && ParseIsoDate(Span(first, last, labelText).end) == Some(last)
      && (LexLe(Span(first, last, labelText).start, Span(first, last, labelText).end) <==> NotAfter(first, last))
  {
    ParseFormat(first);
    ParseFormat(last);
    FormatNotAfter(first, last);
  }

  /**
   * This month runs from the 1st to the month's last day (29 February in leap
   * years), contains today, and its bounds are ordered both as dates and as strings.
   * In year 0 both bounds are printed with year 1, and still ordered.
   */
  lemma ThisMonthSpan(now: Date)
    requires Valid(now) && FourDigitYear(now)
    ensures var r := ThisMonth(now);
      && Spans(r, Date(now.year, now.month, 1), LastDay(now))
      && NotAfter(Date(now.year, now.month, 1), now) && NotAfter(now, LastDay(now))
      && LexLe(r.start, r.end) && r.labelText == "This Month"
  {
    SpanFacts(StartOfMonth(now), EndOfMonth(now), "This Month");
  }

  /**
   * Last month is the whole calendar month before today's, and it ends on the day
   * before this month starts; its bounds are ordered as dates and as strings.
   * Today's year goes through `ConstructorYear`, so in years 0 to 99 the month lies in 1899 to 1999.
   */
  lemma LastMonthSpan(now: Date)
    requires Valid(now) && FourDigitYear(now)
    ensures var r, p, y := LastMonth(now), ConstructedMonthStart(now, 1), ConstructorYear(now.year);
      && 12 * p.year + p.month == 12 * y + now.month - 1
      && Spans(r, Date(p.year, p.month, 1), LastDay(p))
      && NextDay(LastDay(p)) == Date(y, now.month, 1)
      && LexLe(r.start, r.end) && r.labelText == "Last Month"
  {
    var p := ConstructedMonthStart(now, 1);
    SpanFacts(StartOfMonth(p), EndOfMonth(p), "Last Month");
    NextMonthStart(p, now.(year := ConstructorYear(now.year)));
  }

  /** The day after the last day of a month is the first day of the month after it. */
  lemma NextMonthStart(p: Date, now: Date)
    requires 1 <= p.month <= 12 && 1 <= now.month <= 12
    requires 12 * p.year + p.month == 12 * now.year + now.month - 1
    ensures NextDay(LastDay(p)) == Date(now.year, now.month, 1)
  {
    if p.month < 12 {
      assert p.year == now.year && p.month + 1 == now.month;
    } else {
      assert p.year + 1 == now.year && now.month == 1;
    }
  }

  /** In January, last month is December of the previous year (of 1899 to 1998 in years 0 to 99). */
  lemma LastMonthOfJanuary(now: Date)
    requires Valid(now) && now.month == 1
    ensures var y := ConstructorYear(now.year);
      LastMonth(now) == Span(Date(y - 1, 12, 1), Date(y - 1, 12, 31), "Last Month")
  {
    PreviousDecember(now);
  }

  /** The month before January, as the constructor computes it, is December of the year before. */
  lemma PreviousDecember(now: Date)
    requires now.month == 1
    ensures var p, y := ConstructedMonthStart(now, 1), ConstructorYear(now.year);
      StartOfMonth(p) == Date(y - 1, 12, 1) && EndOfMonth(p) == Date(y - 1, 12, 31)
  {
    var y := ConstructorYear(now.year);
    var p := ConstructedMonthStart(now, 1);
    assert 12 * p.year + p.month == 12 * (y - 1) + 12;
  }

  /**
   * The last three months start on the 1st of the month two months back (wrapping
   * over the year end) and end on the last day of the current month, which is
   * after today. From year 100 on the start is before today and the bounds are
   * ordered as strings; in years 0 to 99 only the start goes through
   * `ConstructorYear`, so it lands in 1899 to 1999 and the range is inverted.
   */
  lemma Last3MonthsSpan(now: Date)
    requires Valid(now) && FourDigitYear(now)
    ensures var r, p := Last3Months(now), ConstructedMonthStart(now, 2);
      && 12 * p.year + p.month == 12 * ConstructorYear(now.year) + now.month - 2
      && Spans(r, Date(p.year, p.month, 1), LastDay(now))
      && NotAfter(now, LastDay(now)) && r.labelText == "Last 3 Months"
    ensures var r, p := Last3Months(now), ConstructedMonthStart(now, 2);
      now.year >= 100 ==> Before(Date(p.year, p.month, 1), now) && LexLess(r.start, r.end)
    ensures now.year < 100 ==> LexLess(Last3Months(now).end, Last3Months(now).start)
  {
    var p := ConstructedMonthStart(now, 2);
    SpanFacts(StartOfMonth(p), EndOfMonth(now), "Last 3 Months");
    FormatOrder(StartOfMonth(p), EndOfMonth(now));
    FormatOrder(EndOfMonth(now), StartOfMonth(p));
  }

  /**
   * Whatever the current range, a preset leaves the selected range ordered, except
   * the last three months chosen in a year 0 to 99, which give an inverted range.
   */
  lemma RangeStaysOrdered(current: Range, value: string, now: Date)
    requires Valid(now) && FourDigitYear(now)
    requires LexLe(current.start, current.end)
    ensures value != "last3Months" || now.year >= 100
      <==> LexLe(HandleRangeChange(current, value, now).start, HandleRangeChange(current, value, now).end)
  {
    var r := HandleRangeChange(current, value, now);
    if value == "thisMonth" {
      ThisMonthSpan(now);
      assert r == ThisMonth(now);
    } else if value == "lastMonth" {
      LastMonthSpan(now);
      assert r == LastMonth(now);
    } else if value == "last3Months" {
      Last3MonthsSpan(now);
      assert r == Last3Months(now);
      if now.year < 100 {
        LexAsymmetric(r.end, r.start);
        LexIrreflexive(r.start);
      }
    } else {
      assert r == current;
    }
  }

  /** The badge classes of the category table column. */
  function CategoryColor(category: string): string
  {
    if category == "Income" then "bg-green-100 text-green-800"
    else if category == "Food & Dining" then "bg-orange-100 text-orange-800"
    else if category == "Transport & Mobility" then "bg-blue-100 text-blue-800"
    else if category == "Bills & Utilities" then "bg-purple-100 text-purple-800"
    else if category == "Shopping & Entertainment" then "bg-pink-100 text-pink-800"
    else if category == "Other" then "bg-gray-100 text-gray-800"
    else "bg-gray-100 text-gray-800"
  }

  const KnownCategories: seq<string> :=
    ["Income", "Food & Dining", "Transport & Mobility", "Bills & Utilities", "Shopping & Entertainment", "Other"]

  /** The six categories get six different badges, and any other category gets the badge of "Other". */
  lemma CategoryColors(a: string, b: string)
    ensures a !in KnownCategories ==> CategoryColor(a) == CategoryColor("Other")
    ensures a in KnownCategories && b in KnownCategories && CategoryColor(a) == CategoryColor(b) ==> a == b
  {
  }

  /** The "No Transactions Found" card: loaded, no error, and nothing in range. */
  predicate ShowsEmptyState(loading: bool, failed: bool, count: nat)
  {
    !loading && !failed && count == 0
  }

  /** The three KPI cards: while loading (as skeletons) or when there is something to sum. */
  predicate ShowsKpiCards(loading: bool, count: nat)
  {
    loading || count > 0
  }

  /**
   * The empty-state card and the KPI cards are never on screen together, and once
   * the transactions have loaded without error exactly one of them is.
   */
  lemma EmptyStateExcludesKpis(loading: bool, failed: bool, count: nat)
    ensures !(ShowsEmptyState(loading, failed, count) && ShowsKpiCards(loading, count))
    ensures !loading && !failed ==> (ShowsEmptyState(loading, failed, count) <==> !ShowsKpiCards(loading, count))
  {
  }
}

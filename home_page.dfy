/**
 * The spending dashboard's client-side logic: the daily, weekly and monthly spend
 * summaries (period key -> category -> spend), the per-category income/spend/count
 * summary, the headline figures, the choice of summary for the current view, the
 * upload error classifier, the file-picker handler and the date-range selector.
 */
module HomePage {
  import opened Basics
  import opened Text
  import opened Calendar
  import opened Ledger
  import opened Files

  datatype ViewType = Daily | Weekly | Monthly

  /** Period key -> category -> total spend. */
  type Summary = map<string, map<string, int>>

  // ---------------------------------------------------------------------------
  // Period keys
  // ---------------------------------------------------------------------------

  /**
   * The week of the month, weeks starting on Sunday: `ceil((day + weekday of the 1st) / 7)`.
   * The 1st is built with `new Date(year, month, 1)`, which reads years 0 to 99 as 1900 to 1999.
   */
  function WeekOfMonth(d: Date): (w: nat)
    requires Valid(d)
    ensures 1 <= w <= 6
  {
    (d.day + Weekday(ConstructorYear(d.year), d.month, 1) + 6) / 7
  }

  /** The first day of a month is in week 1. */
  lemma FirstDayInWeekOne(d: Date)
    requires Valid(d)
    ensures WeekOfMonth(StartOfMonth(d)) == 1
  {
  }

  /**
   * Within a month the week number goes up by one exactly on the days that are
   * Sundays in the year the 1st is looked up in; from year 100 on, exactly on Sundays.
   */
  lemma WeekStartsOnSunday(d: Date)
    requires Valid(d) && d.day < DaysInMonth(d.year, d.month)
    ensures WeekOfMonth(NextDay(d)) == WeekOfMonth(d)
      + (if Weekday(ConstructorYear(d.year), d.month, d.day + 1) == 0 then 1 else 0)
    ensures d.year >= 100 ==>
      WeekOfMonth(NextDay(d)) == WeekOfMonth(d) + (if WeekdayOf(NextDay(d)) == 0 then 1 else 0)
  {
    var y := ConstructorYear(d.year);
    var first := Weekday(y, d.month, 1);
    var x := d.day + first;
    WeekdayInMonth(y, d.month, d.day + 1);
    assert NextDay(d) == d.(day := d.day + 1);
    assert Weekday(y, d.month, d.day + 1) == x % 7;
    assert WeekOfMonth(d) == (x + 6) / 7;
    assert WeekOfMonth(NextDay(d)) == (x + 7) / 7;
    assert (x + 7) / 7 == x / 7 + 1;
    assert x == 7 * (x / 7) + x % 7;
    if x % 7 == 0 {
      assert (x + 6) / 7 == x / 7;
    } else {
      assert x + 6 == 7 * (x / 7 + 1) + (x % 7 - 1);
      assert (x + 6) / 7 == x / 7 + 1;
    }
  }

  /** In year 50 the 1st is looked up in 1950, so 5 March 0050 falls in week 2. */
  lemma TwoDigitYearWeek()
    ensures WeekOfMonth(Date(50, 3, 5)) == 2
  {
    assert Weekday(1950, 3, 1) == 3;
  }

  const InvalidWeekKey: string := "NaN-NaN-WNaN"

  /** `{year}-{month}-W{week}` with the month unpadded; a date string that does not parse gives NaN fields. */
  function WeekKey(date: string): string
  {
    match ParseIsoDate(date)
    case Some(d) => NatToString(d.year) + "-" + NatToString(d.month) + "-W" + NatToString(WeekOfMonth(d))
    case None => InvalidWeekKey
  }

  /** The key a transaction dated `date` is grouped under. */
  function PeriodKey(view: ViewType, date: string): string
  {
    match view
    case Daily => date
    case Weekly => WeekKey(date)
    case Monthly => Take(date, 7)
  }

  /**
   * The weekly key of a rendered date is built from the printed date's year, month
   * and week: the date's own from year 1 on; a year-0 29 February gives the NaN key.
   */
  lemma WeekKeyOfDate(d: Date)
    requires Valid(d) && FourDigitYear(d)
    ensures var p := Printed(d);
      Valid(p) ==> PeriodKey(Weekly, Format(d)) == NatToString(p.year) + "-" + NatToString(p.month) + "-W" + NatToString(WeekOfMonth(p))
    ensures !Valid(Printed(d)) ==> PeriodKey(Weekly, Format(d)) == InvalidWeekKey
    ensures d.year >= 1 ==> Printed(d) == d
  {
    ParseFormat(d);
    assert PeriodKey(Weekly, Format(d)) == WeekKey(Format(d));
  }

  /**
   * Two rendered dates share a monthly key exactly when they fall in the same month
   * of the same printed year (years 0 and 1 both print as 0001).
   */
  lemma MonthKeySameMonth(a: Date, b: Date)
    requires Valid(a) && Valid(b) && FourDigitYear(a) && FourDigitYear(b)
    ensures PeriodKey(Monthly, Format(a)) == PeriodKey(Monthly, Format(b))
      <==> EraYear(a.year) == EraYear(b.year) && a.month == b.month
  {
    FormatFixed(a);
    FormatFixed(b);
    var ya, ma := FixedDigits(EraYear(a.year), 4), FixedDigits(a.month, 2);
    var yb, mb := FixedDigits(EraYear(b.year), 4), FixedDigits(b.month, 2);
    SplitRendered(ya, ma, FixedDigits(a.day, 2));
    SplitRendered(yb, mb, FixedDigits(b.day, 2));
    var ka, kb := PeriodKey(Monthly, Format(a)), PeriodKey(Monthly, Format(b));
    assert ka[..4] == ya && ka[5..7] == ma;
    assert kb[..4] == yb && kb[5..7] == mb;
    FixedDigitsOrder(EraYear(a.year), EraYear(b.year), 4);
    FixedDigitsOrder(a.month, b.month, 2);
    if EraYear(a.year) == EraYear(b.year) && a.month == b.month {
      assert ka == ya + "-" + ma;
      assert kb == yb + "-" + mb;
    }
  }

  /** The (period, category) cell a transaction is counted in. */
  function CellOf(key: Txn -> string, t: Txn): (string, string)
  {
    (key(t), t.category)
  }

  /** The period key of a transaction for a view. */
  function PeriodKeyOf(view: ViewType): Txn -> string
  {
    (t: Txn) => PeriodKey(view, t.date)
  }

  function PeriodCell(key: Txn -> string): Txn -> (string, string)
  {
    t => CellOf(key, t)
  }

  // ---------------------------------------------------------------------------
  // Period summaries
  // ---------------------------------------------------------------------------

  /** The value in a cell, 0 when the cell is absent. */
  function CellValue(s: Summary, p: string, c: string): int
  {
    if p in s && c in s[p] then s[p][c] else 0
  }

  /** The periods the transactions fall in. */
  function Periods(ts: seq<Txn>, key: Txn -> string): set<string>
  {
    if ts == [] then {} else Periods(ts[..|ts| - 1], key) + {key(ts[|ts| - 1])}
  }

  /** The (period, category) cells the transactions fall in. */
  function Cells(ts: seq<Txn>, key: Txn -> string): set<(string, string)>
  {
    if ts == [] then {} else Cells(ts[..|ts| - 1], key) + {CellOf(key, ts[|ts| - 1])}
  }

  lemma PeriodsSnoc(ts: seq<Txn>, t: Txn, key: Txn -> string)
    ensures Periods(ts + [t], key) == Periods(ts, key) + {key(t)}
    ensures Cells(ts + [t], key) == Cells(ts, key) + {CellOf(key, t)}
  {
    assert (ts + [t])[..|ts|] == ts;
  }

  lemma {:induction false} CellsMembers(ts: seq<Txn>, key: Txn -> string)
    ensures forall i :: 0 <= i < |ts| ==> CellOf(key, ts[i]) in Cells(ts, key)
  {
    if ts != [] {
      CellsMembers(ts[..|ts| - 1], key);
    }
  }

  /**
   * The periods of `s` are exactly those of the transactions and the cells of `s`
   * exactly theirs: income transactions included, nothing else.
   */
  ghost predicate SameCells(ts: seq<Txn>, key: Txn -> string, s: Summary)
  {
    && (forall p :: p in s <==> p in Periods(ts, key))
    && (forall p, c :: p in s && c in s[p] <==> (p, c) in Cells(ts, key))
  }

  /** Each cell (0 when absent) holds the spend of the transactions in that cell. */
  ghost predicate CellsHoldSpend(ts: seq<Txn>, key: Txn -> string, s: Summary)
  {
    forall p, c :: CellValue(s, p, c) == SumWhere(ts, PeriodCell(key), (p, c), SpendOf)
  }

  /** `s` is the spend summary of `ts` grouped by `key`. */
  ghost predicate IsPeriodSummary(ts: seq<Txn>, key: Txn -> string, s: Summary)
  {
    SameCells(ts, key, s) && CellsHoldSpend(ts, key, s)
  }

  /** Writing value `v` into cell (`key`, `cat`) adds that cell if new, changes its value, and touches no other. */
  lemma UpdateCell(s: Summary, key: string, cat: string, v: int)
    ensures var s' := s[key := (if key in s then s[key] else map[])[cat := v]];
      && (forall p :: p in s' <==> p in s || p == key)
      && (forall p, c :: p in s' && c in s'[p] <==> (p in s && c in s[p]) || (p, c) == (key, cat))
      && (forall p, c :: CellValue(s', p, c) == if (p, c) == (key, cat) then v else CellValue(s, p, c))
  {
  }

  /** Adding a transaction's spend to its own cell keeps the cells equal to the spends. */
  lemma CellsStep(prefix: seq<Txn>, t: Txn, key: Txn -> string, s: Summary, s': Summary)
    requires CellsHoldSpend(prefix, key, s)
    requires forall p, c :: CellValue(s', p, c) == CellValue(s, p, c) + (if CellOf(key, t) == (p, c) then SpendOf(t) else 0)
    ensures CellsHoldSpend(prefix + [t], key, s')
  {
    forall p, c
      ensures CellValue(s', p, c) == SumWhere(prefix + [t], PeriodCell(key), (p, c), SpendOf)
    {
      SumWhereSnoc(prefix, t, PeriodCell(key), (p, c), SpendOf);
    }
  }

  /** Adding a transaction's spend to its cell, creating the cell at 0 if new, summarises one transaction more. */
  lemma SummaryStep(prefix: seq<Txn>, t: Txn, key: Txn -> string, s: Summary, s': Summary)
    requires IsPeriodSummary(prefix, key, s)
    requires s' == s[key(t) := (if key(t) in s then s[key(t)] else map[])[t.category := CellValue(s, key(t), t.category) + SpendOf(t)]]
    ensures IsPeriodSummary(prefix + [t], key, s')
  {
    UpdateCell(s, key(t), t.category, CellValue(s, key(t), t.category) + SpendOf(t));
    PeriodsSnoc(prefix, t, key);
    CellsStep(prefix, t, key, s, s');
  }

  /** The loop step of the summary build: summarising transaction `i` extends the summary of the first `i` to the first `i + 1`. */
  lemma SummaryPrefixStep(ts: seq<Txn>, i: nat, key: Txn -> string, s: Summary, s': Summary)
    requires i < |ts| && IsPeriodSummary(ts[..i], key, s)
    requires s' == s[key(ts[i]) := (if key(ts[i]) in s then s[key(ts[i])] else map[])[ts[i].category := CellValue(s, key(ts[i]), ts[i].category) + SpendOf(ts[i])]]
    ensures IsPeriodSummary(ts[..i + 1], key, s')
  {
    assert ts[..i + 1] == ts[..i] + [ts[i]];
    SummaryStep(ts[..i], ts[i], key, s, s');
  }

  /**
   * A spend summary built in one pass over the transactions, grouping by `key`:
   * the daily, weekly and monthly summaries are this loop with `PeriodKeyOf(view)`.
   */
  method BuildPeriodSummary(ts: seq<Txn>, key: Txn -> string) returns (s: Summary)
    ensures IsPeriodSummary(ts, key, s)
  {
    s := map[];
    var i := 0;
    while i < |ts|
      invariant 0 <= i <= |ts|
      invariant IsPeriodSummary(ts[..i], key, s)
    {
      var t := ts[i];
      ghost var before := s;
      var period := key(t);
      var row := if period in s then s[period] else map[];
      ghost var v := CellValue(s, period, t.category) + SpendOf(t);
      ghost var oldRow := row;
      if t.category !in row {
        row := row[t.category := 0];
      }
      if t.amount < 0 {
        row := row[t.category := row[t.category] + -t.amount];
      }
      assert row == oldRow[t.category := v];
      s := s[period := row];
      SummaryPrefixStep(ts, i, key, before, s);
      i := i + 1;
    }
    assert ts[..|ts|] == ts;
  }

  /** A summary is determined by its transactions: any two summaries of the same list are equal. */
  lemma PeriodSummaryUnique(ts: seq<Txn>, key: Txn -> string, s1: Summary, s2: Summary)
    requires IsPeriodSummary(ts, key, s1) && IsPeriodSummary(ts, key, s2)
    ensures s1 == s2
  {
    forall p | p in s1
      ensures p in s2 && s1[p] == s2[p]
    {
      forall c
        ensures c in s1[p] <==> c in s2[p]
        ensures c in s1[p] ==> s1[p][c] == s2[p][c]
      {
        assert CellValue(s1, p, c) == CellValue(s2, p, c);
      }
    }
  }

  /** A summary is empty exactly when there are no transactions. */
  lemma PeriodSummaryEmpty(ts: seq<Txn>, key: Txn -> string, s: Summary)
    requires IsPeriodSummary(ts, key, s)
    ensures s == map[] <==> ts == []
  {
    if ts == [] {
      assert s.Keys == {};
    } else {
      assert key(ts[|ts| - 1]) in Periods(ts, key);
    }
  }

  /** Income and zero amounts add nothing: after a transaction that is not a spend, every cell holds what it held before. */
  lemma NonSpendAddsNothing(ts: seq<Txn>, t: Txn, key: Txn -> string, s1: Summary, s2: Summary)
    requires IsPeriodSummary(ts, key, s1) && IsPeriodSummary(ts + [t], key, s2)
    requires t.amount >= 0
    ensures forall p, c :: CellValue(s2, p, c) == CellValue(s1, p, c)
  {
    forall p, c
      ensures CellValue(s2, p, c) == CellValue(s1, p, c)
    {
      SumWhereSnoc(ts, t, PeriodCell(key), (p, c), SpendOf);
    }
  }

  /** The values of a list of cells added up. */
  function SumCells(s: Summary, cells: seq<(string, string)>): int
  {
    if cells == [] then 0 else CellValue(s, cells[0].0, cells[0].1) + SumCells(s, cells[1..])
  }

  lemma {:induction false} SumCellsIsSumOverKeys(ts: seq<Txn>, key: Txn -> string, s: Summary, cells: seq<(string, string)>)
    requires CellsHoldSpend(ts, key, s)
    ensures SumCells(s, cells) == SumOverKeys(ts, PeriodCell(key), cells, SpendOf)
  {
    if cells != [] {
      SumCellsIsSumOverKeys(ts, key, s, cells[1..]);
      assert cells[0] == (cells[0].0, cells[0].1);
    }
  }

  /**
   * Conservation: over any duplicate-free list naming every cell of a summary, the
   * cells add up to the total spend shown on the spend card.
   */
  lemma PeriodSummaryTotal(ts: seq<Txn>, key: Txn -> string, s: Summary, cells: seq<(string, string)>)
    requires IsPeriodSummary(ts, key, s)
    requires NoDuplicates(cells)
    requires forall p, c :: p in s && c in s[p] ==> (p, c) in cells
    ensures SumCells(s, cells) == ComputeKpis(ts).totalSpend
  {
    SumCellsIsSumOverKeys(ts, key, s, cells);
    CellsMembers(ts, key);
    forall i | 0 <= i < |ts|
      ensures PeriodCell(key)(ts[i]) in cells
    {
      var x := CellOf(key, ts[i]);
      assert x.0 in s && x.1 in s[x.0];
    }
    Partition(ts, PeriodCell(key), cells, SpendOf);
  }

  /** The summary the chart shows for the current key; with no transactions the summaries are not computed and the chart gets an empty map. */
  method GetSummaryData(ts: seq<Txn>, view: ViewType) returns (s: Summary)
    ensures IsPeriodSummary(ts, PeriodKeyOf(view), s)
    ensures s == map[] <==> ts == []
  {
    if |ts| > 0 {
      s := BuildPeriodSummary(ts, PeriodKeyOf(view));
      PeriodSummaryEmpty(ts, PeriodKeyOf(view), s);
    } else {
      s := map[];
    }
  }

  // ---------------------------------------------------------------------------
  // Category summary
  // ---------------------------------------------------------------------------

  datatype CategoryTotals = CategoryTotals(income: int, spend: int, count: int)

  type CategorySummary = map<string, CategoryTotals>

  function TotalsOf(s: CategorySummary, c: string): CategoryTotals
  {
    if c in s then s[c] else CategoryTotals(0, 0, 0)
  }

  /** The totals the transactions of category `c` add up to. */
  function CategoryTotalsFor(ts: seq<Txn>, c: string): CategoryTotals
  {
    CategoryTotals(SumWhere(ts, CategoryKey, c, IncomeOf), SumWhere(ts, CategoryKey, c, SpendOf), SumWhere(ts, CategoryKey, c, One))
  }

  /** `s` has exactly the categories of `ts`, each with its income, spend and count. */
  predicate IsCategorySummary(ts: seq<Txn>, s: CategorySummary)
  {
    && (forall i :: 0 <= i < |ts| ==> ts[i].category in s)
    && (forall c :: c in s ==> exists i :: 0 <= i < |ts| && ts[i].category == c)
    && (forall c :: c in s ==> s[c] == CategoryTotalsFor(ts, c))
  }

  /** The totals after counting one more transaction of their category. */
  function AddTotals(x: CategoryTotals, t: Txn): CategoryTotals
  {
    CategoryTotals(x.income + IncomeOf(t), x.spend + SpendOf(t), x.count + 1)
  }

  lemma CategoryStep(prefix: seq<Txn>, t: Txn, s: CategorySummary, s': CategorySummary)
    requires forall c :: TotalsOf(s, c) == CategoryTotalsFor(prefix, c)
    requires s' == s[t.category := AddTotals(TotalsOf(s, t.category), t)]
    ensures forall c :: TotalsOf(s', c) == CategoryTotalsFor(prefix + [t], c)
  {
    forall c
      ensures TotalsOf(s', c) == CategoryTotalsFor(prefix + [t], c)
    {
      SumWhereSnoc(prefix, t, CategoryKey, c, IncomeOf);
      SumWhereSnoc(prefix, t, CategoryKey, c, SpendOf);
      SumWhereSnoc(prefix, t, CategoryKey, c, One);
      assert CategoryKey(t) == t.category;
      if c == t.category {
        assert TotalsOf(s', c) == AddTotals(TotalsOf(s, c), t);
      } else {
        assert TotalsOf(s', c) == TotalsOf(s, c);
      }
    }
  }

  /** The facts the category loop keeps after `i` transactions: their categories, nothing else, and each one's totals. */
  ghost predicate CategoryPrefix(ts: seq<Txn>, i: nat, s: CategorySummary)
    requires i <= |ts|
  {
    && (forall j :: 0 <= j < i ==> ts[j].category in s)
    && (forall c :: c in s ==> exists j :: 0 <= j < i && ts[j].category == c)
    && (forall c :: TotalsOf(s, c) == CategoryTotalsFor(ts[..i], c))
  }

  /** Counting transaction `i` into its category extends the category facts from the first `i` transactions to the first `i + 1`. */
  lemma CategoryPrefixStep(ts: seq<Txn>, i: nat, s: CategorySummary, s': CategorySummary)
    requires i < |ts| && CategoryPrefix(ts, i, s)
    requires s' == s[ts[i].category := AddTotals(TotalsOf(s, ts[i].category), ts[i])]
    ensures CategoryPrefix(ts, i + 1, s')
  {
    assert ts[..i + 1] == ts[..i] + [ts[i]];
    CategoryStep(ts[..i], ts[i], s, s');
    forall c | c in s'
      ensures exists j :: 0 <= j < i + 1 && ts[j].category == c
    {
      if c != ts[i].category {
        assert c in s;
      }
    }
  }

  /** The per-category summary, built in one pass: a positive amount adds to income, anything else its magnitude to spend, and every transaction 1 to the count. */
  method BuildCategorySummary(ts: seq<Txn>) returns (s: CategorySummary)
    ensures IsCategorySummary(ts, s)
  {
    s := map[];
    var i := 0;
    while i < |ts|
      invariant 0 <= i <= |ts|
      invariant CategoryPrefix(ts, i, s)
    {
      var t := ts[i];
      var c := t.category;
      // the category's entry, created at zero on first sight, updated and stored back
      var totals := if c in s then s[c] else CategoryTotals(0, 0, 0);
      assert totals == TotalsOf(s, c);
      if t.amount > 0 {
        totals := totals.(income := totals.income + t.amount);
      } else {
        totals := totals.(spend := totals.spend + -t.amount);
      }
      totals := totals.(count := totals.count + 1);
      assert totals == AddTotals(TotalsOf(s, c), t);
      CategoryPrefixStep(ts, i, s, s[c := totals]);
      s := s[c := totals];
      i := i + 1;
    }
    assert ts[..|ts|] == ts;
    forall c | c in s
      ensures s[c] == CategoryTotalsFor(ts, c)
    {
      assert TotalsOf(s, c) == s[c];
    }
  }

  function SumTotals(s: CategorySummary, cats: seq<string>, f: CategoryTotals -> int): int
  {
    if cats == [] then 0 else f(TotalsOf(s, cats[0])) + SumTotals(s, cats[1..], f)
  }

  lemma {:induction false} SumTotalsIsSumOverKeys(ts: seq<Txn>, s: CategorySummary, cats: seq<string>,
                                                  f: CategoryTotals -> int, w: Txn -> int)
    requires forall c :: c in cats ==> c in s
    requires forall c :: c in cats ==> f(s[c]) == SumWhere(ts, CategoryKey, c, w)
    ensures SumTotals(s, cats, f) == SumOverKeys(ts, CategoryKey, cats, w)
  {
    if cats != [] {
      SumTotalsIsSumOverKeys(ts, s, cats[1..], f, w);
    }
  }

  function Income(x: CategoryTotals): int { x.income }
  function Spend(x: CategoryTotals): int { x.spend }
  function Count(x: CategoryTotals): int { x.count }

  /**
   * Conservation: over a duplicate-free list of exactly the summary's categories,
   * incomes add up to total income, spends to total spend, counts to the number
   * of transactions.
   */
  lemma CategorySummaryTotals(ts: seq<Txn>, s: CategorySummary, cats: seq<string>)
    requires IsCategorySummary(ts, s)
    requires NoDuplicates(cats)
    requires forall c :: c in cats <==> c in s
    ensures SumTotals(s, cats, Income) == ComputeKpis(ts).totalIncome
    ensures SumTotals(s, cats, Spend) == ComputeKpis(ts).totalSpend
    ensures SumTotals(s, cats, Count) == |ts|
  {
    SumTotalsIsSumOverKeys(ts, s, cats, Income, IncomeOf);
    SumTotalsIsSumOverKeys(ts, s, cats, Spend, SpendOf);
    SumTotalsIsSumOverKeys(ts, s, cats, Count, One);
    Partition(ts, CategoryKey, cats, IncomeOf);
    Partition(ts, CategoryKey, cats, SpendOf);
    Partition(ts, CategoryKey, cats, One);
    SumOneIsLength(ts);
  }

  // ---------------------------------------------------------------------------
  // Upload errors
  // ---------------------------------------------------------------------------

  /** The error modal's three texts. */
  datatype ErrorDetails = ErrorDetails(title: string, message: string, details: string)

  const UnknownErrorMessage: string := "An unknown error occurred"
  const ApiKeyMarker: string := "OPENAI_API_KEY"
  const ServerErrorMarker: string := "Upload failed: 500"
  const TooLargeMarker: string := "Upload failed: 413"
  const BadRequestMarker: string := "Upload failed: 400"

  const ConfigurationError: ErrorDetails := ErrorDetails("Configuration Error",
    "The server is missing required AI configuration. Please contact your administrator.",
    "Missing OpenAI API key configuration on the server")
  const ServerError: ErrorDetails := ErrorDetails("Server Error",
    "The server encountered an internal error while processing your files.",
    "HTTP 500 Internal Server Error")
  const FileTooLarge: ErrorDetails := ErrorDetails("File Too Large",
    "One or more files are too large. Please try with smaller PDF files.",
    "Request payload too large")
  const InvalidFileFormat: ErrorDetails := ErrorDetails("Invalid File Format",
    "Please ensure you're uploading valid PDF files only.",
    "Bad request - invalid file format")

  function GenericFailure(message: string): ErrorDetails
  {
    ErrorDetails("Upload Failed", "Failed to process your files. Please check your files and try again.", message)
  }

  /** The message of a failed upload: the response's `detail` when it is a non-empty string, else the status. */
  function UploadFailureMessage(status: nat, detail: Option<string>): (m: string)
    ensures m != ""
  {
    if detail.Some? && detail.value != "" then detail.value else "Upload failed: " + NatToString(status)
  }

  /** An empty message stands for a missing one. */
  function EffectiveMessage(message: string): (m: string)
    ensures m != ""
  {
    if message == "" then UnknownErrorMessage else message
  }

  /** Maps an error message to the modal's texts, testing the markers in priority order. */
  function GetErrorDetails(errorMessage: string): (e: ErrorDetails)
  {
    var m := EffectiveMessage(errorMessage);
    if Contains(m, ApiKeyMarker) then ConfigurationError
    else if Contains(m, ServerErrorMarker) then ServerError
    else if Contains(m, TooLargeMarker) then FileTooLarge
    else if Contains(m, BadRequestMarker) then InvalidFileFormat
    else GenericFailure(m)
  }

  /**
   * Each classification holds exactly when its marker occurs in the message and no
   * marker of higher priority does; the generic result carries the message itself.
   */
  lemma ErrorDetailsPriority(errorMessage: string)
    ensures var m, e := EffectiveMessage(errorMessage), GetErrorDetails(errorMessage);
      && (e == ConfigurationError <==> Contains(m, ApiKeyMarker))
      && (e == ServerError <==> !Contains(m, ApiKeyMarker) && Contains(m, ServerErrorMarker))
      && (e == FileTooLarge <==> !Contains(m, ApiKeyMarker) && !Contains(m, ServerErrorMarker) && Contains(m, TooLargeMarker))
      && (e == InvalidFileFormat <==>
            (!Contains(m, ApiKeyMarker) && !Contains(m, ServerErrorMarker) && !Contains(m, TooLargeMarker) && Contains(m, BadRequestMarker)))
      && (e == GenericFailure(m) <==>
            (!Contains(m, ApiKeyMarker) && !Contains(m, ServerErrorMarker) && !Contains(m, TooLargeMarker) && !Contains(m, BadRequestMarker)))
  {
  }

  /** No marker occurs in the text used for a missing message. */
  lemma UnknownMessageHasNoMarker()
    ensures !Contains(UnknownErrorMessage, ApiKeyMarker) && !Contains(UnknownErrorMessage, ServerErrorMarker)
    ensures !Contains(UnknownErrorMessage, TooLargeMarker) && !Contains(UnknownErrorMessage, BadRequestMarker)
  {
    assert 'O' !in UnknownErrorMessage && 'U' !in UnknownErrorMessage;
    MissingFirstChar(UnknownErrorMessage, ApiKeyMarker);
    MissingFirstChar(UnknownErrorMessage, ServerErrorMarker);
    MissingFirstChar(UnknownErrorMessage, TooLargeMarker);
    MissingFirstChar(UnknownErrorMessage, BadRequestMarker);
  }

  /** A missing message gives the generic result with "An unknown error occurred" as its details. */
  lemma MissingMessageIsGeneric()
    ensures GetErrorDetails("") == GenericFailure(UnknownErrorMessage)
  {
    UnknownMessageHasNoMarker();
    ErrorDetailsPriority("");
    assert EffectiveMessage("") == UnknownErrorMessage;
  }

  lemma StatusTexts()
    ensures UploadFailureMessage(500, None) == ServerErrorMarker
    ensures UploadFailureMessage(413, None) == TooLargeMarker
    ensures UploadFailureMessage(400, None) == BadRequestMarker
  {
    assert NatToString(50) == "50" && NatToString(41) == "41" && NatToString(40) == "40";
  }

  /** The 500 text holds its own marker and not the API-key one. */
  lemma ServerErrorMarkers()
    ensures !Contains(ServerErrorMarker, ApiKeyMarker) && Contains(ServerErrorMarker, ServerErrorMarker)
  {
    assert 'O' !in ServerErrorMarker;
    MissingFirstChar(ServerErrorMarker, ApiKeyMarker);
    ContainsSameLength(ServerErrorMarker, ServerErrorMarker);
  }

  /** The 413 text holds its own marker and neither of the higher-priority ones. */
  lemma TooLargeMarkers()
    ensures !Contains(TooLargeMarker, ApiKeyMarker) && !Contains(TooLargeMarker, ServerErrorMarker)
    ensures Contains(TooLargeMarker, TooLargeMarker)
  {
    assert 'O' !in TooLargeMarker;
    MissingFirstChar(TooLargeMarker, ApiKeyMarker);
    ContainsSameLength(TooLargeMarker, ServerErrorMarker);
    ContainsSameLength(TooLargeMarker, TooLargeMarker);
  }

  /** The 400 text holds its own marker and none of the higher-priority ones. */
  lemma BadRequestMarkers()
    ensures !Contains(BadRequestMarker, ApiKeyMarker) && !Contains(BadRequestMarker, ServerErrorMarker)
    ensures !Contains(BadRequestMarker, TooLargeMarker) && Contains(BadRequestMarker, BadRequestMarker)
  {
    assert 'O' !in BadRequestMarker;
    MissingFirstChar(BadRequestMarker, ApiKeyMarker);
    ContainsSameLength(BadRequestMarker, ServerErrorMarker);
    ContainsSameLength(BadRequestMarker, TooLargeMarker);
    ContainsSameLength(BadRequestMarker, BadRequestMarker);
  }

  /** A failed response without a `detail` and status 500 opens the server-error modal. */
  lemma Status500IsServerError()
    ensures GetErrorDetails(UploadFailureMessage(500, None)) == ServerError
  {
    StatusTexts();
    ServerErrorMarkers();
    ErrorDetailsPriority(ServerErrorMarker);
  }

  /** A failed response without a `detail` and status 413 opens the file-too-large modal. */
  lemma Status413IsTooLarge()
    ensures GetErrorDetails(UploadFailureMessage(413, None)) == FileTooLarge
  {
    StatusTexts();
    TooLargeMarkers();
    ErrorDetailsPriority(TooLargeMarker);
  }

  /** A failed response without a `detail` and status 400 opens the invalid-format modal. */
  lemma Status400IsInvalidFormat()
    ensures GetErrorDetails(UploadFailureMessage(400, None)) == InvalidFileFormat
  {
    StatusTexts();
    BadRequestMarkers();
    ErrorDetailsPriority(BadRequestMarker);
  }

  // ---------------------------------------------------------------------------
  // File picker
  // ---------------------------------------------------------------------------

  /** What picking files does: the modal it opens, if any, and the files it uploads, if any. */
  datatype SelectOutcome = SelectOutcome(modal: Option<ErrorDetails>, upload: Option<seq<FileInfo>>)

  const NoPdfSelected: ErrorDetails := ErrorDetails("Invalid File Format",
    "Please select PDF files only. Other file formats are not supported.",
    "Only PDF files can be processed for transaction extraction")

  function SkippedFiles(selected: nat, pdf: nat): ErrorDetails
    requires pdf <= selected
  {
    ErrorDetails("Some Files Skipped",
      NatToString(selected - pdf) + " non-PDF files were skipped. Only PDF files will be processed.",
      "Selected: " + NatToString(selected) + " files, Processing: " + NatToString(pdf) + " PDF files")
  }

  /**
   * No PDF among the picked files: the format modal and no upload. Some PDFs: the
   * PDFs alone are uploaded, in order, with a modal counting the skipped files when
   * there are any.
   */
  function HandleFileSelect(files: Option<seq<FileInfo>>): (o: SelectOutcome)
    ensures files.None? ==> o == SelectOutcome(None, None)
    ensures files.Some? && PdfFiles(files.value) == [] ==> o == SelectOutcome(Some(NoPdfSelected), None)
    ensures files.Some? && PdfFiles(files.value) != [] ==> o.upload == Some(PdfFiles(files.value))
    ensures files.Some? && PdfFiles(files.value) != [] ==>
      (o.modal.None? <==> NonPdfCount(files.value) == 0)
    ensures files.Some? && PdfFiles(files.value) != [] && NonPdfCount(files.value) > 0 ==>
      o.modal == Some(SkippedFiles(|files.value|, |PdfFiles(files.value)|))
      && o.modal.value.message == NatToString(NonPdfCount(files.value)) + " non-PDF files were skipped. Only PDF files will be processed."
  {
    match files
    case None => SelectOutcome(None, None)
    case Some(selected) =>
      var pdf := PdfFiles(selected);
      PdfFilesCount(selected);
      if |pdf| == 0 then SelectOutcome(Some(NoPdfSelected), None)
      else if |pdf| != |selected| then SelectOutcome(Some(SkippedFiles(|selected|, |pdf|)), Some(pdf))
      else SelectOutcome(None, Some(pdf))
  }

  // ---------------------------------------------------------------------------
  // Date range
  // ---------------------------------------------------------------------------

  datatype DateRange = DateRange(start: Date, end: Date, labelText: string)

  /** The "this month" and "last month" ranges the shared preset helper supplies. */
  datatype RangePresets = RangePresets(thisMonth: DateRange, lastMonth: DateRange)

  /** From the first day of the month two months back up to today itself. */
  function Last3Months(today: Date): (r: DateRange)
    requires Valid(today) && today.year >= 1
    ensures Valid(r.start) && r.start.day == 1
    ensures 12 * r.start.year + r.start.month == 12 * today.year + today.month - 2
    ensures r.end == today && r.labelText == "Last 3 Months"
    ensures Before(r.start, r.end)
  {
    DateRange(MonthsBefore(today, 2), today, "Last 3 Months")
  }

  /** The selected range after choosing a value; an unknown value keeps the current range. */
  function HandleRangeChange(current: DateRange, value: string, presets: RangePresets, today: Date): (r: DateRange)
    requires Valid(today) && today.year >= 1
    ensures value == "thisMonth" ==> r == presets.thisMonth
    ensures value == "lastMonth" ==> r == presets.lastMonth
    ensures value == "last3Months" ==> r == Last3Months(today)
    ensures value !in {"thisMonth", "lastMonth", "last3Months"} ==> r == current
  {
    if value == "thisMonth" then presets.thisMonth
    else if value == "lastMonth" then presets.lastMonth
    else if value == "last3Months" then Last3Months(today)
    else current
  }

  /** The `yyyy-MM-dd` bounds sent with the transactions request. */
  function QueryBounds(r: DateRange): (string, string)
  {
    (Format(r.start), Format(r.end))
  }

  /**
   * For the last-three-months range the end bound reads back as today. From March
   * of year 1 on, the start lies in year 1 or later, reads back as the range's
   * start, and the bounds are ordered as strings, so the backend's string
   * comparison sees a non-empty window. Before that the start lies in year 0, is
   * printed as year 1, and the window is inverted.
   */
  lemma Last3MonthsBounds(today: Date)
    requires Valid(today) && 1 <= today.year < 10000
    ensures var r, b := Last3Months(today), QueryBounds(Last3Months(today));
      && ParseIsoDate(b.0) == ReadBack(r.start) && ParseIsoDate(b.1) == Some(today)
      && (r.start.year >= 1 <==> 12 * today.year + today.month >= 15)
      && (12 * today.year + today.month >= 15 <==> LexLess(b.0, b.1))
      && (12 * today.year + today.month < 15 ==> LexLess(b.1, b.0))
  {
    var r := Last3Months(today);
    var b := QueryBounds(r);
    ParseFormat(r.start);
    ParseFormat(today);
    FormatOrder(r.start, today);
    FormatOrder(today, r.start);
    assert Printed(today) == today;
    if r.start.year >= 1 {
      assert Printed(r.start) == r.start;
    } else {
      assert Before(today, Printed(r.start));
      LexAsymmetric(b.1, b.0);
    }
  }
}

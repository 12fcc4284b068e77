/**
 * The stacked spending chart: which categories get a bar (every category of the
 * summary except "Income"), one row per period with every such category filled in
 * (0 where the period has none), rows in ascending order of period key, only the
 * latest 90, 20 or 12 periods kept; the weekly axis label and the bar colours.
 */
module SpendingChart {
  import opened Basics
  import opened Text
  import opened Ledger
  import opened HomePage

  const IncomeCategory: string := "Income"

  /** The categories that get a bar: every category of every period except "Income". */
  function ChartCategories(data: Summary): set<string>
  {
    set p, c | p in data && c in data[p] && c != IncomeCategory :: c
  }

  /** Category `c` occurs in one of the periods `ps` of `data`. */
  ghost predicate OccursIn(data: Summary, ps: set<string>, c: string)
  {
    exists q :: q in ps && q in data && c in data[q]
  }

  /** Collects the chart categories period by period, category by category. */
  method CollectCategories(data: Summary) returns (cats: set<string>)
    ensures cats == ChartCategories(data)
  {
    cats := {};
    var periods := data.Keys;
    while periods != {}
      invariant periods <= data.Keys
      invariant forall c :: c in cats <==> c != IncomeCategory && OccursIn(data, data.Keys - periods, c)
      decreases |periods|
    {
      var p :| p in periods;
      var keys := data[p].Keys;
      while keys != {}
        invariant keys <= data[p].Keys
        invariant forall c :: c in cats <==>
          c != IncomeCategory && (OccursIn(data, data.Keys - periods, c) || c in data[p].Keys - keys)
        decreases |keys|
      {
        var c :| c in keys;
        if c != IncomeCategory {
          cats := cats + {c};
        }
        keys := keys - {c};
      }
      periods := periods - {p};
    }
    forall c
      ensures c in cats <==> c in ChartCategories(data)
    {
      if c in ChartCategories(data) {
        var p :| p in data && c in data[p] && c != IncomeCategory;
        assert OccursIn(data, data.Keys, c);
      }
    }
  }

  /**
   * For a summary of transactions, the chart categories are exactly the categories
   * of the transactions other than "Income".
   */
  lemma ChartCategoriesOfSummary(ts: seq<Txn>, key: Txn -> string, s: Summary)
    requires IsPeriodSummary(ts, key, s)
    ensures forall c :: c in ChartCategories(s) <==> c != IncomeCategory && exists i :: 0 <= i < |ts| && ts[i].category == c
  {
    CellsMembers(ts, key);
    forall c | c in ChartCategories(s)
      ensures exists i :: 0 <= i < |ts| && ts[i].category == c
    {
      var p :| p in s && c in s[p] && c != IncomeCategory;
      CellsOrigin(ts, key, (p, c));
    }
    forall c, i | c != IncomeCategory && 0 <= i < |ts| && ts[i].category == c
      ensures c in ChartCategories(s)
    {
      assert CellOf(key, ts[i]) in Cells(ts, key);
      assert key(ts[i]) in s && c in s[key(ts[i])];
    }
  }

  lemma {:induction false} CellsOrigin(ts: seq<Txn>, key: Txn -> string, x: (string, string))
    requires x in Cells(ts, key)
    ensures exists i :: 0 <= i < |ts| && CellOf(key, ts[i]) == x
  {
    var init := ts[..|ts| - 1];
    if x in Cells(init, key) {
      CellsOrigin(init, key, x);
      var i :| 0 <= i < |init| && CellOf(key, init[i]) == x;
      assert ts[i] == init[i];
    } else {
      assert CellOf(key, ts[|ts| - 1]) == x;
    }
  }

  /** A chart row: the period and a value for every chart category. */
  datatype Row = Row(period: string, values: map<string, int>)

  /** A period's values over the chart categories, 0 where the period has no entry. */
  function FilledValues(categories: map<string, int>, cats: set<string>): map<string, int>
  {
    map c | c in cats :: if c in categories then categories[c] else 0
  }

  /** Filling one category more adds just that category's value. */
  lemma FilledValuesStep(categories: map<string, int>, done: set<string>, c: string)
    ensures FilledValues(categories, done + {c}) == FilledValues(categories, done)[c := if c in categories then categories[c] else 0]
  {
  }

  /** Builds a period's row one chart category at a time. */
  method FillRow(period: string, categories: map<string, int>, cats: set<string>) returns (row: Row)
    ensures row.period == period && row.values.Keys == cats
    ensures forall c :: c in cats ==> row.values[c] == if c in categories then categories[c] else 0
  {
    var values: map<string, int> := map[];
    var remaining := cats;
    while remaining != {}
      invariant remaining <= cats
      invariant values == FilledValues(categories, cats - remaining)
      decreases |remaining|
    {
      var c :| c in remaining;
      FilledValuesStep(categories, cats - remaining, c);
      assert cats - (remaining - {c}) == (cats - remaining) + {c};
      values := values[c := if c in categories then categories[c] else 0];
      remaining := remaining - {c};
    }
    assert cats - remaining == cats;
    row := Row(period, values);
  }

  /** Rows in strictly ascending order of period key. */
  predicate SortedRows(rows: seq<Row>)
  {
    forall i, j :: 0 <= i < j < |rows| ==> LexLess(rows[i].period, rows[j].period)
  }

  /** A row before sorted rows whose periods all follow its own keeps them sorted. */
  lemma ConsSorted(h: Row, rest: seq<Row>)
    requires SortedRows(rest) && forall x :: x in rest ==> LexLess(h.period, x.period)
    ensures SortedRows([h] + rest)
  {
    var res := [h] + rest;
    forall i, j | 0 <= i < j < |res|
      ensures LexLess(res[i].period, res[j].period)
    {
      if i > 0 {
        assert res[i] == rest[i - 1] && res[j] == rest[j - 1];
      } else {
        assert res[j] == rest[j - 1];
      }
    }
  }

  /** The first of sorted rows comes before every later one. */
  lemma HeadBeforeTail(rows: seq<Row>)
    requires SortedRows(rows) && rows != []
    ensures forall x :: x in rows[1..] ==> LexLess(rows[0].period, x.period)
  {
    forall x | x in rows[1..]
      ensures LexLess(rows[0].period, x.period)
    {
      var i :| 0 <= i < |rows[1..]| && rows[1..][i] == x;
      assert rows[i + 1] == x;
    }
  }

  /** A period before the first of sorted rows comes before all of them. */
  lemma BeforeHeadBeforeAll(p: string, rows: seq<Row>)
    requires SortedRows(rows) && rows != [] && LexLess(p, rows[0].period)
    ensures forall x :: x in rows ==> LexLess(p, x.period)
  {
    forall x | x in rows
      ensures LexLess(p, x.period)
    {
      if x != rows[0] {
        HeadBeforeTail(rows);
        assert x in rows[1..];
        LexTransitive(p, rows[0].period, x.period);
      }
    }
  }

  /** Places a row among sorted rows so that they stay sorted. */
  function InsertRow(rows: seq<Row>, r: Row): (res: seq<Row>)
    requires SortedRows(rows)
    requires forall i :: 0 <= i < |rows| ==> rows[i].period != r.period
    ensures SortedRows(res) && |res| == |rows| + 1
    ensures r in res && forall i :: 0 <= i < |rows| ==> rows[i] in res
    ensures forall x :: x in res ==> x in rows || x == r
  {
    if rows == [] then [r]
    else if LexLess(r.period, rows[0].period) then
      BeforeHeadBeforeAll(r.period, rows);
      ConsSorted(r, rows);
      [r] + rows
    else
      LexTrichotomy(r.period, rows[0].period);
      assert forall i :: 1 <= i < |rows| ==> rows[i] == rows[1..][i - 1];
      var rest := InsertRow(rows[1..], r);
      HeadBeforeTail(rows);
      ConsSorted(rows[0], rest);
      assert rows == [rows[0]] + rows[1..];
      [rows[0]] + rest
  }

  /** How many periods the chart keeps: 90 days, 20 weeks or 12 months. */
  function MaxPeriods(view: ViewType): (n: nat)
    ensures n > 0
  {
    match view
    case Daily => 90
    case Weekly => 20
    case Monthly => 12
  }

  /** The last `n` elements, or all when there are fewer (JavaScript `slice(-n)` for positive `n`). */
  function LastN<T>(s: seq<T>, n: nat): (r: seq<T>)
    ensures |r| == Min(|s|, n)
    ensures r == s[|s| - |r|..]
  {
    if |s| <= n then s else s[|s| - n..]
  }

  /** The rows are one per period of `done`, filled over `cats`. */
  ghost predicate RowsOf(all: seq<Row>, data: Summary, done: set<string>, cats: set<string>)
  {
    && (forall i :: 0 <= i < |all| ==> all[i].period in done && all[i].period in data)
    && (forall i :: 0 <= i < |all| ==> all[i].values == FilledValues(data[all[i].period], cats))
    && (forall p :: p in done ==> exists i :: 0 <= i < |all| && all[i].period == p)
  }

  /** After the insertion, every period done so far, and the new one, has its row. */
  lemma InsertCovers(before: seq<Row>, row: Row, all: seq<Row>, done: set<string>)
    requires forall p :: p in done ==> exists i :: 0 <= i < |before| && before[i].period == p
    requires row in all && forall i :: 0 <= i < |before| ==> before[i] in all
    ensures forall p :: p in done + {row.period} ==> exists i :: 0 <= i < |all| && all[i].period == p
  {
    forall q | q in done + {row.period}
      ensures exists i :: 0 <= i < |all| && all[i].period == q
    {
      if q == row.period {
        var i :| 0 <= i < |all| && all[i] == row;
      } else {
        var j :| 0 <= j < |before| && before[j].period == q;
        var i :| 0 <= i < |all| && all[i] == before[j];
      }
    }
  }

  /** After the insertion, every row is a filled row of a period done so far or the new one. */
  lemma InsertFilled(before: seq<Row>, row: Row, all: seq<Row>, data: Summary, done: set<string>, cats: set<string>)
    requires forall i :: 0 <= i < |before| ==> before[i].period in done && before[i].period in data
    requires forall i :: 0 <= i < |before| ==> before[i].values == FilledValues(data[before[i].period], cats)
    requires row.period in data && row.values == FilledValues(data[row.period], cats)
    requires forall x :: x in all ==> x in before || x == row
    ensures forall i :: 0 <= i < |all| ==> all[i].period in done + {row.period} && all[i].period in data
    ensures forall i :: 0 <= i < |all| ==> all[i].values == FilledValues(data[all[i].period], cats)
  {
    forall i | 0 <= i < |all|
      ensures all[i].period in done + {row.period} && all[i].period in data
      ensures all[i].values == FilledValues(data[all[i].period], cats)
    {
      assert all[i] in all;
      if all[i] != row {
        var j :| 0 <= j < |before| && before[j] == all[i];
      }
    }
  }

  /** Inserting the filled row of a new period keeps the rows sorted and one per period done. */
  lemma InsertStep(before: seq<Row>, row: Row, data: Summary, done: set<string>, cats: set<string>)
    requires SortedRows(before) && RowsOf(before, data, done, cats)
    requires row.period in data && row.period !in done && row.values == FilledValues(data[row.period], cats)
    ensures forall i :: 0 <= i < |before| ==> before[i].period != row.period
    ensures SortedRows(InsertRow(before, row)) && RowsOf(InsertRow(before, row), data, done + {row.period}, cats)
  {
    var all := InsertRow(before, row);
    InsertCovers(before, row, all, done);
    InsertFilled(before, row, all, data, done, cats);
  }

  /** The loop step of the row build: inserting the row of a remaining period moves that period from remaining to done. */
  lemma InsertPeriodStep(before: seq<Row>, row: Row, data: Summary, remaining: set<string>, cats: set<string>)
    requires remaining <= data.Keys && row.period in remaining
    requires SortedRows(before) && RowsOf(before, data, data.Keys - remaining, cats)
    requires row.values == FilledValues(data[row.period], cats)
    ensures forall i :: 0 <= i < |before| ==> before[i].period != row.period
    ensures SortedRows(InsertRow(before, row)) && RowsOf(InsertRow(before, row), data, data.Keys - (remaining - {row.period}), cats)
  {
    InsertStep(before, row, data, data.Keys - remaining, cats);
    assert data.Keys - remaining + {row.period} == data.Keys - (remaining - {row.period});
  }

  /** Of sorted rows, the ones that `slice(-n)` drops all sort before the ones it keeps. */
  lemma DroppedAreEarlier(all: seq<Row>, n: nat, j: nat)
    requires SortedRows(all) && j < |all|
    requires forall i :: 0 <= i < |LastN(all, n)| ==> LastN(all, n)[i].period != all[j].period
    ensures forall i :: 0 <= i < |LastN(all, n)| ==> LexLess(all[j].period, LastN(all, n)[i].period)
  {
    var rows := LastN(all, n);
    var k := |all| - |rows|;
    if j >= k {
      assert false;
    }
    forall i | 0 <= i < |rows|
      ensures LexLess(all[j].period, rows[i].period)
    {
      assert rows[i] == all[k + i];
    }
  }

  /** Every period of `data` that no row shows sorts before every row. */
  ghost predicate OnlyEarlierDropped(data: Summary, rows: seq<Row>)
  {
    forall p :: p in data && (forall i :: 0 <= i < |rows| ==> rows[i].period != p) ==>
      forall i :: 0 <= i < |rows| ==> LexLess(p, rows[i].period)
  }

  /** Every row shows a period of `data`, filled over `cats`. */
  ghost predicate FilledRows(data: Summary, rows: seq<Row>, cats: set<string>)
  {
    forall i :: 0 <= i < |rows| ==> rows[i].period in data && rows[i].values == FilledValues(data[rows[i].period], cats)
  }

  /** One row per period of `data`, filled over `cats`, in ascending order of period key. */
  method SortedPeriodRows(data: Summary, cats: set<string>) returns (all: seq<Row>)
    ensures |all| == |data|
    ensures SortedRows(all) && RowsOf(all, data, data.Keys, cats)
  {
    all := [];
    var remaining := data.Keys;
    while remaining != {}
      invariant remaining <= data.Keys
      invariant |all| + |remaining| == |data.Keys|
      invariant SortedRows(all) && RowsOf(all, data, data.Keys - remaining, cats)
      decreases |remaining|
    {
      var p :| p in remaining;
      var row := FillRow(p, data[p], cats);
      assert row.values == FilledValues(data[p], cats);
      InsertPeriodStep(all, row, data, remaining, cats);
      all := InsertRow(all, row);
      remaining := remaining - {p};
    }
    assert data.Keys - remaining == data.Keys;
  }

  /**
   * The chart rows: one per period, filled over the chart categories, sorted by
   * period key, keeping the latest `MaxPeriods(view)`; every dropped period sorts
   * before every kept one.
   */
  method ChartData(data: Summary, view: ViewType) returns (cats: set<string>, rows: seq<Row>)
    ensures cats == ChartCategories(data)
    ensures |rows| == Min(|data|, MaxPeriods(view))
    ensures SortedRows(rows) && FilledRows(data, rows, cats)
    ensures OnlyEarlierDropped(data, rows)
  {
    cats := CollectCategories(data);
    var all := SortedPeriodRows(data, cats);
    rows := LastN(all, MaxPeriods(view));
    KeepLatestSorted(all, MaxPeriods(view));
    KeepLatestFilled(all, MaxPeriods(view), data, cats);
    KeepLatestDropsEarlier(all, MaxPeriods(view), data, cats);
  }

  lemma KeepLatestSorted(all: seq<Row>, n: nat)
    requires SortedRows(all)
    ensures SortedRows(LastN(all, n))
  {
    var rows := LastN(all, n);
    forall i, j | 0 <= i < j < |rows|
      ensures LexLess(rows[i].period, rows[j].period)
    {
      assert rows[i] == all[|all| - |rows| + i] && rows[j] == all[|all| - |rows| + j];
    }
  }

  lemma KeepLatestFilled(all: seq<Row>, n: nat, data: Summary, cats: set<string>)
    requires RowsOf(all, data, data.Keys, cats)
    ensures FilledRows(data, LastN(all, n), cats)
  {
    var rows := LastN(all, n);
    forall i | 0 <= i < |rows|
      ensures rows[i].period in data && rows[i].values == FilledValues(data[rows[i].period], cats)
    {
      assert rows[i] == all[|all| - |rows| + i];
    }
  }

  /** Of the sorted rows of every period, `slice(-n)` drops only periods earlier than all it keeps. */
  lemma KeepLatestDropsEarlier(all: seq<Row>, n: nat, data: Summary, cats: set<string>)
    requires SortedRows(all) && RowsOf(all, data, data.Keys, cats)
    ensures OnlyEarlierDropped(data, LastN(all, n))
  {
    var rows := LastN(all, n);
    forall p | p in data && (forall i :: 0 <= i < |rows| ==> rows[i].period != p)
      ensures forall i :: 0 <= i < |rows| ==> LexLess(p, rows[i].period)
    {
      var j :| 0 <= j < |all| && all[j].period == p;
      DroppedAreEarlier(all, n, j);
    }
  }

  /** The chart is empty, and shows its "no data" message, exactly when the summary has no periods. */
  lemma NoDataIffEmpty(data: Summary, view: ViewType, rows: seq<Row>)
    requires |rows| == Min(|data|, MaxPeriods(view))
    ensures rows == [] <==> data == map[]
  {
    if data != map[] {
      var p :| p in data;
      assert |data| >= 1;
    }
  }

  /** The weekly axis label: the first "W" becomes "Week ". */
  function WeeklyLabel(value: string): string
  {
    ReplaceFirst(value, 'W', "Week ")
  }

  /** A weekly key `{year}-{month}-W{week}` is labelled `{year}-{month}-Week {week}`. */
  lemma WeeklyLabelOfKey(y: nat, m: nat, w: nat)
    ensures WeeklyLabel(NatToString(y) + "-" + NatToString(m) + "-W" + NatToString(w))
         == NatToString(y) + "-" + NatToString(m) + "-Week " + NatToString(w)
  {
    WeeklyLabelOfFields(NatToString(y), NatToString(m), NatToString(w));
  }

  /** A year and month of digits, with their dashes, hold no "W". */
  lemma DatePrefixHasNoW(year: string, month: string)
    requires AllDigits(year) && AllDigits(month)
    ensures 'W' !in year + "-" + month + "-"
  {
    DigitsHaveNoLetter(year, 'W');
    DigitsHaveNoLetter(month, 'W');
  }

  lemma WeeklyLabelOfFields(year: string, month: string, week: string)
    requires AllDigits(year) && AllDigits(month)
    ensures WeeklyLabel(year + "-" + month + "-W" + week) == year + "-" + month + "-Week " + week
  {
    var ym := year + "-" + month;
    var prefix := ym + "-";
    DatePrefixHasNoW(year, month);
    ReplaceFirstAfter(prefix, 'W', week, "Week ");
    assert ym + "-W" == prefix + ['W'];
    assert ym + "-Week " == prefix + "Week ";
  }

  const FallbackColor: string := "#6b7280"

  /** The bar colour of a category: its palette entry, else grey ("Income" has none). */
  function BarColor(category: string): string
  {
    if category == "Food & Dining" then "#f97316"
    else if category == "Transport & Mobility" then "#3b82f6"
    else if category == "Bills & Utilities" then "#8b5cf6"
    else if category == "Shopping & Entertainment" then "#ec4899"
    else if category == "Other" then "#6b7280"
    else FallbackColor
  }

  /**
   * The four spending categories have four distinct colours, and every other
   * category, "Other" and unknown ones alike, is drawn grey.
   */
  lemma BarColors(a: string, b: string)
    ensures var coloured := ["Food & Dining", "Transport & Mobility", "Bills & Utilities", "Shopping & Entertainment"];
      && (BarColor(a) == FallbackColor <==> a !in coloured)
      && (a in coloured && b in coloured && BarColor(a) == BarColor(b) ==> a == b)
  {
  }
}

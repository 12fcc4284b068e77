/**
 * The backend's transaction store: one database document holding users,
 * transactions and imports; append-only insertion, the date-window query with its
 * newest-first stable sort, the count, and the two id formats.
 */
module Store {
  import opened Basics
  import opened Text
  import opened Models

  // ---------------------------------------------------------------------------
  // The date-window query, specified
  // ---------------------------------------------------------------------------

  /** The transactions dated exactly `d`, in their order. */
  function WithDate(ts: seq<Transaction>, d: string): seq<Transaction>
  {
    if ts == [] then []
    else WithDate(ts[..|ts| - 1], d) + (if ts[|ts| - 1].date == d then [ts[|ts| - 1]] else [])
  }

  lemma WithDateSnoc(ts: seq<Transaction>, t: Transaction, d: string)
    ensures WithDate(ts + [t], d) == WithDate(ts, d) + (if t.date == d then [t] else [])
  {
    assert (ts + [t])[..|ts|] == ts;
  }

  /** Newest first: dates never increase along the list (string order). */
  predicate NewestFirst(ts: seq<Transaction>)
  {
    forall i, j :: 0 <= i < j < |ts| ==> LexLe(ts[j].date, ts[i].date)
  }

  /**
   * `r` is `ts` stably sorted newest first: ordered by date, and the transactions
   * of each date are those of `ts`, in the same order.
   */
  ghost predicate StablySortedFrom(r: seq<Transaction>, ts: seq<Transaction>)
  {
    NewestFirst(r) && forall d :: WithDate(r, d) == WithDate(ts, d)
  }

  /** A string bound given and non-empty; `None` and "" both mean no bound, as Python's truthiness test does. */
  predicate Given(bound: Option<string>)
  {
    bound.Some? && bound.value != ""
  }

  /** The dates the query keeps: not before `start` and not after `end`, each only when given. */
  predicate InWindow(d: string, start: Option<string>, end: Option<string>)
  {
    (!Given(start) || LexLe(start.value, d)) && (!Given(end) || LexLe(d, end.value))
  }

  // ---------------------------------------------------------------------------
  // Filtering and the stable sort
  // ---------------------------------------------------------------------------

  /** The transactions whose date `keep` accepts, in their order (a list comprehension). */
  function FilterDates(ts: seq<Transaction>, keep: string -> bool): (r: seq<Transaction>)
    ensures |r| <= |ts|
    ensures forall i :: 0 <= i < |r| ==> keep(r[i].date) && r[i] in ts
  {
    if ts == [] then []
    else
      var init := FilterDates(ts[..|ts| - 1], keep);
      assert forall x :: x in ts[..|ts| - 1] ==> x in ts;
      init + (if keep(ts[|ts| - 1].date) then [ts[|ts| - 1]] else [])
  }

  /** Filtering by date keeps each date's transactions all together or not at all. */
  lemma {:induction false} FilterWithDate(ts: seq<Transaction>, keep: string -> bool, d: string)
    ensures WithDate(FilterDates(ts, keep), d) == if keep(d) then WithDate(ts, d) else []
  {
    if ts != [] {
      var init, t := ts[..|ts| - 1], ts[|ts| - 1];
      var kept := FilterDates(init, keep);
      FilterWithDate(init, keep, d);
      assert ts == init + [t];
      WithDateSnoc(init, t, d);
      if keep(t.date) {
        assert FilterDates(ts, keep) == kept + [t];
        WithDateSnoc(kept, t, d);
      } else {
        assert FilterDates(ts, keep) == kept + [];
        assert kept + [] == kept;
      }
    }
  }

  /** Places `x` after every transaction not older than it: stable insertion into a newest-first list. */
  function InsertNewestFirst(s: seq<Transaction>, x: Transaction): (r: seq<Transaction>)
    ensures |r| == |s| + 1
    ensures forall y :: y in r ==> y in s || y == x
  {
    if s == [] || LexLe(x.date, s[|s| - 1].date) then s + [x]
    else
      assert s == s[..|s| - 1] + [s[|s| - 1]];
      InsertNewestFirst(s[..|s| - 1], x) + [s[|s| - 1]]
  }

  lemma {:induction false} InsertKeepsOrder(s: seq<Transaction>, x: Transaction)
    requires NewestFirst(s)
    ensures NewestFirst(InsertNewestFirst(s, x))
  {
    if s != [] && !LexLe(x.date, s[|s| - 1].date) {
      var init, last := s[..|s| - 1], s[|s| - 1];
      LexTrichotomy(x.date, last.date);
      InsertKeepsOrder(init, x);
      var head := InsertNewestFirst(init, x);
      forall y | y in head
        ensures LexLe(last.date, y.date)
      {
        if y in init {
          var i :| 0 <= i < |init| && init[i] == y;
          assert s[i] == y;
        }
      }
      var r := head + [last];
      forall i, j | 0 <= i < j < |r|
        ensures LexLe(r[j].date, r[i].date)
      {
        if j < |head| {
          assert r[i] == head[i] && r[j] == head[j];
        } else {
          assert r[i] in head;
        }
      }
    } else if s != [] {
      var r := s + [x];
      forall i, j | 0 <= i < j < |r|
        ensures LexLe(r[j].date, r[i].date)
      {
        if j == |s| {
          if i < |s| - 1 {
            assert LexLe(s[|s| - 1].date, s[i].date);
            LexLeTransitive(x.date, s[|s| - 1].date, s[i].date);
          }
        }
      }
    }
  }

  /** Inserting `x` adds it at the end of its own date's transactions and changes no other date's. */
  lemma {:induction false} InsertWithDate(s: seq<Transaction>, x: Transaction, d: string)
    ensures WithDate(InsertNewestFirst(s, x), d) == WithDate(s, d) + (if x.date == d then [x] else [])
  {
    if s == [] || LexLe(x.date, s[|s| - 1].date) {
      WithDateSnoc(s, x, d);
    } else {
      var init, last := s[..|s| - 1], s[|s| - 1];
      InsertWithDate(init, x, d);
      WithDateSnoc(InsertNewestFirst(init, x), last, d);
      assert s == init + [last];
      WithDateSnoc(init, last, d);
      assert x.date != last.date;
    }
  }

  /** Insertion neither drops nor duplicates: the result holds `s` and exactly one more `x`. */
  lemma {:induction false} InsertNewestFirstMultiset(s: seq<Transaction>, x: Transaction)
    ensures multiset(InsertNewestFirst(s, x)) == multiset(s) + multiset{x}
  {
    if s != [] && !LexLe(x.date, s[|s| - 1].date) {
      var init, last := s[..|s| - 1], s[|s| - 1];
      InsertNewestFirstMultiset(init, x);
      assert s == init + [last];
      assert multiset(s) == multiset(init) + multiset{last};
    }
  }

  /** The loop step of the sort: inserting transaction `i` sorts the first `i + 1` stably. */
  lemma SortPrefixStep(r: seq<Transaction>, ts: seq<Transaction>, i: nat)
    requires i < |ts| && StablySortedFrom(r, ts[..i])
    ensures StablySortedFrom(InsertNewestFirst(r, ts[i]), ts[..i + 1])
  {
    InsertKeepsOrder(r, ts[i]);
    assert ts[..i + 1] == ts[..i] + [ts[i]];
    forall d
      ensures WithDate(InsertNewestFirst(r, ts[i]), d) == WithDate(ts[..i + 1], d)
    {
      InsertWithDate(r, ts[i], d);
      WithDateSnoc(ts[..i], ts[i], d);
    }
  }

  /** Sorting newest first, stably, one transaction at a time. */
  method SortNewestFirst(ts: seq<Transaction>) returns (r: seq<Transaction>)
    ensures StablySortedFrom(r, ts)
  {
    r := [];
    var i := 0;
    while i < |ts|
      invariant 0 <= i <= |ts|
      invariant StablySortedFrom(r, ts[..i])
    {
      SortPrefixStep(r, ts, i);
      r := InsertNewestFirst(r, ts[i]);
      i := i + 1;
    }
    assert ts[..i] == ts;
  }

  /** A stable newest-first order of a list is unique. */
  lemma {:induction false} StableSortUnique(r1: seq<Transaction>, r2: seq<Transaction>, ts: seq<Transaction>)
    requires StablySortedFrom(r1, ts) && StablySortedFrom(r2, ts)
    ensures r1 == r2
  {
    SameClassesSameLength(r1, r2);
    if r1 != [] {
      var n := |r1|;
      var a, b := r1[n - 1], r2[n - 1];
      // the last element of each is the last of the oldest date's transactions
      OldestLast(r1, r2, a, b);
      var i1, i2 := r1[..n - 1], r2[..n - 1];
      assert r1 == i1 + [a] && r2 == i2 + [a];
      forall d
        ensures WithDate(i1, d) == WithDate(i2, d)
      {
        WithDateSnoc(i1, a, d);
        WithDateSnoc(i2, a, d);
        assert WithDate(r1, d) == WithDate(ts, d) == WithDate(r2, d);
        var tail := if a.date == d then [a] else [];
        assert (WithDate(i1, d) + tail)[..|WithDate(i1, d)|] == WithDate(i1, d);
        assert (WithDate(i2, d) + tail)[..|WithDate(i2, d)|] == WithDate(i2, d);
      }
      assert NewestFirst(i1) && NewestFirst(i2) by {
        assert forall i :: 0 <= i < n - 1 ==> i1[i] == r1[i] && i2[i] == r2[i];
      }
      StableSortUnique(i1, i2, i1);
    }
  }

  /** Two lists with the same transactions date by date hold the same transactions, as often. */
  lemma SameClassesSameMultiset(r1: seq<Transaction>, r2: seq<Transaction>)
    requires forall d :: WithDate(r1, d) == WithDate(r2, d)
    ensures multiset(r1) == multiset(r2)
  {
    WithDateMultiset(r1);
    WithDateMultiset(r2);
    forall x
      ensures multiset(r1)[x] == multiset(r2)[x]
    {
      assert WithDate(r1, x.date) == WithDate(r2, x.date);
    }
  }

  /** Two lists with the same transactions date by date have the same length. */
  lemma SameClassesSameLength(r1: seq<Transaction>, r2: seq<Transaction>)
    requires forall d :: WithDate(r1, d) == WithDate(r2, d)
    ensures |r1| == |r2|
  {
    SameClassesSameMultiset(r1, r2);
    assert |multiset(r1)| == |multiset(r2)|;
  }

  /** Every transaction of a list is among those of its own date, as often. */
  lemma {:induction false} WithDateMultiset(ts: seq<Transaction>)
    ensures forall x :: multiset(ts)[x] == multiset(WithDate(ts, x.date))[x]
  {
    if ts != [] {
      var init, t := ts[..|ts| - 1], ts[|ts| - 1];
      WithDateMultiset(init);
      assert ts == init + [t];
      forall x
        ensures multiset(ts)[x] == multiset(WithDate(ts, x.date))[x]
      {
        WithDateSnoc(init, t, x.date);
      }
    }
  }

  /** In two newest-first lists with the same transactions date by date, the last elements agree. */
  lemma OldestLast(r1: seq<Transaction>, r2: seq<Transaction>, a: Transaction, b: Transaction)
    requires NewestFirst(r1) && NewestFirst(r2) && |r1| == |r2| > 0
    requires forall d :: WithDate(r1, d) == WithDate(r2, d)
    requires a == r1[|r1| - 1] && b == r2[|r2| - 1]
    ensures a == b
  {
    LastOfDate(r1);
    LastOfDate(r2);
    NotOlderThanLast(r2, a.date);
    NotOlderThanLast(r1, b.date);
    LexAntisymmetric(a.date, b.date);
    assert WithDate(r1, a.date) == WithDate(r2, b.date);
  }

  /** The last transaction of a list is the last of its own date's. */
  lemma LastOfDate(r: seq<Transaction>)
    requires r != []
    ensures var w := WithDate(r, r[|r| - 1].date); w != [] && w[|w| - 1] == r[|r| - 1]
  {
  }

  /** In a newest-first list, every date that occurs is not older than the last transaction's. */
  lemma NotOlderThanLast(r: seq<Transaction>, d: string)
    requires NewestFirst(r) && r != [] && WithDate(r, d) != []
    ensures LexLe(r[|r| - 1].date, d)
  {
    var w := WithDate(r, d);
    WithDateMember(r, d, w[0]);
    var k :| 0 <= k < |r| && r[k] == w[0];
    if k < |r| - 1 {
      assert LexLe(r[|r| - 1].date, r[k].date);
    }
  }

  lemma {:induction false} WithDateMember(ts: seq<Transaction>, d: string, x: Transaction)
    requires x in WithDate(ts, d)
    ensures x in ts && x.date == d
  {
    var init := ts[..|ts| - 1];
    if x in WithDate(init, d) {
      WithDateMember(init, d, x);
      assert forall y :: y in init ==> y in ts;
    }
  }

  lemma LexAntisymmetric(a: string, b: string)
    requires LexLe(a, b) && LexLe(b, a)
    ensures a == b
  {
    if a != b { LexAsymmetric(a, b); }
  }

  /** A transaction is among its own date's transactions exactly when it is in the list. */
  lemma {:induction false} WithOwnDate(ts: seq<Transaction>, x: Transaction)
    ensures x in ts <==> x in WithDate(ts, x.date)
  {
    if ts != [] {
      var init, t := ts[..|ts| - 1], ts[|ts| - 1];
      WithOwnDate(init, x);
      assert ts == init + [t];
    }
  }

  // ---------------------------------------------------------------------------
  // Ids
  // ---------------------------------------------------------------------------

  /** "imp_" and the import's ordinal, zero-padded to at least three digits. */
  function ImportId(count: nat): (id: string)
    ensures |id| >= 7 && id[..4] == "imp_"
    ensures AllDigits(id[4..]) && ParseDigits(id[4..]) == count + 1
  {
    var digits := PadLeft(NatToString(count + 1), 3, '0');
    ParsePaddedNat(count + 1, 3);
    assert ("imp_" + digits)[4..] == digits;
    "imp_" + digits
  }

  /** Different import counts give different ids. */
  lemma ImportIdInjective(a: nat, b: nat)
    ensures ImportId(a) == ImportId(b) ==> a == b
  {
  }

  /** The first import of an empty database is "imp_001". */
  lemma FirstImportId()
    ensures ImportId(0) == "imp_001"
  {
    assert NatToString(1) == "1";
  }

  /** "t_" and the first eight characters of a random UUID. */
  function TransactionId(uuid: string): (id: string)
    ensures |id| >= 2 && id[..2] == "t_"
    ensures |uuid| >= 8 ==> |id| == 10 && id[2..] == uuid[..8]
  {
    "t_" + Take(uuid, 8)
  }

  // ---------------------------------------------------------------------------
  // The store
  // ---------------------------------------------------------------------------

  const LocalUser: User := User("u1", "Local User", "Asia/Jakarta")

  /** The database document the backend keeps; loading and saving it are not modelled. */
  class Database {
    var db: DatabaseModel

    /** A fresh database: the single local user, no transactions, no imports. */
    constructor()
      ensures db == DatabaseModel([LocalUser], [], [])
      ensures db.users[0] == NewUser("u1", "Local User")
    {
      db := DatabaseModel([LocalUser], [], []);
    }

    /** Appends the new transactions, in order, after the stored ones. */
    method AddTransactions(ts: seq<Transaction>)
      modifies this
      ensures db == old(db).(transactions := old(db.transactions) + ts)
      ensures db.transactions[..|old(db.transactions)|] == old(db.transactions)
    {
      db := db.(transactions := db.transactions + ts);
    }

    /** Appends one import record. */
    method AddImportRecord(record: Import)
      modifies this
      ensures db == old(db).(imports := old(db.imports) + [record])
    {
      db := db.(imports := db.imports + [record]);
    }

    /**
     * The stored transactions dated within the window (string comparison, a bound
     * skipped when absent or empty), newest first, transactions of the same date
     * in stored order.
     */
    method GetTransactions(start: Option<string>, end: Option<string>) returns (r: seq<Transaction>)
      ensures NewestFirst(r)
      ensures forall d :: WithDate(r, d) == if InWindow(d, start, end) then WithDate(db.transactions, d) else []
      ensures forall x :: x in r <==> x in db.transactions && InWindow(x.date, start, end)
    {
      var ts := db.transactions;
      ghost var stored := ts;
      if Given(start) {
        var keep := d => LexLe(start.value, d);
        forall d { FilterWithDate(ts, keep, d); }
        ts := FilterDates(ts, keep);
      }
      assert forall d :: WithDate(ts, d) == if !Given(start) || LexLe(start.value, d) then WithDate(stored, d) else [];
      if Given(end) {
        ghost var before := ts;
        var keep := d => LexLe(d, end.value);
        forall d { FilterWithDate(ts, keep, d); }
        ts := FilterDates(ts, keep);
        assert forall d :: WithDate(ts, d) == if LexLe(d, end.value) then WithDate(before, d) else [];
      }
      assert forall d :: WithDate(ts, d) == if InWindow(d, start, end) then WithDate(stored, d) else [];
      r := SortNewestFirst(ts);
      forall x
        ensures x in r <==> x in stored && InWindow(x.date, start, end)
      {
        WithOwnDate(r, x);
        WithOwnDate(stored, x);
      }
    }

    /** The number of stored transactions. */
    method GetTransactionCount() returns (n: nat)
      ensures n == |db.transactions|
    {
      n := |db.transactions|;
    }

    /** The id the next import record gets. */
    method GenerateImportId() returns (id: string)
      ensures id == ImportId(|db.imports|)
    {
      id := ImportId(|db.imports|);
    }
  }
}

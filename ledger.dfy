/**
 * Transactions as the dashboard pages receive them, weighted sums over a list of
 * them, and the headline figures (total income, total spend, net). The partition
 * lemma says that summing a weight group by group, over any list of distinct
 * groups that covers every transaction, gives the plain total: the conservation
 * law behind every summary the pages build.
 */
module Ledger {
  import opened Basics

  /** A transaction as the backend's `/transactions` endpoint returns it; positive amounts are income. */
  datatype Txn = Txn(id: string, date: string, amount: int, merchantCanonical: string, descriptionRaw: string,
                     category: string, isRecurring: bool)

  function Amount(t: Txn): int { t.amount }

  /** What a transaction adds to income: its amount when positive. */
  function IncomeOf(t: Txn): int { if t.amount > 0 then t.amount else 0 }

  /** What a transaction adds to spend: its magnitude when negative. */
  function SpendOf(t: Txn): int { if t.amount < 0 then -t.amount else 0 }

  function One(t: Txn): int { 1 }

  function CategoryKey(t: Txn): string { t.category }

  /** The sum of `w` over the list. */
  function Sum(ts: seq<Txn>, w: Txn -> int): int
  {
    if ts == [] then 0 else Sum(ts[..|ts| - 1], w) + w(ts[|ts| - 1])
  }

  /** The sum of `w` over the transactions whose group under `key` is `k`. */
  function SumWhere<K(==)>(ts: seq<Txn>, key: Txn -> K, k: K, w: Txn -> int): int
  {
    if ts == [] then 0
    else SumWhere(ts[..|ts| - 1], key, k, w) + (if key(ts[|ts| - 1]) == k then w(ts[|ts| - 1]) else 0)
  }

  /** Appending one transaction adds its weight to its own group and nothing to the others. */
  lemma SumWhereSnoc<K>(ts: seq<Txn>, t: Txn, key: Txn -> K, k: K, w: Txn -> int)
    ensures SumWhere(ts + [t], key, k, w) == SumWhere(ts, key, k, w) + (if key(t) == k then w(t) else 0)
  {
    assert (ts + [t])[..|ts|] == ts;
  }

  /** The group-by-group sums added up over a list of groups. */
  function SumOverKeys<K(==)>(ts: seq<Txn>, key: Txn -> K, keys: seq<K>, w: Txn -> int): int
  {
    if keys == [] then 0 else SumWhere(ts, key, keys[0], w) + SumOverKeys(ts, key, keys[1..], w)
  }

  /** What one transaction contributes to `SumOverKeys`. */
  function Hits<K(==)>(keys: seq<K>, k: K, x: int): int
  {
    if keys == [] then 0 else (if keys[0] == k then x else 0) + Hits(keys[1..], k, x)
  }

  lemma {:induction false} HitsOnce<K>(keys: seq<K>, k: K, x: int)
    requires NoDuplicates(keys) && k in keys
    ensures Hits(keys, k, x) == x
  {
    if keys[0] == k {
      HitsNone(keys[1..], k, x);
    } else {
      HitsOnce(keys[1..], k, x);
    }
  }

  lemma {:induction false} HitsNone<K>(keys: seq<K>, k: K, x: int)
    requires k !in keys
    ensures Hits(keys, k, x) == 0
  {
    if keys != [] { HitsNone(keys[1..], k, x); }
  }

  lemma {:induction false} SumOverKeysSnoc<K>(ts: seq<Txn>, t: Txn, key: Txn -> K, keys: seq<K>, w: Txn -> int)
    ensures SumOverKeys(ts + [t], key, keys, w) == SumOverKeys(ts, key, keys, w) + Hits(keys, key(t), w(t))
  {
    if keys != [] {
      assert (ts + [t])[..|ts|] == ts;
      SumOverKeysSnoc(ts, t, key, keys[1..], w);
    }
  }

  /**
   * Conservation: over any duplicate-free list of groups that contains the group of
   * every transaction, the group sums add up to the total.
   */
  lemma {:induction false} Partition<K>(ts: seq<Txn>, key: Txn -> K, keys: seq<K>, w: Txn -> int)
    requires NoDuplicates(keys)
    requires forall i :: 0 <= i < |ts| ==> key(ts[i]) in keys
    ensures SumOverKeys(ts, key, keys, w) == Sum(ts, w)
  {
    if ts == [] {
      SumOverKeysEmpty(key, keys, w);
    } else {
      var init, t := ts[..|ts| - 1], ts[|ts| - 1];
      assert ts == init + [t];
      Partition(init, key, keys, w);
      SumOverKeysSnoc(init, t, key, keys, w);
      HitsOnce(keys, key(t), w(t));
    }
  }

  lemma {:induction false} SumOverKeysEmpty<K>(key: Txn -> K, keys: seq<K>, w: Txn -> int)
    ensures SumOverKeys([], key, keys, w) == 0
  {
    if keys != [] { SumOverKeysEmpty(key, keys[1..], w); }
  }

  lemma {:induction false} SumNonNegative(ts: seq<Txn>, w: Txn -> int)
    requires forall t :: w(t) >= 0
    ensures Sum(ts, w) >= 0
  {
    if ts != [] { SumNonNegative(ts[..|ts| - 1], w); }
  }

  lemma {:induction false} SumWhereNonNegative<K>(ts: seq<Txn>, key: Txn -> K, k: K, w: Txn -> int)
    requires forall t :: w(t) >= 0
    ensures SumWhere(ts, key, k, w) >= 0
  {
    if ts != [] { SumWhereNonNegative(ts[..|ts| - 1], key, k, w); }
  }

  /** Summing `One` counts. */
  lemma {:induction false} SumOneIsLength(ts: seq<Txn>)
    ensures Sum(ts, One) == |ts|
  {
    if ts != [] { SumOneIsLength(ts[..|ts| - 1]); }
  }

  /** Income minus spend, transaction by transaction, is the amount itself (zero amounts count for neither). */
  lemma {:induction false} IncomeMinusSpend(ts: seq<Txn>)
    ensures Sum(ts, IncomeOf) - Sum(ts, SpendOf) == Sum(ts, Amount)
  {
    if ts != [] { IncomeMinusSpend(ts[..|ts| - 1]); }
  }

  /** The three headline figures. */
  datatype Kpis = Kpis(totalIncome: int, totalSpend: int, net: int)

  /**
   * Total income is the sum of the positive amounts, total spend the sum of the
   * magnitudes of the negative ones, and net their difference.
   */
  function ComputeKpis(ts: seq<Txn>): (k: Kpis)
    ensures k.totalIncome >= 0 && k.totalSpend >= 0
    ensures k.net == k.totalIncome - k.totalSpend
    ensures k.net == Sum(ts, Amount)
  {
    SumNonNegative(ts, IncomeOf);
    SumNonNegative(ts, SpendOf);
    IncomeMinusSpend(ts);
    var income := Sum(ts, IncomeOf);
    var spend := Sum(ts, SpendOf);
    Kpis(income, spend, income - spend)
  }

  /** One income of 1,000,000 and one spend of 300,000 give a net of 700,000. */
  lemma KpiExample(a: Txn, b: Txn)
    requires a.amount == 1000000 && b.amount == -300000
    ensures ComputeKpis([a, b]) == Kpis(1000000, 300000, 700000)
  {
    assert [a, b][..1] == [a];
    assert [a][..0] == [];
    assert Sum([], IncomeOf) == 0 && Sum([], SpendOf) == 0;
    assert IncomeOf(a) == 1000000 && SpendOf(a) == 0 && IncomeOf(b) == 0 && SpendOf(b) == 300000;
    assert Sum([a], IncomeOf) == 1000000 && Sum([a], SpendOf) == 0;
    assert Sum([a, b], IncomeOf) == 1000000 && Sum([a, b], SpendOf) == 300000;
  }
}

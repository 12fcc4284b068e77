/**
 * The one-off repair pass that gives every stored transaction a new id: it draws
 * ids of the form "t_" + eight characters of a fresh UUID, redraws while the id
 * was already handed out in this pass, and rewrites each transaction's id in
 * place, so that afterwards the ids are pairwise distinct.
 *
 * The UUIDs are the sequence `uuids(0), uuids(1), ...` the generator yields; the
 * only thing assumed of it is that, as long as fewer ids are taken than there are
 * transactions, a fresh id eventually comes up.
 */
module FixIds {
  import opened Basics
  import opened Models
  import opened Store

  /** Some draw from position `p` on gives an id outside `used`. */
  ghost predicate FreshFrom(uuids: nat -> string, used: set<string>, p: nat)
  {
    exists q: nat :: p <= q && TransactionId(uuids(q)) !in used
  }

  /** Whenever fewer than `n` ids are taken, the generator eventually yields a fresh one. */
  ghost predicate EventuallyFresh(uuids: nat -> string, n: nat)
  {
    forall used: set<string>, p: nat :: |used| < n ==> FreshFrom(uuids, used, p)
  }

  /** The ids of the transactions. */
  ghost function IdsOf(ts: seq<Transaction>): set<string>
  {
    set j | 0 <= j < |ts| :: ts[j].id
  }

  /** No two transactions share an id. */
  ghost predicate DistinctIds(ts: seq<Transaction>)
  {
    forall i, j :: 0 <= i < j < |ts| ==> ts[i].id != ts[j].id
  }

  /** Appending a transaction with an id not yet taken keeps the ids distinct and adds that id. */
  lemma DistinctIdsSnoc(ts: seq<Transaction>, t: Transaction)
    requires DistinctIds(ts) && t.id !in IdsOf(ts)
    ensures DistinctIds(ts + [t]) && IdsOf(ts + [t]) == IdsOf(ts) + {t.id}
  {
    forall i, j | 0 <= i < j < |ts + [t]|
      ensures (ts + [t])[i].id != (ts + [t])[j].id
    {
      if j == |ts| {
        assert ts[i].id in IdsOf(ts);
      }
    }
    forall x | x in IdsOf(ts + [t])
      ensures x in IdsOf(ts) + {t.id}
    {
      var j :| 0 <= j < |ts + [t]| && (ts + [t])[j].id == x;
      if j < |ts| {
        assert ts[j].id == x;
      }
    }
    forall x | x in IdsOf(ts)
      ensures x in IdsOf(ts + [t])
    {
      var j :| 0 <= j < |ts| && ts[j].id == x;
      assert (ts + [t])[j].id == x;
    }
    assert (ts + [t])[|ts|].id == t.id;
  }

  /** Distinct ids are as many as the transactions. */
  lemma {:induction false} DistinctIdsCount(ts: seq<Transaction>)
    requires DistinctIds(ts)
    ensures |IdsOf(ts)| == |ts|
  {
    if ts != [] {
      var init := ts[..|ts| - 1];
      assert DistinctIds(init);
      DistinctIdsCount(init);
      assert ts == init + [ts[|ts| - 1]];
      assert ts[|ts| - 1].id !in IdsOf(init);
      DistinctIdsSnoc(init, ts[|ts| - 1]);
    }
  }

  /**
   * Draws ids from position `draws` on until one is not in `used`, and returns it
   * with the position after the draw that produced it.
   */
  method DrawFreshId(uuids: nat -> string, used: set<string>, draws: nat) returns (id: string, next: nat)
    requires FreshFrom(uuids, used, draws)
    ensures draws < next && id == TransactionId(uuids(next - 1)) && id !in used
  {
    ghost var target: nat :| draws <= target && TransactionId(uuids(target)) !in used;
    id := TransactionId(uuids(draws));
    next := draws + 1;
    while id in used
      invariant draws < next <= target + 1
      invariant id == TransactionId(uuids(next - 1))
      invariant id in used ==> next <= target
      decreases target + 1 - next
    {
      id := TransactionId(uuids(next));
      next := next + 1;
    }
  }

  /** `id` is one the generator can hand out. */
  ghost predicate Issued(uuids: nat -> string, id: string)
  {
    exists q: nat :: id == TransactionId(uuids(q))
  }

  /** `ts` is `orig` with only the ids changed. */
  ghost predicate OnlyIdsChanged(ts: seq<Transaction>, orig: seq<Transaction>)
  {
    |ts| == |orig| && forall j :: 0 <= j < |ts| ==> ts[j] == orig[j].(id := ts[j].id)
  }

  /** Every id of `ts` is one the generator handed out. */
  ghost predicate AllIssued(uuids: nat -> string, ts: seq<Transaction>)
  {
    forall j :: 0 <= j < |ts| ==> Issued(uuids, ts[j].id)
  }

  /** Giving transaction `i` a fresh issued id extends every fact the repair loop keeps by one. */
  lemma ReassignStep(uuids: nat -> string, before: seq<Transaction>, orig: seq<Transaction>, i: nat, t: Transaction)
    requires i < |before| && DistinctIds(before[..i]) && t.id !in IdsOf(before[..i])
    requires OnlyIdsChanged(before, orig) && before[i..] == orig[i..] && AllIssued(uuids, before[..i])
    requires t == before[i].(id := t.id) && Issued(uuids, t.id)
    ensures var after := before[i := t];
      && IdsOf(after[..i + 1]) == IdsOf(before[..i]) + {t.id} && DistinctIds(after[..i + 1])
      && OnlyIdsChanged(after, orig) && after[i + 1..] == orig[i + 1..] && AllIssued(uuids, after[..i + 1])
  {
    var after := before[i := t];
    DistinctIdsSnoc(before[..i], t);
    assert after[..i + 1] == before[..i] + [t];
    assert after[i + 1..] == before[i + 1..];
    assert before[i] == orig[i];
  }

  /**
   * The loop of the repair pass: gives every transaction a fresh id, in order,
   * keeping the set of ids handed out so far.
   */
  method ReassignIds(a: array<Transaction>, uuids: nat -> string) returns (fixedCount: nat)
    requires EventuallyFresh(uuids, a.Length)
    modifies a
    ensures fixedCount == a.Length && DistinctIds(a[..])
    ensures OnlyIdsChanged(a[..], old(a[..])) && AllIssued(uuids, a[..])
  {
    ghost var orig := a[..];
    var usedIds: set<string> := {};
    fixedCount := 0;
    var draws: nat := 0;
    for i := 0 to a.Length
      invariant fixedCount == i && usedIds == IdsOf(a[..i]) && DistinctIds(a[..i])
      invariant OnlyIdsChanged(a[..], orig) && a[i..] == orig[i..]
      invariant AllIssued(uuids, a[..i])
    {
      DistinctIdsCount(a[..i]);
      assert FreshFrom(uuids, usedIds, draws);
      var newId;
      newId, draws := DrawFreshId(uuids, usedIds, draws);
      ghost var before := a[..];
      var t := a[i].(id := newId);
      ReassignStep(uuids, before, orig, i, t);
      usedIds := usedIds + {newId};
      a[i] := t;
      fixedCount := fixedCount + 1;
      assert a[..] == before[i := t];
    }
    assert a[..a.Length] == a[..];
  }

  /**
   * Gives every transaction of the document a new id. A document without a
   * transaction list, or with an empty one, is left alone and not written back.
   */
  method FixDuplicateIds(transactions: Option<array<Transaction>>, uuids: nat -> string)
    returns (written: bool, fixedCount: nat)
    requires transactions.Some? ==> EventuallyFresh(uuids, transactions.value.Length)
    modifies if transactions.Some? then {transactions.value} else {}
    ensures transactions.None? || transactions.value.Length == 0 ==> !written && fixedCount == 0
    ensures transactions.Some? && transactions.value.Length > 0 ==>
      var a := transactions.value;
      && written && fixedCount == a.Length && DistinctIds(a[..])
      && OnlyIdsChanged(a[..], old(a[..])) && AllIssued(uuids, a[..])
  {
    if transactions.None? || transactions.value.Length == 0 {
      return false, 0;
    }
    fixedCount := ReassignIds(transactions.value, uuids);
    written := true;
  }

  /**
   * When every UUID the generator yields has at least eight characters, as the
   * 36-character text of a UUID does, every id handed out is "t_" and eight characters.
   */
  lemma {:induction false} IssuedIdShape(uuids: nat -> string, ts: seq<Transaction>)
    requires forall q: nat :: |uuids(q)| >= 8
    requires AllIssued(uuids, ts)
    ensures forall j :: 0 <= j < |ts| ==> |ts[j].id| == 10 && ts[j].id[..2] == "t_"
  {
    forall j | 0 <= j < |ts|
      ensures |ts[j].id| == 10 && ts[j].id[..2] == "t_"
    {
      assert Issued(uuids, ts[j].id);
      var q: nat :| ts[j].id == TransactionId(uuids(q));
    }
  }
}

/**
 * The ledger frame as `df_compare` and `main` change it: the count column is
 * reassigned and the last-time column updated in place on the ledger object,
 * then the new identifiers are appended and the result becomes the ledger.
 */
module LedgerState {
  import opened Records
  import opened BatchDedup
  import opened LedgerMerge
  import opened Reconciliation

  class Ledger {
    /** The ledger's rows, in the frame's order; the identifier is the frame's index. */
    var rows: seq<Record>

    /**
     * The frame is indexed by identifier: no identifier has two rows. The
     * workbook is read without checking this, so it is a condition the
     * methods preserve, not an invariant every ledger has.
     */
    ghost predicate Keyed()
      reads this
    {
      UniqueIds(rows)
    }

    /** The ledger as read from the workbook (line 133). */
    constructor (initial: seq<Record>)
      ensures rows == initial
    {
      rows := initial;
    }

    /**
     * Line 113: each ledger row's count plus the count of the batch row with
     * its identifier, a missing cell counting as 0 when the other is present.
     */
    method AddCounts(dup: seq<Record>)
      modifies this
      ensures rows == CountsAdded(old(rows), dup)
      ensures Ids(rows) == Ids(old(rows)) && (Keyed() <==> old(Keyed()))
    {
      rows := CountsAdded(rows, dup);
      SameIdColumnIds(rows, old(rows));
    }

    /** Line 114: `update` writes each last-time the column holds for a ledger identifier. */
    method UpdateLastTimes(lastTimes: map<Id, Time>)
      modifies this
      ensures rows == UpdateLastTime(old(rows), lastTimes)
      ensures Ids(rows) == Ids(old(rows)) && (Keyed() <==> old(Keyed()))
    {
      rows := UpdateLastTime(rows, lastTimes);
      SameIdColumnIds(rows, old(rows));
    }

    /** Line 117: the rows of new identifiers go after the ledger's rows. */
    method Append(added: seq<Record>)
      requires UniqueIds(added) && Ids(added) !! Ids(rows)
      modifies this
      ensures rows == old(rows) + added
      ensures Ids(rows) == Ids(old(rows)) + Ids(added)
      ensures old(Keyed()) ==> Keyed()
    {
      IdsAppend(rows, added);
      if Keyed() {
        UniqueAppend(rows, added);
      }
      rows := rows + added;
    }

    /**
     * Lines 102-118, with the caller taking the result as its ledger: the
     * batch is deduplicated, its rows split by whether the ledger has their
     * identifier, the ledger's counts and last-times updated in place from the
     * known ones, and the others appended.
     */
    method DfCompare(batch: seq<Record>)
      modifies this
      ensures rows == LedgerMerge.DfCompare(old(rows), batch)
      ensures Ids(rows) == Ids(old(rows)) + Ids(batch)
      ensures old(Keyed()) ==> Keyed()
      ensures old(Keyed()) ==> SumCounts(rows) == SumCounts(old(rows)) + |batch|
    {
      ghost var ledger := rows;
      var dd := SelfCompare(batch);
      var known := Ids(rows);
      var dup := WithInclude(dd, known, true);
      var added := WithInclude(dd, known, false);
      WithIncludeRows(dd, known, false);
      WithIncludeIds(dd, known, false);
      AddCounts(dup);
      UpdateLastTimes(LastTimeColumn(dup));
      Append(added);
      IdsAppend(ledger, added);
      if UniqueIds(ledger) {
        DfCompareCountSum(ledger, batch);
      }
    }

    /**
     * Lines 155-163: an empty ledger becomes the deduplicated batch; otherwise
     * the batch, its last-time and count cells blanked, is merged into it.
     * Counts that tallied some history tally it with the batch added.
     */
    method Reconcile(batch: seq<Record>)
      modifies this
      ensures rows == Reconciled(old(rows), batch)
      ensures old(Keyed()) ==> Keyed()
      ensures forall history :: Tallies(old(rows), history) ==> Tallies(rows, history + batch)
    {
      ghost var ledger := rows;
      if |rows| == 0 {
        rows := SelfCompare(rows + batch);
      } else {
        DfCompare(WithSentinels(batch));
      }
      ReconciledIsMerge(ledger, batch);
      if UniqueIds(ledger) {
        DfCompareKeys(ledger, batch);
      }
      forall history | Tallies(ledger, history) ensures Tallies(rows, history + batch) {
        ReconciledTallies(ledger, history, batch);
      }
    }
  }
}

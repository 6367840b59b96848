/**
 * The reconciliation step of `main`: a first run deduplicates the batch into
 * a new ledger, a later run blanks the batch's last-time and count columns
 * and merges it into the ledger with `df_compare`.
 */
module Reconciliation {
  import opened Wrappers
  import opened Records
  import opened BatchDedup
  import opened LedgerMerge

  /** Lines 160-161: the batch with an empty-string last-time and a missing count on every row. */
  function WithSentinels(batch: seq<Record>): (r: seq<Record>)
    ensures SameObservations(r, batch)
    ensures forall i :: 0 <= i < |r| ==> r[i].lastTime == Some("") && r[i].count.None?
  {
    seq(|batch|, i requires 0 <= i < |batch| => batch[i].(lastTime := Some(""), count := None))
  }

  /**
   * Lines 155-163: the ledger written back after one run. An empty ledger is
   * concatenated with the batch and deduplicated; otherwise the blanked batch
   * is merged into it.
   */
  function Reconciled(ledger: seq<Record>, batch: seq<Record>): (r: seq<Record>)
    ensures Ids(r) == Ids(ledger) + Ids(batch)
  {
    if |ledger| == 0 then
      IdsAppend(ledger, batch);
      SelfCompare(ledger + batch)
    else
      SameObservationsIds(WithSentinels(batch), batch);
      DfCompare(ledger, WithSentinels(batch))
  }

  /** The blanked cells never reach the result: `self_compare` overwrites both columns. */
  lemma SentinelsErased(batch: seq<Record>)
    ensures SelfCompare(WithSentinels(batch)) == SelfCompare(batch)
  {
    SelfCompareIgnoresLastAndCount(WithSentinels(batch), batch);
  }

  /**
   * Both branches of `main` compute `df_compare` of the ledger and the raw
   * batch: the first-run branch is the merge into an empty ledger.
   */
  lemma ReconciledIsMerge(ledger: seq<Record>, batch: seq<Record>)
    ensures Reconciled(ledger, batch) == DfCompare(ledger, batch)
  {
    if |ledger| == 0 {
      assert ledger + batch == batch;
      MergeIntoEmpty(SelfCompare(batch));
    } else {
      SentinelsErased(batch);
    }
  }

  /** A first run leaves one row per identifier of the batch, with its counts summing to the batch size. */
  lemma ReconciledFirstRun(batch: seq<Record>)
    ensures Reconciled([], batch) == SelfCompare(batch)
    ensures UniqueIds(Reconciled([], batch)) && Ids(Reconciled([], batch)) == Ids(batch)
    ensures SumCounts(Reconciled([], batch)) == |batch|
  {
    var ledger: seq<Record> := [];
    assert ledger + batch == batch;
    assert Reconciled(ledger, batch) == SelfCompare(batch);
    SelfCompareCounts(batch);
  }

  /**
   * A ledger keyed by the identifier stays keyed by it, gains one row per new
   * identifier of the batch, and its total count grows by the batch size.
   */
  lemma ReconciledInvariant(ledger: seq<Record>, batch: seq<Record>)
    requires UniqueIds(ledger)
    ensures UniqueIds(Reconciled(ledger, batch))
    ensures Ids(Reconciled(ledger, batch)) == Ids(ledger) + Ids(batch)
    ensures |Reconciled(ledger, batch)| == |ledger| + |Ids(batch) - Ids(ledger)|
    ensures SumCounts(Reconciled(ledger, batch)) == SumCounts(ledger) + |batch|
  {
    ReconciledIsMerge(ledger, batch);
    DfCompareKeys(ledger, batch);
    DfCompareCountSum(ledger, batch);
  }

  // ---------------------------------------------------------------------------
  // Across runs: the ledger tallies every row it has been fed.

  /**
   * `ledger` is keyed by identifier, has exactly the identifiers of
   * `history`, and each row's count is how many rows of `history` carry it.
   */
  ghost predicate Tallies(ledger: seq<Record>, history: seq<Record>)
  {
    && UniqueIds(ledger)
    && Ids(ledger) == Ids(history)
    && forall r :: r in ledger ==> r.count == Some(Occurrences(history, r.id))
  }

  lemma TalliesLedgerRow(ledger: seq<Record>, history: seq<Record>, batch: seq<Record>, i: nat)
    requires Tallies(ledger, history)
    requires i < |ledger|
    ensures i < |DfCompare(ledger, batch)|
    ensures var r := DfCompare(ledger, batch)[i];
      r.count.Some? && r.count.value == Occurrences(history + batch, r.id)
  {
    assert ledger[i] in ledger;
    DfCompareRowCount(ledger, batch, i);
    DfCompareCountKept(ledger, batch, i);
    SameIdColumnIds(DfCompare(ledger, batch)[..|ledger|], ledger);
    MergeIntoShape(ledger, SelfCompare(batch));
    assert DfCompare(ledger, batch)[i].id == ledger[i].id;
    OccurrencesAppend(history, batch, ledger[i].id);
  }

  lemma TalliesAppendedRow(ledger: seq<Record>, history: seq<Record>, batch: seq<Record>, k: nat)
    requires Tallies(ledger, history)
    requires |ledger| <= k < |DfCompare(ledger, batch)|
    ensures var r := DfCompare(ledger, batch)[k];
      r.count.Some? && r.count.value == Occurrences(history + batch, r.id)
  {
    var result := DfCompare(ledger, batch);
    var x := result[k];
    DfCompareAppended(ledger, batch);
    assert x == result[|ledger|..][k - |ledger|];
    SelfCompareRowCount(batch, x);
    OccurrencesAppend(history, batch, x.id);
    OccurrencesAbsent(history, x.id);
  }

  /** The count of one row of the merged ledger, by where the row comes from. */
  lemma DfCompareTalliesRow(ledger: seq<Record>, history: seq<Record>, batch: seq<Record>, k: nat)
    requires Tallies(ledger, history)
    requires k < |DfCompare(ledger, batch)|
    ensures var r := DfCompare(ledger, batch)[k];
      r.count.Some? && r.count.value == Occurrences(history + batch, r.id)
  {
    if k >= |ledger| {
      TalliesAppendedRow(ledger, history, batch, k);
    } else {
      TalliesLedgerRow(ledger, history, batch, k);
    }
  }

  /** Merging a batch into a ledger that tallies `history` gives one that tallies `history + batch`. */
  lemma DfCompareTallies(ledger: seq<Record>, history: seq<Record>, batch: seq<Record>)
    requires Tallies(ledger, history)
    ensures Tallies(DfCompare(ledger, batch), history + batch)
  {
    var result := DfCompare(ledger, batch);
    DfCompareKeys(ledger, batch);
    IdsAppend(history, batch);
    forall x | x in result ensures x.count == Some(Occurrences(history + batch, x.id)) {
      var k :| 0 <= k < |result| && result[k] == x;
      DfCompareTalliesRow(ledger, history, batch, k);
    }
  }

  /**
   * Run after run, the ledger counts every appearance of every identifier in
   * all the batches it was given, starting from an empty ledger.
   */
  lemma ReconciledTallies(ledger: seq<Record>, history: seq<Record>, batch: seq<Record>)
    requires Tallies(ledger, history)
    ensures Tallies(Reconciled(ledger, batch), history + batch)
  {
    ReconciledIsMerge(ledger, batch);
    DfCompareTallies(ledger, history, batch);
  }
}

/**
 * `df_compare`: merge a batch into a ledger that already has rows. The batch
 * is deduplicated with `self_compare`; its rows whose identifier the ledger
 * already has add their count to the ledger row's and overwrite its
 * last-time; its other rows are appended after the ledger's rows.
 */
module LedgerMerge {
  import opened Wrappers
  import opened Records
  import opened BatchDedup

  /**
   * The rows of `dd` whose `include` column (identifier among `ids`) equals
   * `flag`, in their order: `df[df['include']]` and `df[~df['include']]`.
   */
  function WithInclude(dd: seq<Record>, ids: set<Id>, flag: bool): (r: seq<Record>)
    ensures |r| <= |dd|
    ensures forall x :: x in r ==> x in dd && (x.id in ids) == flag
  {
    if dd == [] then []
    else (if (dd[0].id in ids) == flag then [dd[0]] else []) + WithInclude(dd[1..], ids, flag)
  }

  /** Selecting on the flag keeps exactly the flagged rows, and keeps them free of duplicate identifiers. */
  lemma {:induction false} WithIncludeRows(dd: seq<Record>, ids: set<Id>, flag: bool)
    ensures forall x :: x in WithInclude(dd, ids, flag) <==> x in dd && (x.id in ids) == flag
    ensures UniqueIds(dd) ==> UniqueIds(WithInclude(dd, ids, flag))
  {
    if dd != [] {
      WithIncludeRows(dd[1..], ids, flag);
      var head := if (dd[0].id in ids) == flag then [dd[0]] else [];
      var rest := WithInclude(dd[1..], ids, flag);
      assert dd == [dd[0]] + dd[1..];
      if UniqueIds(dd) {
        UniqueHeadFresh(dd);
        assert Ids(rest) <= Ids(dd[1..]) by {
          forall id | id in Ids(rest) ensures id in Ids(dd[1..]) {
            var x :| x in rest && x.id == id;
          }
        }
        assert Ids(head) <= {dd[0].id};
        UniqueAppend(head, rest);
      }
    }
  }

  lemma WithIncludeIds(dd: seq<Record>, ids: set<Id>, flag: bool)
    ensures Ids(WithInclude(dd, ids, flag)) == if flag then Ids(dd) * ids else Ids(dd) - ids
  {
    WithIncludeRows(dd, ids, flag);
    var w := WithInclude(dd, ids, flag);
    forall id | id in Ids(dd) && (id in ids) == flag ensures id in Ids(w) {
      var x :| x in dd && x.id == id;
      assert x in w;
    }
  }

  /** Selecting on the flag keeps the rows in the table's order. */
  lemma {:induction false} WithIncludeOrder(dd: seq<Record>, ids: set<Id>, flag: bool)
    ensures InOrder(dd, WithInclude(dd, ids, flag))
    decreases |dd|
  {
    if dd != [] {
      var rest := WithInclude(dd[1..], ids, flag);
      WithIncludeOrder(dd[1..], ids, flag);
      assert dd == [dd[0]] + dd[1..];
      if (dd[0].id in ids) == flag {
        WithIncludeRows(dd[1..], ids, flag);
        InOrderCons(dd[0], dd[1..], rest);
      } else {
        assert WithInclude(dd, ids, flag) == rest;
        InOrderShift(dd[0], dd[1..], rest);
      }
    }
  }

  /** Selecting on the flag from a table sorted by first-time leaves it sorted. */
  lemma {:induction false} WithIncludeSorted(dd: seq<Record>, ids: set<Id>, flag: bool)
    requires SortedByFirst(dd)
    ensures SortedByFirst(WithInclude(dd, ids, flag))
    decreases |dd|
  {
    if dd != [] {
      var rest := WithInclude(dd[1..], ids, flag);
      WithIncludeSorted(dd[1..], ids, flag);
      WithIncludeRows(dd[1..], ids, flag);
      if (dd[0].id in ids) == flag {
        forall y | y in rest ensures TimeLe(dd[0].firstTime, y.firstTime) {
          var j :| 0 <= j < |dd[1..]| && dd[1..][j] == y;
          assert dd[j + 1] == y;
        }
        SortedCons(dd[0], rest);
      } else {
        assert [] + rest == rest;
      }
    }
  }

  /** The flagged rows' count column aligned on the ledger's index: missing where `dup` lacks the identifier. */
  function CountOf(dup: seq<Record>, id: Id): (c: Option<nat>)
    ensures id !in Ids(dup) ==> c.None?
    ensures UniqueIds(dup) ==> forall x :: x in dup && x.id == id ==> c == x.count
  {
    if id in Ids(dup) then Lookup(dup, id).count else None
  }

  /**
   * Line 113: each ledger row's count plus the count of the flagged row with
   * its identifier, a missing cell taken as 0 unless both are missing.
   */
  function CountsAdded(rows: seq<Record>, dup: seq<Record>): (r: seq<Record>)
    ensures SameIdColumn(r, rows)
  {
    seq(|rows|, i requires 0 <= i < |rows| =>
      rows[i].(count := AddCount(rows[i].count, CountOf(dup, rows[i].id))))
  }

  /** `df_dup[LAST_TIME]` as `update` reads it: indexed by identifier, missing cells skipped. */
  function LastTimeColumn(dup: seq<Record>): (m: map<Id, Time>)
    ensures m.Keys <= Ids(dup)
  {
    map id | id in Ids(dup) && Lookup(dup, id).lastTime.Some? :: Lookup(dup, id).lastTime.value
  }

  /**
   * Line 113 row by row: a ledger row whose identifier the flagged rows carry
   * gets the two counts added; any other ledger row is left as it is.
   */
  lemma CountsAddedRows(rows: seq<Record>, dup: seq<Record>)
    ensures UniqueIds(dup) ==> forall i, x :: 0 <= i < |rows| && x in dup && x.id == rows[i].id ==>
      CountsAdded(rows, dup)[i] == rows[i].(count := AddCount(rows[i].count, x.count))
    ensures forall i :: 0 <= i < |rows| && rows[i].id !in Ids(dup) ==> CountsAdded(rows, dup)[i] == rows[i]
  {
  }

  /**
   * Line 114's column: each flagged row's last-time, under its identifier,
   * when it has one; identifiers whose cell is missing are absent, so
   * `update` leaves their ledger cell alone.
   */
  lemma LastTimeColumnRows(dup: seq<Record>)
    requires UniqueIds(dup)
    ensures forall x :: x in dup ==>
      (x.id in LastTimeColumn(dup) <==> x.lastTime.Some?) &&
      (x.lastTime.Some? ==> LastTimeColumn(dup)[x.id] == x.lastTime.value)
  {
  }

  /**
   * Lines 110-114 on the ledger's own rows: flag the rows of the deduplicated
   * batch `dd` whose identifier the ledger has, add their counts (line 113)
   * and write their last-times (line 114).
   */
  function MergeFront(ledger: seq<Record>, dd: seq<Record>): (r: seq<Record>)
    ensures SameIdColumn(r, ledger)
  {
    var dup := WithInclude(dd, Ids(ledger), true);
    UpdateLastTime(CountsAdded(ledger, dup), LastTimeColumn(dup))
  }

  /**
   * Lines 110-117 on the deduplicated batch `dd`: the updated ledger rows,
   * then the unflagged rows appended (lines 116-117).
   */
  function MergeInto(ledger: seq<Record>, dd: seq<Record>): (r: seq<Record>)
    ensures |r| >= |ledger|
    ensures Ids(r) == Ids(ledger) + Ids(dd)
  {
    var front := MergeFront(ledger, dd);
    var tail := WithInclude(dd, Ids(ledger), false);
    SameIdColumnIds(front, ledger);
    WithIncludeIds(dd, Ids(ledger), false);
    IdsAppend(front, tail);
    front + tail
  }

  /**
   * `df_compare(ledger, batch)`: deduplicate the batch (line 108), then merge.
   * The ledger's rows stay first and the identifiers become those of both.
   */
  function DfCompare(ledger: seq<Record>, batch: seq<Record>): (r: seq<Record>)
    ensures |r| >= |ledger|
    ensures Ids(r) == Ids(ledger) + Ids(batch)
  {
    MergeInto(ledger, SelfCompare(batch))
  }

  // ---------------------------------------------------------------------------
  // The merge step, for any deduplicated batch.

  lemma MergeIntoShape(ledger: seq<Record>, dd: seq<Record>)
    ensures |MergeInto(ledger, dd)| >= |ledger|
    ensures MergeInto(ledger, dd)[..|ledger|] == MergeFront(ledger, dd)
    ensures SameIdColumn(MergeInto(ledger, dd)[..|ledger|], ledger)
    ensures MergeInto(ledger, dd)[|ledger|..] == WithInclude(dd, Ids(ledger), false)
  {
    var front := MergeFront(ledger, dd);
    var tail := WithInclude(dd, Ids(ledger), false);
    assert MergeInto(ledger, dd) == front + tail;
    assert (front + tail)[..|ledger|] == front;
    assert (front + tail)[|ledger|..] == tail;
  }

  lemma MergeFrontKnown(ledger: seq<Record>, dd: seq<Record>, i: nat, x: Record)
    requires UniqueIds(dd) && i < |ledger| && x in dd && x.id == ledger[i].id
    ensures MergeFront(ledger, dd)[i] == ledger[i].(
      count := AddCount(ledger[i].count, x.count),
      lastTime := if x.lastTime.Some? then x.lastTime else ledger[i].lastTime)
  {
    var dup := WithInclude(dd, Ids(ledger), true);
    WithIncludeRows(dd, Ids(ledger), true);
    assert ledger[i] in ledger;
    assert x in dup;
    CountsAddedRows(ledger, dup);
    LastTimeColumnRows(dup);
  }

  lemma MergeFrontOther(ledger: seq<Record>, dd: seq<Record>, i: nat)
    requires i < |ledger| && ledger[i].id !in Ids(dd)
    ensures MergeFront(ledger, dd)[i] == ledger[i]
  {
    var dup := WithInclude(dd, Ids(ledger), true);
    WithIncludeIds(dd, Ids(ledger), true);
    assert ledger[i].id !in Ids(dup);
    CountsAddedRows(ledger, dup);
    assert ledger[i].id !in LastTimeColumn(dup);
  }

  /** A ledger row whose identifier `dd` has takes that row's count (added) and last-time (if set). */
  lemma MergeIntoKnown(ledger: seq<Record>, dd: seq<Record>, i: nat, x: Record)
    requires UniqueIds(dd) && i < |ledger| && x in dd && x.id == ledger[i].id
    ensures i < |MergeInto(ledger, dd)|
    ensures MergeInto(ledger, dd)[i] == ledger[i].(
      count := AddCount(ledger[i].count, x.count),
      lastTime := if x.lastTime.Some? then x.lastTime else ledger[i].lastTime)
  {
    MergeIntoShape(ledger, dd);
    assert MergeInto(ledger, dd)[i] == MergeInto(ledger, dd)[..|ledger|][i];
    MergeFrontKnown(ledger, dd, i, x);
  }

  /** The same, for a deduplicated row whose count and last-time are both set. */
  lemma MergeIntoKnownSet(ledger: seq<Record>, dd: seq<Record>, i: nat, x: Record, n: nat, t: Time)
    requires UniqueIds(dd) && i < |ledger| && x in dd && x.id == ledger[i].id
    requires x.count == Some(n) && x.lastTime == Some(t)
    ensures i < |MergeInto(ledger, dd)|
    ensures var r := MergeInto(ledger, dd)[i];
      && r == ledger[i].(count := r.count, lastTime := Some(t))
      && r.count.Some? && r.count.value == ledger[i].count.GetOr(0) + n
  {
    MergeIntoKnown(ledger, dd, i, x);
  }

  /** A ledger row whose identifier `dd` lacks is left as it was. */
  lemma MergeIntoOther(ledger: seq<Record>, dd: seq<Record>, i: nat)
    requires i < |ledger| && ledger[i].id !in Ids(dd)
    ensures i < |MergeInto(ledger, dd)| && MergeInto(ledger, dd)[i] == ledger[i]
  {
    MergeIntoShape(ledger, dd);
    assert MergeInto(ledger, dd)[i] == MergeInto(ledger, dd)[..|ledger|][i];
    MergeFrontOther(ledger, dd, i);
  }

  /** Appending rows with new identifiers to a keyed table keeps it keyed. */
  lemma KeyedAppend(front: seq<Record>, ledger: seq<Record>, added: seq<Record>, dd: seq<Record>)
    requires SameIdColumn(front, ledger) && UniqueIds(ledger)
    requires UniqueIds(added) && Ids(added) == Ids(dd) - Ids(ledger)
    ensures UniqueIds(front + added)
    ensures Ids(front + added) == Ids(ledger) + Ids(dd)
    ensures |front + added| == |ledger| + |Ids(dd) - Ids(ledger)|
  {
    SameIdColumnIds(front, ledger);
    UniqueAppend(front, added);
    IdsAppend(front, added);
    UniqueIdsCardinality(added);
  }

  /** Merging a keyed table into a keyed ledger gives a keyed table over both key sets. */
  lemma MergeIntoKeys(ledger: seq<Record>, dd: seq<Record>)
    requires UniqueIds(ledger) && UniqueIds(dd)
    ensures UniqueIds(MergeInto(ledger, dd))
    ensures Ids(MergeInto(ledger, dd)) == Ids(ledger) + Ids(dd)
    ensures |MergeInto(ledger, dd)| == |ledger| + |Ids(dd) - Ids(ledger)|
  {
    var result := MergeInto(ledger, dd);
    MergeIntoShape(ledger, dd);
    var front := result[..|ledger|];
    var added := result[|ledger|..];
    assert result == front + added;
    WithIncludeRows(dd, Ids(ledger), false);
    WithIncludeIds(dd, Ids(ledger), false);
    KeyedAppend(front, ledger, added, dd);
  }

  /** With an empty ledger nothing is flagged: the whole deduplicated batch is appended. */
  lemma {:induction false} WithIncludeNothing(dd: seq<Record>)
    ensures WithInclude(dd, {}, false) == dd
  {
    if dd != [] {
      WithIncludeNothing(dd[1..]);
      assert dd == [dd[0]] + dd[1..];
    }
  }

  /** Merging into an empty ledger gives the deduplicated batch itself. */
  lemma MergeIntoEmpty(dd: seq<Record>)
    ensures MergeInto([], dd) == dd
  {
    assert Ids([]) == {};
    WithIncludeNothing(dd);
  }

  // ---------------------------------------------------------------------------
  // `df_compare`.

  /** What the merge does to ledger row `i` whose identifier is in the batch. */
  lemma DfCompareAt(ledger: seq<Record>, batch: seq<Record>, i: nat)
    requires i < |ledger| && ledger[i].id in Ids(batch)
    ensures i < |DfCompare(ledger, batch)|
    ensures var r := DfCompare(ledger, batch)[i];
      && r == ledger[i].(count := r.count, lastTime := r.lastTime)
      && r.count.Some? && r.count.value == ledger[i].count.GetOr(0) + Occurrences(batch, ledger[i].id)
      && r.lastTime.Some? && LatestIn(batch, ledger[i].id, r.lastTime.value)
  {
    var dd := SelfCompare(batch);
    var x := Lookup(dd, ledger[i].id);
    SelfCompareRowCount(batch, x);
    SelfCompareRowLatest(batch, x);
    MergeIntoKnownSet(ledger, dd, i, x, Occurrences(batch, x.id), x.lastTime.value);
  }

  /**
   * A ledger row whose identifier is in the batch: its count grows by the
   * identifier's number of batch rows (a missing count taken as 0), its
   * last-time becomes the batch's latest time for it whether or not that is
   * earlier than before, and its other cells stay.
   */
  lemma DfCompareKnown(ledger: seq<Record>, batch: seq<Record>)
    ensures |DfCompare(ledger, batch)| >= |ledger|
    ensures forall i :: 0 <= i < |ledger| && ledger[i].id in Ids(batch) ==>
      var r := DfCompare(ledger, batch)[i];
      && r == ledger[i].(count := r.count, lastTime := r.lastTime)
      && r.count.Some? && r.count.value == ledger[i].count.GetOr(0) + Occurrences(batch, ledger[i].id)
      && r.lastTime.Some? && LatestIn(batch, ledger[i].id, r.lastTime.value)
  {
    forall i | 0 <= i < |ledger| && ledger[i].id in Ids(batch)
      ensures var r := DfCompare(ledger, batch)[i];
        && r == ledger[i].(count := r.count, lastTime := r.lastTime)
        && r.count.Some? && r.count.value == ledger[i].count.GetOr(0) + Occurrences(batch, ledger[i].id)
        && r.lastTime.Some? && LatestIn(batch, ledger[i].id, r.lastTime.value)
    {
      DfCompareAt(ledger, batch, i);
    }
  }

  /** A ledger row whose identifier is not in the batch is left as it was, in its place. */
  lemma DfCompareUntouched(ledger: seq<Record>, batch: seq<Record>)
    ensures |DfCompare(ledger, batch)| >= |ledger|
    ensures forall i :: 0 <= i < |ledger| && ledger[i].id !in Ids(batch) ==> DfCompare(ledger, batch)[i] == ledger[i]
  {
    forall i | 0 <= i < |ledger| && ledger[i].id !in Ids(batch) ensures DfCompare(ledger, batch)[i] == ledger[i] {
      MergeIntoOther(ledger, SelfCompare(batch), i);
    }
  }

  /**
   * After the ledger's rows come the deduplicated rows of the identifiers the
   * ledger lacks, in `self_compare`'s order and nothing else.
   */
  lemma DfCompareAppended(ledger: seq<Record>, batch: seq<Record>)
    ensures |DfCompare(ledger, batch)| >= |ledger|
    ensures DfCompare(ledger, batch)[|ledger|..] == WithInclude(SelfCompare(batch), Ids(ledger), false)
    ensures forall x :: x in DfCompare(ledger, batch)[|ledger|..] <==> x in SelfCompare(batch) && x.id !in Ids(ledger)
  {
    MergeIntoShape(ledger, SelfCompare(batch));
    WithIncludeRows(SelfCompare(batch), Ids(ledger), false);
  }

  /**
   * The appended rows keep `self_compare`'s order, so they come in ascending
   * first-time order.
   */
  lemma DfCompareAppendedOrder(ledger: seq<Record>, batch: seq<Record>)
    ensures |DfCompare(ledger, batch)| >= |ledger|
    ensures InOrder(SelfCompare(batch), DfCompare(ledger, batch)[|ledger|..])
    ensures SortedByFirst(DfCompare(ledger, batch)[|ledger|..])
  {
    DfCompareAppended(ledger, batch);
    WithIncludeOrder(SelfCompare(batch), Ids(ledger), false);
    SelfCompareSorted(batch);
    WithIncludeSorted(SelfCompare(batch), Ids(ledger), false);
  }

  /**
   * A ledger keyed by the identifier stays keyed by it; its identifiers become
   * those of the ledger and the batch together, one row each.
   */
  lemma DfCompareKeys(ledger: seq<Record>, batch: seq<Record>)
    requires UniqueIds(ledger)
    ensures UniqueIds(DfCompare(ledger, batch))
    ensures Ids(DfCompare(ledger, batch)) == Ids(ledger) + Ids(batch)
    ensures |DfCompare(ledger, batch)| == |ledger| + |Ids(batch) - Ids(ledger)|
  {
    MergeIntoKeys(ledger, SelfCompare(batch));
  }

  /** One ledger row's count grows by its identifier's number of batch rows. */
  lemma DfCompareRowCount(ledger: seq<Record>, batch: seq<Record>, i: nat)
    requires i < |ledger|
    ensures i < |DfCompare(ledger, batch)|
    ensures DfCompare(ledger, batch)[i].count.GetOr(0) == ledger[i].count.GetOr(0) + Occurrences(batch, ledger[i].id)
  {
    if ledger[i].id in Ids(batch) {
      DfCompareAt(ledger, batch, i);
    } else {
      MergeIntoOther(ledger, SelfCompare(batch), i);
      OccurrencesAbsent(batch, ledger[i].id);
    }
  }

  /** A ledger row that had a count still has one after the merge. */
  lemma DfCompareCountKept(ledger: seq<Record>, batch: seq<Record>, i: nat)
    requires i < |ledger| && ledger[i].count.Some?
    ensures i < |DfCompare(ledger, batch)| && DfCompare(ledger, batch)[i].count.Some?
  {
    var dd := SelfCompare(batch);
    if ledger[i].id in Ids(batch) {
      var x := Lookup(dd, ledger[i].id);
      MergeIntoKnown(ledger, dd, i, x);
    } else {
      MergeIntoOther(ledger, dd, i);
    }
  }

  /** The ledger's own rows gain, in total, the batch rows of their identifiers. */
  lemma DfCompareFrontSum(ledger: seq<Record>, batch: seq<Record>)
    ensures |DfCompare(ledger, batch)| >= |ledger|
    ensures SumCounts(DfCompare(ledger, batch)[..|ledger|]) == SumCounts(ledger) + SumOccurrences(ledger, batch)
  {
    var front := DfCompare(ledger, batch)[..|ledger|];
    forall i | 0 <= i < |ledger|
      ensures front[i].count.GetOr(0) == ledger[i].count.GetOr(0) + Occurrences(batch, ledger[i].id)
    {
      DfCompareRowCount(ledger, batch, i);
    }
    SumCountsGrow(front, ledger, batch);
  }

  /** The appended rows' counts total the batch rows of their identifiers. */
  lemma DfCompareAddedSum(ledger: seq<Record>, batch: seq<Record>)
    ensures |DfCompare(ledger, batch)| >= |ledger|
    ensures var added := DfCompare(ledger, batch)[|ledger|..];
      && SumCounts(added) == SumOccurrences(added, batch)
      && UniqueIds(added) && Ids(added) == Ids(batch) - Ids(ledger)
  {
    var dd := SelfCompare(batch);
    MergeIntoShape(ledger, dd);
    var added := DfCompare(ledger, batch)[|ledger|..];
    WithIncludeRows(dd, Ids(ledger), false);
    WithIncludeIds(dd, Ids(ledger), false);
    forall x | x in added ensures x.count == Some(Occurrences(batch, x.id)) {
      SelfCompareRowCount(batch, x);
    }
    SumCountsOfOccurrences(added, batch);
  }

  /** Each merge raises the ledger's total count by exactly the batch size. */
  lemma DfCompareCountSum(ledger: seq<Record>, batch: seq<Record>)
    requires UniqueIds(ledger)
    ensures SumCounts(DfCompare(ledger, batch)) == SumCounts(ledger) + |batch|
  {
    var result := DfCompare(ledger, batch);
    DfCompareFrontSum(ledger, batch);
    DfCompareAddedSum(ledger, batch);
    var front := result[..|ledger|];
    var added := result[|ledger|..];
    assert result == front + added;
    SumCountsAppend(front, added);
    SumOccurrencesAppend(ledger, added, batch);
    IdsAppend(ledger, added);
    UniqueAppend(ledger, added);
    SumOccurrencesCovers(ledger + added, batch);
  }

  /** Merging an empty batch gives back the ledger. */
  lemma DfCompareEmptyBatch(ledger: seq<Record>)
    ensures DfCompare(ledger, []) == ledger
  {
    assert SelfCompare([]) == [];
    MergeIntoShape(ledger, []);
    forall i | 0 <= i < |ledger| ensures DfCompare(ledger, [])[i] == ledger[i] {
      MergeIntoOther(ledger, [], i);
    }
  }
}

# Ledger reconciliation of `gxb_data_sort.py`, in Dafny

`gxb_data_sort.py` keeps a ledger (台账) of identifiers: user numbers taken from
exported complaint records. For each identifier it records:

- the first time it was seen;
- the last time it was seen;
- how many times it was seen (the `次数` column);
- the other columns of the row it was first seen in.

Each run reads a batch of exported rows. If the ledger is empty, the batch is
deduplicated into a new ledger with `self_compare`. Otherwise the batch is
merged into the ledger with `df_compare`.

This project models that reconciliation core and proves what it does.

- `wrappers.dfy` (module `Wrappers`): a cell that may be missing.
- `records.dfy` (module `Records`):
  - a ledger or batch row, with its key and time fields made explicit (`Record`);
  - the time order, which is Python's `str` comparison: code point by code point, with a proper prefix first;
  - identifier sets, occurrence counts and count sums;
  - the two `DataFrame.update` writes that `self_compare` performs.
- `batch_dedup.dfy` (module `BatchDedup`): `self_compare`, made of:
  - a sort by first-time;
  - `value_counts`;
  - `drop_duplicates`, keeping the first or the last row;
  - the two updates.
- `ledger_merge.dfy` (module `LedgerMerge`): `df_compare` as a function, split into:
  - the `include` flag;
  - the count addition;
  - the last-time update;
  - the append.
- `reconciliation.dfy` (module `Reconciliation`): the first-run / incremental branch of `main`, and the tally invariant across runs.
- `ledger_state.dfy` (module `LedgerState`): the ledger frame as an object.
  - `df_compare` reassigns its count column and updates its last-time column in place before appending.
  - Each method is proved to leave exactly the state the functions above describe.

The ledger is a sequence of rows, because the append at line 117 makes row order observable.
The identifier, first-time, last-time and count columns are fixed fields; all other columns are an opaque map.

Line 89 keeps the last row of every identifier, including one seen once, and line 96 writes it back. So every row `self_compare` returns has a last-time, equal to its first-time when the identifier occurs once (`BatchDedup.SelfCompareLatest`).

## Model

| member | source | states |
|---|---|---|
| Records.TimeLeTransitive | gxb_data_sort.py:85 | the string order the sort uses is transitive (with `TimeLeTotal`, `TimeLeReflexive` and `TimeLeAntisymmetric`, a total order) |
| Records.TimeLeTotal | gxb_data_sort.py:85 | any two time strings are comparable |
| Records.AddCount | gxb_data_sort.py:113 | `Series.add(fill_value=0)` on one cell: the sum is missing only when both cells are missing, and otherwise it is the sum with a missing cell taken as 0 |
| Records.UpdateLastTime | gxb_data_sort.py:96 | `update` from a last-time column indexed by identifier: a row whose identifier the column has takes that last-time; a row whose identifier it lacks is unchanged; no other cell and no identifier changes |
| Records.UpdateCount | gxb_data_sort.py:98 | writing the value counts back: a row whose identifier has a count takes it; a row whose identifier has none is unchanged; no other cell and no identifier changes |
| BatchDedup.Insert | gxb_data_sort.py:85 | one insertion step of the sort adds exactly the inserted row to the rows (as a multiset) |
| BatchDedup.SortByFirst | gxb_data_sort.py:85 | the sorted batch is a permutation of the batch (with `SortByFirstSorted`, it is the batch sorted by first-time) |
| BatchDedup.SortByFirstSorted | gxb_data_sort.py:85 | the sorted batch is in ascending first-time order |
| BatchDedup.SortByFirstOccurrences | gxb_data_sort.py:85-87 | sorting keeps the number of rows of each identifier |
| BatchDedup.ValueCounts | gxb_data_sort.py:87 | `value_counts()` maps exactly the batch's identifiers, each to its number of batch rows, which is at least 1 |
| BatchDedup.OccurrencesPositive | gxb_data_sort.py:87 | every identifier of a table has at least one row in it, so no value count is 0 |
| BatchDedup.KeepFirst | gxb_data_sort.py:92 | `drop_duplicates(keep='first')` keeps rows of the table, no more than it has (which rows: `KeepFirstIds`, `KeepFirstRow`; their order: `KeepFirstOrder`) |
| BatchDedup.KeepFirstOrder | gxb_data_sort.py:92 | the kept rows appear in the table's order: any two kept rows occur in the table at increasing positions |
| BatchDedup.KeepFirstIds | gxb_data_sort.py:92 | keeping the first row per identifier leaves one row for each identifier of the table and no other |
| BatchDedup.KeepFirstRow | gxb_data_sort.py:92 | every kept row is the first row of the table with its identifier |
| BatchDedup.KeepFirstSorted | gxb_data_sort.py:85-92 | keeping first rows of a sorted table keeps it sorted |
| BatchDedup.LastOf | gxb_data_sort.py:89 | the row kept by `keep='last'` for an identifier is a row of the table with that identifier, and no later row of the table has that identifier |
| BatchDedup.LastOfIsLatest | gxb_data_sort.py:85-90 | in the sorted batch that last row has the latest first-time of its identifier |
| BatchDedup.LastOfIsLatestAll | gxb_data_sort.py:85-90 | the same, for every identifier of the sorted batch at once |
| BatchDedup.LastTimes | gxb_data_sort.py:89-90 | the renamed last-row column maps exactly the table's identifiers, each to the first-time of one of its rows; in a table sorted by first-time, to the latest of them |
| BatchDedup.SelfCompare | gxb_data_sort.py:80-99 | the result has exactly the batch's identifiers, one row each |
| BatchDedup.SelfCompareCounts | gxb_data_sort.py:87-98 | one row per distinct identifier; each count is the identifier's number of batch rows; the counts sum to the batch length |
| BatchDedup.SelfCompareRowCount | gxb_data_sort.py:87-98 | a result row's count is its identifier's number of batch rows |
| BatchDedup.SelfCompareEarliest | gxb_data_sort.py:85-92 | each row's first-time is the earliest among its identifier's batch rows, and its first-time and other columns come from one such batch row |
| BatchDedup.SelfCompareLatest | gxb_data_sort.py:85-96 | each row has a last-time: the latest first-time among its identifier's batch rows, so first-time ≤ last-time, including for identifiers seen once |
| BatchDedup.SelfCompareSorted | gxb_data_sort.py:85-93 | the result rows come in ascending first-time order |
| BatchDedup.SelfCompareIgnoresLastAndCount | gxb_data_sort.py:85-98 | two batches that differ only in last-time and count cells give the same result |
| LedgerMerge.WithInclude | gxb_data_sort.py:110-116 | filtering on the `include` flag keeps only rows of the table whose identifier's membership in the ledger equals the flag, and no more rows than the table has |
| LedgerMerge.WithIncludeRows | gxb_data_sort.py:110-116 | `df[df['include']]` and `df[~df['include']]` keep exactly the rows whose identifier is or is not in the ledger, without introducing duplicate identifiers |
| LedgerMerge.WithIncludeOrder | gxb_data_sort.py:110-116 | boolean-mask selection keeps the selected rows in the table's order |
| LedgerMerge.WithIncludeSorted | gxb_data_sort.py:110-116 | selecting rows from a table sorted by first-time leaves it sorted |
| LedgerMerge.WithIncludeIds | gxb_data_sort.py:110-116 | the flagged rows' identifiers are those of the batch inside the ledger, the others those outside it |
| LedgerMerge.CountOf | gxb_data_sort.py:113 | the flagged batch's count for an identifier: missing when the flagged rows lack the identifier, otherwise the count of its (unique) row |
| LedgerMerge.CountsAddedRows | gxb_data_sort.py:113 | after reassigning the count column, a ledger row whose identifier a flagged row has gets the sum of both counts (a missing one as 0) and keeps every other cell; a ledger row whose identifier no flagged row has is unchanged; the identifier column is kept (`CountsAdded`) |
| LedgerMerge.LastTimeColumn | gxb_data_sort.py:114 | `df_dup[LAST_TIME]` indexed by identifier only holds identifiers of the flagged rows |
| LedgerMerge.LastTimeColumnRows | gxb_data_sort.py:114 | a flagged row's identifier is in that column exactly when the row has a last-time, and then maps to it; a missing last-time is not written by `update` |
| LedgerMerge.MergeFront | gxb_data_sort.py:110-114 | the ledger rows after the count and last-time updates keep the ledger's identifier column, row by row |
| LedgerMerge.MergeFrontKnown | gxb_data_sort.py:113-114 | the updated ledger row of an identifier the deduplicated batch has: counts added, last-time taken when present, other cells kept |
| LedgerMerge.MergeFrontOther | gxb_data_sort.py:113-114 | the updated ledger row of an identifier the deduplicated batch lacks is unchanged |
| LedgerMerge.MergeInto | gxb_data_sort.py:110-117 | the merge has at least as many rows as the ledger, and its identifiers are those of the ledger and of the deduplicated batch |
| LedgerMerge.MergeIntoShape | gxb_data_sort.py:110-117 | the ledger's rows keep their places and identifiers; after them come exactly the batch rows with new identifiers |
| LedgerMerge.MergeIntoKnown | gxb_data_sort.py:113-114 | a ledger row whose identifier the deduplicated batch has gets the sum of both counts and the batch row's last-time when present; its other cells stay |
| LedgerMerge.MergeIntoKnownSet | gxb_data_sort.py:113-114 | for a batch row with both cells set, the merged ledger row's count is the ledger count (missing as 0) plus the batch count and its last-time is the batch's |
| LedgerMerge.MergeIntoOther | gxb_data_sort.py:113-114 | a ledger row whose identifier the deduplicated batch lacks is unchanged |
| LedgerMerge.MergeIntoKeys | gxb_data_sort.py:110-117 | merging a keyed table into a keyed ledger gives a keyed table over the union of their identifiers, with one new row per new identifier |
| LedgerMerge.MergeIntoEmpty | gxb_data_sort.py:110-117 | merging into an empty ledger gives the deduplicated batch |
| LedgerMerge.DfCompare | gxb_data_sort.py:102-118 | `df_compare` has at least as many rows as the ledger and gives the identifiers of ledger and batch together (row by row: `DfCompareKnown`, `DfCompareUntouched`, `DfCompareAppended`; keys and totals: `DfCompareKeys`, `DfCompareCountSum`) |
| LedgerMerge.DfCompareAt | gxb_data_sort.py:108-114 | the same as `DfCompareKnown`, for one row |
| LedgerMerge.DfCompareKnown | gxb_data_sort.py:108-114 | for a known identifier, the count becomes the ledger count (missing as 0) plus the identifier's number of batch rows. The last-time becomes the batch's latest time for it, even if earlier than before. First-time and other cells stay |
| LedgerMerge.DfCompareUntouched | gxb_data_sort.py:113-117 | ledger rows whose identifier is not in the batch stay as they were, in their places |
| LedgerMerge.DfCompareAppended | gxb_data_sort.py:108-117 | after the ledger's rows come exactly the deduplicated batch rows with identifiers the ledger lacks (their order: `DfCompareAppendedOrder`) |
| LedgerMerge.DfCompareAppendedOrder | gxb_data_sort.py:108-117 | the rows appended at line 117 keep `self_compare`'s order, so they come in ascending first-time order |
| LedgerMerge.DfCompareKeys | gxb_data_sort.py:110-117 | a ledger without duplicate identifiers keeps none; its identifiers become ledger ∪ batch; it grows by the number of new identifiers |
| LedgerMerge.DfCompareRowCount | gxb_data_sort.py:108-114 | each ledger row's count (missing as 0) grows by its identifier's number of batch rows, zero when the batch lacks it |
| LedgerMerge.DfCompareCountKept | gxb_data_sort.py:113 | a ledger row that had a count still has one after the merge |
| LedgerMerge.DfCompareFrontSum | gxb_data_sort.py:108-114 | the ledger rows' total count grows by the number of batch rows whose identifier the ledger has |
| LedgerMerge.DfCompareAddedSum | gxb_data_sort.py:108-117 | the appended rows are keyed, carry exactly the batch identifiers the ledger lacks, and their counts total those identifiers' batch rows |
| LedgerMerge.DfCompareCountSum | gxb_data_sort.py:108-117 | the ledger's total count grows by exactly the batch length |
| LedgerMerge.DfCompareEmptyBatch | gxb_data_sort.py:108-117 | merging an empty batch returns the ledger unchanged |
| Reconciliation.WithSentinels | gxb_data_sort.py:160-161 | the batch differs from the original only in last-time (now `''`) and count (now missing) |
| Reconciliation.Reconciled | gxb_data_sort.py:155-163 | after one run the ledger's identifiers are those of the old ledger and of the batch (the branches agree: `ReconciledIsMerge`; keys and totals: `ReconciledInvariant`; counts: `ReconciledTallies`) |
| Reconciliation.SentinelsErased | gxb_data_sort.py:160-162 | the `''` and `None` sentinels never reach the result: `self_compare` gives the same rows with or without them |
| Reconciliation.ReconciledIsMerge | gxb_data_sort.py:155-163 | both branches compute `df_compare` of the ledger and the raw batch |
| Reconciliation.ReconciledFirstRun | gxb_data_sort.py:155-157 | with an empty ledger the result is `self_compare(batch)`: keyed, with the batch's identifiers and counts summing to the batch length |
| Reconciliation.ReconciledInvariant | gxb_data_sort.py:155-163 | a keyed ledger stays keyed; its identifiers become ledger ∪ batch; its total count grows by the batch length |
| Reconciliation.TalliesLedgerRow | gxb_data_sort.py:108-114 | a ledger row that counted its identifier's rows in a history counts them in history + batch after the merge |
| Reconciliation.TalliesAppendedRow | gxb_data_sort.py:108-117 | an appended row counts its identifier's rows in history + batch, the history having none |
| Reconciliation.DfCompareTalliesRow | gxb_data_sort.py:108-117 | every row of the merged ledger counts its identifier's rows in history + batch |
| Reconciliation.DfCompareTallies | gxb_data_sort.py:108-117 | if every ledger count is its identifier's number of rows in a history, after the merge every count is its number of rows in history + batch |
| Reconciliation.ReconciledTallies | gxb_data_sort.py:155-163 | run after run, the ledger counts every appearance of every identifier in all batches given to it |
| LedgerState.Ledger.AddCounts | gxb_data_sort.py:113 | the count column is reassigned in place; identifiers and key uniqueness are kept |
| LedgerState.Ledger.UpdateLastTimes | gxb_data_sort.py:114 | the last-time column is updated in place; identifiers and key uniqueness are kept |
| LedgerState.Ledger.Append | gxb_data_sort.py:116-117 | new-identifier rows go after the ledger's rows, keeping key uniqueness |
| LedgerState.Ledger.DfCompare | gxb_data_sort.py:102-118 | the in-place steps leave the ledger equal to `LedgerMerge.DfCompare` of the old ledger; identifiers become old ∪ batch; key uniqueness is kept and the total count grows by the batch length |
| LedgerState.Ledger.Reconcile | gxb_data_sort.py:155-163 | the ledger becomes `Reconciliation.Reconciled` of the old ledger, stays keyed, and its counts tally any history they tallied plus the batch |

## Left out

- Reading the encrypted export workbooks (`open_excel_with_key`, lines 48-68), the password guess from the file name, and creating, reading and writing the ledger workbook (lines 71-77, 133, 165). This is file I/O; the ledger and the batch are parameters.
- The import file glob (line 136), configuration loading (lines 32-45), console colours and messages, the expiry-date check and traceback logging. These are process glue and are not modelled.
- The province filter (line 147) and the renaming of the export's time column (line 154). Batch rows arrive already filtered, with their first-time field set.
- The configurable column names (`INDEX`, `FIRST_TIME`, `LAST_TIME`) and the fixed `次数` column name are modelled as the fixed fields `id`, `firstTime`, `lastTime` and `count`. Every other column is an opaque `attrs` map.
- The ledger's schema is assumed to hold the last-time and count columns, as when the configured `col_names` include them. Without them, `update` at lines 96 and 98 would write nothing.
- On an incremental run with a ledger that has no `次数` column, line 113 (`book['次数']`) raises `KeyError`. That error path is not modelled: the ledger always has a count field.
- pandas' missing values and dtypes:
  - identifiers and first-times are always present;
  - a count is a natural number or missing, never the float that `add(..., fill_value=0)` produces;
  - a last-time is a string or missing.
- BatchDedup.SortByFirst: the sort is stable. The source's `sort_values` default (quicksort) is not, so among rows with equal first-times the one supplying the kept row's other columns is unspecified there. No lemma here states which of several rows with equal first-times is kept.
- The in-place `sort_values` at line 85 also reorders the caller's batch frame. `main` never reads that frame again, so the model returns a new sequence and leaves the batch unchanged.
- `df_compare` updates the caller's ledger object in place (lines 113-114) and returns a new frame with the appended rows (line 117), which `main` rebinds as the ledger. `LedgerState.Ledger.DfCompare` applies the append to the same object. The brief state in which the caller's frame has the updated counts but not yet the appended rows is not modelled separately.
- LedgerMerge.DfCompareKnown: first-time ≤ last-time is not claimed for ledger rows whose identifier the batch has. Line 114 overwrites the last-time with the batch's latest time even when that is earlier than the row's first-time or its previous last-time, and the model keeps that behaviour.
- The module-level frames `d1` and `d2` (lines 187-188) are never used and are not modelled.

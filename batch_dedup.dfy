/**
 * `self_compare`: collapse one batch to one row per identifier. The batch is
 * sorted by first-time; the value counts of the identifier column give the
 * count; the first row of each identifier in sorted order is kept; the
 * first-time of its last row in sorted order becomes its last-time.
 */
module BatchDedup {
  import opened Wrappers
  import opened Records

  // ---------------------------------------------------------------------------
  // Sorting by first-time (`sort_values(by=FIRST_TIME)`).

  predicate SortedByFirst(s: seq<Record>)
  {
    forall i, j :: 0 <= i < j < |s| ==> TimeLe(s[i].firstTime, s[j].firstTime)
  }

  /** Puts `r` in front of the first row of `s` whose first-time is not earlier than `r`'s. */
  function Insert(r: Record, s: seq<Record>): (t: seq<Record>)
    ensures multiset(t) == multiset(s) + multiset{r}
  {
    if s == [] then [r]
    else if TimeLe(r.firstTime, s[0].firstTime) then [r] + s
    else
      assert s == [s[0]] + s[1..];
      [s[0]] + Insert(r, s[1..])
  }

  /**
   * A stable sort by first-time. The source sorts with pandas' default
   * algorithm, which is not stable: rows with equal first-times may come out
   * in any order, and this model fixes one of those orders.
   */
  function SortByFirst(batch: seq<Record>): (t: seq<Record>)
    ensures multiset(t) == multiset(batch)
  {
    if batch == [] then []
    else
      assert batch == [batch[0]] + batch[1..];
      Insert(batch[0], SortByFirst(batch[1..]))
  }

  /** A row no later than every row of a sorted table can go in front of it. */
  lemma SortedSnoc(u: seq<Record>, x: Record)
    requires SortedByFirst(u)
    requires forall y :: y in u ==> TimeLe(y.firstTime, x.firstTime)
    ensures SortedByFirst(u + [x])
  {
    var t := u + [x];
    forall i, j | 0 <= i < j < |t| ensures TimeLe(t[i].firstTime, t[j].firstTime) {
      assert t[i] == u[i] && u[i] in u;
      if j < |u| {
        assert t[j] == u[j];
      }
    }
  }

  lemma SortedCons(x: Record, u: seq<Record>)
    requires SortedByFirst(u)
    requires forall y :: y in u ==> TimeLe(x.firstTime, y.firstTime)
    ensures SortedByFirst([x] + u)
  {
    var t := [x] + u;
    forall i, j | 0 <= i < j < |t| ensures TimeLe(t[i].firstTime, t[j].firstTime) {
      assert t[j] == u[j - 1] && u[j - 1] in u;
      if i > 0 {
        assert t[i] == u[i - 1];
      }
    }
  }

  lemma {:induction false} InsertSorted(r: Record, s: seq<Record>)
    requires SortedByFirst(s)
    ensures SortedByFirst(Insert(r, s))
  {
    if s == [] {
    } else if TimeLe(r.firstTime, s[0].firstTime) {
      forall y | y in s ensures TimeLe(r.firstTime, y.firstTime) {
        var j :| 0 <= j < |s| && s[j] == y;
        if j > 0 {
          TimeLeTransitive(r.firstTime, s[0].firstTime, y.firstTime);
        }
      }
      SortedCons(r, s);
    } else {
      TimeLeTotal(r.firstTime, s[0].firstTime);
      assert SortedByFirst(s[1..]);
      InsertSorted(r, s[1..]);
      var u := Insert(r, s[1..]);
      forall x | x in u ensures TimeLe(s[0].firstTime, x.firstTime) {
        assert x in multiset(u);
        if x != r {
          assert x in s[1..];
        }
      }
      SortedCons(s[0], u);
    }
  }

  /** The sorted batch is in ascending first-time order. */
  lemma {:induction false} SortByFirstSorted(batch: seq<Record>)
    ensures SortedByFirst(SortByFirst(batch))
  {
    if batch != [] {
      SortByFirstSorted(batch[1..]);
      InsertSorted(batch[0], SortByFirst(batch[1..]));
    }
  }

  lemma {:induction false} InsertOccurrences(r: Record, s: seq<Record>, id: Id)
    ensures Occurrences(Insert(r, s), id) == Occurrences(s, id) + (if r.id == id then 1 else 0)
  {
    if s == [] {
    } else if TimeLe(r.firstTime, s[0].firstTime) {
      assert ([r] + s)[1..] == s;
    } else {
      InsertOccurrences(r, s[1..], id);
      assert ([s[0]] + Insert(r, s[1..]))[1..] == Insert(r, s[1..]);
    }
  }

  /** Sorting changes no identifier's number of rows. */
  lemma {:induction false} SortByFirstOccurrences(batch: seq<Record>, id: Id)
    ensures Occurrences(SortByFirst(batch), id) == Occurrences(batch, id)
  {
    if batch != [] {
      SortByFirstOccurrences(batch[1..], id);
      InsertOccurrences(batch[0], SortByFirst(batch[1..]), id);
    }
  }

  /** A permutation has the same rows, hence the same identifiers. */
  lemma PermutationRows(a: seq<Record>, b: seq<Record>)
    requires multiset(a) == multiset(b)
    ensures forall x :: x in a <==> x in b
    ensures Ids(a) == Ids(b)
  {
    forall x ensures x in a <==> x in b {
      assert x in a <==> x in multiset(a);
      assert x in b <==> x in multiset(b);
    }
  }

  // ---------------------------------------------------------------------------
  // Keeping the first and the last row of each identifier (`drop_duplicates`).

  lemma IdsSnoc(s: seq<Record>)
    requires s != []
    ensures Ids(s) == Ids(s[..|s| - 1]) + {s[|s| - 1].id}
    ensures forall x :: x in s <==> x in s[..|s| - 1] || x == s[|s| - 1]
  {
    assert s == s[..|s| - 1] + [s[|s| - 1]];
    IdsAppend(s[..|s| - 1], [s[|s| - 1]]);
    assert Ids([s[|s| - 1]]) == {s[|s| - 1].id};
  }

  /** `drop_duplicates(subset=INDEX, keep='first')`: each identifier's first row, in table order. */
  function KeepFirst(s: seq<Record>): (r: seq<Record>)
    ensures |r| <= |s|
    ensures forall x :: x in r ==> x in s
    decreases |s|
  {
    if s == [] then []
    else
      var init := s[..|s| - 1];
      if s[|s| - 1].id in Ids(init) then KeepFirst(init) else KeepFirst(init) + [s[|s| - 1]]
  }

  /** Row `i` of `s` is the first row that carries its identifier. */
  ghost predicate FirstAt(s: seq<Record>, i: int)
  {
    0 <= i < |s| && forall j :: 0 <= j < i ==> s[j].id != s[i].id
  }

  /** Keeping the first rows leaves exactly one row per identifier of the table. */
  lemma {:induction false} KeepFirstIds(s: seq<Record>)
    ensures Ids(KeepFirst(s)) == Ids(s)
    ensures UniqueIds(KeepFirst(s))
    decreases |s|
  {
    if s != [] {
      var init := s[..|s| - 1];
      var last := s[|s| - 1];
      KeepFirstIds(init);
      IdsSnoc(s);
      if last.id !in Ids(init) {
        var k := KeepFirst(init);
        IdsAppend(k, [last]);
        assert Ids([last]) == {last.id};
        UniqueAppend(k, [last]);
      }
    }
  }

  /** A first occurrence in a prefix is still one in the whole table. */
  lemma FirstAtExtend(s: seq<Record>, i: int)
    requires s != [] && FirstAt(s[..|s| - 1], i)
    ensures FirstAt(s, i) && s[i] == s[..|s| - 1][i]
  {
    var init := s[..|s| - 1];
    forall j | 0 <= j < i ensures s[j].id != s[i].id {
      assert s[j] == init[j];
    }
  }

  /** Row `a` occurs in `s` at an earlier position than row `b`. */
  ghost predicate Before(s: seq<Record>, a: Record, b: Record)
  {
    exists p, q :: 0 <= p < q < |s| && s[p] == a && s[q] == b
  }

  /** The rows of `r` occur in `s` in the same relative order. */
  ghost predicate InOrder(s: seq<Record>, r: seq<Record>)
  {
    forall i, j :: 0 <= i < j < |r| ==> Before(s, r[i], r[j])
  }

  lemma BeforeExtend(t: seq<Record>, u: seq<Record>, a: Record, b: Record)
    requires Before(t, a, b)
    ensures Before(t + u, a, b) && Before(u + t, a, b)
  {
    var p, q :| 0 <= p < q < |t| && t[p] == a && t[q] == b;
    assert (t + u)[p] == a && (t + u)[q] == b;
    assert (u + t)[|u| + p] == a && (u + t)[|u| + q] == b;
  }

  /** A row put in front of the table does not disturb the order of rows taken from the rest. */
  lemma InOrderShift(x: Record, t: seq<Record>, r: seq<Record>)
    requires InOrder(t, r)
    ensures InOrder([x] + t, r)
  {
    forall i, j | 0 <= i < j < |r| ensures Before([x] + t, r[i], r[j]) {
      BeforeExtend(t, [x], r[i], r[j]);
    }
  }

  /** Taking that front row first, then rows of the rest in order, keeps the order. */
  lemma InOrderCons(x: Record, t: seq<Record>, r: seq<Record>)
    requires InOrder(t, r)
    requires forall y :: y in r ==> y in t
    ensures InOrder([x] + t, [x] + r)
  {
    var u := [x] + t;
    var w := [x] + r;
    forall i, j | 0 <= i < j < |w| ensures Before(u, w[i], w[j]) {
      assert w[j] == r[j - 1] && r[j - 1] in r;
      if i == 0 {
        var q :| 0 <= q < |t| && t[q] == w[j];
        assert u[0] == w[i] && u[q + 1] == w[j];
      } else {
        assert w[i] == r[i - 1];
        BeforeExtend(t, [x], r[i - 1], r[j - 1]);
      }
    }
  }

  /** The kept first rows stay in the table's order. */
  lemma {:induction false} KeepFirstOrder(s: seq<Record>)
    ensures InOrder(s, KeepFirst(s))
    decreases |s|
  {
    if s != [] {
      var n := |s|;
      var init := s[..n - 1];
      var k := KeepFirst(init);
      KeepFirstOrder(init);
      assert s == init + [s[n - 1]];
      var r := KeepFirst(s);
      assert r == (if s[n - 1].id in Ids(init) then k else k + [s[n - 1]]);
      forall i, j | 0 <= i < j < |r| ensures Before(s, r[i], r[j]) {
        if j < |k| {
          assert r[i] == k[i] && r[j] == k[j];
          BeforeExtend(init, [s[n - 1]], k[i], k[j]);
        } else {
          assert r[i] == k[i] && k[i] in k;
          var p :| 0 <= p < |init| && init[p] == k[i];
          assert s[p] == r[i] && s[n - 1] == r[j];
        }
      }
    }
  }

  /** Each kept row is the first row of the table with its identifier. */
  lemma {:induction false} KeepFirstRow(s: seq<Record>, r: Record)
    requires r in KeepFirst(s)
    ensures exists i :: FirstAt(s, i) && s[i] == r
    decreases |s|
  {
    assert s != [];
    var n := |s|;
    var init := s[..n - 1];
    var last := s[n - 1];
    if last.id in Ids(init) {
      assert KeepFirst(s) == KeepFirst(init);
      KeepFirstRow(init, r);
      var i :| FirstAt(init, i) && init[i] == r;
      FirstAtExtend(s, i);
    } else {
      assert KeepFirst(s) == KeepFirst(init) + [last];
      if r in KeepFirst(init) {
        KeepFirstRow(init, r);
        var i :| FirstAt(init, i) && init[i] == r;
        FirstAtExtend(s, i);
      } else {
        assert r == last;
        assert FirstAt(s, n - 1) by {
          forall j | 0 <= j < n - 1 ensures s[j].id != last.id {
            assert s[j] == init[j] && init[j] in init;
          }
        }
      }
    }
  }

  /** Keeping the first rows of a sorted table leaves it sorted. */
  lemma {:induction false} KeepFirstSorted(s: seq<Record>)
    requires SortedByFirst(s)
    ensures SortedByFirst(KeepFirst(s))
    decreases |s|
  {
    if s != [] {
      var n := |s|;
      var init := s[..n - 1];
      var last := s[n - 1];
      KeepFirstSorted(init);
      if last.id !in Ids(init) {
        var k := KeepFirst(init);
        forall y | y in k ensures TimeLe(y.firstTime, last.firstTime) {
          KeepFirstRow(init, y);
          var m :| FirstAt(init, m) && init[m] == y;
          assert s[m] == y;
        }
        SortedSnoc(k, last);
      }
    }
  }

  /** The row `drop_duplicates(subset=INDEX, keep='last')` keeps for `id`: its last row. */
  function LastOf(s: seq<Record>, id: Id): (r: Record)
    requires id in Ids(s)
    ensures r in s && r.id == id
    ensures exists i :: 0 <= i < |s| && s[i] == r && forall j :: i < j < |s| ==> s[j].id != id
    decreases |s|
  {
    IdsSnoc(s);
    if s[|s| - 1].id == id then s[|s| - 1] else LastOf(s[..|s| - 1], id)
  }

  /** In a table sorted by first-time, the last row of an identifier has its latest first-time. */
  lemma LastOfIsLatest(s: seq<Record>, id: Id)
    requires SortedByFirst(s) && id in Ids(s)
    ensures forall x :: x in s && x.id == id ==> TimeLe(x.firstTime, LastOf(s, id).firstTime)
  {
    var r := LastOf(s, id);
    var i :| 0 <= i < |s| && s[i] == r && forall j :: i < j < |s| ==> s[j].id != id;
    forall x | x in s && x.id == id ensures TimeLe(x.firstTime, r.firstTime) {
      var j :| 0 <= j < |s| && s[j] == x;
      if j == i {
        TimeLeReflexive(x.firstTime);
      }
    }
  }

  // ---------------------------------------------------------------------------
  // The columns that `update` writes back.

  /** Every identifier of a table occurs in it at least once. */
  lemma OccurrencesPositive(s: seq<Record>)
    ensures forall id :: id in Ids(s) ==> Occurrences(s, id) >= 1
  {
    forall id | id in Ids(s) ensures Occurrences(s, id) >= 1 {
      OccurrencesPresent(s, id);
    }
  }

  /** `value_counts()` of the identifier column: each identifier of the table with its number of rows. */
  function ValueCounts(s: seq<Record>): (r: map<Id, nat>)
    ensures r.Keys == Ids(s)
    ensures forall id :: id in r ==> r[id] == Occurrences(s, id) && r[id] >= 1
  {
    OccurrencesPositive(s);
    map id | id in Ids(s) :: Occurrences(s, id)
  }

  lemma LastOfIsLatestAll(s: seq<Record>)
    requires SortedByFirst(s)
    ensures forall id, x :: id in Ids(s) && x in s && x.id == id ==> TimeLe(x.firstTime, LastOf(s, id).firstTime)
  {
    forall id | id in Ids(s) {
      LastOfIsLatest(s, id);
    }
  }

  /**
   * The last rows' first-times renamed to last-time and indexed by
   * identifier: each identifier's value is the first-time of one of its rows,
   * and in a sorted table the latest of them.
   */
  function LastTimes(s: seq<Record>): (r: map<Id, Time>)
    ensures r.Keys == Ids(s)
    ensures forall id :: id in r ==> exists x :: x in s && x.id == id && x.firstTime == r[id]
    ensures SortedByFirst(s) ==> forall id, x :: id in r && x in s && x.id == id ==> TimeLe(x.firstTime, r[id])
  {
    var m := map id | id in Ids(s) :: LastOf(s, id).firstTime;
    if SortedByFirst(s) then LastOfIsLatestAll(s); m else m
  }

  /** `self_compare(batch)`. */
  function SelfCompare(batch: seq<Record>): (r: seq<Record>)
    ensures UniqueIds(r) && Ids(r) == Ids(batch)
  {
    var sorted := SortByFirst(batch);
    var firsts := KeepFirst(sorted);
    var withLast := UpdateLastTime(firsts, LastTimes(sorted));
    var result := UpdateCount(withLast, ValueCounts(sorted));
    KeepFirstIds(sorted);
    PermutationRows(sorted, batch);
    SameIdColumnIds(withLast, firsts);
    SameIdColumnIds(result, withLast);
    result
  }

  // ---------------------------------------------------------------------------
  // What each row of `self_compare`'s result says about the batch.

  /** `r` carries the earliest first-time of its identifier, and the other columns of a row with that time. */
  ghost predicate EarliestIn(batch: seq<Record>, r: Record)
  {
    && (exists x :: x in batch && x.id == r.id && x.firstTime == r.firstTime && x.attrs == r.attrs)
    && (forall x :: x in batch && x.id == r.id ==> TimeLe(r.firstTime, x.firstTime))
  }

  /** `t` is the latest first-time among the batch's rows with identifier `id`. */
  ghost predicate LatestIn(batch: seq<Record>, id: Id, t: Time)
  {
    && (exists x :: x in batch && x.id == id && x.firstTime == t)
    && (forall x :: x in batch && x.id == id ==> TimeLe(x.firstTime, t))
  }

  /** Row `k` of the result: the `k`-th kept first row, with the last-time and count written back. */
  lemma SelfCompareAt(batch: seq<Record>, k: nat)
    requires k < |SelfCompare(batch)|
    ensures var sorted := SortByFirst(batch);
      && k < |KeepFirst(sorted)|
      && KeepFirst(sorted)[k].id in Ids(sorted)
      && SelfCompare(batch)[k] == KeepFirst(sorted)[k].(
           lastTime := Some(LastOf(sorted, KeepFirst(sorted)[k].id).firstTime),
           count := Some(Occurrences(sorted, KeepFirst(sorted)[k].id)))
  {
    var sorted := SortByFirst(batch);
    var firsts := KeepFirst(sorted);
    var lastTimes := LastTimes(sorted);
    var counts := ValueCounts(sorted);
    var withLast := UpdateLastTime(firsts, lastTimes);
    var result := UpdateCount(withLast, counts);
    assert result == SelfCompare(batch);
    KeepFirstIds(sorted);
    var f := firsts[k];
    assert f in firsts;
    assert f.id in Ids(sorted);
    assert withLast[k] == f.(lastTime := Some(lastTimes[f.id]));
  }

  /** In a sorted table, the first row of an identifier has its earliest first-time. */
  lemma FirstIsEarliest(s: seq<Record>, i: int)
    requires SortedByFirst(s) && FirstAt(s, i)
    ensures forall x :: x in s && x.id == s[i].id ==> TimeLe(s[i].firstTime, x.firstTime)
  {
    forall x | x in s && x.id == s[i].id ensures TimeLe(s[i].firstTime, x.firstTime) {
      var j :| 0 <= j < |s| && s[j] == x;
      assert i <= j;
      if i == j {
        TimeLeReflexive(x.firstTime);
      }
    }
  }

  lemma SelfCompareRowCount(batch: seq<Record>, r: Record)
    requires r in SelfCompare(batch)
    ensures r.count == Some(Occurrences(batch, r.id))
  {
    var k :| 0 <= k < |SelfCompare(batch)| && SelfCompare(batch)[k] == r;
    SelfCompareAt(batch, k);
    SortByFirstOccurrences(batch, r.id);
  }

  lemma SelfCompareRowEarliest(batch: seq<Record>, r: Record)
    requires r in SelfCompare(batch)
    ensures EarliestIn(batch, r)
  {
    var sorted := SortByFirst(batch);
    var firsts := KeepFirst(sorted);
    var k :| 0 <= k < |SelfCompare(batch)| && SelfCompare(batch)[k] == r;
    SelfCompareAt(batch, k);
    var f := firsts[k];
    assert f in firsts;
    KeepFirstRow(sorted, f);
    var i :| FirstAt(sorted, i) && sorted[i] == f;
    SortByFirstSorted(batch);
    FirstIsEarliest(sorted, i);
    PermutationRows(sorted, batch);
    assert f in batch;
  }

  lemma SelfCompareRowLatest(batch: seq<Record>, r: Record)
    requires r in SelfCompare(batch)
    ensures r.lastTime.Some? && LatestIn(batch, r.id, r.lastTime.value)
  {
    var sorted := SortByFirst(batch);
    var k :| 0 <= k < |SelfCompare(batch)| && SelfCompare(batch)[k] == r;
    SelfCompareAt(batch, k);
    SortByFirstSorted(batch);
    var l := LastOf(sorted, r.id);
    LastOfIsLatest(sorted, r.id);
    PermutationRows(sorted, batch);
    assert l in batch;
  }

  /**
   * One row per identifier of the batch, whose count is that identifier's
   * number of rows; so the counts add up to the batch's length.
   */
  lemma SelfCompareCounts(batch: seq<Record>)
    ensures |SelfCompare(batch)| == |Ids(batch)|
    ensures forall r :: r in SelfCompare(batch) ==> r.count == Some(Occurrences(batch, r.id))
    ensures SumCounts(SelfCompare(batch)) == |batch|
  {
    var result := SelfCompare(batch);
    UniqueIdsCardinality(result);
    forall r | r in result ensures r.count == Some(Occurrences(batch, r.id)) {
      SelfCompareRowCount(batch, r);
    }
    SumCountsOfOccurrences(result, batch);
    SumOccurrencesCovers(result, batch);
  }

  /** Each row keeps the earliest first-time of its identifier and the columns of a row with that time. */
  lemma SelfCompareEarliest(batch: seq<Record>)
    ensures forall r :: r in SelfCompare(batch) ==> EarliestIn(batch, r)
  {
    forall r | r in SelfCompare(batch) ensures EarliestIn(batch, r) {
      SelfCompareRowEarliest(batch, r);
    }
  }

  /**
   * Every row, also that of an identifier seen once, gets a last-time: the
   * latest first-time of its identifier, so first-time <= last-time.
   */
  lemma SelfCompareLatest(batch: seq<Record>)
    ensures forall r :: r in SelfCompare(batch) ==>
      r.lastTime.Some? && LatestIn(batch, r.id, r.lastTime.value) && TimeLe(r.firstTime, r.lastTime.value)
  {
    forall r | r in SelfCompare(batch)
      ensures r.lastTime.Some? && LatestIn(batch, r.id, r.lastTime.value) && TimeLe(r.firstTime, r.lastTime.value)
    {
      SelfCompareRowEarliest(batch, r);
      SelfCompareRowLatest(batch, r);
      var x :| x in batch && x.id == r.id && x.firstTime == r.lastTime.value;
    }
  }

  /** The rows come out in ascending first-time order. */
  lemma SelfCompareSorted(batch: seq<Record>)
    ensures SortedByFirst(SelfCompare(batch))
  {
    var sorted := SortByFirst(batch);
    var firsts := KeepFirst(sorted);
    SortByFirstSorted(batch);
    KeepFirstSorted(sorted);
    var result := SelfCompare(batch);
    forall k | 0 <= k < |result| ensures result[k].firstTime == firsts[k].firstTime {
      SelfCompareAt(batch, k);
    }
  }

  // ---------------------------------------------------------------------------
  // `self_compare` reads only the identifier, the first-time and the other
  // columns: whatever the last-time and count cells held is overwritten.

  /** A row with its last-time and count cells cleared. */
  function Observed(r: Record): Record
  {
    r.(lastTime := None, count := None)
  }

  /** Two tables that differ at most in their last-time and count cells. */
  ghost predicate SameObservations(a: seq<Record>, b: seq<Record>)
  {
    |a| == |b| && forall i :: 0 <= i < |a| ==> Observed(a[i]) == Observed(b[i])
  }

  lemma SameObservationsIds(a: seq<Record>, b: seq<Record>)
    requires SameObservations(a, b)
    ensures Ids(a) == Ids(b)
  {
    assert forall i :: 0 <= i < |a| ==> Observed(a[i]).id == Observed(b[i]).id;
    SameIdColumnIds(a, b);
  }

  lemma SameObservationsCons(x: Record, t: seq<Record>, x': Record, t': seq<Record>)
    requires Observed(x) == Observed(x') && SameObservations(t, t')
    ensures SameObservations([x] + t, [x'] + t')
  {
    forall i | 0 <= i < |t| + 1 ensures Observed(([x] + t)[i]) == Observed(([x'] + t')[i]) {
      if i > 0 {
        assert ([x] + t)[i] == t[i - 1] && ([x'] + t')[i] == t'[i - 1];
      }
    }
  }

  lemma {:induction false} InsertSame(r: Record, s: seq<Record>, r': Record, s': seq<Record>)
    requires Observed(r) == Observed(r') && SameObservations(s, s')
    ensures SameObservations(Insert(r, s), Insert(r', s'))
  {
    if s != [] {
      assert Observed(s[0]) == Observed(s'[0]);
      assert r.firstTime == r'.firstTime && s[0].firstTime == s'[0].firstTime;
      if TimeLe(r.firstTime, s[0].firstTime) {
        SameObservationsCons(r, s, r', s');
      } else {
        assert SameObservations(s[1..], s'[1..]);
        InsertSame(r, s[1..], r', s'[1..]);
        SameObservationsCons(s[0], Insert(r, s[1..]), s'[0], Insert(r', s'[1..]));
      }
    } else {
      assert s' == [];
      SameObservationsCons(r, s, r', s');
    }
  }

  lemma {:induction false} SortByFirstSame(a: seq<Record>, b: seq<Record>)
    requires SameObservations(a, b)
    ensures SameObservations(SortByFirst(a), SortByFirst(b))
  {
    if a != [] {
      SortByFirstSame(a[1..], b[1..]);
      InsertSame(a[0], SortByFirst(a[1..]), b[0], SortByFirst(b[1..]));
    }
  }

  lemma {:induction false} KeepFirstSame(a: seq<Record>, b: seq<Record>)
    requires SameObservations(a, b)
    ensures SameObservations(KeepFirst(a), KeepFirst(b))
    decreases |a|
  {
    if a != [] {
      var n := |a|;
      KeepFirstSame(a[..n - 1], b[..n - 1]);
      SameObservationsIds(a[..n - 1], b[..n - 1]);
      assert Observed(a[n - 1]).id == Observed(b[n - 1]).id;
    }
  }

  lemma {:induction false} OccurrencesSame(a: seq<Record>, b: seq<Record>, id: Id)
    requires SameObservations(a, b)
    ensures Occurrences(a, id) == Occurrences(b, id)
  {
    if a != [] {
      assert Observed(a[0]).id == Observed(b[0]).id;
      OccurrencesSame(a[1..], b[1..], id);
    }
  }

  lemma {:induction false} LastOfSame(a: seq<Record>, b: seq<Record>, id: Id)
    requires SameObservations(a, b) && id in Ids(a)
    ensures id in Ids(b) && LastOf(a, id).firstTime == LastOf(b, id).firstTime
    decreases |a|
  {
    var n := |a|;
    SameObservationsIds(a, b);
    IdsSnoc(a);
    assert Observed(a[n - 1]) == Observed(b[n - 1]);
    if a[n - 1].id != id {
      LastOfSame(a[..n - 1], b[..n - 1], id);
    }
  }

  /** Batches that differ only in their last-time and count cells deduplicate alike. */
  lemma SelfCompareIgnoresLastAndCount(a: seq<Record>, b: seq<Record>)
    requires SameObservations(a, b)
    ensures SelfCompare(a) == SelfCompare(b)
  {
    var sa, sb := SortByFirst(a), SortByFirst(b);
    SortByFirstSame(a, b);
    KeepFirstSame(sa, sb);
    var ra, rb := SelfCompare(a), SelfCompare(b);
    SameObservationsIds(a, b);
    UniqueIdsCardinality(ra);
    UniqueIdsCardinality(rb);
    forall k | 0 <= k < |ra| ensures ra[k] == rb[k] {
      SelfCompareAt(a, k);
      SelfCompareAt(b, k);
      var fa, fb := KeepFirst(sa)[k], KeepFirst(sb)[k];
      assert Observed(fa) == Observed(fb);
      assert fa.id == fb.id && fa.firstTime == fb.firstTime && fa.attrs == fb.attrs by {
        assert Observed(fa).id == Observed(fb).id;
        assert Observed(fa).firstTime == Observed(fb).firstTime;
        assert Observed(fa).attrs == Observed(fb).attrs;
      }
      LastOfSame(sa, sb, fa.id);
      OccurrencesSame(sa, sb, fa.id);
    }
  }
}

/**
 * The rows the reconciliation works on, the order on their time stamps, and
 * the column operations (alignment on the identifier, `update`, `add`) that
 * the pandas code applies to whole tables.
 */
module Records {
  import opened Wrappers

  /** The identifier column (`INDEX` in the configuration). */
  type Id = string

  /** Time stamps are read as text and compared as text. */
  type Time = string

  /** Passthrough columns: column name to cell text, carried and never inspected. */
  type Attrs = map<string, string>

  /**
   * One row of a batch or of the ledger: the identifier, the first-time and
   * last-time columns, the count column (`次数`) and the other columns.
   */
  datatype Record = Record(id: Id, firstTime: Time, lastTime: Option<Time>, count: Option<nat>, attrs: Attrs)

  // ---------------------------------------------------------------------------
  // The order on time stamps: Python's `str` comparison, code point by code
  // point, a proper prefix before any of its extensions.

  predicate TimeLe(a: Time, b: Time)
    decreases |a|
  {
    |a| == 0 || (|b| != 0 && (a[0] < b[0] || (a[0] == b[0] && TimeLe(a[1..], b[1..]))))
  }

  lemma {:induction false} TimeLeReflexive(a: Time)
    ensures TimeLe(a, a)
    decreases |a|
  {
    if |a| != 0 {
      TimeLeReflexive(a[1..]);
    }
  }

  lemma {:induction false} TimeLeTotal(a: Time, b: Time)
    ensures TimeLe(a, b) || TimeLe(b, a)
    decreases |a|
  {
    if |a| != 0 && |b| != 0 && a[0] == b[0] {
      TimeLeTotal(a[1..], b[1..]);
    }
  }

  lemma {:induction false} TimeLeTransitive(a: Time, b: Time, c: Time)
    requires TimeLe(a, b) && TimeLe(b, c)
    ensures TimeLe(a, c)
    decreases |a|
  {
    if |a| != 0 && a[0] == b[0] && b[0] == c[0] {
      TimeLeTransitive(a[1..], b[1..], c[1..]);
    }
  }

  lemma {:induction false} TimeLeAntisymmetric(a: Time, b: Time)
    requires TimeLe(a, b) && TimeLe(b, a)
    ensures a == b
    decreases |a|
  {
    if |a| != 0 {
      TimeLeAntisymmetric(a[1..], b[1..]);
      assert a == [a[0]] + a[1..] && b == [b[0]] + b[1..];
    }
  }

  // ---------------------------------------------------------------------------
  // Identifiers of a table.

  /** The values of the identifier column. */
  function Ids(s: seq<Record>): set<Id>
  {
    set r | r in s :: r.id
  }

  lemma IdsAppend(a: seq<Record>, b: seq<Record>)
    ensures Ids(a + b) == Ids(a) + Ids(b)
  {
    forall id | id in Ids(a + b) ensures id in Ids(a) + Ids(b) {
      var r :| r in a + b && r.id == id;
    }
    forall id | id in Ids(a) + Ids(b) ensures id in Ids(a + b) {
      if id in Ids(a) {
        var r :| r in a && r.id == id;
        assert r in a + b;
      } else {
        var r :| r in b && r.id == id;
        assert r in a + b;
      }
    }
  }

  /** Two tables whose rows carry the same identifiers, row by row. */
  predicate SameIdColumn(a: seq<Record>, b: seq<Record>)
  {
    |a| == |b| && forall i :: 0 <= i < |a| ==> a[i].id == b[i].id
  }

  lemma SameIdColumnIds(a: seq<Record>, b: seq<Record>)
    requires SameIdColumn(a, b)
    ensures Ids(a) == Ids(b)
    ensures UniqueIds(a) <==> UniqueIds(b)
  {
    forall id | id in Ids(a) ensures id in Ids(b) {
      var r :| r in a && r.id == id;
      var i :| 0 <= i < |a| && a[i] == r;
      assert b[i] in b;
    }
    forall id | id in Ids(b) ensures id in Ids(a) {
      var r :| r in b && r.id == id;
      var i :| 0 <= i < |b| && b[i] == r;
      assert a[i] in a;
    }
  }

  /** The identifier column holds no value twice (the ledger is keyed by it). */
  predicate UniqueIds(s: seq<Record>)
  {
    forall i, j :: 0 <= i < j < |s| ==> s[i].id != s[j].id
  }

  lemma UniqueAppend(a: seq<Record>, b: seq<Record>)
    requires UniqueIds(a) && UniqueIds(b) && Ids(a) !! Ids(b)
    ensures UniqueIds(a + b)
  {
    var ab := a + b;
    forall i, j | 0 <= i < j < |ab| ensures ab[i].id != ab[j].id {
      if j < |a| {
        assert ab[i] == a[i] && ab[j] == a[j];
      } else if |a| <= i {
        assert ab[i] == b[i - |a|] && ab[j] == b[j - |a|];
      } else {
        assert ab[i] == a[i] && a[i] in a;
        assert ab[j] == b[j - |a|] && b[j - |a|] in b;
        assert a[i].id in Ids(a) && b[j - |a|].id in Ids(b);
      }
    }
  }

  /** In a table keyed by the identifier, the first row's identifier does not occur again. */
  lemma UniqueHeadFresh(s: seq<Record>)
    requires UniqueIds(s) && s != []
    ensures s[0].id !in Ids(s[1..])
  {
    forall r | r in s[1..] ensures r.id != s[0].id {
      var j :| 0 <= j < |s[1..]| && s[1..][j] == r;
      assert s[j + 1] == r;
    }
  }

  /** A table without duplicate identifiers has as many rows as identifiers. */
  lemma {:induction false} UniqueIdsCardinality(s: seq<Record>)
    requires UniqueIds(s)
    ensures |Ids(s)| == |s|
  {
    if s != [] {
      UniqueIdsCardinality(s[1..]);
      IdsAppend([s[0]], s[1..]);
      assert s == [s[0]] + s[1..];
      assert Ids([s[0]]) == {s[0].id};
      UniqueHeadFresh(s);
    }
  }

  // ---------------------------------------------------------------------------
  // Counting occurrences of an identifier (`value_counts`) and summing counts.

  function Occurrences(s: seq<Record>, id: Id): nat
  {
    if s == [] then 0 else (if s[0].id == id then 1 else 0) + Occurrences(s[1..], id)
  }

  lemma {:induction false} OccurrencesAppend(a: seq<Record>, b: seq<Record>, id: Id)
    ensures Occurrences(a + b, id) == Occurrences(a, id) + Occurrences(b, id)
  {
    if a == [] {
      assert a + b == b;
    } else {
      assert (a + b)[1..] == a[1..] + b;
      OccurrencesAppend(a[1..], b, id);
    }
  }

  lemma {:induction false} OccurrencesAbsent(s: seq<Record>, id: Id)
    requires id !in Ids(s)
    ensures Occurrences(s, id) == 0
  {
    if s != [] {
      assert s[0] in s;
      assert Ids(s[1..]) <= Ids(s) by {
        forall x | x in Ids(s[1..]) ensures x in Ids(s) {
          var r :| r in s[1..] && r.id == x;
          assert r in s;
        }
      }
      OccurrencesAbsent(s[1..], id);
    }
  }

  lemma {:induction false} OccurrencesPresent(s: seq<Record>, id: Id)
    requires id in Ids(s)
    ensures Occurrences(s, id) >= 1
  {
    if s[0].id != id {
      var r :| r in s && r.id == id;
      assert r in s[1..];
      OccurrencesPresent(s[1..], id);
    }
  }

  /** In a table keyed by the identifier, each identifier occurs once. */
  lemma {:induction false} OccurrencesUnique(s: seq<Record>, id: Id)
    requires UniqueIds(s) && id in Ids(s)
    ensures Occurrences(s, id) == 1
  {
    assert Ids(s[1..]) + {s[0].id} == Ids(s) by {
      IdsAppend([s[0]], s[1..]);
      assert s == [s[0]] + s[1..];
      assert Ids([s[0]]) == {s[0].id};
    }
    if s[0].id == id {
      UniqueHeadFresh(s);
      OccurrencesAbsent(s[1..], id);
    } else {
      OccurrencesUnique(s[1..], id);
    }
  }

  /** The sum of the count column, a missing count adding nothing. */
  ghost function SumCounts(s: seq<Record>): nat
  {
    if s == [] then 0 else s[0].count.GetOr(0) + SumCounts(s[1..])
  }

  lemma {:induction false} SumCountsAppend(a: seq<Record>, b: seq<Record>)
    ensures SumCounts(a + b) == SumCounts(a) + SumCounts(b)
  {
    if a == [] {
      assert a + b == b;
    } else {
      assert (a + b)[1..] == a[1..] + b;
      SumCountsAppend(a[1..], b);
    }
  }

  /** The number of rows of `b` whose identifier is that of some row of `d`, row by row of `d`. */
  ghost function SumOccurrences(d: seq<Record>, b: seq<Record>): nat
  {
    if d == [] then 0 else Occurrences(b, d[0].id) + SumOccurrences(d[1..], b)
  }

  lemma {:induction false} SumOccurrencesAppend(d: seq<Record>, e: seq<Record>, b: seq<Record>)
    ensures SumOccurrences(d + e, b) == SumOccurrences(d, b) + SumOccurrences(e, b)
  {
    if d == [] {
      assert d + e == e;
    } else {
      assert (d + e)[1..] == d[1..] + e;
      SumOccurrencesAppend(d[1..], e, b);
    }
  }

  /** A table whose counts are the row counts of `b` sums to the same total. */
  lemma {:induction false} SumCountsOfOccurrences(d: seq<Record>, b: seq<Record>)
    requires forall r :: r in d ==> r.count == Some(Occurrences(b, r.id))
    ensures SumCounts(d) == SumOccurrences(d, b)
  {
    if d != [] {
      assert d[0] in d;
      SumCountsOfOccurrences(d[1..], b);
    }
  }

  /** Raising each row's count by its identifier's rows in `b` raises the total by that many. */
  lemma {:induction false} SumCountsGrow(x: seq<Record>, y: seq<Record>, b: seq<Record>)
    requires |x| == |y|
    requires forall i :: 0 <= i < |x| ==> x[i].count.GetOr(0) == y[i].count.GetOr(0) + Occurrences(b, y[i].id)
    ensures SumCounts(x) == SumCounts(y) + SumOccurrences(y, b)
  {
    if x != [] {
      SumCountsGrow(x[1..], y[1..], b);
    }
  }

  lemma {:induction false} SumOccurrencesCons(d: seq<Record>, x: Record, b: seq<Record>)
    ensures SumOccurrences(d, [x] + b) == Occurrences(d, x.id) + SumOccurrences(d, b)
  {
    if d != [] {
      assert ([x] + b)[1..] == b;
      SumOccurrencesCons(d[1..], x, b);
    }
  }

  /**
   * When `d` is keyed by the identifier and covers every identifier of `b`,
   * counting `b`'s rows identifier by identifier of `d` counts each row once.
   */
  lemma {:induction false} SumOccurrencesCovers(d: seq<Record>, b: seq<Record>)
    requires UniqueIds(d) && Ids(b) <= Ids(d)
    ensures SumOccurrences(d, b) == |b|
  {
    if b == [] {
      SumOccurrencesOfEmpty(d);
    } else {
      assert b == [b[0]] + b[1..];
      assert b[0] in b;
      assert Ids(b[1..]) <= Ids(b) by {
        forall x | x in Ids(b[1..]) ensures x in Ids(b) {
          var r :| r in b[1..] && r.id == x;
          assert r in b;
        }
      }
      SumOccurrencesCons(d, b[0], b[1..]);
      OccurrencesUnique(d, b[0].id);
      SumOccurrencesCovers(d, b[1..]);
    }
  }

  lemma {:induction false} SumOccurrencesOfEmpty(d: seq<Record>)
    ensures SumOccurrences(d, []) == 0
  {
    if d != [] {
      SumOccurrencesOfEmpty(d[1..]);
    }
  }

  // ---------------------------------------------------------------------------
  // Alignment on the identifier and the column operations.

  /** The row of a table that an index lookup by `id` finds. */
  function Lookup(rows: seq<Record>, id: Id): (r: Record)
    requires id in Ids(rows)
    ensures r in rows && r.id == id
  {
    if rows[0].id == id then rows[0]
    else
      var r :| r in rows && r.id == id;
      assert r in rows[1..];
      Lookup(rows[1..], id)
  }

  /**
   * `Series.add(other, fill_value=0)` on the count column: a cell missing on
   * one side counts as 0, a cell missing on both sides stays missing.
   */
  function AddCount(a: Option<nat>, b: Option<nat>): (c: Option<nat>)
    ensures c.None? <==> a.None? && b.None?
    ensures c.GetOr(0) == a.GetOr(0) + b.GetOr(0)
  {
    if a.None? && b.None? then None else Some(a.GetOr(0) + b.GetOr(0))
  }

  /**
   * `DataFrame.update` restricted to the last-time column: a row whose
   * identifier is a key of `m` takes `m`'s value; the other rows keep theirs.
   */
  function UpdateLastTime(rows: seq<Record>, m: map<Id, Time>): (r: seq<Record>)
    ensures SameIdColumn(r, rows)
    ensures forall i :: 0 <= i < |rows| ==>
      && r[i].(lastTime := rows[i].lastTime) == rows[i]
      && (rows[i].id in m ==> r[i].lastTime == Some(m[rows[i].id]))
      && (rows[i].id !in m ==> r[i] == rows[i])
  {
    seq(|rows|, i requires 0 <= i < |rows| =>
      if rows[i].id in m then rows[i].(lastTime := Some(m[rows[i].id])) else rows[i])
  }

  /** `DataFrame.update` restricted to the count column. */
  function UpdateCount(rows: seq<Record>, m: map<Id, nat>): (r: seq<Record>)
    ensures SameIdColumn(r, rows)
    ensures forall i :: 0 <= i < |rows| ==>
      && r[i].(count := rows[i].count) == rows[i]
      && (rows[i].id in m ==> r[i].count == Some(m[rows[i].id]))
      && (rows[i].id !in m ==> r[i] == rows[i])
  {
    seq(|rows|, i requires 0 <= i < |rows| =>
      if rows[i].id in m then rows[i].(count := Some(m[rows[i].id])) else rows[i])
  }
}

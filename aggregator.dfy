/**
 * The headline metrics and the two summaries of app.py (lines 224-254): records
 * grouped by their raw key (direction and branch, or course; a missing key forms a
 * group of its own, as with `dropna=False`), counted, and sorted by pending then
 * total count, both descending.
 */
module Aggregator {
  import opened Normalizer
  import opened Classifier

  /** One summary row: the group key, its record count and how many are compliant or pending. */
  datatype Summary<K> = Summary(key: K, total: nat, cumplidos: nat, pendientes: nat)

  /** Every record carries the pending flag as the negation of the compliant flag. */
  predicate Flagged(rows: seq<Record>)
  {
    forall i :: 0 <= i < |rows| ==> rows[i].esPendiente == !rows[i].esCumplido
  }

  function Indicator(b: bool): nat
  {
    if b then 1 else 0
  }

  /** How many records satisfy `p`. */
  function CountIf(rows: seq<Record>, p: Record -> bool): (r: nat)
    ensures r <= |rows|
  {
    if rows == [] then 0 else CountIf(rows[..|rows| - 1], p) + Indicator(p(rows[|rows| - 1]))
  }

  /** The three headline figures: records, compliant records, pending records. */
  datatype Metrics = Metrics(total: nat, cumplidos: nat, pendientes: nat)

  /** `df_total.shape[0]`, `df_ok.shape[0]` and `df_pend.shape[0]` (app.py:224-232). */
  function MetricsOf(rows: seq<Record>): (m: Metrics)
    ensures m.total == |rows| && m.cumplidos <= m.total && m.pendientes <= m.total
  {
    Metrics(|rows|, CountIf(rows, (x: Record) => x.esCumplido), CountIf(rows, (x: Record) => x.esPendiente))
  }

  /** With consistent flags, every record is counted as exactly one of compliant or pending. */
  lemma {:induction false} MetricsBalanced(rows: seq<Record>)
    requires Flagged(rows)
    ensures MetricsOf(rows).total == MetricsOf(rows).cumplidos + MetricsOf(rows).pendientes
  {
    if rows != [] {
      var init := rows[..|rows| - 1];
      assert Flagged(init) by {
        forall i | 0 <= i < |init| ensures init[i] == rows[i] { }
      }
      MetricsBalanced(init);
    }
  }

  /** `.agg(size, sum of Es_Cumplido, sum of Es_Pendiente)` for one key. */
  function Tally<K(==,!new)>(rows: seq<Record>, key: Record -> K, k: K): (s: Summary<K>)
    ensures s.key == k && s.total <= |rows|
  {
    if rows == [] then Summary(k, 0, 0, 0)
    else
      var s := Tally(rows[..|rows| - 1], key, k);
      var x := rows[|rows| - 1];
      if key(x) == k then
        Summary(k, s.total + 1, s.cumplidos + Indicator(x.esCumplido), s.pendientes + Indicator(x.esPendiente))
      else s
  }

  /** A group's counts are the counts of the records carrying its key. */
  lemma {:induction false} TallyCounts<K(!new)>(rows: seq<Record>, key: Record -> K, k: K)
    ensures Tally(rows, key, k).total == CountIf(rows, (x: Record) => key(x) == k)
    ensures Tally(rows, key, k).cumplidos == CountIf(rows, (x: Record) => key(x) == k && x.esCumplido)
    ensures Tally(rows, key, k).pendientes == CountIf(rows, (x: Record) => key(x) == k && x.esPendiente)
  {
    if rows != [] {
      TallyCounts(rows[..|rows| - 1], key, k);
    }
  }

  /** A group never counts more pending or compliant records than it has. */
  lemma {:induction false} TallyPendingBound<K(!new)>(rows: seq<Record>, key: Record -> K, k: K)
    ensures Tally(rows, key, k).pendientes <= Tally(rows, key, k).total
    ensures Tally(rows, key, k).cumplidos <= Tally(rows, key, k).total
  {
    if rows != [] {
      TallyPendingBound(rows[..|rows| - 1], key, k);
    }
  }

  /** With consistent flags, a group's total is its compliant plus its pending count. */
  lemma {:induction false} TallyBalanced<K(!new)>(rows: seq<Record>, key: Record -> K, k: K)
    requires Flagged(rows)
    ensures Tally(rows, key, k).total == Tally(rows, key, k).cumplidos + Tally(rows, key, k).pendientes
  {
    if rows != [] {
      var init := rows[..|rows| - 1];
      assert Flagged(init) by {
        forall i | 0 <= i < |init| ensures init[i] == rows[i] { }
      }
      TallyBalanced(init, key, k);
    }
  }

  predicate DistinctSeq<K(==)>(ks: seq<K>)
  {
    forall i, j :: 0 <= i < j < |ks| ==> ks[i] != ks[j]
  }

  /** The distinct keys in order of first appearance. */
  function DistinctKeys<K(==,!new)>(ks: seq<K>): (r: seq<K>)
    ensures forall k :: k in r <==> k in ks
    ensures DistinctSeq(r)
  {
    if ks == [] then []
    else
      var d := DistinctKeys(ks[..|ks| - 1]);
      if ks[|ks| - 1] in d then d else d + [ks[|ks| - 1]]
  }

  /** The records' keys: a key is listed exactly when some record carries it. */
  function KeysOf<K(!new)>(rows: seq<Record>, key: Record -> K): (r: seq<K>)
    ensures forall k :: k in r <==> exists x :: x in rows && key(x) == k
  {
    var r := seq(|rows|, i requires 0 <= i < |rows| => key(rows[i]));
    assert forall k :: k in r <==> exists x :: x in rows && key(x) == k by {
      forall k | k in r ensures exists x :: x in rows && key(x) == k {
        var i :| 0 <= i < |r| && r[i] == k;
        assert rows[i] in rows;
      }
      forall x | x in rows ensures key(x) in r {
        var i :| 0 <= i < |rows| && rows[i] == x;
        assert r[i] == key(x);
      }
    }
    r
  }

  /** The tallies of the given keys, in their order. */
  function TalliesFor<K(==,!new)>(rows: seq<Record>, key: Record -> K, ks: seq<K>): (r: seq<Summary<K>>)
    ensures |r| == |ks|
    ensures forall i :: 0 <= i < |ks| ==> r[i] == Tally(rows, key, ks[i])
  {
    if ks == [] then [] else [Tally(rows, key, ks[0])] + TalliesFor(rows, key, ks[1..])
  }

  /** One summary row per distinct key of the records, before sorting. */
  function Groups<K(==,!new)>(rows: seq<Record>, key: Record -> K): seq<Summary<K>>
  {
    TalliesFor(rows, key, DistinctKeys(KeysOf(rows, key)))
  }

  function SumTotals<K>(gs: seq<Summary<K>>): nat
  {
    if gs == [] then 0 else gs[0].total + SumTotals(gs[1..])
  }

  lemma {:induction false} SumTotalsEmptyRows<K(!new)>(key: Record -> K, ks: seq<K>)
    ensures SumTotals(TalliesFor([], key, ks)) == 0
  {
    if ks != [] {
      SumTotalsEmptyRows(key, ks[1..]);
    }
  }

  /** Adding one record adds one to the tally of its key, when that key is listed once. */
  lemma {:induction false} SumTotalsStep<K(!new)>(rows: seq<Record>, x: Record, key: Record -> K, ks: seq<K>)
    requires DistinctSeq(ks)
    ensures SumTotals(TalliesFor(rows + [x], key, ks)) == SumTotals(TalliesFor(rows, key, ks)) + Indicator(key(x) in ks)
  {
    if ks != [] {
      assert DistinctSeq(ks[1..]) by {
        forall i, j | 0 <= i < j < |ks[1..]| ensures ks[1..][i] != ks[1..][j] {
          assert ks[1..][i] == ks[i + 1] && ks[1..][j] == ks[j + 1];
        }
      }
      SumTotalsStep(rows, x, key, ks[1..]);
      assert (rows + [x])[..|rows + [x]| - 1] == rows;
      assert key(x) in ks <==> key(x) == ks[0] || key(x) in ks[1..];
      assert key(x) == ks[0] ==> key(x) !in ks[1..];
    }
  }

  /** Over a duplicate-free list of keys covering every record, the totals add up to the record count. */
  lemma {:induction false} SumTotalsCovering<K(!new)>(rows: seq<Record>, key: Record -> K, ks: seq<K>)
    requires DistinctSeq(ks)
    requires forall i :: 0 <= i < |rows| ==> key(rows[i]) in ks
    ensures SumTotals(TalliesFor(rows, key, ks)) == |rows|
  {
    if rows == [] {
      SumTotalsEmptyRows(key, ks);
    } else {
      var init := rows[..|rows| - 1];
      SumTotalsCovering(init, key, ks);
      assert init + [rows[|rows| - 1]] == rows;
      SumTotalsStep(init, rows[|rows| - 1], key, ks);
    }
  }

  /** `AtLeast(a, b)`: `a` comes no later than `b` when sorting by (Pendientes, Total) descending. */
  predicate AtLeast<K>(a: Summary<K>, b: Summary<K>)
  {
    a.pendientes > b.pendientes || (a.pendientes == b.pendientes && a.total >= b.total)
  }

  predicate Descending<K>(gs: seq<Summary<K>>)
  {
    forall i, j :: 0 <= i < j < |gs| ==> AtLeast(gs[i], gs[j])
  }

  /** Places `g` before the first row it is at least as large as. */
  function Insert<K>(g: Summary<K>, gs: seq<Summary<K>>): (r: seq<Summary<K>>)
    ensures multiset(r) == multiset(gs) + multiset{g}
  {
    if gs == [] || AtLeast(g, gs[0]) then [g] + gs
    else
      assert gs == [gs[0]] + gs[1..];
      [gs[0]] + Insert(g, gs[1..])
  }

  /** Inserting into a descending list keeps it descending. */
  lemma {:induction false} InsertDescending<K>(g: Summary<K>, gs: seq<Summary<K>>)
    requires Descending(gs)
    ensures Descending(Insert(g, gs))
  {
    if gs != [] && !AtLeast(g, gs[0]) {
      var tail := Insert(g, gs[1..]);
      InsertDescending(g, gs[1..]);
      assert gs == [gs[0]] + gs[1..];
      forall t | t in tail ensures AtLeast(gs[0], t) {
        assert t in multiset(tail);
        assert t == g || t in gs[1..];
      }
    }
  }

  /** `.sort_values(["Pendientes", total], ascending=False)` */
  function SortDesc<K>(gs: seq<Summary<K>>): (r: seq<Summary<K>>)
    ensures Descending(r)
    ensures multiset(r) == multiset(gs)
  {
    if gs == [] then []
    else
      assert gs == [gs[0]] + gs[1..];
      InsertDescending(gs[0], SortDesc(gs[1..]));
      Insert(gs[0], SortDesc(gs[1..]))
  }

  /** Inserting a row adds its counts to the column sums. */
  lemma {:induction false} InsertSums<K>(g: Summary<K>, gs: seq<Summary<K>>)
    requires Descending(gs)
    ensures SumTotals(Insert(g, gs)) == g.total + SumTotals(gs)
    ensures SumPending(Insert(g, gs)) == g.pendientes + SumPending(gs)
  {
    if gs != [] && !AtLeast(g, gs[0]) {
      InsertSums(g, gs[1..]);
      assert gs == [gs[0]] + gs[1..];
    }
  }

  /** Sorting keeps the column sums. */
  lemma {:induction false} SortSums<K>(gs: seq<Summary<K>>)
    ensures SumTotals(SortDesc(gs)) == SumTotals(gs)
    ensures SumPending(SortDesc(gs)) == SumPending(gs)
  {
    if gs != [] {
      SortSums(gs[1..]);
      InsertSums(gs[0], SortDesc(gs[1..]));
    }
  }

  /** A summary table: one sorted row per distinct key (app.py:236-241 and 249-254). */
  function Report<K(==,!new)>(rows: seq<Record>, key: Record -> K): seq<Summary<K>>
  {
    SortDesc(Groups(rows, key))
  }

  /** `groupby(["Dirección", "Sucursal"], dropna=False)` */
  function BranchKey(x: Record): (Cell, Cell)
  {
    (x.direccion, x.sucursal)
  }

  /** `groupby("Curso", dropna=False)` */
  function CourseKey(x: Record): Cell
  {
    x.curso
  }

  /** Sorting only reorders: the summary holds the same rows as the unsorted groups. */
  lemma ReportRows<K(!new)>(rows: seq<Record>, key: Record -> K)
    ensures Descending(Report(rows, key))
    ensures forall g :: g in Report(rows, key) <==> g in Groups(rows, key)
  {
    var groups := Groups(rows, key);
    var report := Report(rows, key);
    assert forall g :: g in report <==> g in multiset(report);
    assert forall g :: g in groups <==> g in multiset(groups);
  }

  /** Each summary row is the tally of its own key. */
  lemma ReportTallies<K(!new)>(rows: seq<Record>, key: Record -> K)
    ensures forall g :: g in Report(rows, key) ==> g == Tally(rows, key, g.key)
  {
    ReportRows(rows, key);
    var groups := Groups(rows, key);
    forall g | g in Report(rows, key) ensures g == Tally(rows, key, g.key) {
      var j :| 0 <= j < |groups| && groups[j] == g;
    }
  }

  /** Every summary row's key is carried by some record. */
  lemma ReportKeysFromRecords<K(!new)>(rows: seq<Record>, key: Record -> K)
    ensures forall g :: g in Report(rows, key) ==> exists x :: x in rows && key(x) == g.key
  {
    var ks := DistinctKeys(KeysOf(rows, key));
    var groups := Groups(rows, key);
    ReportRows(rows, key);
    forall g | g in Report(rows, key) ensures exists x :: x in rows && key(x) == g.key {
      var j :| 0 <= j < |groups| && groups[j] == g;
      assert ks[j] in KeysOf(rows, key);
      var i :| 0 <= i < |rows| && KeysOf(rows, key)[i] == g.key;
      assert rows[i] in rows;
    }
  }

  /** Every record's key has a summary row. */
  lemma ReportCoversRecords<K(!new)>(rows: seq<Record>, key: Record -> K)
    ensures forall x :: x in rows ==> exists g :: g in Report(rows, key) && g.key == key(x)
  {
    var ks := DistinctKeys(KeysOf(rows, key));
    var groups := Groups(rows, key);
    ReportRows(rows, key);
    forall x | x in rows ensures exists g :: g in Report(rows, key) && g.key == key(x) {
      var i :| 0 <= i < |rows| && rows[i] == x;
      assert KeysOf(rows, key)[i] == key(x);
      assert key(x) in ks;
      var j :| 0 <= j < |ks| && ks[j] == key(x);
      assert groups[j] in Report(rows, key);
    }
  }

  /**
   * Each summary row is the tally of its key, and there is a row exactly for the keys
   * the records carry.
   */
  lemma ReportKeys<K(!new)>(rows: seq<Record>, key: Record -> K)
    ensures forall g :: g in Report(rows, key) ==> g == Tally(rows, key, g.key)
    ensures forall g :: g in Report(rows, key) ==> exists x :: x in rows && key(x) == g.key
    ensures forall x :: x in rows ==> exists g :: g in Report(rows, key) && g.key == key(x)
  {
    ReportTallies(rows, key);
    ReportKeysFromRecords(rows, key);
    ReportCoversRecords(rows, key);
  }

  /** The totals of the summary add up to the number of records. */
  lemma ReportConserves<K(!new)>(rows: seq<Record>, key: Record -> K)
    ensures SumTotals(Report(rows, key)) == |rows|
  {
    SumTotalsCovering(rows, key, DistinctKeys(KeysOf(rows, key)));
    SortSums(Groups(rows, key));
  }

  /** With consistent flags, every summary row's total is its compliant plus its pending count. */
  lemma ReportBalanced<K(!new)>(rows: seq<Record>, key: Record -> K)
    requires Flagged(rows)
    ensures forall g :: g in Report(rows, key) ==> g.total == g.cumplidos + g.pendientes
  {
    ReportKeys(rows, key);
    forall g | g in Report(rows, key) ensures g.total == g.cumplidos + g.pendientes {
      TallyBalanced(rows, key, g.key);
    }
  }

  lemma {:induction false} DistinctOnce<T>(s: seq<T>)
    requires DistinctSeq(s)
    ensures forall x :: multiset(s)[x] <= 1
  {
    if s != [] {
      assert DistinctSeq(s[1..]) by {
        forall i, j | 0 <= i < j < |s[1..]| ensures s[1..][i] != s[1..][j] {
          assert s[1..][i] == s[i + 1] && s[1..][j] == s[j + 1];
        }
      }
      DistinctOnce(s[1..]);
      assert s == [s[0]] + s[1..];
      assert s[0] !in s[1..];
    }
  }

  lemma TwiceCountsTwice<T>(s: seq<T>, i: nat, j: nat)
    requires i < j < |s| && s[i] == s[j]
    ensures multiset(s)[s[i]] >= 2
  {
    assert s == s[..i] + [s[i]] + s[i + 1..j] + [s[j]] + s[j + 1..];
  }

  /** No key has two rows in a summary. */
  lemma ReportKeysDistinct<K(!new)>(rows: seq<Record>, key: Record -> K)
    ensures forall i, j :: 0 <= i < j < |Report(rows, key)| ==> Report(rows, key)[i].key != Report(rows, key)[j].key
  {
    var ks := DistinctKeys(KeysOf(rows, key));
    var groups := Groups(rows, key);
    var report := Report(rows, key);
    ReportKeys(rows, key);
    assert DistinctSeq(groups) by {
      forall i, j | 0 <= i < j < |groups| ensures groups[i] != groups[j] {
        assert groups[i].key == ks[i] && groups[j].key == ks[j];
      }
    }
    DistinctOnce(groups);
    forall i, j | 0 <= i < j < |report| ensures report[i].key != report[j].key {
      if report[i].key == report[j].key {
        assert report[i] in report && report[j] in report;
        assert report[i] == report[j];
        TwiceCountsTwice(report, i, j);
        assert false;
      }
    }
  }

  /** The pending counts of a summary add up to the headline pending figure. */
  lemma ReportPendingMatchesMetrics<K(!new)>(rows: seq<Record>, key: Record -> K)
    ensures SumPending(Report(rows, key)) == MetricsOf(rows).pendientes
  {
    PendingConserved(rows, key, DistinctKeys(KeysOf(rows, key)));
    SortSums(Groups(rows, key));
  }

  /** No records, no summary rows. */
  lemma EmptyReport<K(!new)>(key: Record -> K)
    ensures Report([], key) == []
  {
  }

  /** The rows of the two summaries add up to the same number of pending records as the headline metric. */
  lemma {:induction false} PendingConserved<K(!new)>(rows: seq<Record>, key: Record -> K, ks: seq<K>)
    requires DistinctSeq(ks)
    requires forall i :: 0 <= i < |rows| ==> key(rows[i]) in ks
    ensures SumPending(TalliesFor(rows, key, ks)) == MetricsOf(rows).pendientes
  {
    if rows == [] {
      SumPendingEmptyRows(key, ks);
    } else {
      var init := rows[..|rows| - 1];
      PendingConserved(init, key, ks);
      assert init + [rows[|rows| - 1]] == rows;
      SumPendingStep(init, rows[|rows| - 1], key, ks);
    }
  }

  function SumPending<K>(gs: seq<Summary<K>>): nat
  {
    if gs == [] then 0 else gs[0].pendientes + SumPending(gs[1..])
  }

  lemma {:induction false} SumPendingEmptyRows<K(!new)>(key: Record -> K, ks: seq<K>)
    ensures SumPending(TalliesFor([], key, ks)) == 0
  {
    if ks != [] {
      SumPendingEmptyRows(key, ks[1..]);
    }
  }

  lemma {:induction false} SumPendingStep<K(!new)>(rows: seq<Record>, x: Record, key: Record -> K, ks: seq<K>)
    requires DistinctSeq(ks)
    ensures SumPending(TalliesFor(rows + [x], key, ks))
            == SumPending(TalliesFor(rows, key, ks)) + Indicator(key(x) in ks && x.esPendiente)
  {
    if ks != [] {
      assert DistinctSeq(ks[1..]) by {
        forall i, j | 0 <= i < j < |ks[1..]| ensures ks[1..][i] != ks[1..][j] {
          assert ks[1..][i] == ks[i + 1] && ks[1..][j] == ks[j + 1];
        }
      }
      SumPendingStep(rows, x, key, ks[1..]);
      assert (rows + [x])[..|rows + [x]| - 1] == rows;
      assert key(x) in ks <==> key(x) == ks[0] || key(x) in ks[1..];
      assert key(x) == ks[0] ==> key(x) !in ks[1..];
    }
  }
}

/**
 * Monthly network metrics (src/build_network_metrics.py).
 *
 * The non-NULL correlations are grouped by month; in each month the pairs
 * whose absolute correlation reaches the threshold become the edges of an
 * undirected graph, whose size, density, degrees, clustering and largest
 * component are recorded.  Months without such a pair are skipped and the
 * records are sorted by month.
 */
module NetworkMetrics {
  import opened Common
  import opened Finite
  import opened Calendar
  import opened Graphs
  import MonthlyCorrelations

  /** Only pairs with |corr| >= CorrThreshold become edges. */
  const CorrThreshold: real := 0.5

  /** A row of `monthly_correlations` read with `WHERE corr IS NOT NULL`. */
  datatype Correlation = Correlation(month: Date, assetI: Asset, assetJ: Asset, corr: real)

  /** A row of `temporal_network_metrics`. */
  datatype MetricsRow = MetricsRow(
    month: Date,
    nAssets: nat,
    nEdges: nat,
    density: real,
    avgDegree: real,
    maxDegree: int,
    avgClustering: real,
    lccSize: int)

  /** The query: rows with a NULL correlation are not read; the others keep their order. */
  function LoadCorrelations(table: seq<MonthlyCorrelations.CorrRow>): (rows: seq<Correlation>)
    ensures |rows| <= |table|
  {
    if table == [] then []
    else
      var t := table[|table| - 1];
      LoadCorrelations(table[..|table| - 1])
      + (if t.corr.Some? then [Correlation(t.month, t.assetI, t.assetJ, t.corr.value)] else [])
  }

  /** A row is read exactly when the table holds it with a non-NULL correlation. */
  lemma {:induction false} LoadCorrelationsIff(table: seq<MonthlyCorrelations.CorrRow>, r: Correlation)
    ensures r in LoadCorrelations(table) <==>
      MonthlyCorrelations.CorrRow(r.month, r.assetI, r.assetJ, Some(r.corr)) in table
  {
    if table != [] {
      var init := table[..|table| - 1];
      LoadCorrelationsIff(init, r);
      assert table == init + [table[|table| - 1]];
    }
  }

  /** The months that have at least one row (the groups of `groupby("month")`). */
  function MonthsOf(rows: seq<Correlation>): set<Date>
  {
    set r | r in rows :: r.month
  }

  /** `df_month`: the rows of month `m`, in their original order. */
  function InMonth(rows: seq<Correlation>, m: Date): (dfMonth: seq<Correlation>)
    ensures forall r :: r in dfMonth <==> r in rows && r.month == m
  {
    if rows == [] then []
    else
      var r := rows[|rows| - 1];
      InMonth(rows[..|rows| - 1], m) + (if r.month == m then [r] else [])
  }

  function Abs(x: real): real
  {
    if x < 0.0 then -x else x
  }

  /** `df_edges`: the rows whose absolute correlation reaches the threshold, in order. */
  function StrongRows(dfMonth: seq<Correlation>): (dfEdges: seq<Correlation>)
    ensures forall r :: r in dfEdges <==> r in dfMonth && Abs(r.corr) >= CorrThreshold
  {
    if dfMonth == [] then []
    else
      var r := dfMonth[|dfMonth| - 1];
      StrongRows(dfMonth[..|dfMonth| - 1]) + (if Abs(r.corr) >= CorrThreshold then [r] else [])
  }

  /** The (asset_i, asset_j) pair of each row, in order. */
  function Pairs(rows: seq<Correlation>): (ps: seq<(Asset, Asset)>)
    ensures |ps| == |rows|
    ensures forall k | 0 <= k < |rows| :: ps[k] == (rows[k].assetI, rows[k].assetJ)
  {
    if rows == [] then []
    else Pairs(rows[..|rows| - 1]) + [(rows[|rows| - 1].assetI, rows[|rows| - 1].assetJ)]
  }

  /**
   * What one iteration of the month loop records for the rows of month
   * `m`: nothing when no pair reaches the threshold (or, as guarded in the
   * script, when the graph has no node), otherwise the metrics of the graph
   * whose edges are the strong pairs.
   */
  function MonthRecord(dfMonth: seq<Correlation>, m: Date): Option<MetricsRow>
  {
    var dfEdges := StrongRows(dfMonth);
    if dfEdges == [] then None
    else
      var g := BuildGraph(Pairs(dfEdges));
      if NumberOfNodes(g) == 0 then None
      else
        BuildGraphWf(Pairs(dfEdges));
        Some(Metrics(g, m))
  }

  /** The record of month `m` for graph `g`. */
  function Metrics(g: Snapshot, m: Date): MetricsRow
    requires Symmetric(g)
  {
    MetricsRow(m, NumberOfNodes(g), NumberOfEdges(g), Density(g), AverageDegree(g),
      MaxDegree(g), AverageClustering(g), LccSize(g))
  }

  /** `nx.Graph()` followed by one `add_edge` per row, in order. */
  method GraphOf(dfEdges: seq<Correlation>) returns (g: Graph)
    ensures fresh(g)
    ensures g.View() == BuildGraph(Pairs(dfEdges))
  {
    g := new Graph();
    for k := 0 to |dfEdges|
      invariant g.View() == BuildGraph(Pairs(dfEdges[..k]))
    {
      assert dfEdges[..k + 1][..k] == dfEdges[..k];
      g.AddEdge(dfEdges[k].assetI, dfEdges[k].assetJ);
    }
    assert dfEdges[..|dfEdges|] == dfEdges;
  }

  /**
   * The body of the month loop: filter the strong rows, skip the month if
   * there are none, add one edge per strong row to a fresh graph, and
   * compute the metrics.
   */
  method MonthMetrics(dfMonth: seq<Correlation>, month: Date) returns (record: Option<MetricsRow>)
    ensures record == MonthRecord(dfMonth, month)
  {
    var dfEdges := StrongRows(dfMonth);
    if dfEdges == [] {
      return None;
    }
    var g := GraphOf(dfEdges);
    var view := g.View();
    var nNodes := NumberOfNodes(view);
    var nEdges := NumberOfEdges(view);
    if nNodes == 0 {
      return None;
    }
    BuildGraphWf(Pairs(dfEdges));
    var density := Density(view);
    var avgDegree := AverageDegree(view);
    var maxDegree := MaxDegree(view);
    var avgClustering := AverageClustering(view);
    var lccSize := LccSize(view);
    record := Some(MetricsRow(month, nNodes, nEdges, density, avgDegree, maxDegree, avgClustering, lccSize));
  }

  /** A row whose absolute correlation reaches the threshold. */
  predicate Strong(r: Correlation)
  {
    Abs(r.corr) >= CorrThreshold
  }

  /** Some row of the month reaching the threshold has `w` as an asset. */
  predicate StrongEndpoint(dfMonth: seq<Correlation>, w: Asset)
  {
    exists r | r in dfMonth :: Strong(r) && (w == r.assetI || w == r.assetJ)
  }

  /** Some row of the month reaching the threshold pairs `a` and `b`, in either orientation. */
  predicate StrongPair(dfMonth: seq<Correlation>, a: Asset, b: Asset)
  {
    exists r | r in dfMonth :: Strong(r) && ((r.assetI, r.assetJ) == (a, b) || (r.assetI, r.assetJ) == (b, a))
  }

  lemma EndpointIff(dfMonth: seq<Correlation>, w: Asset)
    ensures Endpoint(Pairs(StrongRows(dfMonth)), w) <==> StrongEndpoint(dfMonth, w)
  {
    var dfEdges := StrongRows(dfMonth);
    var edges := Pairs(dfEdges);
    if Endpoint(edges, w) {
      var i :| 0 <= i < |edges| && (w == edges[i].0 || w == edges[i].1);
      assert dfEdges[i] in dfEdges;
    }
    if StrongEndpoint(dfMonth, w) {
      var r :| r in dfMonth && Strong(r) && (w == r.assetI || w == r.assetJ);
      var i :| 0 <= i < |dfEdges| && dfEdges[i] == r;
      assert w == edges[i].0 || w == edges[i].1;
    }
  }

  lemma JoinedIff(dfMonth: seq<Correlation>, a: Asset, b: Asset)
    ensures Joined(Pairs(StrongRows(dfMonth)), a, b) <==> StrongPair(dfMonth, a, b)
  {
    var dfEdges := StrongRows(dfMonth);
    var edges := Pairs(dfEdges);
    if Joined(edges, a, b) {
      var i :| 0 <= i < |edges| && (edges[i] == (a, b) || edges[i] == (b, a));
      assert dfEdges[i] in dfEdges;
    }
    if StrongPair(dfMonth, a, b) {
      var r :| r in dfMonth && Strong(r) && ((r.assetI, r.assetJ) == (a, b) || (r.assetI, r.assetJ) == (b, a));
      var i :| 0 <= i < |dfEdges| && dfEdges[i] == r;
      assert edges[i] == (a, b) || edges[i] == (b, a);
    }
  }

  /**
   * The month's graph has as nodes exactly the assets of the rows reaching
   * the threshold, and as edges exactly their pairs.
   */
  lemma MonthGraph(dfMonth: seq<Correlation>)
    ensures var g := BuildGraph(Pairs(StrongRows(dfMonth)));
      && (forall w :: w in g.adj <==> StrongEndpoint(dfMonth, w))
      && (forall a, b :: Adjacent(g, a, b) <==> StrongPair(dfMonth, a, b))
  {
    BuildGraphAdjacency(Pairs(StrongRows(dfMonth)));
    forall w ensures Endpoint(Pairs(StrongRows(dfMonth)), w) <==> StrongEndpoint(dfMonth, w) {
      EndpointIff(dfMonth, w);
    }
    forall a, b ensures Joined(Pairs(StrongRows(dfMonth)), a, b) <==> StrongPair(dfMonth, a, b) {
      JoinedIff(dfMonth, a, b);
    }
  }

  /** The assets of the month's rows that reach the threshold. */
  function StrongAssets(dfMonth: seq<Correlation>): set<Asset>
  {
    (set r | r in dfMonth && Strong(r) :: r.assetI) + (set r | r in dfMonth && Strong(r) :: r.assetJ)
  }

  /** The unordered pairs of the month's rows that reach the threshold. */
  function StrongPairSet(dfMonth: seq<Correlation>): set<set<Asset>>
  {
    set r | r in dfMonth && Strong(r) :: {r.assetI, r.assetJ}
  }

  /** The month's graph has the assets of the strong rows as its nodes, and no other. */
  lemma MonthNodes(dfMonth: seq<Correlation>)
    ensures BuildGraph(Pairs(StrongRows(dfMonth))).adj.Keys == StrongAssets(dfMonth)
  {
    MonthGraph(dfMonth);
    forall w ensures StrongEndpoint(dfMonth, w) <==> w in StrongAssets(dfMonth) {
      if StrongEndpoint(dfMonth, w) {
        var r :| r in dfMonth && Strong(r) && (w == r.assetI || w == r.assetJ);
      }
    }
  }

  /** The month's graph has one edge per distinct unordered pair of strong rows. */
  lemma MonthEdges(dfMonth: seq<Correlation>)
    ensures Edges(BuildGraph(Pairs(StrongRows(dfMonth)))) == StrongPairSet(dfMonth)
  {
    var dfEdges := StrongRows(dfMonth);
    var edges := Pairs(dfEdges);
    BuildGraphEdges(edges);
    forall e | e in PairSet(edges) ensures e in StrongPairSet(dfMonth) {
      var i :| 0 <= i < |edges| && e == {edges[i].0, edges[i].1};
      assert dfEdges[i] in dfEdges;
    }
    forall e | e in StrongPairSet(dfMonth) ensures e in PairSet(edges) {
      var r :| r in dfMonth && Strong(r) && e == {r.assetI, r.assetJ};
      var i :| 0 <= i < |dfEdges| && dfEdges[i] == r;
      assert e == {edges[i].0, edges[i].1};
    }
  }

  /**
   * A record counts as assets exactly the assets of the rows reaching the
   * threshold (isolated assets are not counted), and as edges the distinct
   * unordered pairs of those rows (a pair present in both orientations
   * counts once).
   */
  lemma RecordCounts(dfMonth: seq<Correlation>, m: Date, rec: MetricsRow)
    requires MonthRecord(dfMonth, m) == Some(rec)
    ensures rec.nAssets == |StrongAssets(dfMonth)|
    ensures rec.nEdges == |StrongPairSet(dfMonth)|
  {
    var g := BuildGraph(Pairs(StrongRows(dfMonth)));
    BuildGraphWf(Pairs(StrongRows(dfMonth)));
    NodeCount(g);
    MonthNodes(dfMonth);
    MonthEdges(dfMonth);
  }

  /** A month gets a record exactly when one of its rows reaches the threshold. */
  lemma RecordIffStrongRow(dfMonth: seq<Correlation>, m: Date)
    ensures MonthRecord(dfMonth, m).Some? <==> exists r | r in dfMonth :: Strong(r)
    ensures MonthRecord(dfMonth, m).Some? ==> MonthRecord(dfMonth, m).value.month == m
  {
    var dfEdges := StrongRows(dfMonth);
    if dfEdges != [] {
      var edges := Pairs(dfEdges);
      var g := BuildGraph(edges);
      BuildGraphWf(edges);
      BuildGraphAdjacency(edges);
      assert Endpoint(edges, edges[0].0);
      NodeCount(g);
      assert NumberOfNodes(g) > 0;
    } else {
      assert forall r | r in dfMonth :: !Strong(r);
    }
  }

  /**
   * What a record of a graph with an edge and without self-loops satisfies:
   * at least two assets and one edge, density 2m / (n (n - 1)) in (0, 1],
   * mean degree 2m / n, largest degree between 1 and n - 1, average
   * clustering in [0, 1] and a largest component of 2 to n assets.
   */
  predicate WithinBounds(rec: MetricsRow)
  {
    && rec.nAssets >= 2 && rec.nEdges >= 1
    && 2 * rec.nEdges <= OrderedPairs(rec.nAssets)
    && rec.density == (2 * rec.nEdges) as real / OrderedPairs(rec.nAssets) as real
    && 0.0 < rec.density <= 1.0
    && rec.avgDegree == (2 * rec.nEdges) as real / rec.nAssets as real
    && 1 <= rec.maxDegree <= rec.nAssets - 1
    && 0.0 <= rec.avgClustering <= 1.0
    && 2 <= rec.lccSize <= rec.nAssets
  }

  /** A record assembled from values that obey the bounds is within bounds. */
  lemma AssembledWithinBounds(month: Date, n: nat, m: nat, density: real, avgDegree: real,
                              maxDegree: int, avgClustering: real, lccSize: int)
    requires n >= 2 && m >= 1 && 2 * m <= OrderedPairs(n)
    requires density == (2 * m) as real / OrderedPairs(n) as real && 0.0 < density <= 1.0
    requires avgDegree == (2 * m) as real / n as real
    requires 1 <= maxDegree <= n - 1
    requires 0.0 <= avgClustering <= 1.0
    requires 2 <= lccSize <= n
    ensures WithinBounds(MetricsRow(month, n, m, density, avgDegree, maxDegree, avgClustering, lccSize))
  {
  }

  /** The metrics of a graph with an edge u-v and no self-loop are within bounds. */
  lemma GraphBounds(g: Snapshot, u: Asset, v: Asset, month: Date)
    requires Wf(g) && NoSelfLoops(g) && Adjacent(g, u, v)
    requires DegreeSum(g) == 2 * NumberOfEdges(g)
    ensures WithinBounds(Metrics(g, month))
  {
    assert 2 * NumberOfEdges(g) <= OrderedPairs(NumberOfNodes(g))
      && Density(g) == (2 * NumberOfEdges(g)) as real / OrderedPairs(NumberOfNodes(g)) as real by {
      EdgeCountBounds(g, u, v);
      DensityBounds(g, u, v);
    }
    assert NumberOfNodes(g) >= 2 && NumberOfEdges(g) >= 1 && 0.0 < Density(g) <= 1.0 by {
      EdgeCountBounds(g, u, v);
      DensityBounds(g, u, v);
    }
    assert 1 <= MaxDegree(g) <= NumberOfNodes(g) - 1 by {
      MaxDegreeBounds(g, u, v);
    }
    assert 0.0 <= AverageClustering(g) <= 1.0 by {
      AverageClusteringBounds(g);
    }
    assert 2 <= LccSize(g) <= NumberOfNodes(g) by {
      LccBounds(g, u, v);
    }
    assert AverageDegree(g) == (2 * NumberOfEdges(g)) as real / NumberOfNodes(g) as real;
    AssembledWithinBounds(month, NumberOfNodes(g), NumberOfEdges(g), Density(g), AverageDegree(g),
      MaxDegree(g), AverageClustering(g), LccSize(g));
  }

  /** Without rows pairing an asset with itself, the month's graph has no self-loop and has an edge. */
  lemma StrongGraph(dfMonth: seq<Correlation>) returns (u: Asset, v: Asset)
    requires StrongRows(dfMonth) != []
    requires forall r | r in dfMonth :: r.assetI != r.assetJ
    ensures var g := BuildGraph(Pairs(StrongRows(dfMonth)));
      Wf(g) && NoSelfLoops(g) && Adjacent(g, u, v) && DegreeSum(g) == 2 * NumberOfEdges(g)
  {
    var dfEdges := StrongRows(dfMonth);
    var edges := Pairs(dfEdges);
    assert forall i | 0 <= i < |edges| :: dfEdges[i] in dfEdges;
    assert LoopFree(edges);
    BuildGraphWf(edges);
    BuildGraphAdjacency(edges);
    Handshake(edges);
    u, v := edges[0].0, edges[0].1;
    assert Joined(edges, u, v);
  }

  /** The record of a month whose rows never pair an asset with itself is within bounds. */
  lemma RecordBounds(dfMonth: seq<Correlation>, m: Date, rec: MetricsRow)
    requires MonthRecord(dfMonth, m) == Some(rec)
    requires forall r | r in dfMonth :: r.assetI != r.assetJ
    ensures rec.month == m && WithinBounds(rec)
  {
    var u, v := StrongGraph(dfMonth);
    GraphBounds(BuildGraph(Pairs(StrongRows(dfMonth))), u, v, m);
  }

  /** `MonthRecord` of each month, as a function value. */
  function RecordOf(rows: seq<Correlation>): Date -> Option<MetricsRow>
  {
    (m: Date) => MonthRecord(InMonth(rows, m), m)
  }

  /** The records the loop appends when it visits the months `ms` in that order. */
  function RecordsAlong(record: Date -> Option<MetricsRow>, ms: seq<Date>): seq<MetricsRow>
  {
    if ms == [] then []
    else
      var m := ms[|ms| - 1];
      RecordsAlong(record, ms[..|ms| - 1]) + (if record(m).None? then [] else [record(m).value])
  }

  /**
   * Visiting strictly ascending months yields strictly ascending records:
   * one for each visited month that has a record, and nothing else.
   */
  lemma {:induction false} RecordsAlongProps(record: Date -> Option<MetricsRow>, ms: seq<Date>)
    requires forall m :: record(m).Some? ==> record(m).value.month == m
    requires Ascending(ms)
    ensures var recs := RecordsAlong(record, ms);
      && (forall r | r in recs :: r.month in ms && record(r.month) == Some(r))
      && (forall m | m in ms && record(m).Some? :: record(m).value in recs)
      && (forall i, j | 0 <= i < j < |recs| :: Before(recs[i].month, recs[j].month))
  {
    if ms != [] {
      var init := ms[..|ms| - 1];
      var m := ms[|ms| - 1];
      assert Ascending(init);
      RecordsAlongProps(record, init);
      assert forall x | x in init :: Before(x, m);
      assert ms == init + [m];
    }
  }

  /** Whether the records are ordered by month, ties allowed. */
  predicate ByMonth(rs: seq<MetricsRow>)
  {
    forall i, j | 0 <= i < j < |rs| :: NotAfter(rs[i].month, rs[j].month)
  }

  /** Inserts `r` before the first record of a later month. */
  function InsertByMonth(r: MetricsRow, rs: seq<MetricsRow>): seq<MetricsRow>
  {
    if rs == [] then [r]
    else if Before(r.month, rs[0].month) then [r] + rs
    else [rs[0]] + InsertByMonth(r, rs[1..])
  }

  /** `sort_values("month")`. */
  function SortByMonth(rs: seq<MetricsRow>): seq<MetricsRow>
  {
    if rs == [] then []
    else InsertByMonth(rs[|rs| - 1], SortByMonth(rs[..|rs| - 1]))
  }

  lemma {:induction false} InsertByMonthElements(r: MetricsRow, rs: seq<MetricsRow>)
    ensures multiset(InsertByMonth(r, rs)) == multiset(rs) + multiset{r}
  {
    if rs != [] && !Before(r.month, rs[0].month) {
      InsertByMonthElements(r, rs[1..]);
      assert rs == [rs[0]] + rs[1..];
    }
  }

  lemma {:induction false} InsertByMonthMembers(r: MetricsRow, rs: seq<MetricsRow>)
    ensures forall x | x in InsertByMonth(r, rs) :: x == r || x in rs
  {
    if rs != [] && !Before(r.month, rs[0].month) {
      InsertByMonthMembers(r, rs[1..]);
    }
  }

  lemma {:induction false} InsertByMonthSorted(r: MetricsRow, rs: seq<MetricsRow>)
    requires ByMonth(rs)
    ensures ByMonth(InsertByMonth(r, rs))
  {
    if rs == [] {
    } else if Before(r.month, rs[0].month) {
      var out := [r] + rs;
      forall i, j | 0 <= i < j < |out| ensures NotAfter(out[i].month, out[j].month) {
        if i == 0 && j > 1 {
          NotAfterTransitive(r.month, rs[0].month, out[j].month);
        }
      }
    } else {
      var tail := InsertByMonth(r, rs[1..]);
      InsertByMonthSorted(r, rs[1..]);
      InsertByMonthMembers(r, rs[1..]);
      var out := [rs[0]] + tail;
      forall i, j | 0 <= i < j < |out| ensures NotAfter(out[i].month, out[j].month) {
        if i == 0 {
          var x := tail[j - 1];
          assert x in tail;
          if x != r {
            var k :| 0 <= k < |rs[1..]| && rs[1..][k] == x;
            assert rs[k + 1] == x;
          }
        }
      }
    }
  }

  /** Sorting orders the records by month and keeps each of them. */
  lemma {:induction false} SortByMonthSorted(rs: seq<MetricsRow>)
    ensures ByMonth(SortByMonth(rs))
    ensures multiset(SortByMonth(rs)) == multiset(rs)
  {
    if rs != [] {
      var init := rs[..|rs| - 1];
      SortByMonthSorted(init);
      InsertByMonthSorted(rs[|rs| - 1], SortByMonth(init));
      InsertByMonthElements(rs[|rs| - 1], SortByMonth(init));
      assert rs == init + [rs[|rs| - 1]];
    }
  }

  /** Inserting a record later than all others appends it. */
  lemma {:induction false} InsertLast(r: MetricsRow, rs: seq<MetricsRow>)
    requires forall x | x in rs :: Before(x.month, r.month)
    ensures InsertByMonth(r, rs) == rs + [r]
  {
    if rs != [] {
      assert rs[0] in rs;
      InsertLast(r, rs[1..]);
      assert rs == [rs[0]] + rs[1..];
    }
  }

  /** Records already in strictly ascending month order are left as they are. */
  lemma {:induction false} SortByMonthAscending(rs: seq<MetricsRow>)
    requires forall i, j | 0 <= i < j < |rs| :: Before(rs[i].month, rs[j].month)
    ensures SortByMonth(rs) == rs
  {
    if rs != [] {
      var init := rs[..|rs| - 1];
      SortByMonthAscending(init);
      forall x | x in init ensures Before(x.month, rs[|rs| - 1].month) {
        var i :| 0 <= i < |init| && init[i] == x;
      }
      InsertLast(rs[|rs| - 1], init);
    }
  }

  /**
   * The month loop: visit the months in the given order and append the
   * record of each month that has one.
   */
  method MonthlyRecords(rows: seq<Correlation>, months: seq<Date>) returns (records: seq<MetricsRow>)
    ensures records == RecordsAlong(RecordOf(rows), months)
  {
    records := [];
    for i := 0 to |months|
      invariant records == RecordsAlong(RecordOf(rows), months[..i])
    {
      var month := months[i];
      var dfMonth := InMonth(rows, month);
      var record := MonthMetrics(dfMonth, month);
      assert months[..i + 1][..i] == months[..i];
      assert RecordOf(rows)(month) == record;
      if record.None? {
        continue;
      }
      records := records + [record.value];
    }
    assert months[..|months|] == months;
  }

  /**
   * What the records of all months, visited in ascending order and then
   * sorted, amount to: one record per month that has a record, each that
   * month's, in strictly ascending month order.
   */
  lemma SortedRecords(rows: seq<Correlation>, months: seq<Date>)
    requires Elements(months) == MonthsOf(rows) && Ascending(months)
    ensures var metrics := SortByMonth(RecordsAlong(RecordOf(rows), months));
      && (forall r | r in metrics ::
            r.month in MonthsOf(rows) && MonthRecord(InMonth(rows, r.month), r.month) == Some(r))
      && (forall m | m in MonthsOf(rows) && MonthRecord(InMonth(rows, m), m).Some? ::
            MonthRecord(InMonth(rows, m), m).value in metrics)
      && (forall i, j | 0 <= i < j < |metrics| :: Before(metrics[i].month, metrics[j].month))
  {
    forall m ensures RecordOf(rows)(m).Some? ==> RecordOf(rows)(m).value.month == m {
      RecordIffStrongRow(InMonth(rows, m), m);
    }
    RecordsAlongProps(RecordOf(rows), months);
    assert forall m :: m in months <==> m in MonthsOf(rows) by {
      assert Elements(months) == MonthsOf(rows);
    }
    SortByMonthAscending(RecordsAlong(RecordOf(rows), months));
  }

  /**
   * The script: read the non-NULL correlations, build one graph per month
   * in month order, record its metrics, and sort the records by month.
   * The result has one record per month that has a row reaching the
   * threshold, each holding that month's metrics, in strictly ascending
   * month order.
   */
  method BuildNetworkMetrics(table: seq<MonthlyCorrelations.CorrRow>) returns (metrics: seq<MetricsRow>)
    ensures var rows := LoadCorrelations(table);
      && (forall r | r in metrics ::
            r.month in MonthsOf(rows) && MonthRecord(InMonth(rows, r.month), r.month) == Some(r))
      && (forall m | m in MonthsOf(rows) && MonthRecord(InMonth(rows, m), m).Some? ::
            MonthRecord(InMonth(rows, m), m).value in metrics)
      && (forall i, j | 0 <= i < j < |metrics| :: Before(metrics[i].month, metrics[j].month))
  {
    var rows := LoadCorrelations(table);
    var months := SortedKeys(MonthsOf(rows));
    var records := MonthlyRecords(rows, months);
    SortedRecords(rows, months);
    metrics := SortByMonth(records);
  }

  /**
   * Read from the table the first stage writes, no row of any month pairs
   * an asset with itself, as `RecordBounds` requires.
   */
  lemma StageOneRowsHaveNoSelfPairs(
    cells: MonthlyCorrelations.Cells, pearson: MonthlyCorrelations.Pearson,
    table: seq<MonthlyCorrelations.CorrRow>, m: Date)
    requires Elements(table) == MonthlyCorrelations.CorrelationTable(cells, pearson)
    ensures forall r | r in InMonth(LoadCorrelations(table), m) :: r.assetI != r.assetJ
  {
    MonthlyCorrelations.NoSelfPairs(cells, pearson);
    forall r | r in InMonth(LoadCorrelations(table), m) ensures r.assetI != r.assetJ {
      LoadCorrelationsIff(table, r);
      var t := MonthlyCorrelations.CorrRow(r.month, r.assetI, r.assetJ, Some(r.corr));
      assert t in Elements(table);
    }
  }

  /** Every record computed from the first stage's table is within bounds. */
  lemma PipelineRecordBounds(
    cells: MonthlyCorrelations.Cells, pearson: MonthlyCorrelations.Pearson,
    table: seq<MonthlyCorrelations.CorrRow>, m: Date, rec: MetricsRow)
    requires Elements(table) == MonthlyCorrelations.CorrelationTable(cells, pearson)
    requires MonthRecord(InMonth(LoadCorrelations(table), m), m) == Some(rec)
    ensures rec.month == m && WithinBounds(rec)
  {
    StageOneRowsHaveNoSelfPairs(cells, pearson, table, m);
    RecordBounds(InMonth(LoadCorrelations(table), m), m, rec);
  }
}

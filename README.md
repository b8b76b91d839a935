# Monthly correlation networks of crypto assets

This project models the two analysis stages of the crypto-sql-portfolio pipeline in Dafny and proves properties of the model.

1. **Monthly correlations** (`src/build_monthly_correlations.py`). The non-NULL daily log-returns are grouped by calendar month. Each month's returns are pivoted to one column per asset, and the assets with fewer than 10 returns that month are dropped. A month left with fewer than two assets is skipped. Otherwise the month's Pearson correlation matrix is stacked into long rows `(month, asset_i, asset_j, corr)` and the self-pairs are removed. Both orientations of every pair are kept.
2. **Network metrics** (`src/build_network_metrics.py`). The non-NULL correlations are grouped by month. The rows with `|corr| >= 0.5` become the edges of an undirected `networkx.Graph`, added one by one with `add_edge`. For each month with at least one such row the script records the number of nodes and edges, the density, the mean and largest degree, the mean clustering coefficient and the size of the largest connected component. The records are then sorted by month.

Modules:

- `Common`: optional values (SQL NULL) and asset identifiers.
- `Finite`: finite-set and sequence facts, such as the number of ordered pairs of distinct elements, sums and maxima over a node list, and the bounds of a mean.
- `Calendar`: valid dates, the month key, chronological order, and the ascending order in which `groupby` visits its keys.
- `MonthlyCorrelations`: the first stage.
- `Graphs`: the part of `networkx.Graph` the second stage uses.
  - The graph as a value (`Snapshot`) and as a class with state (`Graph`).
  - `add_edge`, degree, edge count, density, clustering, connected components.
- `NetworkMetrics`: the second stage, plus two lemmas that join the stages.

The loops of both scripts are methods with loop invariants:

- the month loops;
- the `add_edge` loop;
- `groupby`'s ascending walk over the month keys.

Each method is proved against a specification function. The properties are lemmas about those functions.

Where the repository's design description and the code disagree, the model follows the code:

- The code keeps both orientations `(i, j)` and `(j, i)` of every pair. It does not emit only `asset_i < asset_j`.
- The code filters on at least 10 returns per asset per month, not on a minimum pairwise overlap. The model writes an undefined coefficient as NULL, as pandas' current `stack()` does; older pandas versions drop such rows (see "Left out").
- A month's graph holds only the endpoints of the rows reaching the threshold. Assets without such a row are not nodes, so they are not counted in `n_assets`.
- A month without a row reaching the threshold is skipped. No all-zero record is written for it.

## Model

| member | source | states |
|---|---|---|
| Calendar.MonthStart | src/build_monthly_correlations.py:48 | the month key of a day lies in the same calendar month, is its first day and is not after the day |
| Calendar.SameKeyIffSameMonth | src/build_monthly_correlations.py:48 | two days get the same month key if and only if they lie in the same calendar month |
| Calendar.MonthStartIsEarliest | src/build_monthly_correlations.py:48 | the key is not after any day of its month, and is its own key |
| Calendar.MonthStartMonotone | src/build_monthly_correlations.py:48 | truncating to the month keeps chronological order |
| Calendar.SortedKeys | src/build_monthly_correlations.py:56 | the month keys in the order `groupby` visits them: each key exactly once, strictly ascending |
| MonthlyCorrelations.LoadReturnsKeepsNonNull | src/build_monthly_correlations.py:39-45 | every row with a non-NULL return becomes a cell holding that return, and every cell comes from such a row |
| MonthlyCorrelations.PivotCells | src/build_monthly_correlations.py:58 | the pivot holds every return of the month in its (asset, day) cell and nothing else |
| MonthlyCorrelations.KeepColumns | src/build_monthly_correlations.py:61-63 | a column is kept if and only if its count of returns reaches the minimum, and kept columns are unchanged |
| MonthlyCorrelations.CorrMatrix | src/build_monthly_correlations.py:70 | the matrix has an entry for exactly the ordered pairs of kept columns, each the coefficient of the two columns' common days |
| MonthlyCorrelations.ConcatAppend | src/build_monthly_correlations.py:89 | concatenating one more frame adds exactly its rows |
| MonthlyCorrelations.MonthFrame | src/build_monthly_correlations.py:58-86 | the loop body yields nothing exactly when fewer than two columns have at least 10 returns, and otherwise one row per ordered pair of distinct such columns |
| MonthlyCorrelations.MonthStep | src/build_monthly_correlations.py:56-86 | visiting one more month adds exactly the rows of that month's frame to the union of the visited months' rows |
| MonthlyCorrelations.AppendMonthFrame | src/build_monthly_correlations.py:56-86 | one iteration of the month loop, with its `continue` and `records.append`, keeps the concatenated frames equal to the rows of the months visited so far |
| MonthlyCorrelations.CorrelateMonths | src/build_monthly_correlations.py:54-91 | the month loop over the ascending month keys, with its concatenation, yields the union of every month's rows |
| MonthlyCorrelations.BuildMonthlyCorrelations | src/build_monthly_correlations.py:45-91 | the script's table is the correlation table of the non-NULL returns |
| MonthlyCorrelations.SurvivingColumns | src/build_monthly_correlations.py:58-63 | an asset survives in a month if and only if it has at least 10 returns that month, and its column is exactly those returns |
| MonthlyCorrelations.FrameRows | src/build_monthly_correlations.py:70-84 | the stacked, self-pair-free, month-tagged matrix has exactly one row per ordered pair of distinct kept columns |
| MonthlyCorrelations.MonthRows | src/build_monthly_correlations.py:58-86 | a month contributes nothing when fewer than two columns survive, and otherwise one row per ordered pair of distinct surviving columns |
| MonthlyCorrelations.MonthRowIff | src/build_monthly_correlations.py:56-86 | a row belongs to month m if and only if it is tagged m, joins two different assets each with at least 10 returns in m, and carries the coefficient of their common days |
| MonthlyCorrelations.MonthRowCount | src/build_monthly_correlations.py:66-81 | a month with k >= 2 surviving assets contributes k(k-1) rows, and a month with fewer contributes none |
| MonthlyCorrelations.TableRowIff | src/build_monthly_correlations.py:56-91 | a row is in the table if and only if its month has data and the row is among that month's rows; every month key is a first day |
| MonthlyCorrelations.NoSelfPairs | src/build_monthly_correlations.py:81 | no row of the table pairs an asset with itself |
| MonthlyCorrelations.TableSymmetric | src/build_monthly_correlations.py:70-78 | with a symmetric coefficient, (m, i, j, c) is a row if and only if (m, j, i, c) is |
| MonthlyCorrelations.PairLocality | src/build_monthly_correlations.py:60-70 | a pair's row depends only on the two assets' returns that month, whatever the other assets hold |
| Graphs.Empty | src/build_network_metrics.py:78 | a new graph is well formed and has no self-loop |
| Graphs.WithEdgeAdj | src/build_network_metrics.py:82 | `add_edge(u, v)` makes u and v nodes and neighbours of each other, and changes no other adjacency |
| Graphs.WithEdgeNodes | src/build_network_metrics.py:82 | `add_edge` keeps the old node list as a prefix, lists both endpoints, and lists every node exactly once |
| Graphs.WithEdgeWf | src/build_network_metrics.py:82 | `add_edge` keeps the node list and the adjacency consistent and symmetric |
| Graphs.WithEdgeNoSelfLoops | src/build_network_metrics.py:82 | joining two different assets creates no self-loop |
| Graphs.BuildGraphWf | src/build_network_metrics.py:78-82 | a graph built by `add_edge` calls is well formed, and loop-free input pairs give a graph without self-loops |
| Graphs.BuildGraphAdjacency | src/build_network_metrics.py:78-82 | the built graph's nodes are exactly the endpoints of the pairs, and two nodes are adjacent if and only if some pair joins them in either orientation |
| Graphs.BuildGraphEdges | src/build_network_metrics.py:81-85 | the built graph's edges are exactly the distinct unordered pairs of the input: repeated and mirrored pairs give one edge |
| Graphs.BuildGraphNoIsolated | src/build_network_metrics.py:81-84 | every node of the built graph has degree at least 1 |
| Graphs.WithEdgeEdges | src/build_network_metrics.py:82-85 | `add_edge(u, v)` adds the edge {u, v}, which was present before if and only if u and v were already adjacent |
| Graphs.WithEdgeDegree | src/build_network_metrics.py:82-94 | a new edge raises each endpoint's degree by one (a new self-loop by two), and an existing edge changes no degree |
| Graphs.WithEdgeEdgeCount | src/build_network_metrics.py:82-85 | `add_edge` raises the number of edges by one exactly when u and v were not already adjacent |
| Graphs.WithEdgeDegreeSum | src/build_network_metrics.py:82-94 | `add_edge` raises the degree sum by two exactly when the edge is new |
| Graphs.WithEdgeHandshake | src/build_network_metrics.py:82-94 | `add_edge` keeps the degree sum at twice the number of edges |
| Graphs.Handshake | src/build_network_metrics.py:85-94 | in a graph built by `add_edge` the degrees sum to twice the number of edges |
| Graphs.LinksBound | src/build_network_metrics.py:99 | a node with d neighbours (itself excluded) has at most d(d-1) ordered links among them |
| Graphs.Clustering | src/build_network_metrics.py:99 | a node's clustering coefficient lies in [0, 1], and is positive if and only if two of its neighbours are adjacent |
| Graphs.ClusteringLowDegree | src/build_network_metrics.py:99 | a node with fewer than two neighbours (itself excluded) has clustering 0 |
| Graphs.AverageClusteringBounds | src/build_network_metrics.py:100 | the mean clustering lies in [0, 1] |
| Graphs.ExpandStep | src/build_network_metrics.py:103 | one exploration step stays among the nodes, grows the set, and adds nothing exactly when the set is closed under adjacency |
| Graphs.ClosureLeast | src/build_network_metrics.py:103 | a node's component is the least set that contains it and is closed under adjacency |
| Graphs.NodeCount | src/build_network_metrics.py:84 | the number of nodes equals the number of distinct assets in the graph |
| Graphs.DegreeAtMost | src/build_network_metrics.py:94 | without self-loops a node's degree is at most n - 1 |
| Graphs.EdgeCountBounds | src/build_network_metrics.py:84-85 | a graph with an edge and without self-loops has at least 2 nodes and between 1 and n(n-1)/2 edges |
| Graphs.DensityBounds | src/build_network_metrics.py:92 | the density of such a graph equals 2m / (n(n-1)) and lies in (0, 1] |
| Graphs.MaxDegreeBounds | src/build_network_metrics.py:96 | the largest degree of such a graph lies between 1 and n - 1 |
| Graphs.LccBounds | src/build_network_metrics.py:103 | the largest component of such a graph has between 2 and n nodes |
| Graphs.LccIsLargest | src/build_network_metrics.py:103 | `lcc_size` is the size of some node's component, and no component is larger |
| Graphs.Graph.constructor | src/build_network_metrics.py:78 | `nx.Graph()` starts with no nodes and no edges |
| Graphs.Graph.AddEdge | src/build_network_metrics.py:82 | the object's state after `add_edge(u, v)` is `WithEdge` of its state before |
| NetworkMetrics.LoadCorrelationsIff | src/build_network_metrics.py:53-59 | a correlation is read if and only if the table holds it with a non-NULL value |
| NetworkMetrics.InMonth | src/build_network_metrics.py:69 | a month's rows are exactly the rows tagged with that month |
| NetworkMetrics.StrongRows | src/build_network_metrics.py:71 | a row is kept if and only if it is a row of the month and its absolute correlation is at least 0.5 |
| NetworkMetrics.Pairs | src/build_network_metrics.py:81-82 | the `(asset_i, asset_j)` pair of each kept row, one per row, in order |
| NetworkMetrics.GraphOf | src/build_network_metrics.py:78-82 | the `add_edge` loop leaves a fresh graph equal to the graph built from the kept rows' pairs in order |
| NetworkMetrics.MonthMetrics | src/build_network_metrics.py:71-116 | one iteration of the month loop yields the month's record, or nothing when it is skipped |
| NetworkMetrics.MonthGraph | src/build_network_metrics.py:71-82 | a month's graph has as nodes exactly the assets of rows reaching the threshold, and as adjacencies exactly their pairs |
| NetworkMetrics.MonthNodes | src/build_network_metrics.py:71-84 | a month's nodes are exactly the assets of rows reaching the threshold |
| NetworkMetrics.MonthEdges | src/build_network_metrics.py:71-85 | a month's edges are exactly the distinct unordered pairs of rows reaching the threshold |
| NetworkMetrics.RecordCounts | src/build_network_metrics.py:84-109 | `n_assets` counts the assets of the rows reaching the threshold, and `n_edges` the distinct unordered pairs of those rows |
| NetworkMetrics.RecordIffStrongRow | src/build_network_metrics.py:71-89 | a month has a record if and only if one of its rows reaches the threshold, so the `n_nodes == 0` guard never fires; the record carries the month |
| NetworkMetrics.GraphBounds | src/build_network_metrics.py:84-116 | the metrics of a graph with an edge and without self-loops satisfy every bound of `WithinBounds` |
| NetworkMetrics.RecordBounds | src/build_network_metrics.py:84-116 | the record of a month whose rows never pair an asset with itself carries that month and satisfies those bounds: n >= 2, density 2m/(n(n-1)) in (0, 1], mean degree 2m/n, largest degree in 1..n-1, mean clustering in [0, 1], largest component of 2..n nodes |
| NetworkMetrics.RecordsAlongProps | src/build_network_metrics.py:67-116 | visiting strictly ascending months yields one record per visited month that has a record, nothing else, in strictly ascending month order |
| NetworkMetrics.MonthlyRecords | src/build_network_metrics.py:67-116 | the month loop appends the record of each visited month that has one, in visiting order |
| NetworkMetrics.SortByMonthSorted | src/build_network_metrics.py:120 | sorting by month orders the records by month and is a permutation of them |
| NetworkMetrics.SortByMonthAscending | src/build_network_metrics.py:120 | records already in strictly ascending month order are left unchanged |
| NetworkMetrics.SortedRecords | src/build_network_metrics.py:118-120 | the sorted records are one per month that has a record, each that month's, in strictly ascending month order |
| NetworkMetrics.BuildNetworkMetrics | src/build_network_metrics.py:53-120 | the script's output has one record per month with a row reaching the threshold, each that month's metrics, and nothing else, in strictly ascending month order |
| NetworkMetrics.StageOneRowsHaveNoSelfPairs | src/build_network_metrics.py:53-69 | read from the table the first stage writes, no month's row pairs an asset with itself |
| NetworkMetrics.PipelineRecordBounds | src/build_network_metrics.py:84-116 | every record computed from the first stage's table carries its month and satisfies the bounds of `WithinBounds` |

## Left out

- Database access is not modelled: the connection, the password check and the `COPY`/`INSERT` writes. The tables are parameters and results.
- The plots and reports of the network stage are not modelled.
- Floating point is not modelled. Returns, correlations and metrics are exact reals.
- Pearson's coefficient is not computed. It is an abstract function of the two columns' common (day, x, y) observations that returns `None` where pandas yields NaN. `TableSymmetric` assumes it is symmetric.
- The edge weights (`weight=row["corr"]`) are not stored, because no metric of the script uses them (`clustering` is called with `weight=None`).
- `MonthlyCorrelations.CorrelationTable` is a set of rows, so the order and multiplicity of rows within the written table are not modelled. Pairs are unique within a month.
- Pandas versions whose `stack()` drops NaN entries would omit rows whose coefficient is undefined. The model keeps them as NULL rows. The network stage reads only non-NULL rows, so its results are the same either way.
- `MonthlyCorrelations.LoadReturns` requires at most one non-NULL return per (asset, day). The daily table holds one row per asset and day, and `pivot` would raise on two non-NULL returns for the same cell; NULL rows are dropped by the query before the pivot and are unconstrained.
- `Graphs.Degree` is 0 for an asset that is not a node. The script asks only for the degrees of nodes.
- `Graphs.LccSize` is the largest component size over the nodes. It does not enumerate the components as `connected_components` does, and `LccIsLargest` proves the two agree.
- `NetworkMetrics.SortByMonth` is an insertion sort. The script's `sort_values` uses pandas' default algorithm, which can order records with equal months differently. Each month has at most one record, so no such ties occur.
- `NetworkMetrics.RecordBounds` requires that no row pairs an asset with itself. `StageOneRowsHaveNoSelfPairs` proves this for the first stage's table. A hand-written table with self-pairs could give a self-loop, whose degree counts twice.

/**
 * The part of an undirected `networkx.Graph` that the network stage uses:
 * nodes in insertion order, a symmetric adjacency, `add_edge`, degrees,
 * `number_of_edges`, `density`, `clustering` and `connected_components`.
 */
module Graphs {
  import opened Common
  import opened Finite

  /**
   * The state of a graph: the nodes in the order they were first added, and
   * each node's set of neighbours (a node with a self-loop is its own
   * neighbour).
   */
  datatype Snapshot = Snapshot(nodes: seq<Asset>, adj: map<Asset, set<Asset>>)

  /** `b` is a neighbour of `a`. */
  predicate Adjacent(g: Snapshot, a: Asset, b: Asset)
  {
    a in g.adj && b in g.adj[a]
  }

  /** Each node is listed once, and the listed nodes are the adjacency's keys. */
  ghost predicate NodesListed(g: Snapshot)
  {
    Distinct(g.nodes) && Elements(g.nodes) == g.adj.Keys
  }

  /** Every neighbour is a node, and adjacency goes both ways. */
  ghost predicate Symmetric(g: Snapshot)
  {
    forall a, b {:trigger Adjacent(g, a, b)} | Adjacent(g, a, b) :: b in g.adj && Adjacent(g, b, a)
  }

  /** The shape every graph built by `add_edge` has. */
  ghost predicate Wf(g: Snapshot)
  {
    NodesListed(g) && Symmetric(g)
  }

  /** No node is its own neighbour. */
  ghost predicate NoSelfLoops(g: Snapshot)
  {
    forall v | v in g.adj :: v !in g.adj[v]
  }

  /** `nx.Graph()`. */
  function Empty(): (g: Snapshot)
    ensures Wf(g) && NoSelfLoops(g)
  {
    Snapshot([], map[])
  }

  /** The neighbours of `w` (none for an asset that is not a node). */
  function Neighbours(g: Snapshot, w: Asset): set<Asset>
  {
    if w in g.adj then g.adj[w] else {}
  }

  /**
   * `G.add_edge(u, v)`: adds the endpoints that are missing (first `u`,
   * then `v`) and makes each a neighbour of the other.
   */
  function WithEdge(g: Snapshot, u: Asset, v: Asset): Snapshot
  {
    var nodes := g.nodes + (if u in g.adj then [] else [u]) + (if v in g.adj || v == u then [] else [v]);
    Snapshot(nodes, g.adj[u := Neighbours(g, u) + {v}][v := Neighbours(g, v) + {u}])
  }

  /**
   * What `add_edge` does to the adjacency: the endpoints become nodes and
   * neighbours of each other; nothing else changes.
   */
  lemma WithEdgeAdj(g: Snapshot, u: Asset, v: Asset)
    ensures WithEdge(g, u, v).adj.Keys == g.adj.Keys + {u, v}
    ensures forall a, b :: Adjacent(WithEdge(g, u, v), a, b) <==>
      Adjacent(g, a, b) || (a == u && b == v) || (a == v && b == u)
  {
  }

  /** `add_edge` keeps the old node list as a prefix and lists each new endpoint once after it. */
  lemma WithEdgeNodes(g: Snapshot, u: Asset, v: Asset)
    requires NodesListed(g)
    ensures NodesListed(WithEdge(g, u, v))
    ensures u in WithEdge(g, u, v).nodes && v in WithEdge(g, u, v).nodes
    ensures |g.nodes| <= |WithEdge(g, u, v).nodes| && WithEdge(g, u, v).nodes[..|g.nodes|] == g.nodes
  {
    var g' := WithEdge(g, u, v);
    var n1 := g.nodes + (if u in g.adj then [] else [u]);
    assert Distinct(n1) && Elements(n1) == g.adj.Keys + {u} by {
      if u !in g.adj {
        DistinctAppend(g.nodes, u);
      } else {
        assert n1 == g.nodes;
      }
    }
    assert Distinct(g'.nodes) && Elements(g'.nodes) == g'.adj.Keys by {
      if v !in g.adj && v != u {
        DistinctAppend(n1, v);
      } else {
        assert g'.nodes == n1;
      }
    }
    assert u in Elements(g'.nodes) && v in Elements(g'.nodes);
    WithEdgePrefix(g, u, v);
  }

  /** `add_edge` only appends to the node list. */
  lemma WithEdgePrefix(g: Snapshot, u: Asset, v: Asset)
    ensures |g.nodes| <= |WithEdge(g, u, v).nodes| && WithEdge(g, u, v).nodes[..|g.nodes|] == g.nodes
  {
  }

  /** `add_edge` keeps a graph well formed. */
  lemma WithEdgeWf(g: Snapshot, u: Asset, v: Asset)
    requires Wf(g)
    ensures Wf(WithEdge(g, u, v))
  {
    var g' := WithEdge(g, u, v);
    WithEdgeNodes(g, u, v);
    WithEdgeAdj(g, u, v);
    forall a, b | Adjacent(g', a, b) ensures b in g'.adj && Adjacent(g', b, a) {
      if Adjacent(g, a, b) {
        assert Adjacent(g, b, a);
      }
    }
  }

  /** Joining two different nodes creates no self-loop. */
  lemma WithEdgeNoSelfLoops(g: Snapshot, u: Asset, v: Asset)
    requires Wf(g) && NoSelfLoops(g) && u != v
    ensures NoSelfLoops(WithEdge(g, u, v))
  {
    WithEdgeAdj(g, u, v);
  }

  /**
   * The graph `add_edge` builds from a list of (asset_i, asset_j) pairs,
   * added in order.
   */
  function BuildGraph(edges: seq<(Asset, Asset)>): Snapshot
  {
    if edges == [] then Empty()
    else
      var last := edges[|edges| - 1];
      WithEdge(BuildGraph(edges[..|edges| - 1]), last.0, last.1)
  }

  /** No pair in the list joins a node to itself. */
  predicate LoopFree(edges: seq<(Asset, Asset)>)
  {
    forall i | 0 <= i < |edges| :: edges[i].0 != edges[i].1
  }

  /** Some pair of the list has `w` as an endpoint. */
  predicate Endpoint(edges: seq<(Asset, Asset)>, w: Asset)
  {
    exists i | 0 <= i < |edges| :: w == edges[i].0 || w == edges[i].1
  }

  /** Some pair of the list joins `a` and `b`, in either orientation. */
  predicate Joined(edges: seq<(Asset, Asset)>, a: Asset, b: Asset)
  {
    exists i | 0 <= i < |edges| :: edges[i] == (a, b) || edges[i] == (b, a)
  }

  lemma EndpointJoinedStep(edges: seq<(Asset, Asset)>)
    requires edges != []
    ensures var init := edges[..|edges| - 1]; var last := edges[|edges| - 1];
      && (forall w :: Endpoint(edges, w) <==> Endpoint(init, w) || w == last.0 || w == last.1)
      && (forall a, b :: Joined(edges, a, b) <==> Joined(init, a, b) || (a, b) == last || (b, a) == last)
  {
    var init := edges[..|edges| - 1];
    assert forall i | 0 <= i < |init| :: init[i] == edges[i];
  }

  /** The built graph is well formed, and a loop-free list gives a loop-free graph. */
  lemma {:induction false} BuildGraphWf(edges: seq<(Asset, Asset)>)
    ensures Wf(BuildGraph(edges))
    ensures LoopFree(edges) ==> NoSelfLoops(BuildGraph(edges))
  {
    if edges != [] {
      var init := edges[..|edges| - 1];
      var last := edges[|edges| - 1];
      BuildGraphWf(init);
      WithEdgeWf(BuildGraph(init), last.0, last.1);
      if LoopFree(edges) {
        assert LoopFree(init) by {
          assert forall i | 0 <= i < |init| :: init[i] == edges[i];
        }
        WithEdgeNoSelfLoops(BuildGraph(init), last.0, last.1);
      }
    }
  }

  /**
   * The nodes of the built graph are exactly the endpoints of the pairs, and
   * two nodes are adjacent exactly when some pair joins them.
   */
  lemma {:induction false} BuildGraphAdjacency(edges: seq<(Asset, Asset)>)
    ensures forall w :: w in BuildGraph(edges).adj <==> Endpoint(edges, w)
    ensures forall a, b :: Adjacent(BuildGraph(edges), a, b) <==> Joined(edges, a, b)
  {
    if edges != [] {
      var init := edges[..|edges| - 1];
      var last := edges[|edges| - 1];
      BuildGraphAdjacency(init);
      BuildGraphWf(init);
      WithEdgeAdj(BuildGraph(init), last.0, last.1);
      EndpointJoinedStep(edges);
    }
  }

  /**
   * `G.degree[v]`: the number of neighbours, a self-loop counting twice
   * (0 for an asset that is not a node).
   */
  function Degree(g: Snapshot, v: Asset): nat
  {
    if v in g.adj then |g.adj[v]| + (if v in g.adj[v] then 1 else 0) else 0
  }

  /** `Degree` as a function value. */
  function DegreeOf(g: Snapshot): Asset -> int
  {
    v => Degree(g, v)
  }

  /** The degrees of all nodes, added up. */
  function DegreeSum(g: Snapshot): int
  {
    SumOf(g.nodes, DegreeOf(g))
  }

  /** The edges, each an unordered pair (a one-element set for a self-loop). */
  function Edges(g: Snapshot): set<set<Asset>>
  {
    set a, b | a in g.adj && b in g.adj[a] :: {a, b}
  }

  /** `G.number_of_edges()`. */
  function NumberOfEdges(g: Snapshot): nat
  {
    |Edges(g)|
  }

  /** `add_edge` adds the edge {u, v}, which is new unless u and v were already adjacent. */
  lemma WithEdgeEdges(g: Snapshot, u: Asset, v: Asset)
    requires Wf(g)
    ensures Edges(WithEdge(g, u, v)) == Edges(g) + {{u, v}}
    ensures {u, v} in Edges(g) <==> Adjacent(g, u, v)
  {
    var g' := WithEdge(g, u, v);
    WithEdgeAdj(g, u, v);
    forall e | e in Edges(g') ensures e in Edges(g) + {{u, v}} {
      var a, b :| a in g'.adj && b in g'.adj[a] && e == {a, b};
      assert Adjacent(g', a, b);
      if Adjacent(g, a, b) {
        assert {a, b} in Edges(g);
      } else {
        assert {a, b} == {u, v};
      }
    }
    forall e | e in Edges(g) + {{u, v}} ensures e in Edges(g') {
      if e in Edges(g) {
        var a, b :| a in g.adj && b in g.adj[a] && e == {a, b};
        assert Adjacent(g', a, b);
      } else {
        assert Adjacent(g', u, v);
      }
    }
    if {u, v} in Edges(g) {
      var a, b :| a in g.adj && b in g.adj[a] && {u, v} == {a, b};
      assert Adjacent(g, a, b) && Adjacent(g, b, a);
      assert u == a || u == b;
    }
  }

  /** Adding an edge that is already there changes no adjacency. */
  lemma WithEdgePresent(g: Snapshot, u: Asset, v: Asset)
    requires Symmetric(g) && Adjacent(g, u, v)
    ensures WithEdge(g, u, v).adj == g.adj
  {
    assert v in g.adj && Adjacent(g, v, u);
    assert g.adj[u] + {v} == g.adj[u] && g.adj[v] + {u} == g.adj[v];
  }

  /** Adding a new edge raises the degree of each endpoint by one (a new self-loop by two). */
  lemma WithEdgeNewDegree(g: Snapshot, u: Asset, v: Asset, w: Asset)
    requires Symmetric(g) && !Adjacent(g, u, v)
    ensures Degree(WithEdge(g, u, v), w) == Degree(g, w) + (if w == u then 1 else 0) + (if w == v then 1 else 0)
  {
    var g' := WithEdge(g, u, v);
    if w == u && w == v {
      assert g'.adj[w] == Neighbours(g, w) + {w};
      assert w !in Neighbours(g, w);
    } else if w == u {
      assert g'.adj[w] == Neighbours(g, w) + {v};
      assert v !in Neighbours(g, w);
    } else if w == v {
      assert g'.adj[w] == Neighbours(g, w) + {u};
      assert u !in Neighbours(g, w) by {
        assert Adjacent(g, v, u) ==> Adjacent(g, u, v);
      }
    } else if w in g.adj {
      assert g'.adj[w] == g.adj[w];
    }
  }

  /** The degree `add_edge` gives each node: one more at each end of a new edge, two at a new self-loop, none for an edge already there. */
  lemma WithEdgeDegree(g: Snapshot, u: Asset, v: Asset, w: Asset)
    requires Symmetric(g)
    ensures Degree(WithEdge(g, u, v), w) == Degree(g, w)
      + (if Adjacent(g, u, v) then 0 else (if w == u then 1 else 0) + (if w == v then 1 else 0))
  {
    if Adjacent(g, u, v) {
      WithEdgePresent(g, u, v);
    } else {
      WithEdgeNewDegree(g, u, v, w);
    }
  }

  /** Summed over the nodes after `add_edge`, the old degrees give the old degree sum. */
  lemma WithEdgeOldSum(g: Snapshot, u: Asset, v: Asset)
    ensures SumOf(WithEdge(g, u, v).nodes, DegreeOf(g)) == DegreeSum(g)
  {
    var f := DegreeOf(g);
    var n1 := g.nodes + (if u in g.adj then [] else [u]);
    if u !in g.adj {
      SumOfAppend(g.nodes, u, f);
    } else {
      assert n1 == g.nodes;
    }
    if v !in g.adj && v != u {
      SumOfAppend(n1, v, f);
    } else {
      assert WithEdge(g, u, v).nodes == n1;
    }
  }

  /** The change `add_edge(u, v)` makes to each degree, as a function value. */
  function DegreeChange(g: Snapshot, u: Asset, v: Asset): Asset -> int
  {
    if Adjacent(g, u, v) then (w: Asset) => 0 else EndCount(u, v)
  }

  lemma WithEdgeDegreeShift(g: Snapshot, u: Asset, v: Asset)
    requires Symmetric(g)
    ensures var nodes := WithEdge(g, u, v).nodes;
      SumOf(nodes, DegreeOf(WithEdge(g, u, v)))
      == SumOf(nodes, DegreeOf(g)) + SumOf(nodes, DegreeChange(g, u, v))
  {
    var g' := WithEdge(g, u, v);
    var d := DegreeChange(g, u, v);
    forall i | 0 <= i < |g'.nodes|
      ensures DegreeOf(g')(g'.nodes[i]) == DegreeOf(g)(g'.nodes[i]) + d(g'.nodes[i])
    {
      WithEdgeDegree(g, u, v, g'.nodes[i]);
    }
    SumOfShift(g'.nodes, DegreeOf(g), DegreeOf(g'), d);
  }

  lemma DegreeChangeSum(g: Snapshot, u: Asset, v: Asset)
    requires NodesListed(g)
    ensures SumOf(WithEdge(g, u, v).nodes, DegreeChange(g, u, v)) == if Adjacent(g, u, v) then 0 else 2
  {
    var nodes := WithEdge(g, u, v).nodes;
    if Adjacent(g, u, v) {
      SumOfBounds(nodes, DegreeChange(g, u, v), 0, 0);
    } else {
      WithEdgeNodes(g, u, v);
      SumOfEndCount(nodes, u, v);
    }
  }

  /**
   * `add_edge` raises the degree sum by two (one at each end, or two at the
   * node of a self-loop), unless the edge was already there.
   */
  lemma WithEdgeDegreeSum(g: Snapshot, u: Asset, v: Asset)
    requires Wf(g)
    ensures DegreeSum(WithEdge(g, u, v)) == DegreeSum(g) + (if Adjacent(g, u, v) then 0 else 2)
  {
    WithEdgeDegreeShift(g, u, v);
    DegreeChangeSum(g, u, v);
    WithEdgeOldSum(g, u, v);
  }

  /** `add_edge` adds one edge, unless u and v were already adjacent. */
  lemma WithEdgeEdgeCount(g: Snapshot, u: Asset, v: Asset)
    requires Wf(g)
    ensures NumberOfEdges(WithEdge(g, u, v)) == NumberOfEdges(g) + (if Adjacent(g, u, v) then 0 else 1)
  {
    WithEdgeEdges(g, u, v);
    if Adjacent(g, u, v) {
      assert Edges(WithEdge(g, u, v)) == Edges(g);
    } else {
      assert {u, v} !in Edges(g);
    }
  }

  /** `add_edge` keeps the degree sum at twice the number of edges. */
  lemma WithEdgeHandshake(g: Snapshot, u: Asset, v: Asset)
    requires Wf(g) && DegreeSum(g) == 2 * NumberOfEdges(g)
    ensures DegreeSum(WithEdge(g, u, v)) == 2 * NumberOfEdges(WithEdge(g, u, v))
  {
    WithEdgeDegreeSum(g, u, v);
    WithEdgeEdgeCount(g, u, v);
  }

  /**
   * The handshake lemma for a graph built by `add_edge`: the degrees add up
   * to twice the number of edges, so `number_of_edges`, which networkx
   * computes as half the degree sum, is the number of distinct edges.
   */
  lemma {:induction false} Handshake(edges: seq<(Asset, Asset)>)
    ensures DegreeSum(BuildGraph(edges)) == 2 * NumberOfEdges(BuildGraph(edges))
  {
    if edges != [] {
      var init := edges[..|edges| - 1];
      var last := edges[|edges| - 1];
      Handshake(init);
      BuildGraphWf(init);
      WithEdgeHandshake(BuildGraph(init), last.0, last.1);
    }
  }

  /** The unordered pairs {a, b} of a list of pairs. */
  function PairSet(edges: seq<(Asset, Asset)>): set<set<Asset>>
  {
    set i | 0 <= i < |edges| :: {edges[i].0, edges[i].1}
  }

  /**
   * The edges of the built graph are the distinct unordered pairs of the
   * list: repeated and mirrored pairs collapse into one edge.
   */
  lemma {:induction false} BuildGraphEdges(edges: seq<(Asset, Asset)>)
    ensures Edges(BuildGraph(edges)) == PairSet(edges)
  {
    if edges != [] {
      var init := edges[..|edges| - 1];
      var last := edges[|edges| - 1];
      BuildGraphEdges(init);
      BuildGraphWf(init);
      WithEdgeEdges(BuildGraph(init), last.0, last.1);
      PairSetLast(edges);
    }
  }

  /** The pairs of a list are those of all but its last element, and the last one. */
  lemma PairSetLast(edges: seq<(Asset, Asset)>)
    requires edges != []
    ensures var last := edges[|edges| - 1];
      PairSet(edges) == PairSet(edges[..|edges| - 1]) + {{last.0, last.1}}
  {
    var init := edges[..|edges| - 1];
    var last := edges[|edges| - 1];
    forall e | e in PairSet(edges) ensures e in PairSet(init) + {{last.0, last.1}} {
      var i :| 0 <= i < |edges| && e == {edges[i].0, edges[i].1};
      if i < |init| {
        assert edges[i] == init[i];
      }
    }
    forall e | e in PairSet(init) ensures e in PairSet(edges) {
      var i :| 0 <= i < |init| && e == {init[i].0, init[i].1};
      assert edges[i] == init[i];
    }
    assert {last.0, last.1} in PairSet(edges);
  }

  /** Every node of a built graph has a neighbour: no node is isolated. */
  lemma BuildGraphNoIsolated(edges: seq<(Asset, Asset)>, w: Asset)
    requires w in BuildGraph(edges).adj
    ensures Degree(BuildGraph(edges), w) >= 1
  {
    var g := BuildGraph(edges);
    BuildGraphAdjacency(edges);
    BuildGraphWf(edges);
    var i :| 0 <= i < |edges| && (w == edges[i].0 || w == edges[i].1);
    assert Joined(edges, edges[i].0, edges[i].1);
    assert Adjacent(g, edges[i].0, edges[i].1) && Adjacent(g, edges[i].1, edges[i].0);
    assert g.adj[w] != {};
  }

  /** `G.number_of_nodes()`. */
  function NumberOfNodes(g: Snapshot): nat
  {
    |g.nodes|
  }

  /** `nx.density(G)` for an undirected graph: 2m / (n (n - 1)), or 0 without edges or with one node. */
  function Density(g: Snapshot): real
  {
    var n := NumberOfNodes(g);
    var m := NumberOfEdges(g);
    if m == 0 || n <= 1 then 0.0 else m as real / OrderedPairs(n) as real * 2.0
  }

  /** The mean of the degrees (`degrees.mean()`), 0 for a graph without nodes. */
  function AverageDegree(g: Snapshot): real
  {
    if |g.nodes| > 0 then DegreeSum(g) as real / |g.nodes| as real else 0.0
  }

  /** The largest degree (`degrees.max()`), 0 for a graph without nodes. */
  function MaxDegree(g: Snapshot): int
  {
    if |g.nodes| > 0 then MaxOf(g.nodes, DegreeOf(g)) else 0
  }

  /**
   * The ordered pairs (w, x) of neighbours of `v` (self excluded) that are
   * themselves adjacent: networkx's count of `v`'s triangles, each counted
   * twice.
   */
  function Links(g: Snapshot, v: Asset): set<(Asset, Asset)>
  {
    var vs := Neighbours(g, v) - {v};
    set w, x | w in vs && x in vs && x != w && Adjacent(g, w, x) :: (w, x)
  }

  /** There are at most d (d - 1) links among d neighbours. */
  lemma LinksBound(g: Snapshot, v: Asset)
    ensures |Links(g, v)| <= OrderedPairs(|Neighbours(g, v) - {v}|)
  {
    var vs := Neighbours(g, v) - {v};
    assert Links(g, v) <= OffDiagonal(vs);
    SubsetSize(Links(g, v), OffDiagonal(vs));
    OffDiagonalSize(vs);
  }

  /**
   * `nx.clustering(G)[v]` without weights: the links among the neighbours
   * over the d (d - 1) possible ones, 0 when there is no link.  It lies in
   * [0, 1], and is positive exactly when some two neighbours are adjacent.
   */
  function Clustering(g: Snapshot, v: Asset): (c: real)
    ensures 0.0 <= c <= 1.0
    ensures c > 0.0 <==> Links(g, v) != {}
  {
    var t := |Links(g, v)|;
    var p := OrderedPairs(|Neighbours(g, v) - {v}|);
    LinksBound(g, v);
    if t == 0 then 0.0 else FractionBounds(t, p); t as real / p as real
  }

  /** A fraction of naturals with numerator in 1..denominator lies in (0, 1]. */
  lemma FractionBounds(t: nat, p: nat)
    requires 0 < t <= p
    ensures 0.0 < t as real / p as real <= 1.0
  {
    MeanBounds(t as real, p as real, 0.0, 1.0);
    assert t as real / p as real > 0.0;
  }

  /** A node with fewer than two neighbours (itself excluded) has clustering 0. */
  lemma ClusteringLowDegree(g: Snapshot, v: Asset)
    requires |Neighbours(g, v) - {v}| < 2
    ensures Clustering(g, v) == 0.0
  {
    LinksBound(g, v);
  }

  /** `Clustering` as a function value. */
  function ClusteringOf(g: Snapshot): Asset -> real
  {
    v => Clustering(g, v)
  }

  /** The mean clustering over the nodes, 0 for a graph without nodes. */
  function AverageClustering(g: Snapshot): real
  {
    if |g.nodes| > 0 then RealSumOf(g.nodes, ClusteringOf(g)) / |g.nodes| as real else 0.0
  }

  /** The average clustering lies in [0, 1]. */
  lemma AverageClusteringBounds(g: Snapshot)
    ensures 0.0 <= AverageClustering(g) <= 1.0
  {
    if |g.nodes| > 0 {
      var n := |g.nodes| as real;
      var total := RealSumOf(g.nodes, ClusteringOf(g));
      RealSumOfBounds(g.nodes, ClusteringOf(g), 0.0, 1.0);
      MeanBounds(total, n, 0.0, 1.0);
    }
  }

  /** One step of exploration: `s` together with every neighbour of a member of `s`. */
  function Expand(g: Snapshot, s: set<Asset>): set<Asset>
  {
    s + set a, b | a in s && a in g.adj && b in g.adj[a] :: b
  }

  /** No neighbour of a member of `c` lies outside `c`. */
  ghost predicate Closed(g: Snapshot, c: set<Asset>)
  {
    forall a, b | a in c && Adjacent(g, a, b) :: b in c
  }

  /** Exploring from nodes stays among the nodes, and a step that adds nothing has reached a closed set. */
  lemma ExpandStep(g: Snapshot, s: set<Asset>)
    requires Symmetric(g) && s <= g.adj.Keys
    ensures s <= Expand(g, s) <= g.adj.Keys
    ensures Expand(g, s) == s <==> Closed(g, s)
    ensures Expand(g, s) != s ==> |g.adj.Keys - Expand(g, s)| < |g.adj.Keys - s|
  {
    var t := Expand(g, s);
    forall b | b in t ensures b in g.adj {
      if b !in s {
        var a :| a in s && a in g.adj && b in g.adj[a];
        assert Adjacent(g, a, b);
      }
    }
    if t != s {
      var x :| x in t && x !in s;
      assert x in g.adj.Keys - s && x !in g.adj.Keys - t;
      ProperSubsetSize(g.adj.Keys - t, g.adj.Keys - s);
    }
    if Closed(g, s) {
      forall b | b in t ensures b in s {
        if b !in s {
          var a :| a in s && a in g.adj && b in g.adj[a];
          assert Adjacent(g, a, b);
        }
      }
    }
    if t == s {
      forall a, b | a in s && Adjacent(g, a, b) ensures b in s {
        assert b in t;
      }
    }
  }

  /** Repeated exploration from `s` until nothing new is reached. */
  function Closure(g: Snapshot, s: set<Asset>): set<Asset>
    requires Symmetric(g) && s <= g.adj.Keys
    decreases |g.adj.Keys - s|
  {
    ExpandStep(g, s);
    var t := Expand(g, s);
    if t == s then s else Closure(g, t)
  }

  /**
   * The closure of `s` is the least closed set containing `s`: it contains
   * `s`, lies among the nodes, is closed, and is inside every closed set
   * that contains `s`.
   */
  lemma {:induction false} ClosureLeast(g: Snapshot, s: set<Asset>, c: set<Asset>)
    requires Symmetric(g) && s <= g.adj.Keys
    ensures s <= Closure(g, s) <= g.adj.Keys && Closed(g, Closure(g, s))
    ensures s <= c && Closed(g, c) ==> Closure(g, s) <= c
    decreases |g.adj.Keys - s|
  {
    ExpandStep(g, s);
    var t := Expand(g, s);
    if t != s {
      if s <= c && Closed(g, c) {
        forall b | b in t ensures b in c {
          if b !in s {
            var a :| a in s && a in g.adj && b in g.adj[a];
            assert Adjacent(g, a, b);
          }
        }
      }
      ClosureLeast(g, t, c);
    }
  }

  /** The connected component of node `v` (the one `nx.connected_components` yields for it). */
  function Component(g: Snapshot, v: Asset): set<Asset>
    requires Symmetric(g) && v in g.adj
  {
    Closure(g, {v})
  }

  /** The size of a node's component, as a function value (0 off the graph). */
  function ComponentSizeOf(g: Snapshot): Asset -> int
    requires Symmetric(g)
  {
    w => if w in g.adj then |Component(g, w)| else 0
  }

  /** `len(max(nx.connected_components(G), key=len))`: 0 for a graph without nodes. */
  function LccSize(g: Snapshot): int
    requires Symmetric(g)
  {
    if |g.nodes| > 0 then MaxOf(g.nodes, ComponentSizeOf(g)) else 0
  }

  /** A well-formed graph has as many nodes as adjacency keys. */
  lemma NodeCount(g: Snapshot)
    requires NodesListed(g)
    ensures |g.adj.Keys| == NumberOfNodes(g)
  {
    DistinctSize(g.nodes);
  }

  /** Without self-loops, a node is adjacent to at most all the other n - 1 nodes. */
  lemma DegreeAtMost(g: Snapshot, w: Asset)
    requires Wf(g) && NoSelfLoops(g) && w in g.adj
    ensures 1 <= NumberOfNodes(g) && Degree(g, w) <= NumberOfNodes(g) - 1
  {
    NodeCount(g);
    forall b | b in g.adj[w] ensures b in g.adj.Keys - {w} {
      assert Adjacent(g, w, b);
    }
    SubsetSize(g.adj[w], g.adj.Keys - {w});
  }

  /**
   * A graph without self-loops that has an edge u-v has at least two
   * nodes, and at least one and at most n (n - 1) / 2 edges.
   */
  lemma EdgeCountBounds(g: Snapshot, u: Asset, v: Asset)
    requires Wf(g) && NoSelfLoops(g) && Adjacent(g, u, v)
    requires DegreeSum(g) == 2 * NumberOfEdges(g)
    ensures NumberOfNodes(g) >= 2
    ensures 1 <= NumberOfEdges(g) && 2 * NumberOfEdges(g) <= OrderedPairs(NumberOfNodes(g))
  {
    var n := NumberOfNodes(g);
    NodeCount(g);
    assert v in g.adj && u != v;
    SubsetSize({u, v}, g.adj.Keys);
    assert {u, v} in Edges(g);
    forall i | 0 <= i < |g.nodes| ensures 0 <= DegreeOf(g)(g.nodes[i]) <= n - 1 {
      assert g.nodes[i] in Elements(g.nodes);
      DegreeAtMost(g, g.nodes[i]);
    }
    SumOfBounds(g.nodes, DegreeOf(g), 0, n - 1);
    assert OrderedPairs(n) == |g.nodes| * (n - 1);
  }

  /** The density of such a graph is 2m / (n (n - 1)), which lies in (0, 1]. */
  lemma DensityBounds(g: Snapshot, u: Asset, v: Asset)
    requires Wf(g) && NoSelfLoops(g) && Adjacent(g, u, v)
    requires DegreeSum(g) == 2 * NumberOfEdges(g)
    ensures var n := NumberOfNodes(g); var m := NumberOfEdges(g);
      Density(g) == (2 * m) as real / OrderedPairs(n) as real
    ensures 0.0 < Density(g) <= 1.0
  {
    EdgeCountBounds(g, u, v);
    DensityArithmetic(NumberOfEdges(g), OrderedPairs(NumberOfNodes(g)));
  }

  lemma DensityArithmetic(m: nat, pairs: nat)
    requires 1 <= m && 2 * m <= pairs
    ensures m as real / pairs as real * 2.0 == (2 * m) as real / pairs as real
    ensures 0.0 < (2 * m) as real / pairs as real <= 1.0
  {
    var q := m as real / pairs as real;
    assert q * pairs as real == m as real;
    QuotientUnique((2 * m) as real, pairs as real, q * 2.0);
    FractionBounds(2 * m, pairs);
  }

  /** Division by a positive number is undone by multiplication. */
  lemma QuotientUnique(x: real, p: real, y: real)
    requires p > 0.0 && y * p == x
    ensures x / p == y
  {
  }

  /** The maximum degree of such a graph lies between 1 and n - 1. */
  lemma MaxDegreeBounds(g: Snapshot, u: Asset, v: Asset)
    requires Wf(g) && NoSelfLoops(g) && Adjacent(g, u, v)
    ensures 1 <= MaxDegree(g) <= NumberOfNodes(g) - 1
  {
    assert u in Elements(g.nodes);
    var k :| 0 <= k < |g.nodes| && g.nodes[k] == u;
    assert DegreeOf(g)(g.nodes[k]) >= 1;
    var i :| 0 <= i < |g.nodes| && DegreeOf(g)(g.nodes[i]) == MaxDegree(g);
    assert g.nodes[i] in Elements(g.nodes);
    DegreeAtMost(g, g.nodes[i]);
  }

  /** In a graph with an edge u-v the largest component has between 2 and n nodes. */
  lemma LccBounds(g: Snapshot, u: Asset, v: Asset)
    requires Wf(g) && NoSelfLoops(g) && Adjacent(g, u, v)
    ensures 2 <= LccSize(g) <= NumberOfNodes(g)
  {
    NodeCount(g);
    ClosureLeast(g, {u}, {});
    assert {u, v} <= Component(g, u);
    SubsetSize({u, v}, Component(g, u));
    assert u in Elements(g.nodes);
    var k :| 0 <= k < |g.nodes| && g.nodes[k] == u;
    assert ComponentSizeOf(g)(g.nodes[k]) >= 2;
    var i :| 0 <= i < |g.nodes| && ComponentSizeOf(g)(g.nodes[i]) == LccSize(g);
    var w := g.nodes[i];
    assert w in Elements(g.nodes);
    ClosureLeast(g, {w}, {});
    SubsetSize(Component(g, w), g.adj.Keys);
  }

  /** `lcc_size` is the size of some component, and no component is larger. */
  lemma LccIsLargest(g: Snapshot)
    requires Symmetric(g) && NodesListed(g) && g.nodes != []
    ensures exists v | v in g.adj :: LccSize(g) == |Component(g, v)|
    ensures forall v | v in g.adj :: |Component(g, v)| <= LccSize(g)
  {
    forall v | v in g.adj ensures |Component(g, v)| <= LccSize(g) {
      assert v in Elements(g.nodes);
      var k :| 0 <= k < |g.nodes| && g.nodes[k] == v;
      assert ComponentSizeOf(g)(g.nodes[k]) <= LccSize(g);
    }
    var i :| 0 <= i < |g.nodes| && ComponentSizeOf(g)(g.nodes[i]) == LccSize(g);
    assert g.nodes[i] in Elements(g.nodes);
  }

  /** An `nx.Graph` object: its node list and adjacency change in place. */
  class Graph {
    var nodes: seq<Asset>
    var adj: map<Asset, set<Asset>>

    /** The current state. */
    function View(): Snapshot
      reads this
    {
      Snapshot(nodes, adj)
    }

    /** `nx.Graph()`: no nodes, no edges. */
    constructor ()
      ensures View() == Empty()
    {
      nodes := [];
      adj := map[];
    }

    /**
     * `G.add_edge(u, v)`: each missing endpoint is added to the node list
     * and given an empty neighbour set, then each endpoint becomes a
     * neighbour of the other.
     */
    method AddEdge(u: Asset, v: Asset)
      modifies this
      ensures View() == WithEdge(old(View()), u, v)
    {
      ghost var g := View();
      if u !in adj {
        nodes := nodes + [u];
        adj := adj[u := {}];
      }
      ghost var withU := nodes;
      assert v in adj <==> v in g.adj || v == u;
      if v !in adj {
        nodes := nodes + [v];
        adj := adj[v := {}];
      }
      assert withU == g.nodes + (if u in g.adj then [] else [u]);
      assert nodes == withU + (if v in g.adj || v == u then [] else [v]);
      assert adj[u] == Neighbours(g, u) && adj[v] == Neighbours(g, v);
      ghost var rest := adj;
      adj := adj[u := adj[u] + {v}];
      adj := adj[v := adj[v] + {u}];
      assert adj.Keys == WithEdge(g, u, v).adj.Keys;
      forall w | w in adj ensures adj[w] == WithEdge(g, u, v).adj[w] {
        if w != u && w != v {
          assert adj[w] == rest[w] == g.adj[w];
        }
      }
    }
  }
}

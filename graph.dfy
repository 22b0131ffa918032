/**
 The communication graph (hillary_pr.py lines 77-80) and its reduction to the
 nodes whose PageRank reaches a threshold (lines 87-95).

 A networkx `DiGraph` is modelled by its node set and its weighted directed
 edges; a `DiGraph` holds at most one edge per ordered pair of nodes, so the
 edges are a map from (from, to) to weight. The PageRank values are given.
 */
module Graphs {
  import opened Aggregation

  type Node = string

  /** Line 89: the cut-off below which a node is dropped. */
  const PagerankThreshold: real := 0.005

  /** Every node named by a list of weighted edges. */
  function Endpoints(list: seq<WeightedEdge>): (ns: set<Node>) {
    (set e | e in list :: e.0) + (set e | e in list :: e.1)
  }

  /** Every (from, to) pair named by a list of weighted edges. */
  function PairSet(list: seq<WeightedEdge>): (ps: set<Pair>) {
    set e | e in list :: PairOf(e)
  }

  /** No later item of `list` is for the same (from, to) pair as item `i`. */
  predicate LastForPair(list: seq<WeightedEdge>, i: int)
    requires 0 <= i < |list|
  {
    forall j :: i < j < |list| ==> PairOf(list[j]) != PairOf(list[i])
  }

  /** `edges` carries, for every pair of `list`, the weight of the pair's last item. */
  ghost predicate LastWins(edges: map<Pair, nat>, list: seq<WeightedEdge>) {
    forall i :: 0 <= i < |list| && LastForPair(list, i) ==> PairOf(list[i]) in edges && edges[PairOf(list[i])] == list[i].2
  }

  lemma EndpointsSnoc(list: seq<WeightedEdge>, e: WeightedEdge)
    ensures Endpoints(list + [e]) == Endpoints(list) + {e.0, e.1}
  {
    var next := list + [e];
    assert forall x :: x in next <==> x in list || x == e;
  }

  lemma PairSetSnoc(list: seq<WeightedEdge>, e: WeightedEdge)
    ensures PairSet(list + [e]) == PairSet(list) + {PairOf(e)}
  {
    var next := list + [e];
    assert forall x :: x in next <==> x in list || x == e;
  }

  /** Adding one more item keeps the last-wins correspondence. */
  lemma LastWinsSnoc(edges: map<Pair, nat>, list: seq<WeightedEdge>, e: WeightedEdge)
    requires LastWins(edges, list)
    ensures LastWins(edges[PairOf(e) := e.2], list + [e])
  {
    var next, es := list + [e], edges[PairOf(e) := e.2];
    forall i | 0 <= i < |next| && LastForPair(next, i)
      ensures PairOf(next[i]) in es && es[PairOf(next[i])] == next[i].2
    {
      if i < |list| {
        assert PairOf(next[|list|]) != PairOf(next[i]);
        assert LastForPair(list, i) by {
          forall j | i < j < |list| ensures PairOf(list[j]) != PairOf(list[i]) {
            assert next[j] == list[j];
          }
        }
      }
    }
  }

  /** The edges of `edges` whose two endpoints are both in `keep`. */
  function InducedEdges(edges: map<Pair, nat>, keep: set<Node>): (r: map<Pair, nat>)
    ensures forall p :: p in r <==> p in edges && p.0 in keep && p.1 in keep
    ensures forall p :: p in r ==> r[p] == edges[p]
  {
    map p | p in edges && p.0 in keep && p.1 in keep :: edges[p]
  }

  class DiGraph {
    var nodes: set<Node>
    var edges: map<Pair, nat>

    /** Every edge joins two nodes of the graph. */
    ghost predicate Valid()
      reads this
    {
      forall p :: p in edges ==> p.0 in nodes && p.1 in nodes
    }

    /**
     Lines 78-80: `nx.DiGraph()` followed by `add_weighted_edges_from(list)`.
     Both endpoints of every item become nodes; an item for a pair that comes
     again later is overwritten by the later one.
     */
    constructor FromWeightedEdges(list: seq<WeightedEdge>)
      ensures Valid()
      ensures nodes == Endpoints(list)
      ensures edges.Keys == PairSet(list)
      ensures forall i :: 0 <= i < |list| && LastForPair(list, i) ==> edges[PairOf(list[i])] == list[i].2
    {
      var ns: set<Node> := {};
      var es: map<Pair, nat> := map[];
      for n := 0 to |list|
        invariant ns == Endpoints(list[..n])
        invariant es.Keys == PairSet(list[..n])
        invariant LastWins(es, list[..n])
        invariant forall p :: p in es ==> p.0 in ns && p.1 in ns
      {
        var e := list[n];
        assert list[..n + 1] == list[..n] + [e];
        EndpointsSnoc(list[..n], e);
        PairSetSnoc(list[..n], e);
        LastWinsSnoc(es, list[..n], e);
        ns := ns + {e.0, e.1};
        es := es[PairOf(e) := e.2];
      }
      assert list[..|list|] == list;
      nodes, edges := ns, es;
    }

    /** Line 91: `graph.copy()`, a new graph with the same nodes and edges. */
    method Copy() returns (g: DiGraph)
      ensures fresh(g)
      ensures g.nodes == nodes && g.edges == edges
    {
      g := new DiGraph.FromWeightedEdges([]);
      g.nodes, g.edges := nodes, edges;
    }

    /**
     Line 95: `remove_node(n)` drops the node and every edge into or out of it.
     `found` is false when `n` is not a node, where networkx raises an error;
     the graph is then left as it was.
     */
    method RemoveNode(n: Node) returns (found: bool)
      requires Valid()
      modifies this
      ensures Valid()
      ensures found == (n in old(nodes))
      ensures nodes == old(nodes) - {n}
      ensures edges == InducedEdges(old(edges), old(nodes) - {n})
    {
      found := n in nodes;
      edges := InducedEdges(edges, nodes - {n});
      nodes := nodes - {n};
    }
  }

  /**
   Lines 89-95: copy `graph` and remove from the copy every node whose rank is
   below `threshold`. The copy keeps exactly the nodes whose rank reaches the
   threshold and exactly the edges between two kept nodes; `graph` itself is
   not changed.
   */
  method PruneByRank(graph: DiGraph, rank: map<Node, real>, threshold: real) returns (small: DiGraph)
    requires graph.Valid()
    requires forall n :: n in graph.nodes ==> n in rank
    ensures fresh(small) && small.Valid()
    ensures small.nodes == set n | n in graph.nodes && rank[n] >= threshold
    ensures small.edges == InducedEdges(graph.edges, small.nodes)
    ensures unchanged(graph)
  {
    small := graph.Copy();
    var todo := graph.nodes;
    while todo != {}
      invariant fresh(small) && small.Valid()
      invariant todo <= graph.nodes
      invariant small.nodes == set n | n in graph.nodes && (n in todo || rank[n] >= threshold)
      invariant small.edges == InducedEdges(graph.edges, small.nodes)
      decreases todo
    {
      var n :| n in todo;
      if rank[n] < threshold {
        var found := small.RemoveNode(n);
        assert found;
      }
      todo := todo - {n};
    }
  }
}

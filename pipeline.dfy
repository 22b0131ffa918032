/**
 The email rows and the steps that turn them into the communication graph
 (hillary_pr.py lines 12, 62-63 and 66-80): rows with a missing sender or
 recipient are dropped, both addresses of every remaining row are normalised,
 and the normalised pairs are counted into weighted edges.
 */
module Pipeline {
  import opened Wrappers
  import opened Names
  import opened Aggregation
  import opened Graphs

  /** A row of the emails table, reduced to its MetadataFrom and MetadataTo cells. */
  datatype Email = Email(from: Option<string>, to: Option<string>)

  predicate Complete(e: Email) {
    e.from.Some? && e.to.Some?
  }

  /**
   Line 12: `dropna(subset=['MetadataTo', 'MetadataFrom'], how='any')` keeps the
   rows that have both cells, in their order, each as often as it occurs.
   */
  function DropIncomplete(rows: seq<Email>): (r: seq<Email>)
    ensures forall i :: 0 <= i < |r| ==> Complete(r[i])
    ensures forall e :: multiset(r)[e] == if Complete(e) then multiset(rows)[e] else 0
  {
    if rows == [] then []
    else
      var front, last := rows[..|rows| - 1], rows[|rows| - 1];
      assert rows == front + [last];
      if Complete(last) then DropIncomplete(front) + [last] else DropIncomplete(front)
  }

  /** Dropping works row by row: the kept rows of a concatenation are the concatenated kept rows. */
  lemma {:induction false} DropIncompleteAppend(a: seq<Email>, b: seq<Email>)
    ensures DropIncomplete(a + b) == DropIncomplete(a) + DropIncomplete(b)
  {
    if b != [] {
      var front, last := b[..|b| - 1], b[|b| - 1];
      assert (a + b)[..|a + b| - 1] == a + front;
      DropIncompleteAppend(a, front);
    } else {
      assert a + b == a;
    }
  }

  /**
   Lines 62-63: both addresses of every row replaced by `unify_name` of them,
   row by row; every resulting pair joins two normalised identities.
   */
  function NormalisePairs(rows: seq<Email>, aliases: map<string, int>, persons: map<int, string>): (r: seq<Pair>)
    requires Resolves(aliases, persons)
    requires forall i :: 0 <= i < |rows| ==> Complete(rows[i])
    ensures |r| == |rows|
    ensures forall i :: 0 <= i < |rows| && Complete(rows[i]) ==>
              r[i] == (UnifyName(rows[i].from.value, aliases, persons), UnifyName(rows[i].to.value, aliases, persons))
    ensures forall p :: p in r ==> IsIdentity(p.0, aliases, persons) && IsIdentity(p.1, aliases, persons)
  {
    seq(|rows|, i requires 0 <= i < |rows| && Complete(rows[i]) =>
      (UnifyName(rows[i].from.value, aliases, persons), UnifyName(rows[i].to.value, aliases, persons)))
  }

  /** A normalised identity: a person's canonical name, or a normal string that is no alias. */
  predicate IsIdentity(x: string, aliases: map<string, int>, persons: map<int, string>) {
    x in persons.Values || (Normal(x) && x !in aliases)
  }

  /**
   Lines 12 and 62-74: the list `edges_weights` built from the raw email rows.
   One triple per distinct normalised pair of the kept rows, in first-occurrence
   order and without duplicates, each weighted by that pair's number of
   occurrences; each endpoint a normalised identity, each weight at least one,
   and the weights adding up to the number of rows that have both addresses.
   */
  method BuildEdgeWeights(emails: seq<Email>, aliases: map<string, int>, persons: map<int, string>)
    returns (edges: seq<WeightedEdge>)
    requires Resolves(aliases, persons)
    ensures Pairs(edges) == FirstOccurrences(NormalisePairs(DropIncomplete(emails), aliases, persons))
    ensures forall i :: 0 <= i < |edges| ==>
              edges[i].2 == multiset(NormalisePairs(DropIncomplete(emails), aliases, persons))[PairOf(edges[i])]
    ensures Distinct(Pairs(edges))
    ensures forall i :: 0 <= i < |edges| ==>
              IsIdentity(edges[i].0, aliases, persons) && IsIdentity(edges[i].1, aliases, persons)
    ensures forall i :: 0 <= i < |edges| ==> edges[i].2 >= 1
    ensures TotalWeight(edges) == |DropIncomplete(emails)|
  {
    var rows := DropIncomplete(emails);
    var pairs := NormalisePairs(rows, aliases, persons);
    edges := EdgeWeights(pairs);
    forall i | 0 <= i < |edges|
      ensures IsIdentity(edges[i].0, aliases, persons) && IsIdentity(edges[i].1, aliases, persons)
    {
      assert Pairs(edges)[i] == PairOf(edges[i]);
      assert PairOf(edges[i]) in pairs;
    }
  }

  /** With no two items for the same pair, every item is the last one for its pair. */
  lemma DistinctAllLast(list: seq<WeightedEdge>)
    requires Distinct(Pairs(list))
    ensures forall i :: 0 <= i < |list| ==> LastForPair(list, i)
  {
    forall i, j | 0 <= i < j < |list| ensures PairOf(list[j]) != PairOf(list[i]) {
      assert Pairs(list)[i] == PairOf(list[i]) && Pairs(list)[j] == PairOf(list[j]);
    }
  }

  /** An item of `list` for every pair of `Pairs(list)`, at the same place. */
  lemma PairsMembers(list: seq<WeightedEdge>)
    ensures forall p :: p in Pairs(list) <==> p in PairSet(list)
  {
    forall p | p in Pairs(list) ensures p in PairSet(list) {
      var i :| 0 <= i < |list| && Pairs(list)[i] == p;
      assert list[i] in list;
    }
    forall p | p in PairSet(list) ensures p in Pairs(list) {
      var e :| e in list && PairOf(e) == p;
      var i :| 0 <= i < |list| && list[i] == e;
      assert Pairs(list)[i] == p;
    }
  }

  /** The nodes named by a list of weighted edges are the endpoints of its pairs. */
  lemma EndpointsOfPairs(list: seq<WeightedEdge>, n: Node)
    ensures n in Endpoints(list) <==> exists p :: p in Pairs(list) && (n == p.0 || n == p.1)
  {
    if n in Endpoints(list) {
      var e :| e in list && (n == e.0 || n == e.1);
      var i :| 0 <= i < |list| && list[i] == e;
      assert Pairs(list)[i] == PairOf(e);
    }
    if exists p :: p in Pairs(list) && (n == p.0 || n == p.1) {
      var p :| p in Pairs(list) && (n == p.0 || n == p.1);
      var i :| 0 <= i < |list| && Pairs(list)[i] == p;
      assert list[i] in list;
    }
  }

  /**
   Lines 12 and 62-80: the graph built from the raw email rows. Its nodes are
   the normalised identities that send or receive a kept row, and the weight of
   each edge is the number of kept rows with that normalised (from, to) pair.
   */
  method BuildGraph(emails: seq<Email>, aliases: map<string, int>, persons: map<int, string>)
    returns (graph: DiGraph)
    requires Resolves(aliases, persons)
    ensures fresh(graph) && graph.Valid()
    ensures var pairs := NormalisePairs(DropIncomplete(emails), aliases, persons);
            && (forall p :: p in graph.edges <==> p in pairs)
            && (forall p :: p in graph.edges ==> graph.edges[p] == multiset(pairs)[p])
            && (forall n :: n in graph.nodes <==> exists p :: p in pairs && (n == p.0 || n == p.1))
  {
    var rows := DropIncomplete(emails);
    var pairs := NormalisePairs(rows, aliases, persons);
    var edges := EdgeWeights(pairs);
    graph := new DiGraph.FromWeightedEdges(edges);
    DistinctAllLast(edges);
    PairsMembers(edges);
    forall p | p in graph.edges ensures graph.edges[p] == multiset(pairs)[p] {
      var i :| 0 <= i < |edges| && Pairs(edges)[i] == p;
      assert PairOf(edges[i]) == p;
    }
    forall n ensures n in graph.nodes <==> exists p :: p in pairs && (n == p.0 || n == p.1) {
      EndpointsOfPairs(edges, n);
    }
  }
}

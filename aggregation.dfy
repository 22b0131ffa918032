/**
 Edge-weight aggregation (hillary_pr.py lines 66-74): the normalised
 (sender, recipient) pairs of the email rows are counted in a dictionary, and
 the dictionary is flattened into (from, to, weight) triples.

 Python dictionaries iterate in insertion order, so the table is modelled as a
 map from pair to count together with `order`, the keys in the order they were
 first inserted.
 */
module Aggregation {

  /** A normalised (MetadataFrom, MetadataTo) pair. */
  type Pair = (string, string)

  /** An item of `edges_weights`: (from, to, weight). */
  type WeightedEdge = (string, string, nat)

  function PairOf(e: WeightedEdge): (p: Pair) {
    (e.0, e.1)
  }

  predicate Distinct<T(==)>(s: seq<T>) {
    forall i, j :: 0 <= i < j < |s| ==> s[i] != s[j]
  }

  /** The distinct elements of `s`, each at the place where it first occurs. */
  function FirstOccurrences(s: seq<Pair>): (r: seq<Pair>)
    ensures forall x :: x in r <==> x in s
    ensures Distinct(r)
  {
    if s == [] then []
    else
      var d := FirstOccurrences(s[..|s| - 1]);
      var last := s[|s| - 1];
      assert s == s[..|s| - 1] + [last];
      if last in d then d else d + [last]
  }

  /** The sum of the occurrence counts in `m` of the keys `ks`, in that order. */
  function SumCounts(m: multiset<Pair>, ks: seq<Pair>): (total: nat) {
    if ks == [] then 0 else SumCounts(m, ks[..|ks| - 1]) + m[ks[|ks| - 1]]
  }

  lemma SumCountsSnoc(m: multiset<Pair>, ks: seq<Pair>, k: Pair)
    ensures SumCounts(m, ks + [k]) == SumCounts(m, ks) + m[k]
  {
    assert (ks + [k])[..|ks|] == ks;
  }

  /** One more occurrence of `x` raises the sum by one exactly when `x` is among the distinct keys. */
  lemma {:induction false} SumCountsAdd(m: multiset<Pair>, ks: seq<Pair>, x: Pair)
    requires Distinct(ks)
    ensures SumCounts(m + multiset{x}, ks) == SumCounts(m, ks) + (if x in ks then 1 else 0)
  {
    if ks != [] {
      var front, last := ks[..|ks| - 1], ks[|ks| - 1];
      assert ks == front + [last];
      SumCountsAdd(m, front, x);
      assert x in ks <==> x in front || x == last;
      assert x == last ==> x !in front;
    }
  }

  /**
   Lines 69-72: every row adds one to exactly one count, so the counts of the
   distinct pairs add up to the number of rows.
   */
  lemma {:induction false} CountsSumToRows(rows: seq<Pair>)
    ensures SumCounts(multiset(rows), FirstOccurrences(rows)) == |rows|
  {
    if rows != [] {
      var front, x := rows[..|rows| - 1], rows[|rows| - 1];
      assert rows == front + [x];
      assert multiset(rows) == multiset(front) + multiset{x};
      CountsSumToRows(front);
      var d := FirstOccurrences(front);
      SumCountsAdd(multiset(front), d, x);
      if x !in d {
        SumCountsSnoc(multiset(rows), d, x);
        assert multiset(front)[x] == 0;
      }
    }
  }

  /** `weights` and `order` are the counting table of the rows `seen`. */
  ghost predicate Tallies(seen: seq<Pair>, weights: map<Pair, nat>, order: seq<Pair>) {
    && (forall p :: p in weights <==> p in seen)
    && (forall p :: p in weights ==> weights[p] == multiset(seen)[p])
    && order == FirstOccurrences(seen)
    && (forall p :: p in order ==> p in weights)
  }

  lemma CountsStep(seen: seq<Pair>, weights: map<Pair, nat>, pair: Pair)
    requires forall p :: p in weights ==> weights[p] == multiset(seen)[p]
    requires pair in weights || multiset(seen)[pair] == 0
    ensures var w := weights[pair := if pair in weights then weights[pair] + 1 else 1];
            forall p :: p in w ==> w[p] == multiset(seen + [pair])[p]
  {
    assert multiset(seen + [pair]) == multiset(seen) + multiset{pair};
  }

  lemma OrderStep(seen: seq<Pair>, order: seq<Pair>, pair: Pair)
    requires order == FirstOccurrences(seen)
    ensures FirstOccurrences(seen + [pair]) == if pair in seen then order else order + [pair]
  {
    assert (seen + [pair])[..|seen|] == seen;
  }

  /** Lines 69-70: a pair seen for the first time enters the table with weight 1, at the end. */
  lemma TalliesNew(seen: seq<Pair>, weights: map<Pair, nat>, order: seq<Pair>, pair: Pair)
    requires Tallies(seen, weights, order)
    requires pair !in weights
    ensures Tallies(seen + [pair], weights[pair := 1], order + [pair])
  {
    CountsStep(seen, weights, pair);
    OrderStep(seen, order, pair);
  }

  /** Lines 71-72: a pair seen before has its weight raised by one; the order stays. */
  lemma TalliesAgain(seen: seq<Pair>, weights: map<Pair, nat>, order: seq<Pair>, pair: Pair)
    requires Tallies(seen, weights, order)
    requires pair in weights
    ensures Tallies(seen + [pair], weights[pair := weights[pair] + 1], order)
  {
    CountsStep(seen, weights, pair);
    OrderStep(seen, order, pair);
  }

  /**
   Lines 66-72: count every (from, to) pair of `rows`. The table holds exactly
   the pairs that occur, each with its number of occurrences; its keys were
   inserted in first-occurrence order; and the weights add up to the number of
   rows.
   */
  method CountPairs(rows: seq<Pair>) returns (weights: map<Pair, nat>, order: seq<Pair>)
    ensures forall p :: p in weights <==> p in rows
    ensures forall p :: p in weights ==> weights[p] == multiset(rows)[p] >= 1
    ensures order == FirstOccurrences(rows)
    ensures forall p :: p in order <==> p in weights
  {
    weights, order := map[], [];
    for i := 0 to |rows|
      invariant Tallies(rows[..i], weights, order)
    {
      var pair := rows[i];
      assert rows[..i + 1] == rows[..i] + [pair];
      if pair !in weights {
        TalliesNew(rows[..i], weights, order, pair);
        weights := weights[pair := 1];
        order := order + [pair];
      } else {
        TalliesAgain(rows[..i], weights, order, pair);
        weights := weights[pair := weights[pair] + 1];
      }
    }
    assert rows[..|rows|] == rows;
    forall p | p in weights ensures multiset(rows)[p] >= 1 {
      assert p in rows;
    }
  }

  /**
   Line 74: `[(key[0], key[1], val) for key, val in edges_weights_temp.items()]`.
   One triple per key of the table, in the table's order, carrying that key's
   weight.
   */
  function Flatten(weights: map<Pair, nat>, order: seq<Pair>): (edges: seq<WeightedEdge>)
    requires forall k :: k in order ==> k in weights
    ensures Pairs(edges) == order
    ensures forall i :: 0 <= i < |order| ==> edges[i].2 == weights[order[i]]
  {
    seq(|order|, i requires 0 <= i < |order| => (order[i].0, order[i].1, weights[order[i]]))
  }

  /** The (from, to) pairs of a list of weighted edges, in order. */
  function Pairs(edges: seq<WeightedEdge>): (r: seq<Pair>)
    ensures |r| == |edges|
  {
    seq(|edges|, i requires 0 <= i < |edges| => PairOf(edges[i]))
  }

  /** The sum of the weights of a list of weighted edges. */
  function TotalWeight(edges: seq<WeightedEdge>): (total: nat) {
    if edges == [] then 0 else TotalWeight(edges[..|edges| - 1]) + edges[|edges| - 1].2
  }

  /** The weights of the flattened list add up to the counts the table holds. */
  lemma {:induction false} FlattenTotal(weights: map<Pair, nat>, order: seq<Pair>, m: multiset<Pair>)
    requires forall k :: k in order ==> k in weights && weights[k] == m[k]
    ensures TotalWeight(Flatten(weights, order)) == SumCounts(m, order)
  {
    if order != [] {
      var front := order[..|order| - 1];
      FlattenTotal(weights, front, m);
      assert Flatten(weights, order)[..|order| - 1] == Flatten(weights, front);
    }
  }

  /**
   Lines 66-74 together: the list `edges_weights` built from the rows. It holds
   one triple per distinct pair, in first-occurrence order, without duplicates;
   each weight is the pair's number of occurrences and at least one; and the
   weights add up to the number of rows.
   */
  method EdgeWeights(rows: seq<Pair>) returns (edges: seq<WeightedEdge>)
    ensures Pairs(edges) == FirstOccurrences(rows)
    ensures forall p :: p in Pairs(edges) <==> p in rows
    ensures Distinct(Pairs(edges))
    ensures forall i :: 0 <= i < |edges| ==> edges[i].2 == multiset(rows)[PairOf(edges[i])] >= 1
    ensures TotalWeight(edges) == |rows|
  {
    var weights, order := CountPairs(rows);
    edges := Flatten(weights, order);
    FlattenTotal(weights, order, multiset(rows));
    CountsSumToRows(rows);
    forall i | 0 <= i < |edges| ensures edges[i].2 == multiset(rows)[PairOf(edges[i])] >= 1 {
      assert PairOf(edges[i]) == Pairs(edges)[i] == order[i];
    }
  }
}

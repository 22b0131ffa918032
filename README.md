# Hillary Clinton email graph: a Dafny model of its data transformations

`hillary_pr.py` reads the Hillary Clinton email metadata, normalises the sender
and recipient of every email into one identity each, counts how often each
(sender, recipient) pair occurs, builds a weighted directed graph from the
counts, ranks the nodes with PageRank and keeps the nodes whose rank reaches
0.005. This project models the script's own logic in that chain and proves what
it computes:

- `Names` (`names.dfy`): `unify_name`. An address is lowercased (ASCII letters
  only), every `,` and `;` is deleted, and the text is cut just before its
  first `@`. A result that is a key of `aliases` is replaced by the name of the
  person the alias points to in `persons`. Also the building of those two
  dictionaries from their rows, where a later row overwrites an earlier one.
- `Aggregation` (`aggregation.dfy`): the counting loop over the normalised
  (from, to) pairs and its flattening into `edges_weights`. Python dictionaries
  iterate in insertion order, so the table is a `map` plus `order`, the keys in
  the order they were first inserted.
- `Graphs` (`graph.dfy`): a `DiGraph` class holding a node set and a map from a
  (from, to) pair to its weight. A networkx `DiGraph` holds at most one edge per
  ordered pair. The class has construction from weighted edges, `copy` and
  `remove_node`. `PruneByRank` is the threshold loop. It works on a fresh copy,
  and it has no `modifies` clause, so the original graph cannot change.
- `Pipeline` (`pipeline.dfy`): the `dropna` row filter (missing cells are
  `Option.None`), the normalisation of both columns, and the chain from raw rows
  to the edge list and to the graph.
- `Wrappers` (`wrappers.dfy`): the `Option` type.

`unify_name` needs every alias to point to a PersonId that `persons` holds.
Otherwise `persons[aliases[name]]` raises `KeyError`. The model states this as
the precondition `Resolves(aliases, persons)`. The PageRank values are an input
map. The script's threshold is the constant `Graphs.PagerankThreshold` (0.005),
passed to `PruneByRank` as its `threshold` argument.

## Model

| member | source | states |
|---|---|---|
| `Names.Lower` | hillary_pr.py:30 | the result has the input's length and each character is the input's, with ASCII `A`-`Z` mapped to `a`-`z` |
| `Names.Delete` | hillary_pr.py:32-33 | `replace(c, '')`: the result holds every character of the input other than `c` exactly as often as the input does, and no `c`; it is the input itself when there is no `c` |
| `Names.DeleteAppend` | hillary_pr.py:32-33 | deleting from a concatenation is deleting from each part, so the kept characters stay in their order |
| `Names.BeforeAt` | hillary_pr.py:33 | `split('@')[0]`: the result is a prefix of the input without `@`, and the input's next character (if any) is `@`; with no `@` it is the whole input |
| `Names.Clean` | hillary_pr.py:30-33 | the cleaned address contains no ASCII capital, no `,`, no `;` and no `@`, and is no longer than the input; `UnaliasedResult`, `CleanFixedPoints` and `CleanCutFirst` pin it down further |
| `Names.CleanFixedPoints` | hillary_pr.py:30-33 | cleaning leaves a string unchanged if and only if it has no capital, `,`, `;` or `@` |
| `Names.CleanIdempotent` | hillary_pr.py:30-33 | cleaning an already cleaned address changes nothing |
| `Names.CleanCutFirst` | hillary_pr.py:30-33 | cutting the raw address at its first `@` and then lowercasing and stripping gives the same text as the source's order of steps |
| `Names.UnaliasedResult` | hillary_pr.py:30-38 | when the cleaned address is no alias, the result is the lowercased, stripped text cut just before its first `@` (all of it without `@`), and it holds no `,`, `;` or `@` |
| `Names.AliasedResult` | hillary_pr.py:35-36 | when the cleaned address is an alias, the result is `persons[aliases[key]]` |
| `Names.UnifyName` | hillary_pr.py:28-38 | an alias comes back as a person's name from `persons`; any other address comes back with no capital, `,`, `;` or `@`, and is no alias; `AliasedResult` and `UnaliasedResult` give the exact value on each branch |
| `Names.UnifyNameIdempotent` | hillary_pr.py:30-38 | on the non-alias branch, normalising the result again returns it unchanged |
| `Names.BuildLookup` | hillary_pr.py:17-24 | the dictionary's keys are exactly the rows' keys, and each key maps to the value of its last row |
| `Aggregation.FirstOccurrences` | hillary_pr.py:69-70 | the insertion order of the table's keys holds each pair of the rows exactly once and nothing else |
| `Aggregation.TalliesNew` | hillary_pr.py:69-70 | a pair not yet in the table enters with weight 1 at the end of the order, and the table then counts the rows seen so far |
| `Aggregation.TalliesAgain` | hillary_pr.py:71-72 | a pair already in the table has its weight raised by one, the order is kept, and the table then counts the rows seen so far |
| `Aggregation.CountPairs` | hillary_pr.py:66-72 | after the loop, the keys are exactly the pairs that occur, each weight is that pair's number of occurrences (at least 1), and the keys are in first-occurrence order |
| `Aggregation.CountsSumToRows` | hillary_pr.py:69-72 | the occurrence counts of the distinct pairs add up to the number of rows |
| `Aggregation.Flatten` | hillary_pr.py:74 | the flattened list has one triple per key, in the table's order, carrying that key's weight |
| `Aggregation.FlattenTotal` | hillary_pr.py:74 | the flattened list's weights add up to the table's counts |
| `Aggregation.EdgeWeights` | hillary_pr.py:66-74 | `edges_weights` has exactly one triple per distinct pair in first-occurrence order, no two for the same pair, each weight equal to the pair's number of occurrences and at least 1, and the weights add up to the number of rows |
| `Graphs.DiGraph.FromWeightedEdges` | hillary_pr.py:78-80 | the nodes are exactly the endpoints of the list, the edges exactly its pairs, and each edge has the weight of the last item for its pair |
| `Graphs.DiGraph.Copy` | hillary_pr.py:91 | the copy is a new object with the same nodes and edges |
| `Graphs.DiGraph.RemoveNode` | hillary_pr.py:95 | the node is gone with every edge into or out of it, nothing else changes, and `found` says whether it was a node |
| `Graphs.PruneByRank` | hillary_pr.py:89-95 | the pruned copy keeps exactly the nodes whose rank is at least the threshold and exactly the original edges whose two endpoints both survive; the original graph is unchanged |
| `Pipeline.DropIncomplete` | hillary_pr.py:12 | every kept row has both cells, and each complete row is kept as often as it occurs while no incomplete row is kept |
| `Pipeline.DropIncompleteAppend` | hillary_pr.py:12 | the filter works row by row and keeps the rows' order |
| `Pipeline.NormalisePairs` | hillary_pr.py:62-63 | row by row, each row becomes the pair of `unify_name` of its two cells, and every pair joins two identities, each either a person's name or a normal string that is no alias |
| `Pipeline.BuildEdgeWeights` | hillary_pr.py:62-74 | from the raw rows: the triples' pairs are exactly the distinct normalised pairs of the kept rows in first-occurrence order, each weighted by its number of occurrences (at least 1); endpoints are normalised identities, and the weights add up to the number of rows that have both addresses |
| `Pipeline.BuildGraph` | hillary_pr.py:62-80 | the graph's edges are exactly the normalised pairs of the kept rows, each weighted by its number of occurrences, and its nodes are exactly their endpoints |

## Left out

- CSV reading with pandas, including the `ANSI` encoding and `iterrows` (lines 9, 16, 21). This is file I/O. The rows of the three tables are inputs.
- `nx.pagerank` and `set_node_attributes` (lines 82-83). PageRank is an iterative floating-point library algorithm. Its result is the `rank` input of `PruneByRank`, which must give a value for every node, as PageRank does.
- `show_graph` and every layout and drawing call, including the `* 10000` node sizes and `np.sqrt` edge sizes (lines 42-58, 85, 97). These are plotting and floating point.
- Python's full Unicode `str.lower()` and the `str(name)` coercion of non-string cells such as NaN (line 30). Only ASCII `A`-`Z` is lowercased, and addresses are strings.
- Node and edge attributes of the networkx graph other than the edge weight.
- `Graphs.DiGraph.RemoveNode`: networkx raises `NetworkXError` when the node is not in the graph. The model returns `found == false` and leaves the graph unchanged instead. `PruneByRank` only removes nodes that are still in the copy, so this case never arises on lines 93-95.
- The order in which line 93 visits the nodes. `PruneByRank` takes them in any order, and its result does not depend on the order.
- `Graphs.PagerankThreshold` appears in no contract. The threshold is a parameter of `PruneByRank`, and the script passes this constant.
- `Names.UnifyName`: its precondition `Resolves` asks every alias to resolve, not only the one the current address hits. The script would stop with `KeyError` at the first dangling alias it looks up.

# Twitter graph analysis, modelled in Dafny

This project models the graph-analysis engine of a small Rust program. The program
loads an undirected follower graph from an edge list and, if asked, samples an
induced subgraph from it. Its `main` then prints the node count, half the summed
degree as the edge count, the average degree and the average degree of separation
from one node, all computed by `analyze_graph`.

The `graph` module also defines `degree_centrality` and `most_shared_neighbors`
(up to five "people you may want to follow" suggestions, ranked by shared
neighbours). `main` never calls either; a checkpointed test file exercises
`degree_centrality`, `sample_graph` and the separation average. A second
module, `analysis`, adds per-node clustering coefficients and the graph diameter;
the binary does not declare it.

The adjacency store is `map<nat, set<nat>>`. A node that is not a key has no neighbours.
The program has two source modules, `graph` and `analysis`. The model splits `graph`
into one Dafny module per group of related operations:

- `Adjacency`: the graph type, symmetry, and sums of map values.
- `Loader`: the per-line rule of `read_graph` and the whole loading loop.
- `Sampler`: `sample_graph`.
- `Traversal`: breadth-first search. Hop counts are specified independently of any
  algorithm: `Within(g, s, k)` is the set of nodes at most k edges from s, and
  `IsDistanceMap` gives every reachable node its least such k. Both breadth-first
  loops of the program are proved against that specification through one shared
  loop invariant, `BfsScan`.
- `Metrics`: `degree_centrality` and `analyze_graph`.
- `Recommender`: `most_shared_neighbors`.
- `Analysis`: `clustering_coefficient` and `graph_diameter`, the `analysis` module.
- `Scenarios`: the repository's four-node test graph, and what each operation gives on it.

The program leaves some things to chance or to hash-map order. These are parameters
of the model:

- `draw` is the order in which the random generator picks keys.
- `order` is the order in which the map yields its keys.
- The `:|` choices of the set loops stand for hash-set iteration order. Every
  contract holds for every such choice.

The program returns floating-point averages and ratios. The model returns each as its
numerator and denominator, both natural numbers.

The usual definition of the clustering coefficient divides by |N|·(|N|−1), the number
of ordered pairs of distinct neighbours. The code divides by |N|·|N|. The model follows
the code and records the difference under Findings. It also models the corrected
count, which the usual definition describes.

## Model

| member | source | states |
|---|---|---|
| Loader.SplitFrom | src/.ipynb_checkpoints/graph-checkpoint.rs:22 | splitting at whitespace yields non-empty, whitespace-free tokens that together hold exactly the line's non-whitespace characters; that they are the maximal runs is TokensOfLayout |
| Loader.Tokens | src/.ipynb_checkpoints/graph-checkpoint.rs:22 | a line's tokens are non-empty and whitespace-free, and together they hold exactly the line's non-whitespace characters |
| Loader.TokensOfLayout | src/.ipynb_checkpoints/graph-checkpoint.rs:22 | `split_whitespace` yields exactly the maximal whitespace-free runs: any line made of optional leading blanks and tokens each followed by its own run of whitespace (non-empty between tokens, possibly empty at the end) splits into exactly those tokens |
| Loader.TokensOfJoin | src/.ipynb_checkpoints/graph-checkpoint.rs:22 | splitting tokens joined by single spaces gives the same tokens back (round trip) |
| Loader.ParseDecimal | src/.ipynb_checkpoints/graph-checkpoint.rs:23 | the usize parse accepts the decimal form of n exactly when n fits in 64 bits, returns n, and also accepts a leading '+' |
| Loader.ParseUsize | src/.ipynb_checkpoints/graph-checkpoint.rs:23 | an accepted token is non-empty, starts with '+' or a digit, and its value fits in 64 bits |
| Loader.ParsedNumbers | src/.ipynb_checkpoints/graph-checkpoint.rs:22-24 | the `filter_map` keeps at most as many numbers as there are tokens, each at most 2^64 − 1 |
| Loader.LineEdge | src/.ipynb_checkpoints/graph-checkpoint.rs:22-25 | a line denotes an edge only when it has at least two tokens, and both ends fit in 64 bits |
| Loader.InsertLine | src/.ipynb_checkpoints/graph-checkpoint.rs:25-28 | inserting a line never removes a key or a neighbour, and a line without an edge changes nothing |
| Loader.ParseRejectsMinus | src/.ipynb_checkpoints/graph-checkpoint.rs:23 | a token starting with '-' never parses as usize |
| Loader.AcceptPair | src/.ipynb_checkpoints/graph-checkpoint.rs:22-27 | a line "u v" with both ids in range denotes the edge (u, v) |
| Loader.DropUnparsed | src/.ipynb_checkpoints/graph-checkpoint.rs:22-27 | a token that does not parse is dropped, so "u junk v" still denotes (u, v) |
| Loader.RefuseTriple | src/.ipynb_checkpoints/graph-checkpoint.rs:25 | a line with three tokens that all parse denotes no edge, because exactly two numbers are required |
| Loader.InsertLineEdges | src/.ipynb_checkpoints/graph-checkpoint.rs:25-28 | after one line, v is a neighbour of u exactly when it was before or the line's edge joins u and v in either direction; the only new keys are the edge's ends |
| Loader.InsertLineSymmetric | src/.ipynb_checkpoints/graph-checkpoint.rs:26-27 | inserting a line keeps the graph symmetric and without empty entries |
| Loader.InsertLineIdempotent | src/.ipynb_checkpoints/graph-checkpoint.rs:25-28 | inserting the same line twice is the same as inserting it once |
| Loader.InsertPresentEdge | src/.ipynb_checkpoints/graph-checkpoint.rs:25-28 | a line whose edge is already stored in both directions leaves the graph unchanged |
| Loader.ReadGraph | src/.ipynb_checkpoints/graph-checkpoint.rs:17-33 | the loaded graph is symmetric, has no empty entry, and v is a neighbour of u exactly when some line denotes an edge joining them |
| Adjacency.SymmetricIsClosed | src/analysis.rs:52 | in a symmetric graph every neighbour is a key, so the neighbour lookup of the diameter search cannot fail on a loaded graph |
| Sampler.ChooseMultiple | src/.ipynb_checkpoints/graph-checkpoint.rs:40-43 | a node is sampled exactly when it is among the first min(k, number drawn) nodes drawn |
| Sampler.InducedSubgraph | src/.ipynb_checkpoints/graph-checkpoint.rs:44-52 | a node is a key of the subgraph exactly when it was sampled, is a key of the graph, and has a sampled neighbour; its neighbour set is the sampled part of its old one |
| Sampler.ChooseMultipleSize | src/.ipynb_checkpoints/graph-checkpoint.rs:40-43 | the sample is a set of min(k, number of keys) keys, and all keys when k is at least their number |
| Sampler.InducedEdges | src/.ipynb_checkpoints/graph-checkpoint.rs:44-52 | an edge is in the subgraph exactly when it is in the graph and both ends were sampled |
| Sampler.InducedKeys | src/.ipynb_checkpoints/graph-checkpoint.rs:46-50 | the subgraph's keys are sampled keys of the graph, and none has an empty neighbour set |
| Sampler.InducedSymmetric | src/.ipynb_checkpoints/graph-checkpoint.rs:44-52 | sampling keeps an undirected graph undirected |
| Sampler.InducedDegree | src/.ipynb_checkpoints/graph-checkpoint.rs:47 | no node has more neighbours in the subgraph than in the graph |
| Sampler.InducedAll | src/.ipynb_checkpoints/graph-checkpoint.rs:44-52 | sampling every key of a closed graph without empty entries gives the graph back |
| Sampler.BuildInduced | src/.ipynb_checkpoints/graph-checkpoint.rs:44-52 | the loop over the sampled nodes builds exactly the induced subgraph, in any iteration order |
| Sampler.SampleGraph | src/.ipynb_checkpoints/graph-checkpoint.rs:36-54 | returns the drawn keys (min(k, number of keys) of them) and the subgraph they induce |
| Traversal.DistanceMapUnique | src/.ipynb_checkpoints/graph-checkpoint.rs:84-96 | the hop counts from a source are determined by the graph alone, whatever order the search visits nodes in |
| Traversal.DistanceMapSource | src/.ipynb_checkpoints/graph-checkpoint.rs:81 | the source is at distance 0 |
| Traversal.DistanceMapEdge | src/.ipynb_checkpoints/graph-checkpoint.rs:88-94 | every neighbour of a reached node is reached, at most one hop further |
| Traversal.DistanceMapParent | src/.ipynb_checkpoints/graph-checkpoint.rs:90-92 | every reached node other than the source was discovered from a reached neighbour exactly one hop closer |
| Traversal.DistanceMapAbsentSource | src/.ipynb_checkpoints/graph-checkpoint.rs:88 | a start node that is not a key reaches only itself |
| Traversal.SeparationTotal | src/.ipynb_checkpoints/graph-checkpoint.rs:85-86 | the distance total is at least the reached count minus one, and it is 0 exactly when only the start is reached |
| Traversal.ComputeAvgDegreesOfSeparation | src/.ipynb_checkpoints/graph-checkpoint.rs:72-99 | returns the sum of the hop counts of all nodes reachable from start (start included) and their number; the number is at least 1, so the average's denominator is never 0 |
| Traversal.EnqueueNeighbors | src/.ipynb_checkpoints/graph-checkpoint.rs:88-95 | the inner loop keeps the search invariant: each unvisited neighbour is marked, queued one hop further, and given that count |
| Traversal.DistancesFrom | src/analysis.rs:42-59 | the breadth-first search of the diameter computes exactly the distance map of start |
| Traversal.VisitNeighbors | src/analysis.rs:52-58 | the inner loop keeps the search invariant: each unvisited neighbour is marked, queued, and given a count one above the current node's |
| Metrics.DegreeCentrality | src/.ipynb_checkpoints/graph-checkpoint.rs:103-112 | has the same keys as the graph, and each node's value is its number of neighbours |
| Metrics.CentralityBound | src/.ipynb_checkpoints/graph-checkpoint.rs:108 | in a closed graph no degree exceeds the number of nodes |
| Metrics.CountArcs | src/.ipynb_checkpoints/graph-checkpoint.rs:61 | the edge count is the sum of all neighbour-set sizes |
| Metrics.AnalyzeGraph | src/.ipynb_checkpoints/graph-checkpoint.rs:57-69 | node count, edge count (at most nodes² when closed), and separation total and count taken from the distance map of some key of the graph |
| Recommender.SharedCount | src/.ipynb_checkpoints/graph-checkpoint.rs:128-130 | the number of common neighbours is at most either node's degree |
| Recommender.SharedCountBound | src/.ipynb_checkpoints/graph-checkpoint.rs:128-130 | the shared count is symmetric and bounded by both degrees |
| Recommender.SharedCounts | src/.ipynb_checkpoints/graph-checkpoint.rs:124-140 | the candidates are exactly the other nodes sharing at least one neighbour, each with its correct count |
| Recommender.SharedCountsDistinct | src/.ipynb_checkpoints/graph-checkpoint.rs:124-140 | over an iteration order of the keys, no node is a candidate twice |
| Recommender.InsertByCount | src/.ipynb_checkpoints/graph-checkpoint.rs:142 | inserting into a list sorted by count, highest first, keeps it sorted and adds exactly that entry |
| Recommender.SortByCountDesc | src/.ipynb_checkpoints/graph-checkpoint.rs:142 | the sort returns a permutation of its input, ordered by count, highest first |
| Recommender.SortSorted | src/.ipynb_checkpoints/graph-checkpoint.rs:142 | the sort leaves an already ordered list unchanged, ties included |
| Recommender.SortMembers | src/.ipynb_checkpoints/graph-checkpoint.rs:142 | an entry is in the sorted list exactly when it is in the input |
| Recommender.SortDistinct | src/.ipynb_checkpoints/graph-checkpoint.rs:142 | sorting keeps the nodes distinct |
| Recommender.Truncate | src/.ipynb_checkpoints/graph-checkpoint.rs:143 | keeps a prefix of the list: exactly n entries when it is longer than n, and the whole list otherwise |
| Recommender.MostSharedNeighbors | src/.ipynb_checkpoints/graph-checkpoint.rs:115-146 | at most five suggestions, ordered by count, highest first, each a node other than the selected one with its true positive shared count |
| Recommender.TopFive | src/.ipynb_checkpoints/graph-checkpoint.rs:142-143 | an eligible node that is not suggested was cut off: five suggestions were kept, each sharing at least as many neighbours |
| Recommender.FewCandidates | src/.ipynb_checkpoints/graph-checkpoint.rs:143 | when at most five nodes are eligible, every one of them is suggested |
| Recommender.SuggestionsDistinct | src/.ipynb_checkpoints/graph-checkpoint.rs:124-145 | no node is suggested twice |
| Recommender.NoNeighborsNoSuggestions | src/.ipynb_checkpoints/graph-checkpoint.rs:119-122 | a selected node with no neighbours, or that is not a key, gets no suggestion |
| Analysis.RowClosedForm | src/analysis.rs:17-21 | for one neighbour a, the triangles counted (Analysis.Row) are exactly the other neighbours linked to a |
| Analysis.TrianglesClosedForm | src/analysis.rs:17-21 | the triangle count (Analysis.Triangles) is the sum, over the neighbours, of how many other neighbours each one is linked to |
| Analysis.TrianglesBound | src/analysis.rs:17-24 | a neighbourhood of size n has at most n·(n−1) counted triangles |
| Analysis.TrianglesFull | src/analysis.rs:17-24 | the triangle count reaches n·(n−1) exactly when the neighbours form a clique |
| Analysis.ScanRow | src/analysis.rs:18-23 | the inner loop as written adds the neighbour's linked partners to triangles and all n pairs to possible |
| Analysis.ScanRowCorrected | src/analysis.rs:18-23 | the corrected inner loop counts only the n−1 pairs with a distinct partner as possible |
| Analysis.NodeClustering | src/analysis.rs:13-24 | as written, one node's counts are its triangle count and n·n possible pairs |
| Analysis.NodeClusteringCorrected | src/analysis.rs:13-24 | corrected, one node's counts are its triangle count and n·(n−1) possible pairs |
| Analysis.NodeCoefficient | src/analysis.rs:26-31 | as written, one node's ratio is (triangles, n·n); the (0, 0) taken when there is no possible pair is that same pair |
| Analysis.NodeCoefficientCorrected | src/analysis.rs:26-31 | corrected, one node's ratio is (triangles, DistinctPairs(n)) with DistinctPairs(n) = n·(n−1) |
| Analysis.ClusteringCoefficient | src/analysis.rs:9-35 | as written, every key maps to (triangles, n·n), the ratio's two halves |
| Analysis.ClusteringCoefficientCorrected | src/analysis.rs:9-35 | corrected, every key maps to (triangles, n·(n−1)), written DistinctPairs(n) |
| Analysis.AsWrittenBelowOne | src/analysis.rs:22 | as written, triangles fall short of possible by at least n, even for a clique, so a node with neighbours never reaches coefficient 1 |
| Analysis.CorrectedAtMostOne | src/analysis.rs:27-31 | corrected, the coefficient is at most 1, is exactly 1 for a clique with at least two members, and is 0 with fewer than two neighbours |
| Analysis.MaxValue | src/analysis.rs:62 | the largest value of a map, or none exactly when the map is empty |
| Analysis.GraphDiameter | src/analysis.rs:38-68 | the result bounds every hop count from every key, is attained by some key's search, and is 0 for the empty graph |
| Scenarios.TestGraphSymmetric | src/.ipynb_checkpoints/tests-checkpoint.rs:5-12 | the test graph is undirected, closed, and without empty entries |
| Scenarios.TestDistances | src/.ipynb_checkpoints/tests-checkpoint.rs:46-52 | from node 1, nodes 2 and 3 are one hop away and node 4 is two |
| Scenarios.TestCentrality | src/.ipynb_checkpoints/tests-checkpoint.rs:35-42 | node 1 has centrality 2 and node 3 has centrality 3 |
| Scenarios.SeparationFromOne | src/.ipynb_checkpoints/tests-checkpoint.rs:46-52 | the four hop counts from node 1 add up to 4 |
| Scenarios.TestSeparation | src/.ipynb_checkpoints/tests-checkpoint.rs:46-52 | the separation from node 1 is 4 hops over 4 nodes, an average of 1, within the tested range [1, 2] |
| Scenarios.TestSample | src/.ipynb_checkpoints/tests-checkpoint.rs:20-31 | a sample of two gives two keys of the graph and a subgraph on at most two nodes |
| Scenarios.TestCandidates | src/.ipynb_checkpoints/graph-checkpoint.rs:124-140 | on the test graph the candidates for node 4 are nodes 1 and 2, each sharing one neighbour |
| Scenarios.TestSuggestions | src/.ipynb_checkpoints/graph-checkpoint.rs:115-146 | on the test graph node 4 is suggested [(1, 1), (2, 1)], with the tie kept in visiting order |
| Scenarios.NodeOneTriangles | src/analysis.rs:17-24 | node 1's two neighbours form one linked pair, counted twice |
| Scenarios.TestClustering | src/analysis.rs:9-35 | node 1's counts are (2, 4) as written and (2, 2) corrected |
| Scenarios.HopsAtMostTwo | src/analysis.rs:38-68 | in the test graph no hop count from any key exceeds 2 |
| Scenarios.TestDiameter | src/analysis.rs:38-68 | the test graph's diameter is exactly 2: node 4 is two hops from node 1, and node 3 joins every pair |

## Left out

- File reading (`read_lines`, lines 7-14, and the `if let Ok` guards) is not modelled. The loader takes the file's lines as a sequence of strings, and a file that cannot be opened is the empty sequence.
- Unicode: a string is a sequence of chars. Whitespace is the set of characters with the Unicode White_Space property, which is what `split_whitespace` uses.
- The 64-bit target is assumed: usize is 64 bits wide, so node ids are at most 2^64 − 1.
- Traversal.ComputeAvgDegreesOfSeparation: does not model the 32-bit counters. `total_distance`, `num_reachable_nodes` and the queued `distance` (lines 78-81) start from untyped literals and are only added to and cast to f64, so Rust makes them `i32`. The model counts with unbounded integers. On a path of 65,537 nodes searched from one end, the total is 0 + 1 + … + 65,536 = 2,147,516,416, above 2^31 − 1. The source then panics with an overflow in a debug build and returns a wrong, negative average in a release build. The model returns the true total.
- Metrics.CountArcs: the usize sum is unbounded, so overflow is not modelled.
- Metrics.AnalyzeGraph: returns (numEdges, numNodes) and (sepTotal, sepCount) in place of the two f64 quotients. Rounding of the division is not modelled.
- Analysis.ClusteringCoefficient: returns (triangles, possible) in place of the f64 quotient, with (0, 0) standing for 0.0.
- Analysis.ClusteringCoefficient: does not model the 32-bit counters. `triangles` and `possible_triangles` (lines 13-14) start from untyped literals and are only incremented, compared with 0 and cast to f64, so Rust makes them `i32`. From degree 46,341 up, `possible_triangles` reaches 46,341² = 2,147,488,281, above 2^31 − 1. The triangle count, at most n·(n−1), can overflow from degree 46,342 up, when the neighbourhood is nearly a clique. The source then panics in a debug build; in a release build the count wraps negative, so the `> 0` test at line 27 fails or the ratio is wrong. The model returns the true counts. The same holds for Analysis.NodeClustering, Analysis.NodeCoefficient and Analysis.ScanRow.
- Analysis.ClusteringCoefficientCorrected: returns (triangles, possible) in place of the f64 quotient, with (0, 0) standing for 0.0.
- Randomness: `rand::thread_rng` with `choose_multiple` becomes the parameter `draw`. The model keeps the first min(k, number of keys) entries of `draw`. The probability distribution of the draw is not modelled.
- Hash-map and hash-set iteration order is not modelled. It becomes an `order` parameter or a `:|` choice, and every contract holds for every order.
- Recommender.SortByCountDesc models Rust's stable `sort_by` as an insertion sort from the back that puts an entry ahead of equal counts. `SortSorted` proves that an ordered input is left unchanged. General stability, meaning relative order is kept for every tie, is not stated as a lemma.
- Metrics.AnalyzeGraph: the first key the map yields becomes an arbitrary key (`:|`). The empty graph is excluded by `requires`, because the source panics on `unwrap()` there.
- Analysis.GraphDiameter: requires every neighbour to be a key, because the source panics on `unwrap()` of a missing key (line 52). `Adjacency.SymmetricIsClosed` and `Loader.ReadGraph` show that a loaded graph meets this.
- Traversal.DistancesFrom: requires start to be a key, because the diameter search only starts from keys.
- The binary's `main`, its prompt and its printing (`src/main.rs`) are not part of this model. Neither are the duplicate checkpoint copies of the other files.
- Traversal.EnqueueNeighbors and Traversal.VisitNeighbors are the inner `for` loops of the two searches, written as separate methods. Likewise, Sampler.BuildInduced is the loop of `sample_graph`, and Analysis.ScanRow is the inner loop of `clustering_coefficient`.

## Findings

| source | as written | input that shows it | evidently intended | confidence | as-written member | corrected member |
|---|---|---|---|---|---|---|
| src/analysis.rs:22 | `possible_triangles` is incremented for every pair (neighbor, other_neighbor), including a neighbour paired with itself, so the denominator is n·n | node 1 of the test graph {1:{2,3}, 2:{1,3}, 3:{1,2,4}, 4:{3}}: its neighbours 2 and 3 are linked, yet the coefficient is 2/4 = 0.5; no node with a neighbour can ever reach 1.0 | count only pairs of distinct neighbours, n·(n−1), so a clique neighbourhood gives 1.0, as the clustering coefficient's definition states | high (proved; not executed) | Analysis.AsWrittenBelowOne | Analysis.CorrectedAtMostOne |

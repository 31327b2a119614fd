# Graph structure analysis: a verified model

This project models the core of a small Python library that studies undirected graphs grown by
preferential attachment (the Barabási–Albert model). It covers two parts:

- **The graph** (`graph.py`). A `Graph` is built from a node count and an edge list. Construction
  inserts both directions of every edge into per-node neighbour sets. The getters return the node
  count, the raw edge-list length and a node's neighbour set. The Barabási–Albert generator first
  builds the complete graph on nodes `0..d`. Then, for each further node, it draws `d` positions
  from a pool in which every node appears once per neighbour, and joins the new node to the node
  at each drawn position.
- **The analyses** (`graph_algorithms.py`):
  - the double-sweep breadth-first diameter estimate;
  - the global clustering coefficient;
  - the degree histogram, sorted by degree.

The model follows the source's imperative form:

- `Graph` is a class whose constructor fills the neighbour map in a loop.
- The generator is a static method. Each loop of the source is a helper method proved against pure
  functions that describe the edge list it builds.
- The breadth-first search keeps the work queue, the visited set and the running maximum as loop
  variables, with a ghost map of recorded distances.
- The clustering coefficient and the degree histogram are the source's counting loops.

Files:

| file | module | contents |
|---|---|---|
| `counting.dfy` | `Counting` | C(k, 2) and its closed form `k * (k - 1) / 2` |
| `adjacency.dfy` | `AdjacencySets` | neighbour sets built from an edge list; exactness, symmetry, keys |
| `graph.dfy` | `Graphs` | the `Graph` class and the generator's loops |
| `barabasi_albert.dfy` | `BarabasiAlbert` | the generator's edge list as functions of the draws; its shape |
| `distances.dfy` | `Distances` | balls, shortest distances, symmetry: the vocabulary of the search |
| `triangles.dfy` | `Triangles` | linked neighbour pairs, over a list and over a set |
| `histogram.dfy` | `Histograms` | degree counts, sorted items, the histogram total |
| `graph_algorithms.dfy` | `GraphAlgorithms` | the search, the diameter, the clustering coefficient, the histogram |

Randomness is an input. `random.sample(nodes_with_repetition, d)` becomes a caller-supplied draw: a
sequence of `d` distinct positions below the pool's length. `IsSample` states this, and `Grown` /
`GeneratedEdges` give the resulting edge list. Iterating a Python `set` is modelled as picking
members in an arbitrary order (`:|`). So every property of the search and of the clustering
coefficient holds whatever order the neighbour sets are iterated in.

## Model

| member | source | states |
|---|---|---|
| `Graphs.Graph.constructor` | graph.py:6-19 | the neighbour map is the one the edge list determines (`Valid`); the node count and the edge list are kept as given, so `NumNodes()` is `n` and `NumEdges()` is the edge-list length, duplicates included |
| `AdjacencySets.Add` | graph.py:12-13 | adding v to u's set grows u's entry by v, gives u an entry, and leaves every other set unchanged |
| `AdjacencySets.AdjacencyExact` | graph.py:8-13 | v is a neighbour of u iff (u, v) or (v, u) occurs in the edge list; nothing else is a neighbour |
| `AdjacencySets.AdjacencySymmetric` | graph.py:11-13 | v is a neighbour of u iff u is a neighbour of v |
| `AdjacencySets.AdjacencyKeys` | graph.py:9-13 | a node has a dictionary entry iff it is an endpoint of some edge, and every neighbour has an entry of its own |
| `Graphs.Graph.NumNodes` | graph.py:15-16 | the node count fixed at construction, not derived from the edges |
| `Graphs.Graph.NumEdges` | graph.py:18-19 | the length of the edge list, duplicates included; for a built graph it is 0 exactly when the neighbour dictionary has no entry |
| `Graphs.Graph.Neighbors` | graph.py:21-22 | the neighbour set is exactly the set of nodes some edge joins to the node; it is empty iff no edge touches the node, and the lookup never fails |
| `Graphs.Graph.GenerateBarabasiAlbert` | graph.py:25-47 | the returned graph's neighbours are rebuilt from the generated edges; its edge list is the one the draws determine, has C(d + 1, 2) + (n - d - 1) * d edges, starts with the complete seed, and every growth edge joins a node in d + 1 .. n - 1 to a smaller node |
| `Graphs.CompleteSeed` | graph.py:30-34 | the seed loop builds the complete graph's edge list, and the local neighbour map and key order that list determines |
| `Graphs.AttachRow` | graph.py:31-34 | one pass of the inner seed loop appends (u, u + 1), ..., (u, d) and keeps the neighbour map and key order in step |
| `Graphs.Grow` | graph.py:36-45 | the growth loop produces the edge list that the draws determine, with its neighbour map and key order |
| `Graphs.AttachNode` | graph.py:37-45 | one growth step appends one edge from the new node to the pool entry at each drawn position, and keeps the neighbour map and key order in step |
| `BarabasiAlbert.SeedRowsLength` | graph.py:30-34 | the first `rows` rows of the seed hold C(d + 1, 2) - C(d + 1 - rows, 2) edges |
| `BarabasiAlbert.SeedRowsBounds` | graph.py:30-34 | every seed edge (u, v) so far has 0 <= u < v <= d, with u below the rows built |
| `BarabasiAlbert.SeedRowsComplete` | graph.py:30-34 | every pair u < v <= d with u below the rows built is present |
| `BarabasiAlbert.SeedRowsSorted` | graph.py:30-34 | the seed edges are in strictly ascending lexicographic order |
| `BarabasiAlbert.SeedEdgesShape` | graph.py:30-34 | the seed is exactly the C(d + 1, 2) = (d + 1) * d / 2 pairs u < v of nodes 0..d, in lexicographic order |
| `BarabasiAlbert.AddKey` | graph.py:33-34 | inserting a node into the dictionary keeps the existing keys in their places, makes the node a key, and adds no other key |
| `BarabasiAlbert.KeyOrder` | graph.py:33-45 | the dictionary's insertion order: at most two new keys per edge, and the first edge's first endpoint comes first |
| `BarabasiAlbert.KeyOrderPrefix` | graph.py:33-45 | later edges never reorder the keys: the order after a prefix of the edges is a prefix of the final order |
| `BarabasiAlbert.KeyOrderFacts` | graph.py:33-45 | the dictionary's insertion order lists no node twice and lists exactly the nodes with an entry |
| `BarabasiAlbert.Pool` | graph.py:37-39 | `nodes_with_repetition`: only dictionary keys occur in it, and only those with at least one neighbour |
| `BarabasiAlbert.PoolSnoc` | graph.py:37-39 | the pool lists the keys in insertion order: a key inserted later has its copies after those of every earlier key |
| `BarabasiAlbert.PoolMultiplicity` | graph.py:37-39 | with distinct keys, each key occurs in the pool once per neighbour, and nothing else occurs |
| `BarabasiAlbert.KeyHasNeighbour` | graph.py:37-39 | every node with a dictionary entry has at least one neighbour, so it occurs in the pool |
| `BarabasiAlbert.PoolOfMultiplicity` | graph.py:37-39 | in every growth step each node occurs in the pool exactly as often as it has neighbours, and only nodes with an entry occur |
| `BarabasiAlbert.Sample` | graph.py:40 | the sample has one entry per drawn position, each taken from the pool |
| `BarabasiAlbert.PoolBelow` | graph.py:36-40 | when every edge lies below node t, so does every pool entry; in particular the new node is not in the pool |
| `BarabasiAlbert.GrownLength` | graph.py:36-45 | each growth step appends exactly d edges |
| `BarabasiAlbert.GrownPrefix` | graph.py:36-45 | growth only appends: the edges present before stay in place |
| `BarabasiAlbert.GrownTargets` | graph.py:36-45 | every growth edge goes from the node being added to a node added before it, so it is never a self-loop, and all nodes stay below the next id |
| `BarabasiAlbert.GeneratedShape` | graph.py:25-47 | the generated edge list has C(d + 1, 2) + (n - d - 1) * d edges, starts with the seed, and its growth edges run from d + 1 .. n - 1 to smaller nodes; for n >= d + 1 every endpoint is in [0, n) |
| `GraphAlgorithms.EnqueueNeighbors` | graph_algorithms.py:17-19 | the queue gains (w, distance + 1) for exactly the neighbours w that are not visited, each once, behind the entries already queued |
| `GraphAlgorithms.VisitStep` | graph_algorithms.py:12-19 | a node popped for the first time carries its shortest distance from the start, and recording it and enqueueing its neighbours keeps the search state |
| `GraphAlgorithms.SkipStep` | graph_algorithms.py:12-13 | popping a node that is already visited keeps the search state |
| `GraphAlgorithms.VisitNext` | graph_algorithms.py:12-19 | a first visit, with the running-maximum update, keeps the whole loop state and leaves fewer nodes to visit |
| `GraphAlgorithms.SkipNext` | graph_algorithms.py:12-13 | popping an already visited node keeps the whole loop state |
| `GraphAlgorithms.SearchComplete` | graph_algorithms.py:11-20 | once the queue is empty, every reachable node is visited, so the largest recorded distance is the start's eccentricity |
| `GraphAlgorithms.SearchEnds` | graph_algorithms.py:11-20 | at the end of the loop the returned node lies at the returned distance, which no shortest distance from the start exceeds |
| `GraphAlgorithms.BfsLongestPath` | graph_algorithms.py:6-20 | the returned node is at exactly the returned shortest distance from the start; no node reachable from the start is farther; a distance of 0 comes with the start itself |
| `GraphAlgorithms.ThroughCentre` | graph_algorithms.py:26-29 | two nodes of s's component are at most twice s's eccentricity apart |
| `GraphAlgorithms.DoubleSweep` | graph_algorithms.py:26-29 | when a is farthest from s and the second sweep returns a's eccentricity, that value lies between s's eccentricity e0 and 2 * e0, and bounds half of every distance in s's component |
| `GraphAlgorithms.GetDiameter` | graph_algorithms.py:5-29 | 0 for a graph without nodes; otherwise a true shortest distance between two nodes of node 0's component, at least node 0's eccentricity, at most twice it, and at least half of every distance in that component |
| `Counting.Choose2ClosedForm` | graph_algorithms.py:39 | the count of unordered pairs of k items is `k * (k - 1) // 2` |
| `GraphAlgorithms.ListOf` | graph_algorithms.py:36 | `list(s)` holds each member of the set exactly once |
| `Triangles.Links` | graph_algorithms.py:41-43 | the pairs with a fixed first node are no more than the candidates after it |
| `Triangles.Pairs` | graph_algorithms.py:41-43 | the linked pairs among `combinations(ns, 2)` number at most C(len(ns), 2) |
| `GraphAlgorithms.CountClosedPairs` | graph_algorithms.py:41-43 | the inner loop counts exactly the pairs (u, v) of `combinations(neighbors, 2)` with v a neighbour of u |
| `Triangles.LinksAsSet` | graph_algorithms.py:41-43 | over a list without repetitions, the links from u are u's neighbours among the list's elements |
| `Triangles.LinkedAmongAdd` | graph_algorithms.py:41-43 | adding a node to a set adds exactly one linked pair per neighbour it has in the set |
| `Triangles.PairsAsSet` | graph_algorithms.py:36-43 | in a symmetric graph, the pairs counted over a listing of the neighbours are the linked pairs of the neighbour set, whatever order the set was listed in |
| `Triangles.LinkedAmongBound` | graph_algorithms.py:39-43 | a set of k nodes has at most C(k, 2) linked pairs |
| `GraphAlgorithms.TrianglesWithinTwoPaths` | graph_algorithms.py:35-43 | the triangle count never exceeds the two-path count |
| `GraphAlgorithms.CoefficientBounds` | graph_algorithms.py:45-48 | the coefficient is 0 when there are no two-paths, otherwise the ratio; it lies in [0, 1] and is 0 exactly when no triangle closes |
| `GraphAlgorithms.GetClusteringCoefficient` | graph_algorithms.py:31-48 | the result is the closed neighbour pairs over Σ C(k, 2) across nodes 0 .. numNodes - 1, 0 when that sum is 0; it lies in [0, 1] and is 0 exactly when no triangle closes |
| `Histograms.DegreeCount` | graph_algorithms.py:53-57 | no degree is counted for more nodes than there are |
| `Histograms.DegreeCountPositive` | graph_algorithms.py:53-57 | a degree has a positive count iff some node below numNodes has it |
| `Histograms.SortedItems` | graph_algorithms.py:59 | `sorted(d.items())` lists every entry of the dictionary once, and nothing else, in strictly ascending order of key |
| `Histograms.HitsOnce` | graph_algorithms.py:59 | in strictly ascending items a key that occurs occurs once |
| `Histograms.CountSumAll` | graph_algorithms.py:53-57 | summed over keys that cover every node's degree once, the degree counts add up to the number of nodes |
| `Histograms.HistogramTotal` | graph_algorithms.py:53-59 | the counts of the sorted histogram sum to numNodes |
| `GraphAlgorithms.GetDegreeDistribution` | graph_algorithms.py:50-59 | keys strictly ascend; (k, c) is an item iff c is the positive number of nodes 0 .. numNodes - 1 of degree k; the counts sum to numNodes; an empty graph yields no items |

## Left out

- `requirements.py`: plotting, logarithms, linear regression and averaging over runs. These are presentation and orchestration built on library calls; they are not part of this model.
- Randomness: `random.sample` is replaced by caller-supplied draws. No statistical claim about the preferential-attachment degree distribution is made.
- Graphs.Graph.GenerateBarabasiAlbert: its precondition asks that every draw be a possible result of `random.sample`, i.e. d distinct positions below the pool length. The source gets this from the library.
- Graphs.Graph.constructor: the default empty edge list is not modelled, so callers pass the edges explicitly. The node count is a natural number; a negative count, which the source accepts and for which `get_diameter` would still search from node 0, is not modelled.
- Graphs.Graph.GenerateBarabasiAlbert: `num_nodes` and `d` are natural numbers. Negative arguments, for which Python's ranges are empty or `random.sample` raises, are not modelled.
- Distinct targets: preferential attachment is often described as choosing d distinct target nodes, but the source draws d distinct positions of the pool. The model follows the code, so one growth step may pick the same node twice. The repeated edge then stays in the edge list and collapses in the neighbour sets. No contract claims distinct targets.
- `defaultdict` insertion on lookup: `get_neighbors` on a node without edges inserts an empty entry into `adjacency_list`. The model's `Lookup` returns the empty set without inserting. No result of the modelled operations depends on those extra entries.
- Floating point: `triangles / two_paths` is an exact `real` quotient. Python's rounding to a double is not modelled.
- GraphAlgorithms.BfsLongestPath: when several nodes are farthest, the source returns the first one visited (the comparison is strict). The contract only promises some node at the maximum distance, because the visiting order depends on how the neighbour sets are iterated.
- A size-dependent sampled estimator of the clustering coefficient does not exist in this code. `get_clustering_coefficient` is always exact, and so is the model.
- Running time and memory use are not modelled.

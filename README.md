# Correlation network filters: a Dafny model

This project models the combinatorial core of `src/correlation_network_animation.py`. That core turns a correlation matrix into sparse networks and produces the matrices it feeds them:

- **Distance transform** (`CorrelationFilter.correlation_to_distance`). Each entry becomes d = sqrt(2(1 - c)), and the diagonal is forced to 0.
- **Minimum spanning tree** (`minimum_spanning_tree`). The complete graph on 0..n-1 is reduced by Kruskal's scan, which is what networkx runs by default.
- **Planar maximally filtered graph, PMFG** (`planar_maximally_filtered_graph`). Candidate edges are scanned by ascending distance. Each edge is added, tested for planarity, and removed again if the test fails. The scan stops at 3(n - 2) edges or after `max_iterations` candidates.
- **Simplified triangulated maximally filtered graph, TMFG** (`triangulated_maximally_filtered_graph`).
  - For n <= 20 it is the PMFG.
  - Otherwise it starts from K4 on nodes 0..3. It then repeatedly picks, among the first five remaining nodes and all triangles of the graph, the pair with the least summed distance. The node is joined to the triangle's three corners.
- **Rolling estimator** (`RollingCorrelationEstimator.estimate_correlations`). It produces one correlation matrix per sliding window.
- **Synthetic generator** (`SyntheticCorrelationGenerator`).
  - The block-structured base matrix fill.
  - The diffusion step of `evolve_correlation_parameters`: read the lower triangle, mean-revert, add noise, clip to [-0.95, 0.95], mirror back into a symmetric unit-diagonal matrix.

Representation choices:

- Weights and correlations are exact `real`s.
- A graph is a node set plus a map from edges (stored smaller endpoint first) to `weight` attributes.
- Things that are random or belong to outside libraries are parameters: `np.sqrt`, `nx.check_planarity`, pandas `.corr()`, the random draws, and the eigenvalue repair.

Modules, one per file:

| file | module | contents |
|---|---|---|
| `wrappers.dfy` | `Wrappers` | `Option` |
| `matrices.dfy` | `Matrices` | square matrices, symmetry, triangular numbers |
| `graphs.dfy` | `Graphs` | edges, graphs, walks and connectivity |
| `distance.dfy` | `Distance` | the distance transform |
| `candidates.dfy` | `Candidates` | the complete graph's edges in loop order and sorted by distance |
| `spanning_tree.dfy` | `SpanningTree` | Kruskal's scan and the MST |
| `planar.dfy` | `Planar` | the PMFG loop, as a method and as the specification function `Loop` |
| `triangulated.dfy` | `Triangulated` | the TMFG: triangle enumeration, selection, insertion loop |
| `rolling.dfy` | `Rolling` | the rolling estimator |
| `generator.dfy` | `Generator` | lower triangle and reconstruction, the evolution sequence, the block base matrix |

How several source behaviours are modelled:

- **Candidate order.** networkx lists the complete graph's edges row by row, and Python's `sorted` is stable. So the candidate order is the strict order by (distance, row, column). `Candidates.CandidatesStable` proves that ties keep the loop order.
- **Triangle order.** Triangles are enumerated as `nx.enumerate_all_cliques` yields 3-cliques: by the position of their corners in the graph's node insertion order `order`.
- **Selection.** The strict `<` against a best score that starts at `float('inf')` is modelled with `None` for "no pair yet". Ties therefore resolve to the first pair scanned.
- **TMFG edge weights.** An edge joining an inserted node x to a corner y carries `distance_matrix[x, y]`, whichever of x and y is smaller. `InsertedWeight` records this. For a symmetric distance matrix it is simply the entry at (u, v) (`Triangulated.SymmetricWeights`).

## Model

| member | source | states |
|---|---|---|
| Distance.CorrelationToDistance | src/correlation_network_animation.py:247-248 | the result has the input's shape and a zero diagonal |
| Distance.EntryWise | src/correlation_network_animation.py:247 | each off-diagonal distance is sqrt(2(1 - c)) of the same cell, and depends on that cell only |
| Distance.SymmetricDistance | src/correlation_network_animation.py:247-249 | a symmetric n-by-n correlation matrix gives a symmetric n-by-n distance matrix with zero diagonal |
| Distance.DistanceRange | src/correlation_network_animation.py:239-247 | with a true square root, a correlation in [-1, 1] gives a distance in [0, 2] whose square is 2(1 - c) |
| Distance.DistanceReversesOrder | src/correlation_network_animation.py:247 | with a monotone square root, a higher correlation never gives a larger distance |
| Candidates.UpperPairsComplete | src/correlation_network_animation.py:264-267 | the nested loops list every pair i < j < n exactly once, and nothing else |
| Candidates.UpperPairs | src/correlation_network_animation.py:264-267 | the nested loops add n(n-1)/2 edges |
| Candidates.UpperPairAt | src/correlation_network_animation.py:265-267 | pair (i, j) is visited at position PairIndex(n, (i, j)) |
| Candidates.PairIndexOrder | src/correlation_network_animation.py:265-267 | pairs earlier by row, then column, are visited earlier |
| Candidates.Weight | src/correlation_network_animation.py:267 | the `weight` attribute of pair (u, v) is distance_matrix[u, v]; for a symmetric matrix it is the same read as (v, u) |
| Candidates.InsertSorted | src/correlation_network_animation.py:295-296 | inserting a new edge into a strictly sorted list keeps it strictly sorted |
| Candidates.SortByWeight | src/correlation_network_animation.py:295-296 | the result is strictly sorted by (distance, row, column) and is a permutation of the input |
| Candidates.SortedCandidates | src/correlation_network_animation.py:288-296 | the candidates are exactly the pairs of the complete graph, each once, in nondecreasing distance |
| Candidates.CandidatesStrictlySorted | src/correlation_network_animation.py:295-296 | the candidate list is sorted by the strict key (distance, row, column) |
| Candidates.CandidatesStable | src/correlation_network_animation.py:290-296 | candidates of equal distance keep their nested-loop order, as the stable `sorted` leaves them |
| SpanningTree.Initial | src/correlation_network_animation.py:270 | Kruskal starts with one component per node and no edge, which satisfies the scan invariant |
| SpanningTree.Kruskal | src/correlation_network_animation.py:270 | the scan labels the same n nodes, keeps the edges kept before it, and appends only scanned candidates, at most one each |
| SpanningTree.KeepPreserves | src/correlation_network_animation.py:270 | keeping an edge between two components merges them and keeps the forest acyclic, labelled and counted |
| SpanningTree.KruskalInvariant | src/correlation_network_animation.py:270 | the whole scan keeps the invariant, and afterwards the endpoints of every scanned edge share a component |
| SpanningTree.KruskalSpans | src/correlation_network_animation.py:259-270 | over all pairs, the kept edges are valid, acyclic, n - 1 in number, and connect every pair of nodes |
| SpanningTree.KruskalCount | src/correlation_network_animation.py:259-270 | over all pairs, the scan keeps exactly n - 1 valid edges |
| SpanningTree.MinimumSpanningTree | src/correlation_network_animation.py:252-272 | every tree edge is a pair i < j < n whose endpoints are nodes of the tree (none for n < 2) |
| SpanningTree.MstShape | src/correlation_network_animation.py:259-272 | for n >= 1: n - 1 edges, each a pair i < j weighted distance_matrix[i, j]; the nodes are 0..n-1, or none for n = 1 |
| SpanningTree.MstSpanning | src/correlation_network_animation.py:259-272 | for n >= 1 the tree connects every pair of nodes and is acyclic |
| Planar.TryAdd | src/correlation_network_animation.py:312-318 | an accepted edge is added with its weight; a rejected step leaves the graph exactly as it was |
| Planar.Keep | src/correlation_network_animation.py:312-318 | the kept edges either stay as they were or gain exactly the candidate, and then the planarity test accepted the enlarged set |
| Planar.Loop | src/correlation_network_animation.py:306-322 | the loop stops having scanned at most every candidate |
| Planar.Scan | src/correlation_network_animation.py:306-322 | the imperative loop builds exactly the graph of the specification run `Loop` |
| Planar.PmfgRun | src/correlation_network_animation.py:295-322 | the run over the sorted candidates scans at most the n(n-1)/2 pairs |
| Planar.MaxEdges | src/correlation_network_animation.py:301 | definition of `max_edges = 3 * (n - 2)`; `Planar.LoopBound` and `Planar.PmfgBound` state that the graph never passes it |
| Planar.Limit | src/correlation_network_animation.py:303-304 | definition of the iteration limit, the number of candidates when `max_iterations` is None; a zero or negative limit scans nothing, as `iterations >= max_iterations` does; `Planar.LoopExit` and `Planar.PmfgExit` state how many candidates it lets through |
| Planar.PmfgGraph | src/correlation_network_animation.py:299-324 | definition of the returned graph, nodes 0..n-1 and the kept edges with their distances; `Planar.PmfgShape` states its shape |
| Planar.ScanSkip | src/correlation_network_animation.py:316-318 | after a rejected candidate the graph and the kept edges are unchanged, and the invariant still holds |
| Planar.ScanKeep | src/correlation_network_animation.py:313-316 | after an accepted candidate the graph gains exactly that edge with its distance |
| Planar.PlanarMaximallyFilteredGraph | src/correlation_network_animation.py:286-324 | the method returns nodes 0..n-1 with the edges `Loop` keeps over the sorted candidates |
| Planar.GreedyStep | src/correlation_network_animation.py:312-318 | one step preserves the greedy rule |
| Planar.LoopGreedy | src/correlation_network_animation.py:306-318 | of the candidates scanned, one is kept iff the planarity test accepted it with the edges kept before it |
| Planar.LoopPlanarThroughout | src/correlation_network_animation.py:313-318 | every prefix of the kept edges passed the planarity test when its last edge was added |
| Planar.LoopSubsequence | src/correlation_network_animation.py:295-313 | the edges a run keeps occur among the scanned candidates in scan order |
| Planar.SubsequenceOrdered | src/correlation_network_animation.py:295-313 | a subsequence of distinct candidates sorted by distance is itself distinct, sorted and drawn from them |
| Planar.LoopOrder | src/correlation_network_animation.py:295-313 | the kept edges are distinct, in ascending distance, and among the candidates scanned |
| Planar.LoopBound | src/correlation_network_animation.py:301-322 | from below the target, the edge count never exceeds 3(n-2); reaching it means the loop stopped on the edge that completed it |
| Planar.LoopExit | src/correlation_network_animation.py:303-322 | a run that ends below 3(n-2) edges scanned min(max_iterations, candidates) candidates |
| Planar.PmfgShape | src/correlation_network_animation.py:299-313 | nodes 0..n-1; the edges are exactly the kept pairs, weighted by distance, kept in ascending distance, each once |
| Planar.PmfgKeys | src/correlation_network_animation.py:313-318 | the graph's edge count is the number of distinct kept edges |
| Planar.PmfgBound | src/correlation_network_animation.py:301-322 | for n >= 3 at most 3(n-2) edges; exactly 3(n-2) only if the last scanned candidate was kept |
| Planar.PmfgTwoNodes | src/correlation_network_animation.py:301-322 | for n = 2, where 3(n-2) = 0, the count check comes after the add, so up to one edge is kept |
| Planar.PmfgExit | src/correlation_network_animation.py:303-309 | fewer than 3(n-2) edges means every candidate `max_iterations` allowed was scanned |
| Planar.PmfgPlanar | src/correlation_network_animation.py:313-318 | every kept edge passed the planarity test together with the edges kept before it |
| Planar.PmfgGreedy | src/correlation_network_animation.py:306-318 | the result follows the greedy rule over the scanned candidates |
| Triangulated.Triangles | src/correlation_network_animation.py:365-366 | every enumerated triangle has three distinct, pairwise adjacent corners in the graph |
| Triangulated.TrianglesComplete | src/correlation_network_animation.py:365-366 | every 3-clique of the graph is enumerated |
| Triangulated.SelectInsertion | src/correlation_network_animation.py:359-372 | no pick iff no node or no triangle; the pick has the least score, and every pair scanned before it scores strictly more |
| Triangulated.Score | src/correlation_network_animation.py:368 | definition: the sum of distance_matrix[node, v] over the triangle's corners; `Triangulated.SelectInsertion` and `Triangulated.ChooseInsertion` state which pair minimises it |
| Triangulated.FirstFive | src/correlation_network_animation.py:363 | at most five candidate nodes, all remaining, at least one while any remains, and all of them when five or fewer remain |
| Triangulated.SeedTriangle | src/correlation_network_animation.py:365-375 | triangle 0, 1, 2 is always enumerated, so `best_node is None` never happens |
| Triangulated.ChooseInsertion | src/correlation_network_animation.py:363-375 | the chosen node is among the first five remaining; the chosen triangle is a 3-clique of the graph; their score is least, and every pair the scan reaches before them scores strictly more |
| Triangulated.RemoveFirst | src/correlation_network_animation.py:381 | `list.remove` drops one occurrence of the node |
| Triangulated.RemoveFirstDistinct | src/correlation_network_animation.py:381 | in a list without repeats it drops exactly that node |
| Triangulated.SeedShape | src/correlation_network_animation.py:346-351 | K4 on 0..3 has the six edges i < j < 4, each weighted distance_matrix[i, j] |
| Triangulated.Seed | src/correlation_network_animation.py:346-351 | definition of the weighted K4; `Triangulated.SeedShape` states its edges and weights |
| Triangulated.AddCorners | src/correlation_network_animation.py:378-379 | definition of the three `add_edge` calls of one insertion; `Triangulated.InsertKeys` and `Triangulated.InsertWeights` state their effect |
| Triangulated.InsertedWeight | src/correlation_network_animation.py:351-379 | every edge carries the distance between its two endpoints, read in one direction or the other |
| Triangulated.RangeShape | src/correlation_network_animation.py:354 | `range(4, n)` holds every node from 4 to n-1 once |
| Triangulated.TmfgInit | src/correlation_network_animation.py:346-354 | the seed K4 and the remaining list satisfy the loop invariant (6 = 3·4 - 6 edges, connected) |
| Triangulated.InsertKeys | src/correlation_network_animation.py:378-379 | joining a node of no edge to a triangle adds exactly three new edges |
| Triangulated.InsertWeights | src/correlation_network_animation.py:378-379 | old edges keep their weights; the new ones carry distance_matrix[node, corner] |
| Triangulated.InsertEdges | src/correlation_network_animation.py:377-379 | an insertion keeps all edges valid and weighted, keeps the seed edges, and adds exactly 3 edges |
| Triangulated.InsertConnected | src/correlation_network_animation.py:378-379 | an insertion keeps the graph connected |
| Triangulated.InsertNode | src/correlation_network_animation.py:381 | moving the node from the remaining list to the graph keeps each node in exactly one of them |
| Triangulated.TmfgInsert | src/correlation_network_animation.py:357-381 | one pass of the loop keeps the invariant, with 3k - 6 edges on k nodes |
| Triangulated.TmfgDone | src/correlation_network_animation.py:357 | on loop exit no node remains; the graph spans 0..n-1 with 3(n-2) edges and is connected |
| Triangulated.InsertAll | src/correlation_network_animation.py:345-389 | the loop inserts every node; the result has 3(n-2) weighted edges including the seed edges, and is connected; the fallback never runs |
| Triangulated.TriangulatedMaximallyFilteredGraph | src/correlation_network_animation.py:339-391 | for n <= 20 exactly the PMFG; otherwise a connected graph on 0..n-1 with 3(n-2) weighted edges on the seed K4. The second result `order` is not returned by the system: it is the order in which nodes entered the graph (0..n-1 in the PMFG branch), through which the edge weights are stated |
| Triangulated.SymmetricWeights | src/correlation_network_animation.py:351-379 | for a symmetric distance matrix every edge (u, v) carries distance_matrix[u, v] |
| Rolling.RollingCorrelationEstimator.constructor | src/correlation_network_animation.py:399-406 | the estimator keeps the window size, 252 by default |
| Rolling.EntryCount | src/correlation_network_animation.py:428 | definition of `len(range(window_size, n_obs))`, n_obs - w when w < n_obs and 0 otherwise; `Rolling.RollingCorrelationEstimator.EstimateCorrelations` states that there is exactly one estimate per entry |
| Rolling.Window | src/correlation_network_animation.py:429-430 | the window of entry k is the w rows k..k+w-1 |
| Rolling.EntryAt | src/correlation_network_animation.py:429-438 | an entry's correlation is that of its window, and its observation count is the number of rows in the window |
| Rolling.RollingCorrelationEstimator.EstimateCorrelations | src/correlation_network_animation.py:425-440 | max(0, n_obs - w) entries; entry k is dated index[k + w], covers rows k..k+w-1, and records n_obs = w |
| Rolling.WindowSlides | src/correlation_network_animation.py:428-438 | the next estimate is the correlation of the current window with its oldest row dropped and the row the current estimate is dated at added |
| Rolling.Coverage | src/correlation_network_animation.py:428-430 | with 1 <= w < n_obs a row enters some window iff it is not the last row |
| Generator.LowerAt | src/correlation_network_animation.py:124-125 | `current_corr[tril_indices(n, -1)]` holds cell (i, j), j < i, at position i(i-1)/2 + j |
| Generator.Lower | src/correlation_network_animation.py:124-125 | the lower triangle holds n(n-1)/2 values |
| Generator.Reconstruct | src/correlation_network_animation.py:134-137 | the reconstruction is an n-by-n matrix |
| Generator.ReconstructShape | src/correlation_network_animation.py:134-137 | the reconstruction has unit diagonal, the given value at each lower cell and its mirror, and is symmetric |
| Generator.LowerOfReconstruct | src/correlation_network_animation.py:124-137 | reading back the lower triangle of the reconstruction gives the values put in |
| Generator.ReconstructOfLower | src/correlation_network_animation.py:124-137 | a symmetric unit-diagonal matrix is rebuilt from its lower triangle |
| Generator.Clip | src/correlation_network_animation.py:131-132 | the result is in [-0.95, 0.95] and equals the input when the input already is |
| Generator.Drift | src/correlation_network_animation.py:125-132 | same length, every value in [-0.95, 0.95] |
| Generator.DriftAt | src/correlation_network_animation.py:128-132 | position k is clip(0.95 · c[k] + noise[k] · volatility) |
| Generator.ProposalShape | src/correlation_network_animation.py:118-137 | each step's matrix before repair is n-by-n, symmetric, with diagonal 1 and off-diagonal entries in [-0.95, 0.95] |
| Generator.Proposal | src/correlation_network_animation.py:124-137 | the matrix proposed at each step is n-by-n |
| Generator.ProposalLower | src/correlation_network_animation.py:124-137 | its lower triangle is exactly the drifted correlations of the current matrix |
| Generator.QuietStep | src/correlation_network_animation.py:120-132 | without noise a correlation in [-1, 1] becomes 0.95 times itself, on both sides of the diagonal |
| Generator.EvolveCorrelationParameters | src/correlation_network_animation.py:115-149 | max(1, n_steps) matrices; the first is the base, and each next is the repaired proposal from the one before |
| Generator.NSectors | src/correlation_network_animation.py:63 | max(3, n // 5) |
| Generator.UpperIndexOrder | src/correlation_network_animation.py:69-76 | pairs are drawn for in row-by-row order, each at its own position below n(n-1)/2 |
| Generator.Uniform | src/correlation_network_animation.py:73-76 | `rng.uniform(lo, hi)` of a unit draw lies in [lo, hi) |
| Generator.Scaled | src/correlation_network_animation.py:73-76 | a positive width times a unit draw lies in [0, width) |
| Generator.BlockEntry | src/correlation_network_animation.py:67-76 | definition of cell (p, q) of the block matrix; `Generator.BlockShape` states its ranges and `Generator.BlockCorrelation` that the loops compute it |
| Generator.BlockShape | src/correlation_network_animation.py:67-76 | with draws in [0, 1): symmetric, unit diagonal; in-sector pairs in [0.4, 0.8), others in [-0.1, 0.3) |
| Generator.BlockCorrelation | src/correlation_network_animation.py:63-76 | for sector labels below max(3, n // 5), as `np.random.choice` draws them, the nested loops fill every cell with its block entry and consume exactly n(n-1)/2 draws |

## Left out

- Distance.DistanceRange: the triangle inequality of the distance (docstring at line 242) is not stated. It holds only for a positive semi-definite correlation matrix with unit diagonal and a true square root. Here the square root is the parameter `sqrt`, and positive semi-definite matrices are not modelled.
- Eigenvalue repair and rescaling (`_ensure_positive_definite` and the diagonal normalisation, lines 82-95 and 139-144). These are floating-point linear algebra, so they are the parameter `repair`. Positive semi-definiteness is therefore not modelled.
- Random draws. `rng.uniform`, `rng.randn` and the sector choice `np.random.choice` (lines 64, 73-79, 128) are inputs. The k-th unit draw is `u(k)`, the standard normal draws of a step are `noise(t, k)`, and the sector assignment is `sectors`.
- The non-block branch of the base matrix (`A @ A.T`, lines 77-80). This is a random matrix product that only feeds the repair.
- `generate_returns`, `generate_time_series`, all of `NetworkAnimator`, `main`, the example scripts, `setup.py` and `test_installation.py`. These are sampling, pandas frames, rendering and I/O around the core.
- pandas `.corr()` is the parameter `corr`. The frame's dates are of any type.
- `np.sqrt` is a parameter. The lemmas that need it assume it is a square root or monotone. NaN and infinities are not modelled.
- `nx.check_planarity` is the parameter `planar` over the edge set. The node set is 0..n-1 throughout, and the test's certificate is ignored.
- Floating-point rounding: all weights are exact reals.
- The TMFG fallback loop (lines 383-389) has no code in the model. `Triangulated.InsertAll` proves its `while` loop always empties `remaining_nodes`, so the fallback never runs.
- `Rolling.RollingCorrelationEstimator.EstimateCorrelations`: the window size is a `nat`. Negative window sizes, for which Python's negative indexing would apply, are not modelled.
- Matrices are `seq<seq<real>>`. A distance matrix with rows of differing lengths, impossible for a numpy array, reads 0 outside its rows (`Entry`, `Candidates.Weight`).
- SpanningTree.MstShape: states the tree's shape (n - 1 pair edges, spanning, acyclic) but not that its total weight is minimal.
- Planar.PmfgBound: the 3(n-2) bound comes from the loop's own count check. Planarity of the result holds only relative to the parameter `planar` (`Planar.PmfgPlanar`), and exactly 3(n-2) edges for every input is not claimed.
- Triangulated.TriangulatedMaximallyFilteredGraph: makes no planarity claim, because the result need not be planar (see "Behaviour of the code worth noting"). It also does not state the insertion order beyond the seed and the selection rule of each pass (`Triangulated.ChooseInsertion`).

### Behaviour of the code worth noting

- **Rolling estimator entry count.** `range(window_size, n_obs)` yields n_obs - window_size entries, each dated at the row just after its window. The last row never enters a window (`Rolling.Coverage`).
- **No input size is rejected.** The MST of n <= 1 nodes is the empty graph. The PMFG of 2 nodes can keep one edge, because the count check comes after the add (`Planar.PmfgTwoNodes`).
- **TMFG seed.** The TMFG is always seeded at nodes 0, 1, 2, 3, whatever the distances. The docstring calls the function a simplified version of the algorithm of Massara et al. (2016).
- **Diffusion.** Each step mean-reverts every off-diagonal entry toward 0 by the factor 0.95, adds noise scaled by `volatility`, and clips to [-0.95, 0.95].
- **The TMFG need not be planar.** Passes do not remove a used triangle, so one triangle can absorb several nodes. Take the all-ones correlation matrix with n = 21. All distances are 0, so every score is 0. The strict `score < best_score` (line 369) keeps the first pair scanned, and [0, 1, 2] is the first 3-clique enumerated (line 365). Every pass therefore joins the first remaining node to 0, 1 and 2 (lines 378-379). After two passes, nodes 3, 4 and 5 are each adjacent to 0, 1 and 2: that is K3,3.

# Subgraph embedding and graph extension, in Dafny

This project models the computational core of a small C program about
undirected simple graphs. The program decides whether a pattern graph G
embeds in a host graph H as a (non-induced) subgraph. When it does not, it
looks for a way to grow H until it does. The modelled parts are:

- `graph.dfy` (module `Graphs`, from `graph.c`): the `Graph` record (vertex
  count, edge count, adjacency lists, adjacency matrix), `allocMatrix`, and
  `loadGraphFromFile`. The loader reads from a stream of integers and
  rejects input that is short, negative, has a self-loop or is asymmetric.
  It counts upper-triangle edges and builds sorted adjacency lists.
  `loadBothGraphs` reads G and then H from one stream.
- `subiso.dfy` (module `SubIsoSearch`, from `subiso.c`): the backtracking
  oracle `isSubgraphIsomorphic` / `subgraphRec`. It works in place on the
  arrays `map`, `usedH`, `adjG` and `adjH`, through `chooseVertex` and the
  frontier updates `computeNewAdjG` and `computeNewAdjH`. It applies the
  three candidate tests (degree, adjacency consistency, neighbourhood
  look-ahead) and restores the frontier snapshots on backtrack. The
  recursive method is proved equal to a functional search `Search`, which
  is then proved sound.
- `exact_extension.dfy` (module `ExactExtension`, from `exact_extension.c`):
  - cloning H with `kv` extra vertices, and `addEdgesToGraph`;
  - `buildExtension` and `tryExtension`;
  - the candidate-pair generator `generateAllPairs`;
  - the combination enumerator `combEdges`;
  - `tryKVKE`, `findExtension`, and the budget loop `exactMinimalExtension`.
- `gmext.dfy` (module `Greedy`, from `gmext.c`):
  - the degree comparator and the descending-degree sort;
  - the candidate score `compute_extension_score`;
  - the greedy mapping loop, including virtual vertices once H is used up;
  - the count of G-edges whose images are not H-edges;
  - the returned cost.
- `graphgen.dfy` (module `GraphGen`, from `graphgen.c`):
  - the path, cycle, complete and random-tree matrix builders;
  - the guard of the random generator;
  - the row-major writer as a token emitter, with its round trip through
    the loader;
  - `parse_graph_args`;
  - the edge counts the generator reports.
- `wrappers.dfy` (module `Wrappers`): the `Option` type used for NULL and
  error results.

Each operation that changes state step by step is a `method` with loops
and invariants. Each is proved against a specification function. The
subgraph search works on arrays, as the C code does. What the C code
promises is proved about those functions as lemmas.

## Model

| member | source | states |
|---|---|---|
| Graphs.AllocMatrix | graph.c:6-18 | a fresh n×n matrix whose entries are all 0; the generator's alloc_matrix (graphgen.c:19-25) is the same builder and is modelled by this member too |
| Graphs.Positives | graph.c:121-127 | the adjacency list of a row holds exactly the columns j < n with a positive entry, in strictly increasing order |
| Graphs.LoadGraphFromTokens | graph.c:22-131 | the loader yields exactly `Load`. That is nothing when the vertex count is missing or negative, when fewer than n·n entries follow, on a non-zero diagonal entry, or on an asymmetric pair. Otherwise it yields the graph and the position after its last entry |
| Graphs.ReadMatrix | graph.c:53-70 | reads n rows of n entries; fails exactly when the input runs out; the running count equals the number of pairs i<j with a positive entry |
| Graphs.ReadRow | graph.c:54-69 | one row is the next n integers, and the edge counter grows by that row's positive entries right of the diagonal |
| Graphs.IsSimple | graph.c:75-97 | the validation loops accept exactly a zero diagonal together with a symmetric matrix |
| Graphs.BuildAdjacency | graph.c:101-127 | every list `adj[u]` equals the sorted list of positive columns of row u |
| Graphs.BuildRow | graph.c:121-127 | the list filled for one row is the sorted list of its positive columns |
| Graphs.LoadIsLoaded | graph.c:22-131 | a successful load yields a symmetric, loop-free graph whose lists are the positive columns and whose m is the number of upper-triangle edges, and it consumes input |
| Graphs.LoadedBinaryIsValid | graph.c:98-127 | a loaded graph with 0/1 entries is a valid graph: lists repetition-free and agreeing with the matrix |
| Graphs.EdgeCountIsUpper | graph.c:65-68 | counting positive upper entries row by row gives the number of upper-triangle edges |
| Graphs.LoadExtent | graph.c:29-64 | a successful load reads n from the first integer and stops exactly 1 + n·n integers later |
| Graphs.LoadRejectsShort | graph.c:54-64 | input holding fewer than 1 + n·n integers from the start is rejected |
| Graphs.DegreeSumCells | graph.c:101-108 | the list lengths add up to the number of positive cells of the matrix |
| Graphs.CellsSplit | graph.c:85-95 | for a symmetric loop-free matrix the positive cells are the upper-triangle edges and their mirror images, which are disjoint |
| Graphs.DegreeSumIsTwiceEdges | graph.c:101-127 | for a loaded graph the sum of the list lengths (adjSize) is 2·m |
| Graphs.LoadBothGraphs | graph.c:134-154 | the result is 0 exactly when G loads from the start and H loads right after it, otherwise -1; on 0 the two graphs are those loads; on -1 G is released (None) |
| SubIsoSearch.IsSubgraphIsomorphic | subiso.c:35-55 | the answer is the search from the empty map with empty frontiers, and it is false whenever H has fewer vertices than G |
| SubIsoSearch.Choose | subiso.c:57-68 | the lowest unmapped vertex in the G-frontier if there is one; otherwise the lowest unmapped vertex; -1 exactly when every vertex is mapped |
| SubIsoSearch.ChooseVertex | subiso.c:57-68 | the two scans return exactly `Choose` |
| SubIsoSearch.FirstFrontier | subiso.c:58-60 | the first scan returns the lowest unmapped frontier index from i on, or -1 when there is none |
| SubIsoSearch.FirstUnmapped | subiso.c:63-65 | the second scan returns the lowest unmapped index from i on, or -1 when there is none |
| SubIsoSearch.HasFrontier | subiso.c:86-89 | hasAdjH is set exactly when some unused H-vertex is in the H-frontier |
| SubIsoSearch.IsConsistent | subiso.c:102-112 | accepts exactly when every G-edge from n to a mapped vertex has an H-edge from m to that vertex's image |
| SubIsoSearch.HasCandidate | subiso.c:122-128 | finds exactly whether some unused H-neighbour of m has degree at least deg_G(nu) |
| SubIsoSearch.IsFeasible | subiso.c:115-135 | accepts exactly when every unmapped G-neighbour of n has such a supporting H-neighbour of m |
| SubIsoSearch.PassesTests | subiso.c:94-135 | a candidate passes exactly when it is unused, in the H-frontier when that is non-empty, of degree at least deg_G(n), consistent and feasible |
| SubIsoSearch.ComputeNewAdjG | subiso.c:17-24 | the G-frontier afterwards is the old one plus the unmapped neighbours of v |
| SubIsoSearch.ComputeNewAdjH | subiso.c:26-33 | the H-frontier afterwards is the old one plus the unused neighbours of v |
| SubIsoSearch.AcceptFrontiers | subiso.c:150-154 | after accepting n→m, n and m leave their frontiers, every unmapped G-neighbour of n and unused H-neighbour of m joins, and nothing else changes |
| SubIsoSearch.CopyBack | subiso.c:163-164 | restoring from a snapshot makes the frontier equal to the snapshot |
| SubIsoSearch.SubgraphRec | subiso.c:70-171 | the in-place search answers exactly what `Search` answers on the entry state. On success `map` holds the map found. On failure `map`, `usedH`, `adjG` and `adjH` are exactly as on entry |
| SubIsoSearch.Attempt | subiso.c:138-164 | one accepted candidate succeeds exactly when the search from the updated state does. On failure all four arrays are restored exactly |
| SubIsoSearch.AcceptKeepsPartial | subiso.c:94-139 | accepting an admissible candidate keeps the map injective, edge-preserving and consistent with usedH, and adds one to `mapped` |
| SubIsoSearch.SearchSound | subiso.c:70-171 | a successful search from a consistent partial map returns an embedding |
| SubIsoSearch.TrySound | subiso.c:92-168 | the same for the candidate loop from any candidate on |
| SubIsoSearch.SubIsoSound | subiso.c:35-55 | a true answer means an injective, edge-preserving map of G into H exists |
| ExactExtension.CloneFacts | exact_extension.c:9-48 | the clone has H.n + kv vertices and m = H.m, copies H's lists and matrix on the old vertices, has no edge at a new vertex, and is valid when H is |
| ExactExtension.CloneGraphWithExtraVertices | exact_extension.c:9-48 | the filling loops build exactly `Clone` |
| ExactExtension.AddEdgesToGraph | exact_extension.c:50-69 | adds the first ke pairs one after the other, and none when ke <= 0 |
| ExactExtension.AddOne | exact_extension.c:54-67 | one pass of the loop is `AddEdge`: skip a pair out of range or already adjacent, otherwise set both entries, append both list entries and add one to m |
| ExactExtension.AddEdgeIdempotent | exact_extension.c:57 | adding a pair a second time changes nothing |
| ExactExtension.AddEdgeEffect | exact_extension.c:59-67 | a new pair u≠v sets exactly the entries (u,v) and (v,u), appends v to u's list and u to v's, and adds one to m |
| ExactExtension.AddEdgeValid | exact_extension.c:56-67 | adding a pair u≠v keeps a graph valid, and a new pair adds exactly one upper-triangle edge |
| ExactExtension.AddAllValid | exact_extension.c:53-68 | adding loop-free pairs keeps a graph valid |
| ExactExtension.AddAllCount | exact_extension.c:53-68 | m grows by exactly the number of upper-triangle edges actually added |
| ExactExtension.AddAllEdges | exact_extension.c:53-68 | afterwards an entry is non-zero exactly when it was before or its pair, in either orientation, was added |
| ExactExtension.BuildExtension | exact_extension.c:71-95 | the extension holds copies of the first kv new vertices and the first ke pairs |
| ExactExtension.TryExtension | exact_extension.c:105-122 | yields an extension exactly when the oracle accepts G in H grown by kv vertices and the first ke pairs, and that extension is those vertices and pairs |
| ExactExtension.GenerateAllPairs | exact_extension.c:125-140 | the emitted list is `PairsFrom` from row 0, and idx is its length |
| ExactExtension.GenerateRow | exact_extension.c:128-137 | the inner loop emits the row `PairRow` for i |
| ExactExtension.PairRowFacts | exact_extension.c:128-137 | a row holds exactly the pairs (i, v), v > i, that are not H-edges, in increasing v, at most t - j of them |
| ExactExtension.CandidatePairsFacts | exact_extension.c:125-140 | the candidate pairs are exactly the pairs u<v of the grown graph that are not H-edges, each once, never a loop, at most total(total-1)/2 of them |
| ExactExtension.CombsSound | exact_extension.c:154-169 | every index list the recursion visits is a strictly increasing choice of k indices below n |
| ExactExtension.CombsComplete | exact_extension.c:154-169 | every strictly increasing choice of k indices below n is visited |
| ExactExtension.CombsNoDup | exact_extension.c:154-169 | no choice is visited twice |
| ExactExtension.CombsTooMany | exact_extension.c:198-204 | a choice of k indices from s on exists only if k <= n - s, so with fewer pairs than ke there is nothing to try |
| ExactExtension.ChoicesArePicks | exact_extension.c:163-166 | the pair lists written into curr are the pairs at the visited index choices, in the same order |
| ExactExtension.FirstWithSome | exact_extension.c:142-152 | a found result comes from one of the visited pair lists, and the oracle accepted it |
| ExactExtension.FirstWithNone | exact_extension.c:142-152 | when nothing is found, the oracle rejected every visited pair list |
| ExactExtension.CombEdges | exact_extension.c:154-169 | the recursion yields the first visited pair list, in visiting order, that the oracle accepts, and stops there |
| ExactExtension.VertexLists | exact_extension.c:183-191 | newVertices is H.n .. H.n+kv-1 and allVertices is 0 .. H.n+kv-1 |
| ExactExtension.TryKVKE | exact_extension.c:172-212 | yields exactly `KVKE`. That is nothing when ke > G.m or ke exceeds the candidate pairs. For ke = 0 it is the plain clone if accepted. Otherwise it is the first accepted choice of ke pairs |
| ExactExtension.KVKEShape | exact_extension.c:183-204 | a returned extension has new vertices H.n .. H.n+kv-1 and ke ≤ G.m distinct new edges u<v that are not H-edges, and the oracle accepts G in the grown H |
| ExactExtension.PickedShape | exact_extension.c:193-204 | a tried pair list has ke distinct pairs u<v of the grown graph, none an H-edge |
| ExactExtension.KVKERejects | exact_extension.c:198-204 | when tryKVKE fails within G's edge count, the oracle rejected every choice of ke candidate pairs |
| ExactExtension.MinNew | exact_extension.c:216 | H.n plus the fewest new vertices tried is at least G.n |
| ExactExtension.FindExtension | exact_extension.c:215-224 | yields exactly `Find`: kv from max(0, G.n - H.n) up to the budget, with ke = budget - kv, first success |
| ExactExtension.FindShape | exact_extension.c:215-224 | a returned extension has size equal to the budget, at least the minimum number of new vertices, and is what tryKVKE yields for its split |
| ExactExtension.FindFromNone | exact_extension.c:218-222 | a failed loop failed for every split from its starting kv up to the budget |
| ExactExtension.BudgetRejected | exact_extension.c:215-224 | when a budget fails, the oracle rejects every split with enough new vertices and at most G.m edges, and every choice of that many candidate pairs |
| ExactExtension.ExactMinimalExtension | exact_extension.c:226-233 | nothing is returned exactly when every budget 0 .. G.n+G.m fails. A result has size within that range, is what findExtension yields for its own size, and every smaller budget fails |
| Greedy.Compare | gmext.c:13-17 | negative, zero or positive as the first degree is larger, equal or smaller: a descending order |
| Greedy.Infos | gmext.c:75-79 | sorted_G starts as each vertex id with its degree |
| Greedy.SortByDegree | gmext.c:80 | the array ends in non-increasing degree order and is a permutation of its start |
| Greedy.SortedIsDegreeOrder | gmext.c:75-80 | the ids of the sorted records list every G-vertex once, in non-increasing degree |
| Greedy.DegreeOrder | gmext.c:75-80 | phase 1 yields an order holding every G-vertex once in non-increasing degree |
| Greedy.Deficit | gmext.c:26-30 | the deficit is max(0, deg_G(v_g) - deg_H(v_h)), zero exactly when deg_G(v_g) <= deg_H(v_h) |
| Greedy.NeighbourScoreParts | gmext.c:33-56 | the neighbour loop adds 10 per rewarded mapped neighbour and subtracts 10 per other mapped neighbour, and those are at most the neighbours scanned |
| Greedy.ScoreParts | gmext.c:21-59 | the score is -deficit + 10·rewards - 10·penalties. It lies between -deficit - 10·deg and 10·deg, and it is -deficit when no neighbour is mapped |
| Greedy.ComputeExtensionScore | gmext.c:21-59 | the loop computes exactly `Score` |
| Greedy.BestSpec | gmext.c:86-100 | the kept vertex is -1 exactly when every scanned H-vertex is used. Otherwise it is unused, no unused vertex scores higher, and every unused vertex below it scores strictly lower (the lowest index wins ties) |
| Greedy.BestCandidate | gmext.c:86-100 | the scan returns exactly `Best` over all H-vertices |
| Greedy.Start | gmext.c:66-71 | the mapping starts all -1, used_H all free, no vertex added |
| Greedy.MapVertex | gmext.c:84-111 | one pass maps v_g to the best unused H-vertex and marks it, or to H.n + added and counts it |
| Greedy.MapVertices | gmext.c:83-112 | the mapping loop ends in the state `Run` describes |
| Greedy.StepInv | gmext.c:103-111 | one pass keeps the invariant: images distinct and in range, used exactly the existing images, virtual vertices only once H is used up, every processed vertex accounted for |
| Greedy.RunInv | gmext.c:83-112 | the invariant holds after every prefix of the order |
| Greedy.MappingFacts | gmext.c:83-112 | the final mapping is injective with images below H.n + added. New vertices appear only once every H-vertex is used. added = max(0, G.n - H.n) |
| Greedy.CountMissingEdges | gmext.c:116-141 | the edge loop counts `MissingUpTo` over all rows |
| Greedy.MissingCount | gmext.c:116-141 | that count is the number of G-edges u<v whose images are not both existing and H-adjacent; those are G-edges, at most G.m |
| Greedy.GreedyExtension | gmext.c:63-162 | the order is by non-increasing degree and the mapping is injective into H.n + max(0, G.n - H.n). The cost is max(0, G.n - H.n) plus the missing edges, and is at most max(0, G.n - H.n) + G.m |
| GraphGen.GeneratePathMatrix | graphgen.c:33-40 | the filled matrix equals `PathMatrix` |
| GraphGen.PathFacts | graphgen.c:33-40 | the path matrix is simple, its edges are exactly (i, i+1), n-1 of them |
| GraphGen.GenerateCycleMatrix | graphgen.c:43-51 | the filled matrix equals `CycleMatrix` |
| GraphGen.NextIsMod | graphgen.c:46 | the successor is (i + 1) mod n |
| GraphGen.CycleSimple | graphgen.c:43-51 | the cycle matrix is symmetric with a zero diagonal and 0/1 entries |
| GraphGen.CycleEdges | graphgen.c:43-51 | for n ≥ 3 the edges are (i, i+1) and (0, n-1), n of them |
| GraphGen.CycleDegree | graphgen.c:43-51 | for n ≥ 3 every vertex has exactly the two neighbours i+1 and i-1 mod n |
| GraphGen.CycleOfTwo | graphgen.c:43-51 | for n = 2 the cycle matrix holds the single edge (0, 1) |
| GraphGen.GenerateCompleteMatrix | graphgen.c:54-63 | the filled matrix equals `CompleteMatrix` |
| GraphGen.CompleteFacts | graphgen.c:54-63 | the complete matrix is simple with every pair i<j an edge, n(n-1)/2 of them |
| GraphGen.RandomCountAccepted | graphgen.c:67-70 | the random generator goes on exactly when n-1 <= k <= n(n-1)/2 |
| GraphGen.RandomTree | graphgen.c:72-81 | the tree phase links each i ≥ 1 to parent rand() mod i and counts n-1 edges |
| GraphGen.TreeSimple | graphgen.c:76-81 | the tree matrix is simple and each i ≥ 1 is adjacent to a parent below i |
| GraphGen.TreeEdgeSet | graphgen.c:76-81 | the tree has exactly the edges (parent(i), i), n-1 of them |
| GraphGen.RandomCountRoom | graphgen.c:66-93 | an accepted k lies between the tree's edge count and the complete graph's |
| GraphGen.FlattenAt | graphgen.c:9-15 | entry (i, j) is written at row-major position i·n + j |
| GraphGen.WriteLayout | graphgen.c:7-16 | the writer emits n and then n·n entries in row-major order |
| GraphGen.WriteLoad | graphgen.c:7-16 | loading what the writer emitted, anywhere in a stream, gives back n, the same matrix and its edge count, and stops right after it |
| GraphGen.CombinedLoad | graphgen.c:121-161 | the combined file loads back as G from the start and H right after it |
| GraphGen.KindName | graphgen.c:204-205 | each graph type's name is recognised as that type |
| GraphGen.ParseGraphArgs | graphgen.c:200-229 | -1 (None) exactly for no type, an unknown type, no n, n ≤ 1 or random without k. Otherwise it consumes 3 for random (type, n, k) and 2 for the rest, with k = 0 |
| GraphGen.ParseArgWords | graphgen.c:200-229 | the words of any valid argument triple parse back to it |
| GraphGen.ParseCombined | graphgen.c:292-303 | the combined mode parses G's words from position 3 and H's right after them |
| GraphGen.ReportedCycleOfTwo | graphgen.c:267-271 | as written, `single cycle` with n = 2 reports 2 edges while the matrix holds 1 |
| GraphGen.EdgeTotalCorrect | graphgen.c:267-271 | the corrected count equals the generated matrix's edges for every type but random and every n ≥ 2 |

## Left out

- File and console I/O: `fopen`, `fscanf`, `fprintf` and `printf`, the error messages and `loadGraph`. Input is a sequence of integers, and the writer emits one.
- The command-line drivers: `main`, `print_usage` and `main.c`. `atoi` and its inverse are function parameters, and `generate_single_graph` and `generate_combined_input` appear only through `Generated` and `CombinedLoad`.
- Memory management: allocation failures, `freeGraph`, `freeExtension` and `freeExtensionObject`. Allocation is infallible.
- Graphs.LoadGraphFromTokens: a negative vertex count is rejected, standing for the allocation failure that malloc gives it in the C code.
- GraphGen.RandomTree: `rand()` is replaced by a sequence of draws given as input. The second phase of `generate_random_matrix` (random extra edges, which may not terminate) is not modelled beyond `RandomCountRoom`.
- Greedy.SortByDegree: `qsort` is replaced by an insertion sort, so the model fixes one order among equal degrees. The contract states only what qsort guarantees: a permutation in non-increasing degree order. The lemmas about the mapping hold for any such order.
- Greedy.GreedyExtension: the mapping and cost are returned instead of printed. The INT_MIN sentinel is modelled as "no best vertex yet", which behaves the same.
- SubIsoSearch.IsSubgraphIsomorphic: only soundness is proved. The search is not complete, because candidates stay restricted to the H-frontier even when the chosen G-vertex is outside the G-frontier.
- ExactExtension.ExactMinimalExtension: minimality holds only relative to the oracle's answers, not relative to true subgraph embeddability.
- Integer overflow (`totalV*(totalV-1)/2`, the comparator's degree difference, `n*(n-1)/2` in the generator): integers are unbounded.
- Entry values: the oracle and the greedy heuristic treat any non-zero entry as an edge, while the loader counts only positive entries. The validity predicate therefore requires 0/1 entries.
- H' in `tryExtension` and the result of `combEdges` are values. `addEdgesToGraph` returns a new graph rather than updating the clone in place, which no other code can see. The `found` flag is folded into the `Option` result.

## Findings

| source | as written | input that shows it | evidently intended | confidence | as-written member | corrected member |
|---|---|---|---|---|---|---|
| graphgen.c:269 | the edge count reported for a cycle is n (also for G and H of the combined mode, lines 309 and 314) | `single cycle out.txt 2`: the matrix holds the one edge (0, 1), but 2 edges are reported | the number of edges actually generated: 1 for n = 2, n for n ≥ 3 | not executed | GraphGen.ReportedCycleOfTwo | GraphGen.EdgeTotalCorrect |

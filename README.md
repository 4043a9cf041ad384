# NeuroNet SparseGraph in Dafny

A model of the C++ core of NeuroNet, the `SparseGraph` class. It is a read-only
directed graph in compressed sparse row (CSR) form, built from an edge-list file.

**Loading.**
- Every line that is neither empty nor a `#` comment and yields two integers
  `u v` is an edge. Trailing tokens are ignored.
- External ids get dense internal ids `0..N-1` in order of first appearance,
  `u` before `v`.
- `reverse_map` is the inverse of `id_map`.
- The translated edge list is sorted lexicographically.
- One walk over the sorted list fills `row_ptr`, `col_indices` and `values`.

**Queries.**
- `getInternalId` and `getExternalId` return `-1` on a miss.
- `getDegree` and `getNeighbors` read one row.
- `getMaxDegreeNode` returns the external id of the node of maximal degree
  with the lowest internal id.
- `bfs` is a depth-bounded breadth-first search with an array queue, a depth
  array and a visited array.

**Modules.**
- `Input` (input.dfy): the file as a sequence of pre-classified lines, and
  `Accepted`, the edges the loader takes from it.
- `IdMapping` (idmapping.dfy): the first-appearance order `NodeOrder`, the
  index map `IsIndexOf`, and translation between external and internal ids.
- `Csr` (csr.dfy):
  - the lexicographic edge order and an in-place insertion sort standing in
    for `std::sort`;
  - `RowBoundary`, which says what each `row_ptr` entry must be;
  - the in-place CSR assembly;
  - `Targets`, the out-neighbours of a node in file order, and the lemmas
    tying a CSR row to it.
- `Traversal` (traversal.dfy):
  - `Explore`, a functional reference for the FIFO bounded search over a CSR
    graph;
  - `BfsTheorem`: `Explore`'s result starts at the start node, has no
    duplicates, holds at most N nodes, and holds exactly the nodes within
    `max(0, maxDepth)` edges.
- `Graph` (graph.dfy):
  - the class `SparseGraph`, with the source's fields as arrays, a map and
    counts;
  - `LoadFromFile` as a chain of imperative steps;
  - every query as a function or method;
  - `Search`, the array-queue BFS, proved equal to `Explore`.
- `Examples` (examples.dfy): concrete instances.
  - Three files are loaded into a new `SparseGraph` and queried through the
    class:
    - the data of NeuroNet/verify.py;
    - the three-edge file `1 2`, `2 3`, `1 3`;
    - a file with comments, a malformed line, a trailing token, a self-loop
      and a duplicate edge.
  - A directed triangle, given directly as CSR arrays, is searched with the
    reference `Explore`.

**The class invariant.** `Valid` ties the fields to the ghost list `edges`,
the accepted edges of the file in order:
- `reverseMap[..] == NodeOrder(edges)`, and `idMap` is its inverse;
- the sorted translated list is a permutation of the translated edges;
- the columns and values come from that list;
- each `rowPtr[r]` is the first position of row `r` or above.

## Model

| member | source | states |
|---|---|---|
| Input.IsComment | NeuroNet/src/cpp/Graph.cpp:56 | a line is skipped before extraction when it is empty or starts with `#` |
| Input.IsEdgeLine | NeuroNet/src/cpp/Graph.cpp:56-60 | a line is an edge when it is not a comment and extraction yields two integers |
| Input.Accepted | NeuroNet/src/cpp/Graph.cpp:55-61 | the edges taken from a file are at most one per line, kept in file order with duplicates |
| Input.AcceptedMembers | NeuroNet/src/cpp/Graph.cpp:55-61 | an edge is accepted exactly when some non-comment line yields it |
| Input.AcceptedSnoc | NeuroNet/src/cpp/Graph.cpp:55-61 | one more line adds its edge only if it is not empty, not a comment, and yields two integers |
| Input.AcceptedAppend | NeuroNet/src/cpp/Graph.cpp:96-106 | reading a file in two pieces accepts the two pieces' edges in order |
| Input.AcceptedPrefix | NeuroNet/src/cpp/Graph.cpp:96-106 | the edges of a prefix of the file are a prefix of the file's edges |
| IdMapping.Number | NeuroNet/src/cpp/Graph.cpp:62-69 | an id already in id_map keeps its number; a new one gets `id_map.size()` |
| IdMapping.Lookup | NeuroNet/src/cpp/Graph.cpp:143-149 | the internal id of a mapped id, -1 for an unmapped one |
| IdMapping.ExtOf | NeuroNet/src/cpp/Graph.cpp:151-156 | `reverse_map[i]` for i in `[0, N)`, -1 otherwise |
| IdMapping.Translate | NeuroNet/src/cpp/Graph.cpp:102-103 | each edge with both endpoints replaced by their internal ids, in file order |
| IdMapping.NodeOrder | NeuroNet/src/cpp/Graph.cpp:62-69 | the first-appearance order of ids has no duplicates |
| IdMapping.NodeOrderMembers | NeuroNet/src/cpp/Graph.cpp:62-69 | an id gets a number exactly when it is an endpoint of some accepted edge |
| IdMapping.NodeOrderPrefix | NeuroNet/src/cpp/Graph.cpp:55-71 | numbers given while reading a prefix of the file never change later |
| IdMapping.FirstSeen | NeuroNet/src/cpp/Graph.cpp:62-69 | an unseen u gets the next number; an unseen v then gets the number after; a self-loop or a known id adds none |
| IdMapping.AssignTwice | NeuroNet/src/cpp/Graph.cpp:62-69 | numbering u and then v keeps earlier ids and adds an unseen u, then an unseen v distinct from u |
| IdMapping.NodeCount | NeuroNet/src/cpp/Graph.cpp:75 | the number of nodes equals the number of distinct ids in the accepted edges |
| IdMapping.IndexRoundTrip | NeuroNet/src/cpp/Graph.cpp:88-90 | for every internal id i, `id_map[reverse_map[i]] == i` |
| IdMapping.AssignIndex | NeuroNet/src/cpp/Graph.cpp:62-69 | giving an unseen id the number `id_map.size()` keeps id_map the exact inverse of the order |
| IdMapping.NumberEdge | NeuroNet/src/cpp/Graph.cpp:60-69 | after reading one edge, id_map is the exact inverse of the first-appearance order |
| IdMapping.CoversOrder | NeuroNet/src/cpp/Graph.cpp:102-103 | every endpoint of an accepted edge has an entry in id_map, so pass 2 never looks up a missing id |
| IdMapping.TranslateInRange | NeuroNet/src/cpp/Graph.cpp:102-103 | every translated edge has both endpoints in `[0, N)` |
| IdMapping.ExternalsIn | NeuroNet/src/cpp/Graph.cpp:151-156 | mapping internal ids back through reverse_map yields exactly the ids whose internal id is in the list |
| IdMapping.ExternalsDistinct | NeuroNet/src/cpp/Graph.cpp:151-156 | mapping distinct internal ids back gives distinct external ids |
| IdMapping.DistinctBound | NeuroNet/src/cpp/Graph.cpp:169 | a duplicate-free list of ids in `[0, N)` has at most N entries, so the queue fits its N slots |
| Csr.EdgeLe | NeuroNet/src/cpp/Graph.cpp:26-30 | the non-strict form of `Edge::operator<`: by source, then by destination |
| Csr.SortEdges | NeuroNet/src/cpp/Graph.cpp:110 | the edge array ends sorted by `(u, v)` and is a permutation of its old contents |
| Csr.InsertEdge | NeuroNet/src/cpp/Graph.cpp:110 | one insertion step of the sort extends the sorted prefix by one element, keeps the multiset, and leaves the elements after it untouched |
| Csr.SwapDown | NeuroNet/src/cpp/Graph.cpp:110 | one swap of the insertion step moves the inserted edge one place down, keeps the multiset and touches nothing after it |
| Csr.InsertDone | NeuroNet/src/cpp/Graph.cpp:110 | an insertion that stops at the front or below a smaller edge leaves the prefix sorted |
| Csr.SortedUnique | NeuroNet/src/cpp/Graph.cpp:110 | two sorted permutations of the same edges are equal, so any correct sort gives the same list |
| Csr.InRangePerm | NeuroNet/src/cpp/Graph.cpp:110 | sorting keeps every endpoint in `[0, N)` |
| Csr.RowBoundary | NeuroNet/src/cpp/Graph.cpp:116-135 | what `row_ptr[r]` must hold: the first position in the sorted list whose source is at least r |
| Csr.AssembleCsr | NeuroNet/src/cpp/Graph.cpp:114-135 | each `row_ptr[r]` is the first position whose source is at least r; `col_indices[k]` is the k-th destination; `values[k] == 1` |
| Csr.StartRows | NeuroNet/src/cpp/Graph.cpp:122-125 | the gap loop sets every skipped row's pointer to the current position and leaves the later rows' pointers unchanged |
| Csr.BoundaryMono | NeuroNet/src/cpp/Graph.cpp:116-135 | row pointers are non-decreasing |
| Csr.BoundaryUnique | NeuroNet/src/cpp/Graph.cpp:116-135 | a row pointer is fully determined by the sorted list |
| Csr.CsrShape | NeuroNet/src/cpp/Graph.cpp:114-135 | `row_ptr[0] == 0`, `row_ptr[N] == E`, pointers non-decreasing and within `[0, E]`; row r holds only edges leaving r; columns ascend within a row |
| Csr.Targets | NeuroNet/src/cpp/Graph.cpp:217-222 | a node has at most E out-neighbours |
| Csr.TargetsIn | NeuroNet/src/cpp/Graph.cpp:239-252 | y is a neighbour of x exactly when the edge x -> y was accepted |
| Csr.TargetsPerm | NeuroNet/src/cpp/Graph.cpp:110 | permuting the edge list permutes, and so preserves as a multiset, each node's neighbours |
| Csr.TargetsRoundTrip | NeuroNet/src/cpp/Graph.cpp:102-103 | translating to internal ids, taking a node's neighbours and mapping back gives its external neighbours |
| Csr.RowTargets | NeuroNet/src/cpp/Graph.cpp:116-129 | the column slice of row r holds exactly r's neighbours in the sorted list |
| Csr.RowContents | NeuroNet/src/cpp/Graph.cpp:217-222 | the row of x has as many entries as x has accepted out-edges; mapped back, they are those neighbours, duplicates kept, columns ascending |
| Csr.KeySortedUnique | NeuroNet/src/cpp/Graph.cpp:245-250 | two lists with the same multiset, both ascending under an injective numbering, are equal, so a row read in column order has only one possible neighbour list |
| Csr.RowNeighbors | NeuroNet/src/cpp/Graph.cpp:245-250 | reverse-mapping the row of x gives x's neighbours as a multiset, in ascending internal-id order |
| Traversal.Clamp | NeuroNet/src/cpp/Graph.cpp:191 | a negative depth bound allows no step, exactly as a bound of 0 does under `d >= maxDepth` |
| Traversal.Start | NeuroNet/src/cpp/Graph.cpp:178-184 | the queue holding only the start node, at depth 0 |
| Traversal.Explore | NeuroNet/src/cpp/Graph.cpp:186-208 | the search loop: turn after turn from the queue head until head meets tail |
| Traversal.Succ | NeuroNet/src/cpp/Graph.cpp:194-198 | every column of a well-formed row is an internal id in `[0, N)` |
| Traversal.ReachMono | NeuroNet/src/cpp/Graph.cpp:191 | what is within k edges is also within any larger bound |
| Traversal.Visit | NeuroNet/src/cpp/Graph.cpp:197-207 | scanning a row only appends to the queue and never changes what was queued |
| Traversal.VisitContents | NeuroNet/src/cpp/Graph.cpp:197-207 | after a row is scanned every neighbour is visited, and only neighbours were added |
| Traversal.VisitKeeps | NeuroNet/src/cpp/Graph.cpp:199-205 | nodes queued while scanning a row carry depth d+1, and the queue stays duplicate-free |
| Traversal.VisitSnoc | NeuroNet/src/cpp/Graph.cpp:199-205 | one column enqueues its node exactly when it is not yet visited |
| Traversal.Step | NeuroNet/src/cpp/Graph.cpp:187-207 | one dequeue-and-expand turn keeps the queue duplicate-free and within `[0, N)` and never shrinks it |
| Traversal.StepVisit | NeuroNet/src/cpp/Graph.cpp:191-207 | a node shallower than maxDepth has its row scanned at depth d+1 |
| Traversal.ExploreUnfold | NeuroNet/src/cpp/Graph.cpp:186-189 | the search runs turn by turn, head advancing by one |
| Traversal.BfsInvStart | NeuroNet/src/cpp/Graph.cpp:178-184 | the queue holding only the start at depth 0 meets the search invariant |
| Traversal.StepInv | NeuroNet/src/cpp/Graph.cpp:186-208 | every turn keeps depths non-decreasing and in range, each node reachable within its depth, and processed nodes expanded |
| Traversal.ExploreInv | NeuroNet/src/cpp/Graph.cpp:186-208 | the invariant holds when the queue is exhausted |
| Traversal.Complete | NeuroNet/src/cpp/Graph.cpp:186-208 | once every queued node is processed, every node within the depth bound was discovered |
| Traversal.BfsTheorem | NeuroNet/src/cpp/Graph.cpp:158-215 | result starts at the start, no duplicates, at most N entries, holds exactly the nodes within `max(0, maxDepth)` edges, and is `[start]` when `maxDepth <= 0` |
| Graph.Consistent | NeuroNet/src/cpp/Graph.h:27-38 | the state of the fields as values: reverse_map is the first-appearance order with id_map its inverse, the sorted list a permutation of the translated edges, columns and values taken from it, and one row boundary per node plus the sentinel |
| Graph.ConsistentRow | NeuroNet/src/cpp/Graph.cpp:239-252 | in a consistent state, the reverse-mapped row of x is x's neighbours as a multiset, in ascending internal-id order |
| Graph.ReachesStep | NeuroNet/src/cpp/Graph.cpp:197-205 | following one accepted edge extends a walk by one step |
| Graph.ReachesKnown | NeuroNet/src/cpp/Graph.cpp:197-205 | anything reachable is the start or the destination of some edge |
| Graph.ReachToEdges | NeuroNet/src/cpp/Graph.cpp:194-198 | a walk in the CSR rows is a walk along accepted edges between the external ids |
| Graph.EdgesToReach | NeuroNet/src/cpp/Graph.cpp:194-198 | a walk along accepted edges is a walk in the CSR rows between the internal ids |
| Graph.EdgeBack | NeuroNet/src/cpp/Graph.cpp:197-205 | a node first reached in exactly k steps is entered by an edge from a node reachable in k-1 |
| Graph.SparseGraph.Valid | NeuroNet/src/cpp/Graph.h:27-38 | the class invariant: the counts, array lengths, maps and arrays are Consistent with the accepted edges |
| Graph.SparseGraph.constructor | NeuroNet/src/cpp/Graph.cpp:8-10 | a new graph has no nodes, no edges and an empty id map |
| Graph.SparseGraph.Shape | NeuroNet/src/cpp/Graph.cpp:116-135 | a loaded graph's arrays form a well-formed CSR graph whose row r holds only edges leaving r |
| Graph.SparseGraph.RowBounds | NeuroNet/src/cpp/Graph.cpp:221 | `row_ptr[u]..row_ptr[u+1]` is a valid slice of the column array for every node u |
| Graph.SparseGraph.LoadFromFile | NeuroNet/src/cpp/Graph.cpp:33-141 | an unopenable file changes nothing; otherwise the graph is loaded from exactly the accepted edges into freshly allocated arrays, and the invariant holds |
| Graph.SparseGraph.Install | NeuroNet/src/cpp/Graph.cpp:75-85 | storing a consistent build in the fields establishes the invariant, with the built arrays as the fields |
| Graph.BuildCsr | NeuroNet/src/cpp/Graph.cpp:55-135 | the two passes, the reverse map, the sort and the assembly give fresh arrays consistent with the accepted edges |
| Graph.NumberIds | NeuroNet/src/cpp/Graph.cpp:55-76 | pass 1 counts exactly the accepted edges, and id_map is the inverse of the first-appearance order |
| Graph.AcceptedStep | NeuroNet/src/cpp/Graph.cpp:96-106 | in pass 2 an edge line appends its edge and both its ids are mapped; any other line appends nothing |
| Graph.FillReverseMap | NeuroNet/src/cpp/Graph.cpp:88-90 | reverse_map ends up as the first-appearance order |
| Graph.TranslateLines | NeuroNet/src/cpp/Graph.cpp:96-106 | the edge array holds the accepted edges translated to internal ids, in file order |
| Graph.SortedTranslation | NeuroNet/src/cpp/Graph.cpp:93-110 | the edge array is a sorted permutation of the translated edges, endpoints in `[0, N)` |
| Graph.SortedEdgeList | NeuroNet/src/cpp/Graph.cpp:55-110 | reverse_map is the first-appearance order with id_map its inverse; the edge list is a sorted permutation of the translated edges |
| Graph.SparseGraph.GetNumNodes | NeuroNet/src/cpp/Graph.h:48 | the number of distinct ids in the accepted edges |
| Graph.SparseGraph.GetNumEdges | NeuroNet/src/cpp/Graph.h:49 | the number of accepted edge lines, duplicates and self-loops included |
| Graph.SparseGraph.GetInternalId | NeuroNet/src/cpp/Graph.cpp:143-149 | -1 exactly for ids named by no edge; otherwise an internal id in `[0, N)` that reverse_map maps back to the id |
| Graph.SparseGraph.GetExternalId | NeuroNet/src/cpp/Graph.cpp:151-156 | -1 outside `[0, N)`; inside, the id first seen i-th, whose internal id is i again |
| Graph.SparseGraph.RowLength | NeuroNet/src/cpp/Graph.cpp:221 | the row length of every node is its out-degree in the accepted edges |
| Graph.SparseGraph.GetDegree | NeuroNet/src/cpp/Graph.cpp:217-222 | the number of accepted lines whose source is the id, 0 for an unknown id |
| Graph.SparseGraph.GetNeighbors | NeuroNet/src/cpp/Graph.cpp:239-252 | the accepted out-neighbours, duplicates kept, in ascending internal-id order; empty for an unknown id |
| Graph.SparseGraph.NeighborsDetermined | NeuroNet/src/cpp/Graph.cpp:239-252 | the contract of `getNeighbors` admits one result only: two neighbour lists of x, both ascending by internal id, are equal |
| Graph.SparseGraph.RowExternals | NeuroNet/src/cpp/Graph.cpp:245-250 | the loop over a known node's row builds its neighbours as `getNeighbors` promises |
| Graph.SparseGraph.GetMaxDegreeNode | NeuroNet/src/cpp/Graph.cpp:224-237 | -1 with no nodes; otherwise a node of maximal degree, with every lower internal id of strictly smaller degree |
| Graph.SparseGraph.Bfs | NeuroNet/src/cpp/Graph.cpp:158-215 | `[]` for an unknown start; otherwise the reverse-mapped `Explore` order: start first, no duplicates, at most N ids, exactly the ids within `max(0, maxDepth)` edges |
| Graph.SparseGraph.BfsOutcome | NeuroNet/src/cpp/Graph.cpp:158-215 | BfsTheorem carried from internal to external ids |
| Graph.SparseGraph.SuccEdges | NeuroNet/src/cpp/Graph.cpp:194-198 | w is in row u exactly when the edge `reverse_map[u] -> reverse_map[w]` was accepted |
| Graph.SparseGraph.RowsAreEdges | NeuroNet/src/cpp/Graph.cpp:194-198 | the CSR rows of a loaded graph are exactly the accepted edges |
| Graph.Search | NeuroNet/src/cpp/Graph.cpp:168-208 | the array-queue search returns the reverse-mapped `Explore` order |
| Graph.Turn | NeuroNet/src/cpp/Graph.cpp:187-207 | one loop iteration advances head by one, leaves the queue and depths equal to `Step` of the old ones, and keeps the visited array and result in step with `Explore` |
| Graph.Expand | NeuroNet/src/cpp/Graph.cpp:194-207 | scanning row u offers exactly Succ(u), in order |
| Graph.OfferRow | NeuroNet/src/cpp/Graph.cpp:197-207 | the column loop offers each column of the row in turn |
| Graph.OfferColumn | NeuroNet/src/cpp/Graph.cpp:198-206 | one column is enqueued with its external id appended exactly when it is unvisited |
| Graph.Enqueue | NeuroNet/src/cpp/Graph.cpp:200-205 | v is marked visited, its external id is appended, and it is queued at depth d |
| Graph.OfferStep | NeuroNet/src/cpp/Graph.cpp:199-205 | the queue has room whenever a node is unvisited, and the queued node matches `Visit` |
| Graph.SearchStart | NeuroNet/src/cpp/Graph.cpp:178-184 | the start queued at depth 0 and marked visited matches `Explore` at head 0 |
| Graph.SearchSkip | NeuroNet/src/cpp/Graph.cpp:191-192 | a node at depth ≥ maxDepth is dequeued without expansion: `Step` leaves the queue unchanged and the search stays pending at the next head |
| Graph.SearchExpand | NeuroNet/src/cpp/Graph.cpp:194-206 | after a node below maxDepth has offered all its neighbours, the new queue is `Step` of the old one and the search stays pending at the next head |
| Graph.SearchDone | NeuroNet/src/cpp/Graph.cpp:186 | when head meets tail the result is the reverse-mapped `Explore` order |
| Examples.SmokeScenario | NeuroNet/verify.py:10-19 | loading `0 1, 0 2, 1 3, 2 4` gives 5 nodes and 4 edges, and `bfs(0, 2)` is `[0, 1, 2, 3, 4]` |
| Examples.SmokeArrays | NeuroNet/verify.py:10 | that file's CSR is `row_ptr = [0,2,3,4,4,4]`, `col_indices = [1,2,3,4]`, with the identity reverse map |
| Examples.SmokeSearch | NeuroNet/verify.py:19 | the depth-2 search from node 0 visits `[0, 1, 2, 3, 4]` |
| Examples.ShallowSearch | NeuroNet/src/cpp/Graph.cpp:191-192 | at depth bound 1, node 0 with neighbours `[1, 2]` stops after them |
| Examples.TripleScenario | NeuroNet/src/cpp/Graph.cpp:33-252 | `1 2, 2 3, 1 3` gives `row_ptr = [0,2,3,3]`, `col_indices = [1,2,2]`, `bfs(1,1) = [1,2,3]`, degree of 1 is 2, neighbours of 1 `[2, 3]`, max-degree node 1 |
| Examples.TripleArrays | NeuroNet/src/cpp/Graph.cpp:55-135 | that file's id map, reverse map, row pointers, columns and values are fully determined |
| Examples.Determined | NeuroNet/src/cpp/Graph.cpp:110-135 | a consistent state's sorted list, row pointers and columns are the only ones possible |
| Examples.MixedScenario | NeuroNet/src/cpp/Graph.cpp:33-252 | loading the mixed file gives 4 edges and 2 nodes; id 5 has degree 3 and neighbours `[5, 7, 7]` |
| Examples.MixedNeighbors | NeuroNet/src/cpp/Graph.cpp:239-252 | the neighbours of 5 in ascending internal-id order are the self-loop, then both copies of the edge to 7 |
| Examples.MixedIds | NeuroNet/src/cpp/Graph.cpp:62-69 | the mixed file numbers 5 as 0 and 7 as 1 |
| Examples.MixedLoad | NeuroNet/src/cpp/Graph.cpp:55-61 | a comment, an empty line and a malformed line are skipped; a line with a trailing token still counts |
| Examples.MixedOrder | NeuroNet/src/cpp/Graph.cpp:62-69 | a self-loop `5 5` numbers 5 once, then `7 5` numbers 7 |
| Examples.MixedTargets | NeuroNet/src/cpp/Graph.cpp:217-222 | a duplicated edge counts twice among the neighbours |
| Examples.TriangleSearch | NeuroNet/src/cpp/Graph.cpp:197-207 | on a directed triangle with a large depth bound, the search from 1 returns `[1, 2, 0]` and revisits nothing |

## Left out

- File and stream I/O: `std::ifstream`, `getline`, and rewinding with `clear`/`seekg` for the second pass. The file is a value, `Option<seq<Line>>`, where `None` is a file that cannot be opened. Both passes read the same lines.
- `std::stringstream` extraction: each `Line` carries the result of `ss >> u >> v` as an input field. The empty-line and `#` tests are modelled on the line text.
- Console logging through `std::cout` and `std::cerr`.
- `new[]`, `delete[]` and the destructor. Dafny arrays are fresh and collected, so allocation is modelled only by the sizes (N+1 row pointers, E columns and values, N reverse-map and queue slots) and freeing not at all. The two `memset` calls are modelled: `AssembleCsr` zeroes the row pointers (Graph.cpp:114) and `Search` creates the visited array all false (Graph.cpp:176).
- Graph.SparseGraph.LoadFromFile: requires a graph that was never loaded. In the source, a second load keeps the old `id_map` and leaks the old arrays.
- C++ `int` overflow: counts and ids are mathematical integers.
- Graph.FillReverseMap: visits the keys of `id_map` in an arbitrary order rather than `std::map`'s ascending order. Each key writes its own slot, so the result is the same.
- Csr.SortEdges: insertion sort stands in for `std::sort`. Csr.SortedUnique shows that every sorted permutation is the same list.
- Graph.SparseGraph.GetNeighbors: states the result as a multiset in ascending internal-id order, not as the literal array slice. Graph.SparseGraph.NeighborsDetermined shows this leaves exactly one possible sequence.
- NeuroNet/app.py, a Streamlit user interface, and NeuroNet/setup.py, a build script; the Cython binding they use is not part of this model.
- NeuroNet/verify.py: only its data and its `bfs(0, 2)` call, in Examples.SmokeScenario.

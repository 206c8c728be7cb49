# Parallel BFS and parallel histogram sort, modelled in Dafny

The repository has two small programs. Each runs a sequential and an
OpenMP-parallel version of the same algorithm and compares the results.

- **Breadth-first search** (`Breadth_First_Search/bfs.cpp`). It generates a
  random directed graph as adjacency lists, with a rule that keeps a drawn
  edge off its own source vertex. It traverses the graph from a start vertex
  twice: with a queue (`bfs_seq`), and level by level with a shared frontier
  and an atomic check-and-mark of each vertex (`bfs_par`). `verify_results`
  then asks whether both traversals visited the same vertices.
- **Histogram sort** (`Dijkstra/dijkstra_parallel.cpp`). It sorts integers
  known to lie in `[min_val, max_val]` in three steps: it counts each value,
  turns the counts into cumulative counts in place, and places each element
  at its value's decremented cursor. The sequential version places the
  elements from last to first. The parallel version places them in whatever
  order the threads reach them, each taking its cursor with an atomic
  capture. `is_sorted` checks the output.

The model has four modules:

- `Indices` (`indices.dfy`): the index set `0 .. n-1` and its size, shared by
  the vertex numbering of the graphs and the output positions of the sort.
- `Graphs` (`graph.dfy`): the `Graph` class with its `V` and `adj` fields and
  `AddEdge`; graph generation and the self-loop rule; walks, reachability and
  distinct vertex lists.
- `Bfs` (`bfs.dfy`): both traversals on arrays of visited flags, and the
  result comparison.
- `HistogramSort` (`histogram_sort.dfy`): the three phases on arrays, both
  placements and both whole sorts, and the sortedness check.

Each operation is specified against a definition that does not depend on how
it is computed:

- Both traversals are specified against reachability along edges. Each
  emits exactly the vertices reachable from the start, with the start first
  and no repeats.
- Sorting is specified by *buckets*. After the prefix sum, the elements equal
  to `v` own the output slots `CountBelow(v) .. CountBelow(v+1)-1`, where
  `CountBelow(v)` is the number of elements smaller than `v`. Both placements
  fill every slot with the value that owns it. From that the model proves:
  - the output is sorted;
  - the output is a permutation of the input;
  - the output is unique, so the parallel sort gives the sequential result
    whatever order its threads take.

## Model

| member | source | states |
|---|---|---|
| Graphs.Graph.constructor | Breadth_First_Search/bfs.cpp:19-21 | a graph with `vertices` vertices and every adjacency list empty |
| Graphs.Graph.AddEdge | Breadth_First_Search/bfs.cpp:24-26 | `dest` is appended to the list of `src`; every other list and the vertex count are unchanged |
| Graphs.AvoidSelfLoop | Breadth_First_Search/bfs.cpp:43-46 | the rule as written: a destination other than `i` is kept, and a drawn `i` becomes `i+1` or `i-1`; with two or more vertices the result is a vertex of the graph other than `i` |
| Graphs.AvoidSelfLoopSingleVertex | Breadth_First_Search/bfs.cpp:43-46 | with one vertex the rule as written yields the vertex index -1 (see Findings) |
| Graphs.AdjustedDestination | Breadth_First_Search/bfs.cpp:43-46 | the corrected rule: there is an edge exactly when the graph has two or more vertices; its destination is a vertex other than `i`, and it is the drawn one when that is not `i` |
| Graphs.Graph.AddGeneratedEdge | Breadth_First_Search/bfs.cpp:40-51 | one generation step adds the adjusted edge to vertex `i`'s list and nothing else; it keeps every entry a valid vertex and keeps out self-loops |
| Graphs.GenerateEdges | Breadth_First_Search/bfs.cpp:39-52 | vertex `i` gets one edge per draw (none when the graph has one vertex), the `j`-th being the rule applied to the `j`-th draw; other vertices keep their lists |
| Graphs.GenerateGraph | Breadth_First_Search/bfs.cpp:30-56 | the generated graph has `vertices` vertices, has no self-loops, and names only its own vertices; each vertex has `edge_density` edges when there are two or more vertices, each the rule applied to its draw |
| Graphs.ReachableStep | Breadth_First_Search/bfs.cpp:76-80 | a neighbour of a vertex reachable from the start is reachable from the start, so every vertex a traversal marks is reachable |
| Graphs.ClosedContainsReachable | Breadth_First_Search/bfs.cpp:68-82 | a vertex list that holds the start and the neighbours of all its members holds every vertex reachable from the start |
| Graphs.DistinctBound | Breadth_First_Search/bfs.cpp:60-61 | a list of distinct vertices of a `V`-vertex graph has at most `V` entries, which bounds both results and the number of loop steps |
| Graphs.SameElementsSameLength | Breadth_First_Search/bfs.cpp:153-164 | two duplicate-free lists with the same members have the same length |
| Bfs.MarkNeighbours | Breadth_First_Search/bfs.cpp:116-133 | the scan of `adj[u]` with its check-and-mark returns, in adjacency-list order and without repeats, exactly the neighbours that were unmarked (each at its first occurrence, as `NewNeighbours` of the old marks gives); it marks exactly those, and all neighbours end up marked |
| Bfs.VisitNext | Breadth_First_Search/bfs.cpp:68-81 | one dequeue step appends the queue head to the result; the new queue is the rest of the old queue followed by the head's unmarked neighbours in adjacency-list order (first in, first out); marks are never cleared; the traversal state is kept: reachable, distinct, marked exactly when emitted or queued, neighbours of emitted vertices marked |
| Bfs.DequeueStep | Breadth_First_Search/bfs.cpp:68-81 | on the values before and after a dequeue, emitting the head and queueing exactly its newly marked neighbours keeps the traversal state and leaves room in the result for the head |
| Bfs.BfsSeq | Breadth_First_Search/bfs.cpp:59-85 | the result starts with `start`, has no repeats and at most `V` entries, and holds exactly the vertices reachable from `start` (the traversal property `IsTraversal`) |
| Bfs.ExpandFrontier | Breadth_First_Search/bfs.cpp:104-142 | the next frontier holds, without repeats, exactly the vertices that neighbour the current frontier and were unmarked at the start of the level; exactly those are newly marked |
| Bfs.ProcessLevel | Breadth_First_Search/bfs.cpp:99-146 | one level appends the whole frontier to the result and strictly grows it within `V`; the next frontier holds exactly the neighbours of the current frontier that were unmarked when the level began; the traversal state is kept |
| Bfs.BfsPar | Breadth_First_Search/bfs.cpp:88-149 | the same as for `BfsSeq`: `start` first, no repeats, at most `V` entries, and exactly the reachable vertices, so the level loop terminates |
| Bfs.SameVisitedSet | Breadth_First_Search/bfs.cpp:152-167 | any two traversals from the same start have the same length and the same members |
| Bfs.VerifyResults | Breadth_First_Search/bfs.cpp:152-167 | answers true exactly when the two results have equal length and the same set of vertices |
| Bfs.BfsCrossCheck | Breadth_First_Search/bfs.cpp:218-235 | on every graph whose edges name its own vertices, comparing the two traversals from any start vertex answers true |
| HistogramSort.BuildHistogram | Dijkstra/dijkstra_parallel.cpp:32-35 | entry `k` of the histogram becomes the number of input elements equal to `min_val + k` |
| HistogramSort.PrefixSum | Dijkstra/dijkstra_parallel.cpp:37-40 | in place, entry `k` becomes the sum of the old entries `0 .. k` |
| HistogramSort.PrefixOfHistogram | Dijkstra/dijkstra_parallel.cpp:37-40 | the cumulative count up to bucket `k` is the number of elements at most `min_val + k` |
| HistogramSort.HistogramTotal | Dijkstra/dijkstra_parallel.cpp:37-40 | the histogram entries add up to the input length, so the last cumulative count is `n` |
| HistogramSort.CountBelowStep | Dijkstra/dijkstra_parallel.cpp:37-40 | raising the bound from `v` to `v+1` adds the occurrences of `v`: the bucket of `v` is as long as `v` is frequent |
| HistogramSort.BucketsDisjoint | Dijkstra/dijkstra_parallel.cpp:42-45 | different values own disjoint output slots |
| HistogramSort.FetchAndDecrement | Dijkstra/dijkstra_parallel.cpp:71-73 | a cursor is read and decremented in one step; nothing else in the histogram changes |
| HistogramSort.PlaceLast | Dijkstra/dijkstra_parallel.cpp:43-45 | placing element `i-1` at its decremented cursor keeps the placement state: cursors count the equal elements still to place, filled slots hold their bucket's value, and element `j` went to slot Rank(j) |
| HistogramSort.PlaceBackwards | Dijkstra/dijkstra_parallel.cpp:42-45 | after the pass every cursor is back at its bucket's start, every slot holds the value owning it, and element `j` sits at slot Rank(j) |
| HistogramSort.RankIsStableBijection | Dijkstra/dijkstra_parallel.cpp:42-45 | the sequential placement gives distinct elements distinct slots within range, and keeps equal elements in input order (it is stable) |
| HistogramSort.ClaimSlot | Dijkstra/dijkstra_parallel.cpp:70-75 | one element taking its cursor value atomically and storing itself one below it keeps the placement state, and the slots taken so far stay distinct |
| HistogramSort.PlaceAnyOrder | Dijkstra/dijkstra_parallel.cpp:68-75 | in any order of the elements, the pass leaves every cursor at its bucket's start and every slot holding its owner value; the elements get distinct slots, each holding that element |
| HistogramSort.BucketedSorted | Dijkstra/dijkstra_parallel.cpp:42-47 | an output whose every slot holds its owner value is sorted |
| HistogramSort.BucketedPermutation | Dijkstra/dijkstra_parallel.cpp:42-47 | such an output is a permutation of the input |
| HistogramSort.BucketedUnique | Dijkstra/dijkstra_parallel.cpp:42-47 | such an output is unique: two of them are equal |
| HistogramSort.HistogramSortSeq | Dijkstra/dijkstra_parallel.cpp:27-48 | the output has the input's length and multiset of elements, every slot holds its owner value, and it is sorted |
| HistogramSort.HistogramSortPar | Dijkstra/dijkstra_parallel.cpp:51-78 | the same guarantees as the sequential sort, for any order of placement |
| HistogramSort.SortsAgree | Dijkstra/dijkstra_parallel.cpp:26-78 | run on the same input, the parallel sort returns exactly the sequential sort's output, whatever order its placement takes |
| HistogramSort.IsSorted | Dijkstra/dijkstra_parallel.cpp:81-86 | answers true exactly when every pair of elements, not just every adjacent pair, is in order |
| HistogramSort.AdjacentSorted | Dijkstra/dijkstra_parallel.cpp:82-84 | adjacent pairs in order imply all pairs in order |

## Left out

- Both `main` functions are not part of this model: reading input, validating it, timing the runs and printing results and samples.
- Random generation is not modelled. `GenerateGraph` takes the drawn destinations as a parameter, `draws[i][j]`. The input data of the sort is a parameter too, and `generate_data` is not part of this model.
- OpenMP scheduling is not modelled.
  - `generate_graph` is modelled as a sequential loop over the vertices. Its `omp critical` around `addEdge` makes each edge addition atomic.
  - The shared random generator, used from several threads at once, is not modelled.
- Bfs.ExpandFrontier models a level of `bfs_par` as a single thread's pass that merges its local buffer at the end.
  - With several threads, the frontier is split among them and their buffers are appended in arbitrary order. The order of vertices within the next frontier is then not modelled.
  - The set of vertices claimed is the same in every interleaving, because each check-and-mark is atomic. The properties proved are about that set and its absence of repeats.
- HistogramSort.HistogramSortPar computes its histogram with the same loop as the sequential sort. The parallel version's atomic increments commute, so they give the same counts.
- The placement order of the parallel sort is arbitrary: each step picks any unplaced element with `:|`. Concurrency beyond the atomic capture is not modelled; the store into a distinct slot does not need it.
- Machine integers are unbounded here, so these are not modelled:
  - `int` overflow of the counts or of `max_val - min_val + 1`;
  - the `size_t`-to-`int` conversion in `input.size() - 1`, which needs inputs over 2^31 elements to matter.
- HistogramSort.HistogramSortSeq and HistogramSort.HistogramSortPar require `min_val <= max_val + 1`. At `max_val = min_val - 1` the histogram is empty, the input must then be empty, and both sorts return the empty output, as the source does. A smaller `max_val` makes `range` negative; the source converts it to a huge unsigned size and the allocation fails, an error the model does not reproduce.
- Graphs.GenerateGraph models the corrected self-loop rule: GenerateGraph, Graphs.GenerateEdges and Graphs.Graph.AddGeneratedEdge use Graphs.AdjustedDestination, which adds no edge when the graph has a single vertex. The source as written adds `edge_density` edges from vertex 0 to vertex -1 there; Graphs.AvoidSelfLoopSingleVertex models that rule (see Findings).
- Graphs.GenerateGraph takes a natural vertex count, because a negative count is rejected before generation in the source.
- Bfs.BfsSeq requires every adjacency entry to be a vertex of the graph. The graph generated as written breaks this only with a single vertex (see Findings), which the corrected rule avoids.

## Findings

| source | as written | input that shows it | evidently intended | confidence | as-written member | corrected member |
|---|---|---|---|---|---|---|
| Breadth_First_Search/bfs.cpp:43-46 | a destination equal to the source vertex is moved down by one at the last vertex, so with a single vertex vertex 0 gets an edge to vertex -1, and both traversals then index the visited flags at -1 | `vertices = 1`, `edge_density >= 1` (both accepted by the input validation), where every draw is 0 | no edge when no other vertex exists; every edge names a vertex of the graph | not executed | Graphs.AvoidSelfLoopSingleVertex | Graphs.AdjustedDestination |

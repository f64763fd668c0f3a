# adjList.c in Dafny

A model of the graph toolkit in `adjList.c`. It stores a directed, weighted
multigraph as one adjacency list per vertex. It answers edge-weight and degree
queries, and it runs three traversals over the graph:

- reachability by recursive depth-first search (`dfs`/`dfsRec`);
- reachability by breadth-first search with an array-backed queue (`bfs`);
- vertex labelling ("colors") by repeated depth-first search (`dfsComp`/`dfsCompRec`).

Modules:

- `Digraph` (digraph.dfy) holds edges and adjacency lists as values. It defines
  walks, reachability (`Reachable`, `ReachableWithin`) and the closed-set
  argument that shows a vertex is not reachable.
- `GraphStore` (graph_store.dfy) holds the `Graph` class. `nv` replaces the
  global `NV`, and `adj` is an array with one list per vertex. The module has
  `initGraph` (the constructor), `addEdge`, `edgeWeight`, `outDegree` and
  `inDegree`. It also has the reference functions these are proved against:
  `Built` for a sequence of insertions, `FirstMatch` and `InCount`.
- `Components` (components.dfy) characterises the labelling that `dfsComp`
  produces (`IsComponentLabelling`) and proves that a graph has exactly one
  such labelling.
- `SearchState` (search_state.dfy) states the loop states of the searches over
  snapshots of their arrays: the bfs queue, and the visited and label arrays
  of `dfsCompRec`/`dfsComp`. Its lemmas carry each state from one step to the
  next.
- `Traversal` (traversal.dfy) holds the searches. They are methods over
  `array<bool>`/`array<int>`, and the recursive ones modify the shared visited
  array.
- `Scenario` (scenario.dfy) works through two concrete graphs: the example
  graph from the comment above `readGraphFromFile`, and a single one-way edge.

What the code does, where a reader might expect otherwise:

- One might expect vertex 1 of the example graph (edges 0→1 and 0→2) to get a
  label of its own. The code labels all three vertices 0, because the search
  from 0 marks 1 and 2 before the scan of `dfsComp` reaches them
  (`Scenario.FanLabels`).
- One might expect `o` and `d` to share a label whenever `dfs(g, o, d)` holds.
  They need not: with the single edge 1→0, vertex 1 reaches 0, but the labels
  are [0, 1] (`Scenario.OneWayEdgeSplitsLabels`). What does hold is that
  labels never increase along a path (`Components.ReachableLabelOrder`).
- The code checks no vertex index against `NV`, so the model states the index
  ranges as preconditions. Destinations `d` in `edgeWeight`, `dfs` and `bfs`,
  and `o` in `inDegree`, are never used as indices, so they carry no range
  requirement.

## Model

| member | source | states |
|---|---|---|
| GraphStore.Graph.constructor | adjList.c:21-27 | initGraph: `nv` vertices, and every vertex's list is empty |
| GraphStore.Graph.AddEdge | adjList.c:36-48 | addEdge: the new edge (d, cost) goes at the tail of s's list, and every other list is unchanged |
| GraphStore.Appended | adjList.c:36-48 | the effect of addEdge on the lists: s's list has one more entry, its earlier entries keep their order, the new entry is last, and every other list is unchanged |
| GraphStore.Built | adjList.c:74-82 | initGraph(n) (adjList.c:21-27) followed by the loader's addEdge calls, in file order: n lists, each built by `Appended` (their contents are stated by `BuiltListIsCallOrder`) |
| GraphStore.BuiltListIsCallOrder | adjList.c:36-48 | after any sequence of addEdge calls, a vertex's list is exactly the edges of the calls with that source, in call order |
| GraphStore.FirstMatch | adjList.c:96-100 | the first edge to d in a list: no earlier entry leads to d, and the result is the length of the list when no entry does |
| GraphStore.EdgeWeight | adjList.c:92-102 | edgeWeight: found exactly when o's list has an edge to d; the cost is then that of the first such edge in insertion order; otherwise `*c` is left as it was |
| GraphStore.FirstInsertedWins | adjList.c:92-102 | a lookup that succeeds keeps its answer after further inserts; a lookup that failed succeeds after appending an edge to d, and returns that edge's cost |
| GraphStore.OutDegree | adjList.c:127-133 | outDegree: the length of o's list |
| GraphStore.InDegree | adjList.c:104-120 | inDegree as its comment documents it: the number of edges, over all lists, whose destination is o |
| GraphStore.InCountEmpty | adjList.c:21-27 | after initGraph every in-degree is 0 |
| GraphStore.InCountAppended | adjList.c:36-48 | addEdge raises the in-degree of its destination by one and leaves every other in-degree alone |
| GraphStore.InCountIsCallsInto | adjList.c:104-108 | after any sequence of addEdge calls, the in-degree of o is the number of calls whose destination is o |
| GraphStore.LinksEqualFrom | adjList.c:115-117 | the inner loop of inDegree as written, on one list: it compares each node's link with o (`LinkEquals`), and only the last link is NULL, so a list adds at most one, and adds one exactly when o is 0 and the list is not empty |
| GraphStore.InCountAsWritten | adjList.c:109-120 | inDegree as written, over all lists: at most the number of vertices, whatever the number of edges |
| GraphStore.AsWrittenIgnoresEdges | adjList.c:113-117 | inDegree as written gives 0 for every vertex other than 0, whatever edges lead to it |
| GraphStore.InDegreeAsWrittenDiffers | adjList.c:109-120 | with the single edge 0→1, inDegree as written gives 0 for vertex 1 and 1 for vertex 0, where the documented count is 1 and 0 |
| Traversal.DfsRec | adjList.c:146-160 | dfsRec: o ends up visited and no mark is ever removed; answers true when o is d; a true answer means o reaches d through vertices that this call marked, all unvisited on entry; every vertex the call marks is reached from o through such vertices, so nothing else is marked; a false answer leaves d unvisited if it was unvisited on entry, and leaves every vertex this call marked with all its successors marked |
| Traversal.Dfs | adjList.c:162-167 | dfs: true exactly when o reaches d, and always true when d is o |
| Traversal.Bfs | adjList.c:209-229 | bfs: true exactly when o reaches d; every write to the queue array stays inside its `NV` slots; once d has been dequeued nothing more is enqueued (a loop invariant: the tail `j` stays where it was when `found` was set) |
| SearchState.QueueBound | adjList.c:215-225 | a queue in which no vertex occurs twice holds at most `NV` vertices, so `j` never exceeds `NV` |
| SearchState.BfsStart | adjList.c:210-215 | the initial bfs state: only o is queued and nothing is visited |
| SearchState.Dequeue | adjList.c:218-221 | dequeuing a vertex marks it visited and sets `found` when it is d |
| SearchState.EnqueueStep | adjList.c:223-225 | enqueuing an unvisited successor keeps the queue free of repeats and reachable from o, and shows that the queue holds fewer than `NV` vertices, so a free slot exists before the write at adjList.c:224 |
| SearchState.SkipStep | adjList.c:222-223 | passing over an already visited successor keeps the scan state |
| SearchState.ScanDone | adjList.c:222 | the scan of a list stops when the list is exhausted or `found` is set, and the bfs state holds again |
| SearchState.QueueExhausted | adjList.c:217-227 | a queue that starts at o, holds every successor of its entries and does not hold d shows that d is not reachable |
| SearchState.BfsDone | adjList.c:217-228 | once the queue is empty, `found` says whether o reaches d |
| Traversal.DfsCompRec | adjList.c:173-182 | dfsCompRec: the vertices it marks are o and every vertex o reaches through vertices unvisited on entry; they, and only they, get `color`; each of them is reached from o through vertices this call marked; all their successors are marked; earlier marks and labels are kept |
| SearchState.RecStart | adjList.c:176-177 | marking o and labelling it starts the scan of o's list |
| SearchState.UnmarkedShrinks | adjList.c:180-181 | a recursive call is made only with strictly fewer unvisited vertices, which bounds the recursion |
| SearchState.RecChild | adjList.c:179-181 | after the recursive call on an unvisited successor w, everything marked is reached from o and the scan state holds |
| SearchState.RecSkip | adjList.c:179-180 | a visited successor is passed over |
| SearchState.RecDone | adjList.c:173-182 | at the end of o's list the call has the effect stated for dfsCompRec, including completeness |
| Traversal.DfsComp | adjList.c:184-198 | dfsComp: the returned labels form the component labelling of the graph |
| SearchState.CompStart | adjList.c:185-188 | the initial dfsComp state: nothing visited, no label handed out |
| SearchState.CompSkip | adjList.c:190-191 | a vertex that was already visited is passed over with its label |
| SearchState.StepRoots | adjList.c:191-194 | a search from the unvisited vertex i makes i the root of the fresh label `color`; all vertices up to i are visited; earlier labels are kept |
| SearchState.StepEdges | adjList.c:191-194 | after the search, no edge leads to a vertex with a larger label |
| SearchState.StepReach | adjList.c:191-194 | after the search, every visited vertex is reached from its label's root through vertices carrying that label |
| SearchState.CompStep | adjList.c:191-194 | one search from an unvisited vertex keeps the dfsComp state |
| SearchState.CompDone | adjList.c:190-198 | after the scan every vertex is visited and the labels form the component labelling: labels dense from 0 in order of discovery, with `c[i] <= i` |
| Components.LabelsFallAlongPath | adjList.c:179-181 | labels never increase along a walk |
| Components.ReachableLabelOrder | adjList.c:179-194 | if o reaches d then d's label is at most o's |
| Components.LowerLabelsOccur | adjList.c:190-194 | every label below x's label already occurs at or below x |
| Components.ComponentLabellingUnique | adjList.c:184-198 | the component labelling of a graph is unique, so it pins down dfsComp's output |
| Scenario.FanIsBuilt | adjList.c:36-48 | the calls addEdge(0, 1, 3) and addEdge(0, 2, 1) on three vertices give lists [(1,3), (2,1)], [], [] |
| Scenario.FanCostsAndDegrees | adjList.c:92-133 | on that graph the lookup of 0→2 finds cost 1; 1 has no edge to 2; the out-degrees of 0 and 1 are 2 and 0; the in-degrees of 2 and 0 are 1 and 0 |
| Scenario.FanReachability | adjList.c:146-167 | on that graph 0 reaches 2 and 1 does not |
| Scenario.FanLabels | adjList.c:184-198 | on that graph dfsComp labels every vertex 0 |
| Scenario.OneWayEdgeSplitsLabels | adjList.c:179-194 | with the single edge 1→0, 1 reaches 0, yet the labels are [0, 1] |

## Left out

- `readGraphFromFile` (adjList.c:65-84) is not modelled, because it is file I/O and `atoi`/`strtok` parsing. `GraphStore.Built` stands for the resulting sequence of `addEdge` calls.
- `main` (adjList.c:232-247) is not modelled, because it is a command-line driver.
- The `printf` loop of `dfsComp` (adjList.c:196-197) is not modelled: `Traversal.DfsComp` returns the label array instead of printing it.
- Memory allocation and pointer links are not modelled. Each list is a `seq<Edge>`. The tail walk of `addEdge` (adjList.c:43-44) becomes an append. The oversized allocation at adjList.c:22 has no counterpart.
- Out-of-range vertex indices are undefined behaviour in C. The model excludes them by preconditions (`0 <= o < nv`, and every edge destination in range). The code has no error path for them, so none is modelled.
- `GraphStore.InDegree` models the count documented at adjList.c:104-108. The code as written is modelled only by `GraphStore.InCountAsWritten` (see Findings). Its `found` flag is never set and plays no part.
- `Traversal.DfsRec` and `Traversal.DfsCompRec` require `o` to be unvisited on entry. Both callers guarantee this, and the recursion's termination argument depends on it.
- `GraphStore.Graph.constructor` takes `n: nat`, so it excludes the negative `nv` that `initGraph(int nv)` (adjList.c:21) accepts; for a negative count the C loop at adjList.c:24 initialises no list.
- `GraphStore.Graph.constructor` sets `nv` itself. C's `initGraph` never sets the global `NV`; the loader does that at adjList.c:72, before it calls `initGraph`.
- Integer widths are not modelled. The counters in `outDegree`/`inDegree` and the labels are unbounded, because overflow would need more than 2^31 edges or vertices. Edge costs are only copied, never computed.
- Stack depth and the variable-length arrays `v[NV]`, `c[NV]` and `q[NV]` are not modelled. They become heap arrays of length `nv`.

## Findings

| source | as written | input that shows it | evidently intended | confidence | as-written member | corrected member |
|---|---|---|---|---|---|---|
| adjList.c:116 | `tmp->adj == o` compares each node's link pointer with the vertex number. It holds only on the last node of a list, and only when o is 0. | two vertices and the single edge 0→1: inDegree(g, 1) gives 0 and inDegree(g, 0) gives 1 | `tmp->dest == o`, which counts the edges whose destination is o (comment at adjList.c:104-108) | high, not executed | GraphStore.InDegreeAsWrittenDiffers | GraphStore.InDegree |

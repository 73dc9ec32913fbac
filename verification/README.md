# Graph algorithms over three layouts — a Dafny model

The program (`Program.cs`, namespace `AlgorytmyGrafowe`) stores a directed
graph on the vertices `0 .. n-1` in one of three layouts behind the abstract
class `Graf`:

- `MacierzSasiedztwa`: an adjacency matrix. An edge (p, k) is a 1 in cell
  [p][k], and the mirror cell [k][p] gets -1.
- `ListaKrawedzi`: one list of edges kept sorted in the lexicographic order of
  `Krawedz.CompareTo`.
- `ListaNastepnikow`: one ascending successor list per vertex.

Every layout answers the same queries:

- `Rzad` is the order.
- `DodajKrawedz` inserts an edge and reports success.
- `CzyKrawedz` tests membership.
- `Nastepniki` and `Poprzedniki` return the successor and predecessor lists,
  or null for a vertex out of range.

On top of these queries, `Graf` runs two algorithms once for all layouts:

- the depth-first forest `AlgorytmDFS`, with its recursive step `KrokDFS`;
- Kahn's topological sort `AlgorytmKahna`.

The model is purely functional, with one module per class:

- `DirectedEdges` is `Krawedz`.
- `MatrixGraph`, `EdgeListGraph` and `SuccessorListGraph` are the three
  layouts. Each is an immutable datatype with a `Valid` invariant and an
  abstract edge set `Edges`.
- `Graphs` is `Graf`: a datatype with one case per layout, which dispatches
  each query.
- `Digraphs` holds what the two algorithms read from a graph: its order, and
  for each vertex the lists `Nastepniki` and `Poprzedniki` return.
  `Graphs.View` builds this from any layout.
- `DepthFirst` and `Kahn` are the two algorithms. Each is stated on that view
  and applied to a graph by `ForestOf` and `SortOf`.
- `Common` holds `List<T>.BinarySearch` (the `lo`/`hi` loop with the `~lo`
  miss code) and `List<T>.Remove`, written out as the library defines them.

`null` results are modelled as `Option.None`. A successful or refused
insertion returns the graph afterwards together with the flag.

Two behaviours of the code are kept as written:

- A self-loop in the matrix is accepted but never stored. The mirror write
  puts -1 back on the diagonal.
- `ListaKrawedzi.Poprzedniki` binary-searches its partial result for the
  edge's end (the queried vertex) instead of its start. Its result can
  therefore be unsorted, and a stored self-loop (v, v) hides every
  predecessor of `v` above `v`.

Kahn's sort is proved correct for every layout despite this. An edge that
`Poprzedniki` misses always comes with a self-loop at `v`, so `v` is never
ready, and the sort fails exactly when there is no topological order. The
lookup `poprzedniki[nastepnik]` never misses its key.

## Model

| member | source | states |
|---|---|---|
| DirectedEdges.Equals | Program.cs:13-18 | two edges are equal exactly when their starts and their ends agree |
| DirectedEdges.Compare | Program.cs:34-49 | negative exactly when the first edge precedes the second in the lexicographic (start, then end) order, zero exactly when `Equals` holds, positive exactly when the second precedes the first; always one of -1, 0, 1 |
| DirectedEdges.CompareIsTotalOrder | Program.cs:34-49 | the comparison is antisymmetric and transitive, and never ties an edge with its reverse |
| DirectedEdges.BinarySearchSorted | Program.cs:207-212 | on a sorted edge list the search hits exactly when the edge is present, and a hit points at it; a miss reports the position where inserting the edge keeps the list sorted |
| Common.BinarySearchPartitioned | Program.cs:207-212 | on any list split at p (everything before p below the key, nothing after it), a miss of `List<T>.BinarySearch` reports exactly p, and the element at p then compares above the key |
| Common.BinarySearchAscending | Program.cs:284-288 | on an ascending integer list the search hits exactly when the key is present; a miss reports the insertion point that keeps the list ascending |
| Common.InsertAscending | Program.cs:284-288 | inserting at that point keeps the list ascending and adds exactly the key |
| Common.RemoveFirstNoDup | Program.cs:110 | on a duplicate-free list, `Remove(x)` leaves a duplicate-free list holding every element except `x` |
| MatrixGraph.New | Program.cs:119-127 | a requested order below 1 gives order 0; otherwise the requested order; no edges |
| MatrixGraph.AddEdge | Program.cs:139-149 | accepted exactly when both ends are in range and neither (p, k) nor (k, p) is stored; a refusal leaves the matrix unchanged; an acceptance adds (p, k) to the edges, except that a self-loop adds nothing |
| MatrixGraph.SelfLoopRepeated | Program.cs:139-149 | a self-loop is accepted again and again, and the matrix after the second insertion equals the one after the first |
| MatrixGraph.HasEdge | Program.cs:153-158 | true exactly when (p, k) is a stored edge |
| MatrixGraph.Successors | Program.cs:159-170 | absent exactly when the vertex is out of range; otherwise ascending, holding exactly the ends of the vertex's edges |
| MatrixGraph.Predecessors | Program.cs:171-182 | absent exactly when the vertex is out of range; otherwise ascending, holding exactly the starts of the edges into the vertex |
| EdgeListGraph.New | Program.cs:186-194 | a requested order below 1 gives order 0; otherwise the requested order; no edges |
| EdgeListGraph.AddEdge | Program.cs:203-216 | the list stays sorted, with its edges in range; the edge is accepted exactly when it is in range and absent, and then the edge set grows by exactly that edge; a refusal leaves the list unchanged |
| EdgeListGraph.HasEdge | Program.cs:217-222 | true exactly when the edge is in the list |
| EdgeListGraph.Successors | Program.cs:223-234 | absent exactly when the vertex is out of range; otherwise ascending, holding exactly the ends of the vertex's edges |
| EdgeListGraph.Predecessors | Program.cs:235-249 | absent exactly when the vertex is out of range; otherwise duplicate-free, holding u exactly when (u, v) is an edge and either u is at most v or there is no self-loop at v |
| EdgeListGraph.PredecessorsDescendAboveVertex | Program.cs:239-246 | with edges (0,1), (2,1), (3,1) the predecessors of 1 come out as [0, 3, 2], not ascending |
| EdgeListGraph.PredecessorsHiddenBySelfLoop | Program.cs:239-246 | with edges (1,1), (2,1) the predecessors of 1 come out as [1], missing 2 |
| SuccessorListGraph.New | Program.cs:253-263 | a requested order below 1 gives order 0; otherwise the requested order with empty lists; no edges |
| SuccessorListGraph.AddEdge | Program.cs:280-290 | every list stays ascending; the edge is accepted exactly when it is in range and absent, and then only the start's list changes and the edge set grows by exactly that edge; a refusal leaves the graph unchanged |
| SuccessorListGraph.HasEdge | Program.cs:294-299 | true exactly when (p, k) is an edge |
| SuccessorListGraph.Successors | Program.cs:300-305 | absent exactly when the vertex is out of range; otherwise ascending, holding exactly the ends of the vertex's edges |
| SuccessorListGraph.Predecessors | Program.cs:306-317 | absent exactly when the vertex is out of range; otherwise ascending, holding exactly the starts of the edges into the vertex |
| Graphs.New | Program.cs:119-127 | for every layout: order 0 below 1, otherwise the requested order, and no edges |
| Graphs.Order | Program.cs:53-55 | `Rzad()` of a valid graph is never negative; `Graphs.New` fixes it and `Graphs.AddEdge` keeps it |
| Graphs.AddEdge | Program.cs:57-58 | for every layout: order and layout kept; a refusal changes nothing; an accepted edge was in range and absent; an edge stored in neither direction is always accepted; the matrix alone also refuses a reversed edge and does not store self-loops |
| Graphs.HasEdge | Program.cs:59-60 | for every layout, membership in the edge set |
| Graphs.Successors | Program.cs:61 | for every layout: absent exactly out of range, otherwise ascending and exactly the successors |
| Graphs.Predecessors | Program.cs:62 | for every layout: absent exactly out of range; otherwise duplicate-free and sound; an edge (u, v) is reported unless v itself is; matrix and successor lists return exactly the predecessors, ascending |
| Graphs.Degenerate | Program.cs:186-194 | a graph of any layout built with order below 1 has order 0, refuses every insertion unchanged, and answers every list query with null |
| Graphs.SecondInsertion | Program.cs:139-149 | repeating an accepted insertion changes nothing, and it is refused except for a matrix self-loop |
| Graphs.View | Program.cs:61-62 | the tabulated lists are those `Nastepniki` and `Poprzedniki` return, and the view's arcs are exactly the graph's edges |
| Graphs.LayoutsAgree | Program.cs:51-62 | fed the same edges, the sorted edge list and the successor lists hold the same edges and give the same successor lists; the matrix holds a subset, and when no edge is a self-loop or has its reverse fed too, it agrees with the successor lists on successors and predecessors |
| DepthFirst.Explore | Program.cs:77-86 | `KrokDFS` only adds to the visited set and appends exactly the newly visited vertices to the component, each the end of an edge from an earlier vertex of it; afterwards every successor of a newly visited vertex, and of the start, is visited; the appended vertices come in depth-first order: each is the first unvisited successor, in list order, of the last vertex before it that still has one, and that vertex is the start or a later one, so the call stays within the start's subtree |
| DepthFirst.ExploreAll | Program.cs:79-85 | the same for the `foreach` over the remaining successors, all of which end up visited, with the appended vertices again in depth-first order and each visited from `parent` or a vertex after it |
| DepthFirst.Descend | Program.cs:80-84 | one pass of the `foreach` for an unvisited successor `s`: it is marked, appended and explored, and the rest of the `foreach` follows; the result keeps the same guarantees as the whole `foreach`, including the depth-first order and the bound to `parent`'s subtree |
| DepthFirst.TryVertex | Program.cs:66-74 | one pass of the loop: a visited vertex changes nothing; an unvisited one appends a component that starts with it, keeping the loop invariant |
| DepthFirst.Forest | Program.cs:63-76 | every vertex lies in exactly one component; components are non-empty and start at the least vertex not yet covered, so their starts ascend; each later vertex of a component is the first successor, in list order, of the last earlier vertex of its component that still has one outside the earlier components and the earlier part of its own; no edge leads to a later component; without edges the forest is [[0], ..., [n-1]]; order 0 gives the empty forest |
| DepthFirst.ForestOf | Program.cs:63-76 | on a graph of any layout: the same forest properties, including the depth-first order within each component, with the graph's edges and its ascending successor lists; the vertices appear exactly once; a graph without edges gives one singleton component per vertex |
| DepthFirst.SubtreeExample | Program.cs:77-86 | with successor lists [1, 2], [], [] and component [0, 1], a call for 1 that went on to append 2 would break the subtree bound: that step belongs to the call for 0 |
| DepthFirst.DiamondForest | Program.cs:77-86 | with successor lists [1, 2], [3], [3], [] the only forest is [[0, 1, 3, 2]]: the search reaches 3 through 1 before it returns for 2 |
| Graphs.DiamondView | Program.cs:61 | in every layout, loading the edges (0, 1), (0, 2), (1, 3), (2, 3) into four vertices gives the successor lists [1, 2], [3], [3], [] |
| DepthFirst.DiamondGraph | Program.cs:63-86 | in every layout, `AlgorytmDFS` on the graph with edges (0, 1), (0, 2), (1, 3), (2, 3) returns [[0, 1, 3, 2]] |
| Kahn.InitialLists | Program.cs:93-95 | every vertex is a key, holding exactly its reported predecessors, once each |
| Kahn.FirstReady | Program.cs:97-104 | the least key whose list is empty, or -1 exactly when every list is non-empty |
| Kahn.Emit | Program.cs:97-108 | the emitted vertex had all its reported predecessors emitted, no smaller vertex was ready, and the output stays duplicate-free |
| Kahn.SuccessorPending | Program.cs:109-110 | every successor of the emitted vertex is a vertex not yet emitted and not the vertex itself, so its key is still present |
| Kahn.Strike | Program.cs:109-111 | after striking the emitted vertex from its successors' lists, every remaining list holds exactly its reported predecessors not yet emitted |
| Kahn.Stuck | Program.cs:105-107 | when every remaining list is non-empty, no topological order of the graph exists |
| Kahn.Finished | Program.cs:96-113 | once the map is empty the output is a topological order |
| Kahn.Sort | Program.cs:87-114 | null for order 0; otherwise a result exists exactly when some topological order exists, and it is one: every vertex once, every edge forward, each step taking the least ready vertex |
| Kahn.SortOf | Program.cs:87-114 | on a graph of any layout: null for order 0; a result exactly when a topological order exists; the result lists every vertex once and every edge of the graph points forward in it; each emitted vertex had all its reported predecessors emitted, and no smaller vertex was ready then, so ties go to the least vertex |

## Left out

- `Main` and the `Wypisz` printers: console I/O.
- `Krawedz.GetHashCode` and the null branches of `==` and `!=`: edges are values here, never null.
- The `ArgumentException` of `CompareTo` for a non-edge argument and `CompareTo(null)`: the comparison only ever sees edges.
- The `DodajKrawedz(Krawedz)` and `CzyKrawedz(Krawedz)` overloads: each builds or unpacks the edge and delegates to the other form, so one member models both.
- Aliasing: `ListaNastepnikow.Nastepniki` returns its own row, which a caller could mutate. The model returns a value.
- 32-bit integers: vertex numbers, orders and list positions are unbounded `int`s, because nothing the program computes can wrap.
  - A vertex number or an order passed in is only compared with 0 and with the order, never added to.
  - Loop counters run from 0 up to the order.
  - A list position, and the complement `~index` (that is `-index - 1`) of a failed search, is bounded by the list's length, which .NET keeps below 2^31.
  - The probe `lo + ((hi - lo) >> 1)` of `List<T>.BinarySearch` lies between `lo` and `hi`, and `hi - lo` lies between -1 and the list's length, so it cannot overflow.
- Recursion depth: `KrokDFS` calls itself once per newly visited vertex, with no limit, so a long path can overflow the C# call stack. The model's `Explore` always returns.
- `Krawedz.Equals(object)` returns false for null and for an argument that is not a `Krawedz` (Program.cs:14-16). The model compares edges only with edges.
- `bool[] odwiedzone` and the mutable output lists become a visited set and immutable sequences, threaded through the recursion.
- EdgeListGraph.HasEdge: requires order at least 1, because at order 0 the program's edge list is null and the search dereferences it.
- DepthFirst.Forest: the loop of `AlgorytmDFS` is written as the tail-recursive `Grow`, with one `TryVertex` per iteration.
- Kahn.InitialLists: the filling loop is written as a map comprehension, because each iteration adds one independent key.

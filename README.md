# Graph algorithms server core, modelled in Dafny

The system is a small server that runs graph algorithms and comes with its own
reactor and thread helpers. Its core is:

- a weighted `Graph`: `n` adjacency lists of `(neighbour, weight)` pairs and a
  direction flag, with `addEdge`, `reversed`, `to_string` and `from_string`;
- five algorithms that each turn a graph into a text answer:
  - an Euler circuit (Hierholzer);
  - a minimum spanning tree weight (Prim);
  - a count of strongly connected components (Kosaraju);
  - a maximum flow from vertex 0 to vertex n-1 (Edmonds–Karp);
  - a maximum clique (Bron–Kerbosch with a pivot);
- a factory that picks an algorithm by its case-insensitive name;
- a random graph generator;
- the `fd_polling` reactor, which holds a table from file descriptors to
  callbacks, together with its C-style wrappers and the registry of started
  reactors;
- the `Func` call wrapper of the thread tools.

The project is organised as follows.

- `Graphs` (graph.dfy) holds the graph.
  - `GraphView` is the graph as a value. Every algorithm reads one, since each
    receives a `const Graph &`.
  - The `Graph` class has fields that `AddEdge` updates in place.
- `GraphText` (graph_text.dfy) models the text format and its parser.
  `RoundTrip` (round_trip.dfy) characterises exactly when
  `from_string(to_string(g))` gives `g` back.
- `Text` (text.dfy) models decimal printing, whitespace skipping and `operator>>`
  for integers.
- `Reach` (reach.dfy) defines paths and reachability, and proves the recursive
  depth-first search that the Euler and SCC code share.
- The algorithms are modelled as the loops they are, and are proved against
  specifications:
  - `Euler` and `EulerEdges`: a genuine Euler circuit over the numbered list
    entries (an undirected self-loop is two of them).
  - `Mst`: a spanning tree grown from vertex 0 whose weight is the printed
    total, and which weighs least of all spanning trees when the lists are
    symmetric, as `addEdge` keeps them in an undirected graph. `Trees`
    (trees.dfy) defines those spanning trees by the entry each vertex hangs
    from, and proves the exchange step that the minimality proof uses.
  - `Scc`: one root per strongly connected component.
  - `MaxFlow`: conservation, no augmenting path left, and max-flow = min-cut.
  - `MaxClique`: the reported vertices always form a clique, and when the
    graph has no self-loop no clique is larger.

Some behaviour depends on the environment, which is supplied as input:

- The random number generator becomes a supplied sequence of draws.
- In the reactor, two things are inputs: what `poll` leaves in `revents`, and
  the `addFd`/`removeFd` calls a callback makes.
- A `void *` is an address.

Four places where the code and its comments disagree follow the code:

- `EulerAlgorithm.h` says a directed input prints a warning and returns an
  empty result. The code returns the "expects an undirected graph" message,
  and so does `Euler.Run`.
- `RandomGraph.cpp` says that loops are allowed and count towards the edge
  bound. `RandomGraph.GenerateRandomGraph` validates with that bound, as the
  code does, and its generation loop rejects loops, as the code does. The
  Findings section shows the consequence.
- `MaxFlowAlgorithm.h` (graph/header/MaxFlowAlgorithm.h:5-6) says each
  undirected edge becomes two opposing directed edges with the same capacity.
  The code (graph/MaxFlowAlgorithm.cpp:27-30) adds `w` in both directions for
  every list entry, and `addEdge` lists an undirected edge at both of its ends,
  so each direction gets `2w`: one undirected edge 0–1 of weight 5 gives a
  maximum flow of 10. `MaxFlow.BuildCapacity` follows the code, and
  `MaxFlow.CapacityDoubles` states the doubling.
- `EulerAlgorithm.cpp` (graph/src/EulerAlgorithm.cpp:70-72) says each
  undirected edge gets a single id. An undirected self-loop `addEdge(u, u, w)`
  lists `(u, w)` twice in `u`'s list (graph/src/Graph.cpp:19-23), both entries
  pass the `u <= v` test at line 83, and lines 93-97 number each one. The loop
  is therefore crossed twice: one vertex with one loop prints
  "Euler circuit: 0 -> 0 -> 0". `Euler.CollectEdges` and `Euler.NumberedLists`
  follow the code, and the circuit of `Euler.FindCircuit` and `Euler.Run` is
  one over the collected list entries.

## Model

| member | source | states |
|---|---|---|
| Graphs.Graph.constructor | graph/Graph.cpp:11-14 | exactly `vertices` empty lists with the given direction flag |
| Graphs.Graph.Default | graph/Graph.h:21 | the default graph has 0 vertices and is undirected |
| Graphs.Graph.Copy | graph/Graph.cpp:16-20 | the copy has the same count, flag and every adjacency list |
| Graphs.Graph.NumVertices | graph/Graph.h:32 | a plain read of the vertex count |
| Graphs.Graph.IsDirected | graph/Graph.h:35 | a plain read of the direction flag |
| Graphs.Graph.Neighbours | graph/Graph.h:40-42 | the stored list of `u`, every neighbour is in range |
| Graphs.Graph.Degree | graph/Graph.h:46 | the degree is the length of the neighbour list |
| Graphs.Graph.AddEdge | graph/Graph.cpp:22-31 | fails with no change exactly when an endpoint is out of range; otherwise appends `(v,w)` to `adj[u]` and, when undirected, `(u,w)` to `adj[v]`, nothing else changes, and undirected symmetry is kept |
| Graphs.Graph.AddUnitEdge | graph/Graph.h:29 | the default weight: the graph becomes exactly what `addEdge(u, v, 1)` makes of it, with the same failure case and symmetry kept |
| Graphs.WithEdgeCount | graph/src/Graph.cpp:15-24 | one `addEdge` adds 1 list entry to a directed graph and 2 to an undirected one |
| Graphs.UndirectedSelfLoopDegree | graph/src/Graph.cpp:19-23 | an undirected self-loop `addEdge(u,u,w)` raises `degree(u)` by 2 |
| Graphs.WithEdgeSymmetric | graph/Graph.h:25-29 | on an undirected graph, `addEdge` keeps every weight listed at both ends |
| Graphs.Graph.Reversed | graph/Graph.cpp:33-49 | returns a new graph that is the reversed view, and leaves the receiver unchanged |
| Graphs.ReversedCorrect | graph/src/Graph.cpp:26-42 | directed: `(u,w)` occurs in `rev.adj[v]` as often as `(v,w)` in `adj[u]`, with the edge total kept; undirected: identical lists |
| Graphs.TransposeCorrect | graph/src/Graph.cpp:28-35 | the transpose keeps every vertex in range, keeps the edge total and reverses each entry with its weight |
| GraphText.ToString | graph/Graph.cpp:51-60 | the text is the header `n d` and one line per vertex listing ` v w` in stored order |
| GraphText.FromString | graph/Graph.cpp:62-88 | a valid new graph exactly when the parse succeeds; otherwise the exception it throws (missing header, missing list, bad entry, out-of-range vertex) |
| GraphText.ReadLine | graph/Graph.cpp:78-84 | reading one adjacency line adds its entries with `addEdge`, or reports the entry error |
| RoundTrip.RoundTripExactly | graph/Graph.cpp:51-88 | `from_string(to_string(g)) == g` exactly when `g` is directed or empty and no vertex has an empty list |
| RoundTrip.RoundTripDirected | graph/Graph.cpp:51-88 | a directed graph whose every vertex has an out-edge comes back unchanged |
| RoundTrip.RoundTripBlankLine | graph/Graph.cpp:73-76 | a vertex without edges makes the read-back fail with "missing adjacency list" |
| RoundTrip.RoundTripUndirected | graph/Graph.cpp:80-81 | an undirected graph is read back with twice its list entries, so never unchanged |
| RoundTrip.ToStringFromString | graph/Graph.cpp:51-88 | the class-level round trip: the same graph exactly in the case above, and the blank-line error otherwise |
| Text.ReadIntRendered | graph/Graph.cpp:67-69 | `operator>>` reads back every decimal that `operator<<` wrote |
| Text.DigitsValueOfNatToString | graph/Graph.cpp:53 | the printed digits of a natural number have its value |
| Text.AppendJoined | graph/src/EulerAlgorithm.cpp:129-134 | the loop writes the numbers separated by the separator |
| Reach.Dfs | graph/src/EulerAlgorithm.cpp:18-26 | marks `u`, keeps earlier marks, and newly marks only vertices reachable from `u` while closing the search |
| Reach.MarkedIsReachable | graph/src/EulerAlgorithm.cpp:57-59 | after a search from a cleared array, a vertex is marked exactly when it is reachable from the start |
| Reach.ReachReversed | graph/src/SCCAlgorithm.cpp:49 | a path in the reversed graph is a path backwards in the graph |
| Euler.ScanDegrees | graph/src/EulerAlgorithm.cpp:36-48 | `oddCount` is 0 exactly when every degree is even; `start` is -1 exactly when there are no edges, else the first vertex with edges |
| Euler.ReachesAllWithEdges | graph/src/EulerAlgorithm.cpp:57-64 | the check passes exactly when the start reaches every vertex that has edges |
| Euler.CollectEdges | graph/src/EulerAlgorithm.cpp:78-87 | collects every entry `(u,v,w)` with `u <= v`, row by row |
| Euler.NumberedLists | graph/src/EulerAlgorithm.cpp:89-98 | each collected edge is numbered once and listed at both of its ends (once for a loop) |
| EulerEdges.EdgeListParity | graph/src/EulerAlgorithm.cpp:78-98 | in a symmetric graph, the number of edge ends at `x` among the numbered edges has the parity of `degree(x)` |
| Euler.Hierholzer | graph/src/EulerAlgorithm.cpp:100-122 | the walk starts and ends at `start`, follows distinct unused edges, and leaves no unused edge touching it |
| Euler.AllEdgesUsed | graph/src/EulerAlgorithm.cpp:104-125 | in a connected graph the walk uses every numbered edge |
| Euler.FindCircuit | graph/src/EulerAlgorithm.cpp:100-125 | the circuit has `edgeCount + 1` vertices and is an Euler circuit from `start`, so the length check never fails |
| Euler.Run | graph/src/EulerAlgorithm.cpp:30-136 | the directed, odd-degree, edgeless and disconnected messages exactly in their cases; otherwise "Euler circuit: " and an Euler circuit over the collected list entries, where an undirected self-loop counts twice, joined by " -> " |
| Scc.DfsOrder | graph/src/SCCAlgorithm.cpp:14-23 | appends `u` after every vertex first reached from it, that is, in post-order |
| Scc.FinishOrder | graph/src/SCCAlgorithm.cpp:39-47 | `order` lists every vertex exactly once, in finishing order |
| Scc.ReversedReverses | graph/src/SCCAlgorithm.cpp:49 | `g.reversed()` of a valid graph is valid and reverses every link |
| Scc.CountComponents | graph/src/SCCAlgorithm.cpp:51-59 | the roots of the second pass are one per strongly connected component; `count` is their number, between 1 and n when n > 0 |
| Scc.Kosaraju | graph/src/SCCAlgorithm.cpp:37-59 | `count` is the number of strongly connected components, and is 0 exactly when n == 0 |
| Scc.Run | graph/src/SCCAlgorithm.cpp:37-62 | the text is the fixed prefix followed by the number of components |
| Mst.PopMin | graph/MSTAlgorithm.cpp:41-42 | the popped entry has the least weight in the heap |
| Mst.PushAll | graph/MSTAlgorithm.cpp:35-37 | the heap starts with one entry per neighbour of vertex 0 |
| Mst.PushOutside | graph/MSTAlgorithm.cpp:49-55 | pushes entries only for vertices outside the tree; every tree-to-outside entry is pending |
| Mst.Join | graph/MSTAlgorithm.cpp:45-55 | a popped vertex outside the tree joins it once, `visitedCount` and `totalWeight` grow with it |
| Mst.Step | graph/MSTAlgorithm.cpp:40-56 | one round either adds a vertex or shrinks the heap, and keeps the tree, the counters, the frontier invariants and the greedy property |
| Mst.GreedyJoin | graph/MSTAlgorithm.cpp:41-48 | the entry popped from the top of the heap weighs no more than any entry from the tree to a vertex outside it, so the edge it adds keeps the tree greedy |
| Mst.Prim | graph/MSTAlgorithm.cpp:30-56 | `totalWeight` is the weight of the grown tree; `visitedCount == n` exactly when vertex 0 reaches every vertex, and then the tree spans; every tree edge is a lightest entry leaving the part grown before it; with symmetric lists a spanning result weighs least of all spanning trees; pushes are bounded by the list entries |
| Mst.Run | graph/MSTAlgorithm.cpp:15-62 | the directed, empty and not-connected messages in their cases; otherwise the weight of a spanning tree, which with symmetric lists is the least weight of any spanning tree |
| Mst.GreedyIsLeast | graph/MSTAlgorithm.cpp:1-5 | a greedy spanning tree of symmetric lists is a minimum spanning tree: some spanning tree has its weight and none weighs less |
| Mst.NoLighter | graph/MSTAlgorithm.cpp:1-5 | no spanning tree weighs less than a greedy spanning tree |
| Mst.Exchange | graph/MSTAlgorithm.cpp:41-48 | a spanning tree that holds the first `k` greedy edges can be changed into one that holds the first `k + 1`, weighing no more |
| Mst.LightestCrossing | graph/MSTAlgorithm.cpp:41-48 | a greedy edge weighs no more than any entry that leaves the vertices joined before it |
| Mst.TreeOfEdges | graph/MSTAlgorithm.cpp:45-48 | the tree Prim grows, read as the entry each vertex hangs from, is a spanning tree of the same weight |
| Mst.WeightOfEdges | graph/MSTAlgorithm.cpp:48 | placing each tree edge's weight at the vertex it joins gives a table that sums to the tree's weight |
| Trees.Hang | graph/MSTAlgorithm.cpp:1-5 | hanging a vertex outside a rooted set from a vertex inside it, and turning round the path above it, gives a spanning tree that keeps the set as it was; its weight changes by the new entry less one dropped entry from the set to outside it |
| Trees.SymmetricEntry | graph/Graph.cpp:26-30 | in symmetric lists, an entry `u -> v` has a twin `v -> u` of the same weight |
| MaxFlow.AddEntry | graph/MaxFlowAlgorithm.cpp:27-30 | one entry adds `w` to `capacity[u][v]` and, when undirected, to `capacity[v][u]` |
| MaxFlow.BuildCapacity | graph/MaxFlowAlgorithm.cpp:22-32 | `capacity[u][v]` is the sum of the weights listed from `u` to `v`, plus the mirrored ones when undirected |
| MaxFlow.CapacityDoubles | graph/MaxFlowAlgorithm.cpp:22-32 | on a symmetric undirected graph every edge counts twice, and the matrix is symmetric |
| MaxFlow.Visit | graph/MaxFlowAlgorithm.cpp:47-57 | an unlabelled vertex with residual capacity gets its parent once; reaching the sink yields the bottleneck |
| MaxFlow.Scan | graph/MaxFlowAlgorithm.cpp:43-59 | scanning a dequeued vertex keeps the search tree and the queue invariants |
| MaxFlow.Bfs | graph/MaxFlowAlgorithm.cpp:38-59 | the source is marked -2, parents form a tree over positive residuals; a positive `pathFlow` is the bottleneck to the sink, and 0 means no augmenting path exists |
| MaxFlow.PushPair | graph/MaxFlowAlgorithm.cpp:69-70 | takes `f` from `residual[u][v]` and gives it to `residual[v][u]`, nothing else changes |
| MaxFlow.Augment | graph/MaxFlowAlgorithm.cpp:66-72 | walks the parent chain from the sink to the source and pushes `pathFlow` along it |
| MaxFlow.AugmentKeeps | graph/MaxFlowAlgorithm.cpp:64-72 | augmenting keeps every `residual[u][v] + residual[v][u]`, moves `f` more from source to sink, keeps residuals non-negative and shrinks the source row |
| MaxFlow.EdmondsKarp | graph/MaxFlowAlgorithm.cpp:34-73 | the loop ends with flow conservation, pair sums kept, `0 <= maxFlow <=` the source capacity, and no augmenting path |
| MaxFlow.MaxFlowMinCut | graph/MaxFlowAlgorithm.cpp:34-73 | with non-negative weights, the flow is at most every cut's capacity and equals that of some cut |
| MaxFlow.Run | graph/MaxFlowAlgorithm.cpp:14-76 | fewer than two vertices give the message; otherwise "Max flow from 0 to n-1: " and a flow with the properties above |
| MaxClique.Mark | graph/src/MaxCliqueAlgorithm.cpp:24-30 | sets `adj[u][v]` and `adj[v][u]` in both branches, nothing else |
| MaxClique.BuildAdjacencyAsWritten | graph/src/MaxCliqueAlgorithm.cpp:18-34 | the matrix as written: symmetric, and true exactly for pairs joined in either direction, the diagonal included |
| MaxClique.BuildAdjacency | graph/src/MaxCliqueAlgorithm.cpp:18-34 | the corrected matrix: symmetric, loop-free, true exactly for distinct pairs joined in either direction |
| MaxClique.Degree | graph/src/MaxCliqueAlgorithm.cpp:53-56 | counts the neighbours of `v` in `P` |
| MaxClique.Pivot | graph/src/MaxCliqueAlgorithm.cpp:46-61 | the pivot is the first vertex of P ∪ X with the most neighbours in P |
| MaxClique.Candidates | graph/src/MaxCliqueAlgorithm.cpp:63-68 | the candidates are P minus the pivot's neighbours |
| MaxClique.Neighbours | graph/src/MaxCliqueAlgorithm.cpp:72-79 | `newP` and `newX` are the neighbours of `v` within P and within X |
| MaxClique.Bronk | graph/src/MaxCliqueAlgorithm.cpp:36-86 | `bestSize` never decreases and equals the length of `bestClique`; a new best is a clique; every clique extending R within P ∪ X is no larger than the final best |
| MaxClique.Branches | graph/src/MaxCliqueAlgorithm.cpp:69-85 | the candidate loop keeps the same promises for every candidate in turn |
| MaxClique.Branch | graph/src/MaxCliqueAlgorithm.cpp:70-84 | one candidate: recurse on R+v, then move v from P to X with the invariants kept |
| MaxClique.EnterBranch | graph/src/MaxCliqueAlgorithm.cpp:70-80 | without self-loops, R+v with its neighbours in P and X keeps P ∩ X empty and P ∪ X adjacent to all of R |
| MaxClique.LeaveBranch | graph/src/MaxCliqueAlgorithm.cpp:81-84 | moving v from P to X keeps the invariants and the coverage of the cliques already searched |
| MaxClique.CloseByPivot | graph/src/MaxCliqueAlgorithm.cpp:63-68 | skipping the pivot's neighbours loses no larger clique |
| MaxClique.ReportedIsMaximum | graph/src/MaxCliqueAlgorithm.cpp:95-102 | on a non-empty graph and a loop-free matrix, the search reports `bestSize >= 1` equal to the clique's length, and the clique is maximum |
| MaxClique.AsWrittenLoopless | graph/src/MaxCliqueAlgorithm.cpp:18-34 | when no vertex lists itself, the matrix as written has an empty diagonal and is exactly the loop-free matrix |
| MaxClique.FoundIsClique | graph/src/MaxCliqueAlgorithm.cpp:96-102 | the clique the search leaves is a clique of the graph, of length `bestSize` |
| MaxClique.Print | graph/src/MaxCliqueAlgorithm.cpp:103-113 | the size, then " (nodes: ", the vertices joined by ", " and ")" when there are any |
| MaxClique.Search | graph/src/MaxCliqueAlgorithm.cpp:96-113 | on any matrix that agrees with the graph off the diagonal, the printed clique is a clique of the graph; on a loop-free one it is a largest clique of at least one vertex |
| MaxClique.Run | graph/src/MaxCliqueAlgorithm.cpp:90-114 | the empty message for n == 0; otherwise, on the matrix as written, the size and nodes of a clique of the graph, and of a largest clique when the graph has no self-loop |
| MaxClique.RunLoopFree | graph/src/MaxCliqueAlgorithm.cpp:90-114 | the corrected `run` on the loop-free matrix: for every non-empty graph, the size and nodes of a largest clique |
| MaxClique.LoneLoopDominated | graph/src/MaxCliqueAlgorithm.cpp:39-68 | with a self-loop on vertex 0 of a one-vertex graph, the pivot dominates P, so no candidate remains |
| MaxClique.SelfLoopDominated | graph/src/MaxCliqueAlgorithm.cpp:46-68 | branching on a self-looped vertex `v` gives a call whose new P contains `v`, adjacent to all of it, so that call reports no new clique |
| MaxClique.SelfLoopHidesVertex | graph/src/MaxCliqueAlgorithm.cpp:24-30 | as written, one vertex with a self-loop is a clique of size 1, yet the search reports 0 |
| Factory.ToUpper | graph/src/AlgorithmFactory.cpp:17-21 | the copy has the same length and is `toupper` character by character |
| Factory.CreateAlgorithm | graph/src/AlgorithmFactory.cpp:15-35 | an algorithm exactly when the upper-cased name is one of the five names, namely the one with that name; otherwise nothing |
| Factory.NamesDistinct | graph/src/AlgorithmFactory.cpp:22-31 | the five names are distinct, so each maps to its own algorithm |
| Factory.LookupFindsName | graph/AlgorithmFactory.cpp:21-31 | the dispatch gives an algorithm exactly for its name and nothing for any other string |
| Factory.CaseInsensitive | graph/AlgorithmFactory.h:12-14 | names differing only in letter case give the same result |
| Factory.UpperIdempotent | graph/AlgorithmFactory.cpp:17-20 | upper-casing an upper-cased name changes nothing |
| Factory.CreatedName | graph/header/EulerAlgorithm.h:15 | a non-null result's `name()` is the upper-cased request, and each `name()` finds its own algorithm |
| Factory.UpperOfName | graph/header/MaxCliqueAlgorithm.h:11 | every `name()` is already upper case |
| RandomGraph.Validate | graph/RandomGraph.cpp:16-32 | negative arguments, then too many edges, are rejected, exactly in those cases |
| RandomGraph.Vertex | graph/RandomGraph.cpp:36 | a drawn vertex lies in `[0, vertices)` |
| RandomGraph.Weight | graph/RandomGraph.cpp:35 | a drawn weight lies in `[minWeight, maxWeight]` |
| RandomGraph.FillFacts | graph/RandomGraph.cpp:38-55 | the loop ends with exactly `edges` keys, distinct keys of distinct vertices, one graph edge per key and weights in range |
| RandomGraph.SimpleMeansNoRepeats | graph/RandomGraph.cpp:43-52 | the generated graph has at most one edge per key, none for an unused key |
| RandomGraph.GeneratedFacts | graph/RandomGraph.cpp:38-56 | a generated graph has `edges` edges, twice as many list entries when undirected, no self-loop, no repeat, weights in range |
| RandomGraph.Draw | graph/RandomGraph.cpp:40-54 | one accepted draw adds the edge that the loop's meaning adds next, or reports that draws ran out |
| RandomGraph.GenerateRandomGraph | graph/RandomGraph.cpp:13-57 | the status is each error exactly in its case, with the bound as written (`n*n`, or `n(n+1)/2` undirected); a request above the loop-free bound but within that one never yields a graph; a graph is returned exactly when generation succeeds, and it is the one the loop's meaning gives |
| RandomGraph.BeyondReachNeverFills | graph/RandomGraph.cpp:20-55 | a request that passes validation but exceeds the loop-free bound is completed by no draw sequence |
| RandomGraph.KeysWithinBound | graph/RandomGraph.cpp:43-49 | a set of accepted keys never exceeds `n(n-1)`, or `n(n-1)/2` undirected |
| RandomGraph.AcceptedExactlyWhenReachable | graph/RandomGraph.cpp:20-32 | with the corrected bound, a request is accepted exactly when some draws can complete it |
| RandomGraph.AsWrittenCountsLoops | graph/RandomGraph.cpp:20-29 | the bound as written exceeds the reachable one by `n`, the self-loops the loop rejects |
| RandomGraph.SelfLoopBudgetNeverMet | graph/RandomGraph.cpp:39-42 | as written, 1 vertex and 1 edge pass validation, but no draws ever complete them |
| Reactor.InsertCorrect | fd_polling.cpp:63-68 | `insert` keeps the table in fd order, adds an absent fd and leaves a present one alone |
| Reactor.EraseCorrect | fd_polling.cpp:70-75 | `erase` keeps the order and removes exactly that fd |
| Reactor.DispatchCorrect | fd_polling.cpp:57-59 | the fired entries are exactly the registered ones whose `revents` has POLLIN, with their callbacks |
| Reactor.DispatchOrdered | fd_polling.cpp:56-59 | callbacks fire in ascending fd order |
| Reactor.FdPolling.AddFd | fd_polling.cpp:63-68 | the table gains the fd unless already present, and the result is 0 |
| Reactor.FdPolling.RemoveFd | fd_polling.cpp:70-75 | the table loses the fd, and the result is 0 |
| Reactor.FdPolling.Requests | fd_polling.cpp:45-47 | one request per registered fd in order, asking and preset for POLLIN |
| Reactor.FdPolling.Perform | fd_polling.cpp:63-75 | a callback's table changes are applied in order |
| Reactor.FdPolling.React | fd_polling.cpp:42-61 | the callbacks fired are those of the table copied before dispatch; the table afterwards is what their calls made of it |
| Reactor.PollReactor | fd_polling.cpp:106-109 | a null reactor does nothing; otherwise one `react` |
| Reactor.AddFdToReactor | fd_polling.cpp:111-117 | -1 exactly for a null reactor; otherwise `addFd` |
| Reactor.RemoveFdFromReactor | fd_polling.cpp:119-125 | -1 exactly for a null reactor; otherwise `removeFd` |
| Reactor.Without | fd_polling.cpp:134 | `std::erase` drops every copy of the reactor and keeps the others |
| Reactor.Registry.StartReactor | fd_polling.cpp:96-104 | a new empty reactor, appended to the registry |
| Reactor.Registry.StopReactor | fd_polling.cpp:127-137 | 0 for null with no change; otherwise the reactor leaves the registry and 0 |
| Reactor.Registry.StopAllReactors | fd_polling.cpp:139-143 | stops every registered reactor, then empties the registry |
| PthTools.After | PthTools.hpp:15-20 | the slot gets the routine's result only when both the routine and the slot are set |
| PthTools.Calls | PthTools.hpp:16-17 | the routine runs once on `args` exactly when it is non-null |
| PthTools.Invoke | PthTools.hpp:15-20 | `operator()` calls the routine as above and writes through `ret_ptr` as above |

## Left out

- Threads, mutexes, `pthread` start/cancel, the proactor and the server around the algorithms: they are outside this core. `fd_polling::start` and `stop` are modelled as returning 0, as the source does with its bodies commented out.
- `poll` itself is left out. `Reactor.FdPolling.React` takes the `revents` it leaves behind as an input; the preset POLLIN matters only when `poll` leaves the field untouched.
- Reactor.FdPolling.React: a callback's side effects are modelled only as the `addFd`/`removeFd` calls it makes on its own reactor, given as an input per fd.
- Reactor: the `perror` messages written to standard error (fd_polling.cpp:113 and :121 on a null reactor, and :99 and :131 when `start` or `stop` fails, which never happens since both return 0) are not modelled; nothing in the core reads standard error.
- Reactor: calling a null `fd_func` from the table is not modelled, and registered callbacks are function addresses.
- Reactor.Registry.StopAllReactors: the source erases from `reactors` while iterating over it, which is undefined behaviour in C++. The model iterates over a copy, which is what the code evidently means.
- Reactor.Registry.StopReactor: `delete r` and the destructor are not modelled; the dropped reactor simply stays allocated.
- PthTools: `void *` values are integers, and the routine is a mathematical function (its own effects are not modelled), so nothing is claimed about calling `operator()` twice.
- GraphText.ToString, RoundTrip.RoundTripBlankLine, RoundTrip.RoundTripExactly, RoundTrip.ToStringFromString: `to_string` (graph/Graph.cpp:51-60) writes into a `std::ostrstream` and never writes `std::ends`. `s.str()` is therefore not NUL-terminated, so building the returned string reads past the end of the buffer, which is undefined behaviour, and the frozen buffer is never released. The model ends the text at the last `std::endl`, which is evidently what is meant. The outcomes for an empty list (`MissingAdjacencyList`, and the "only if" half of the exact round trip) hold only under that reading. With stray bytes after the text, the load can instead succeed or fail with another error.
- The decimal streams (`ostringstream`, `ostrstream`, `istringstream`) are modelled by `Text` for the integers the graph format uses. `>>` on an `int` that overflows is not modelled (integers are unbounded). `>> bool` accepts only 0 and 1, as the model does.
- `long long` overflow in `MaxFlow` and `Mst` totals, and `int` overflow of weights and sums: integers are unbounded.
- Mst.Run: minimality is proved for symmetric lists, which `addEdge` keeps in an undirected graph; the `Graph` invariant alone does not say the lists are symmetric, so the weight of an arbitrary `GraphView` is only proved to be that of a spanning tree. Spanning trees are compared as trees rooted at vertex 0 in which every other vertex hangs from one list entry.
- Mst.PopMin: ties between equal weights in `std::priority_queue` are broken by the lowest index here; the heap's own order is not modelled.
- Scc.ReversedReverses, Scc.CountComponents, Scc.Kosaraju and Scc.Run: an undirected graph is required to be symmetric, for the same reason as `Euler.Run` below: `reversed()` copies the lists of an undirected graph, and only symmetric lists make that copy the reverse of every link.
- Euler.Run: an undirected graph is required to be symmetric (every weight listed at both ends). `addEdge` and `from_string` always build such graphs (`Graphs.Graph.AddEdge` preserves it).
- Graphs.Graph.constructor: a negative vertex count is excluded by the precondition. In C++ the vector constructor throws, and `GraphText.Parse` reports that case as `NegativeVertexCount`.
- RandomGraph.GenerateRandomGraph: `mt19937` and the uniform distributions are replaced by a supplied sequence of draws, one draw `d` giving vertex `d % n` and weight `minWeight + d % (maxWeight - minWeight + 1)`. A finite sequence can run out, which is the extra `DrawsExhausted` status. The `seed` parameter is therefore dropped.
- RandomGraph.GenerateRandomGraph requires `minWeight <= maxWeight`, which `uniform_int_distribution` demands of its caller.
- The algorithms read the graph as a value (`GraphView`), as they receive a `const Graph &`. The matrices and sets of `MaxFlow` and `MaxClique` are values, and `R` is passed by value in the model.
- The second copies of `Graph` (graph/src/Graph.cpp) and `createAlgorithm` (graph/AlgorithmFactory.cpp) do the same as the first, so each is modelled once.

## Findings

| source | as written | input that shows it | evidently intended | confidence | as-written member | corrected member |
|---|---|---|---|---|---|---|
| graph/src/MaxCliqueAlgorithm.cpp:24-30 | a self-loop `(v,v)` sets `adj[v][v]`; the looped vertex then counts as its own neighbour, so as a pivot it dominates every candidate and is never reported | one vertex with a self-loop: the clique `{0}` exists, yet "Maximum clique size: 0" is printed | ignore the diagonal, so every vertex forms a clique of size 1 | not executed | MaxClique.SelfLoopHidesVertex | MaxClique.RunLoopFree |
| graph/RandomGraph.cpp:20-32 | the bound counts self-loops (`n*n`, `n*(n+1)/2`), but the loop at line 42 rejects `u == v` | `vertices = 1, edges = 1` passes validation, and the loop never adds an edge | the loop-free bound `n*(n-1)`, or `n*(n-1)/2` undirected | not executed | RandomGraph.SelfLoopBudgetNeverMet | RandomGraph.AcceptedExactlyWhenReachable |

# graph-extras pathfinding, modelled in Dafny

graph-extras adds shortest-path algorithms to Guava's `Network` graphs.
Every pathfinder keeps the network it was built for and a function giving
each edge its weight. `findPath(source, destination)` returns the list of
nodes from source to destination, or the empty list when the destination
cannot be reached. This project models the pathfinders and their helpers:

- **A\*.** A priority queue of (node, fScore) entries, a closed set, a
  parents tree and a gScore map. These are fields of the pathfinder, and
  every search reuses them.
- **Dijkstra.** A\* under the heuristic that is zero everywhere.
- **IDA\*.** Depth-first searches bounded by a cost threshold. Each one
  starts from the stack holding only the source. When a search cuts paths
  off, the threshold rises to the cheapest total it cut off.
- **`reconstructPath`.** Walks the parents tree back from the destination.
- **Distance estimates.** The heuristics over two accessor functions and
  over arrays of coordinates.

The modules:

- **`Graphs`.** The network as a finite value. It holds nodes, successor
  lists in iteration order, and edges with their identity and endpoints.
  Its invariants are the ones Guava keeps (`Valid`). The `edgeConnecting`
  lookup is `EdgeIndex`.
- **`Base`.** The shared part, `AbstractPathfinder`: the network and the
  weight function, which are final. It also holds path costs and the
  lemmas about them.
- **`HeuristicBase`.** `AbstractHeuristicPathfinder`, a class with one
  mutable field: the heuristic.
- **`AStar`, `AStarInvariants`, `AStarLemmas`.** The A\* class:
  - every step of its search loop as a method, over the fields;
  - the invariant the loop keeps, over a snapshot of those fields;
  - the lemmas that show each step keeps it.
- **`Dijkstra`.** The Dijkstra class, which delegates to an A\* pathfinder
  built with the zero heuristic.
- **`IDAStar`.** The IDA\* class and the `ArrayDeque` it pushes onto.
- **`IDAStarSearch`.** `idaSearch` as a function (`Search`, with the
  successor loop as `Scan`) and the facts about it.
- **`IDAStarDeepening`.** The outer threshold loop as a function
  (`Deepen`) and what it promises.
- **`Pathfinders`.** `reconstructPath`.
- **`Heuristics`, `TwoDimensionalHeuristics`.** The distance estimates.
- **`Wrappers`.**
  - `Option`, where a Java reference may be `null`;
  - `Result`, where Java throws.

Inheritance is modelled by holding the base class:
- an `AbstractHeuristicPathfinder` holds the `AbstractPathfinder` value;
- the A\* and IDA\* classes hold an `AbstractHeuristicPathfinder`.

A Java constructor that throws becomes a `Create` method that returns
`Result`. It runs the same checks in the same order.

Edge weights and heuristic values are `real`, not IEEE doubles.
`Double.MAX_VALUE` becomes an explicit "infinite" value:
- `Inf` among the scores of IDA\*;
- an absent gScore in A\*.

Which `idaSearch` test comes first is a parameter of the search model
(`Order`):
- `DestinationFirst` is the order the Java code uses;
- `ThresholdFirst` is the textbook order.

The IDA\* class uses the Java order. Both orders are proved to return a
path without repeated nodes, or the empty list only when no path exists.
Only the textbook order is proved to return a path of least cost. The
finding below shows that the Java order does not.

## Model

| member | source | states |
|---|---|---|
| Base.Create | src/main/java/com/github/graphextras/algorithms/AbstractPathfinder.java:22-27 | the constructor's checks, in order: a null graph throws NullPointer; a graph allowing parallel edges throws IllegalArgument; then a null weight function throws NullPointer; otherwise it keeps the graph and the weight function |
| Base.WeightIsFunction | src/main/java/com/github/graphextras/algorithms/AbstractPathfinder.java:45-47 | without parallel edges, the weight of the edge `edgeConnecting` finds between an edge's endpoints is that edge's own weight |
| Base.PathCostAppend | src/main/java/com/github/graphextras/algorithms/AStarPathfinder.java:89-90 | extending a path by an edge keeps it linked and adds exactly that edge's weight to its cost |
| Base.PathCostNonNegative | src/main/java/com/github/graphextras/algorithms/AStarPathfinder.java:88-100 | with no negative weight, no path costs less than zero |
| Base.PathCostSplit | src/main/java/com/github/graphextras/algorithms/AStarPathfinder.java:88-100 | cutting a path at any node splits its cost exactly between the two halves |
| Base.PathCostJoin | src/main/java/com/github/graphextras/algorithms/IDAStarPathfinder.java:78-95 | joining two paths that meet at a node gives a linked path costing the sum of the two |
| Base.CycleCheaper | src/main/java/com/github/graphextras/algorithms/IDAStarPathfinder.java:80 | with no negative weight, cutting out a cycle leaves a linked path that costs no more |
| Base.SimplePathCheaper | src/main/java/com/github/graphextras/algorithms/IDAStarPathfinder.java:80 | with no negative weight, every path has a path between the same endpoints with no repeated node that costs no more |
| Graphs.EdgeIsUnique | src/main/java/com/github/graphextras/algorithms/AbstractPathfinder.java:23-24 | without parallel edges, `edgeConnecting` between an edge's endpoints finds that edge |
| Graphs.EdgeIndexFirst | src/main/java/com/github/graphextras/algorithms/AStarPathfinder.java:90 | `edgeConnecting` finds the first edge between the two nodes, and finds nothing only when no edge joins them |
| Graphs.AdjacentIsSuccessor | src/main/java/com/github/graphextras/algorithms/AStarPathfinder.java:88 | in a valid network, two nodes joined by an edge are nodes, and the second is listed among the successors of the first |
| Graphs.SuccessorIsAdjacent | src/main/java/com/github/graphextras/algorithms/IDAStarPathfinder.java:79-85 | in a valid network, a listed successor is a node joined to its predecessor by an edge, so `orElseThrow` never throws |
| Graphs.SimplePathExists | src/main/java/com/github/graphextras/algorithms/IDAStarPathfinder.java:80 | removing cycles from a path leaves a path between the same endpoints with no repeated node and no more nodes |
| HeuristicBase.AbstractHeuristicPathfinder.constructor | src/main/java/com/github/graphextras/algorithms/AbstractHeuristicPathfinder.java:19-23 | keeps the base pathfinder and the heuristic |
| HeuristicBase.AbstractHeuristicPathfinder.SetHeuristic | src/main/java/com/github/graphextras/algorithms/AbstractHeuristicPathfinder.java:37-39 | a null heuristic throws NullPointer and keeps the old one; otherwise every later estimate is the new function's |
| HeuristicBase.Create | src/main/java/com/github/graphextras/algorithms/AbstractHeuristicPathfinder.java:19-23 | the checks of the base constructor first, then the null check of the heuristic; on success the fields are the arguments |
| Pathfinders.Reversed | src/main/java/com/github/graphextras/algorithms/Pathfinders.java:35 | `Collections.reverse`: the same length, with the element at i taken from the mirrored position |
| Pathfinders.ReconstructPath | src/main/java/com/github/graphextras/algorithms/Pathfinders.java:25-37 | empty when the target has no parent; otherwise a path that ends at the target, starts at a node that is its own parent, and has each later node's parent as its predecessor; a target that is its own parent gives the one-node path |
| AStar.AStarPathfinder.constructor | src/main/java/com/github/graphextras/algorithms/AStarPathfinder.java:29-43 | keeps the base parts; the fringe, closed set, parents and gScore start empty |
| AStar.AStarPathfinder.Initialize | src/main/java/com/github/graphextras/algorithms/AStarPathfinder.java:66-74 | the closed set, gScore and fringe are cleared; parents keeps its old entries; the source becomes its own parent with score 0 and is pushed with its heuristic estimate |
| AStar.AStarPathfinder.Relax | src/main/java/com/github/graphextras/algorithms/AStarPathfinder.java:88-100 | the new state is the relaxation of the edge: on a strict improvement (an absent score counts as infinite) the successor gets the current node as parent, the tentative score, and a fringe entry with the new fScore; otherwise nothing changes |
| AStar.AStarPathfinder.Expand | src/main/java/com/github/graphextras/algorithms/AStarPathfinder.java:88-100 | the new state is the relaxation of the edge to each successor in iteration order; this restores the loop invariant, keeps every visited node's score no higher than any path to it under a consistent heuristic, and leaves the closed set unchanged |
| AStarInvariants.RelaxAll | src/main/java/com/github/graphextras/algorithms/AStarPathfinder.java:88-100 | relaxing the edges to a list of successors in order keeps the expanded node scored and leaves the closed set alone |
| AStar.AStarPathfinder.Poll | src/main/java/com/github/graphextras/algorithms/AStarPathfinder.java:81 | `poll` removes one entry of least priority, and only that entry |
| AStar.AStarPathfinder.Step | src/main/java/com/github/graphextras/algorithms/AStarPathfinder.java:80-101 | one turn of the loop polls an entry of least priority; for the destination it returns the answer and only that entry leaves the fringe; otherwise the new state is that of the turn, and it keeps the invariant while shrinking the unvisited nodes or the fringe |
| AStar.AStarPathfinder.Conclude | src/main/java/com/github/graphextras/algorithms/AStarPathfinder.java:83-84 | when the destination is polled, the path read off the parents goes from the source to it, costing at most its score, and is optimal under a consistent heuristic |
| AStar.AStarPathfinder.Visit | src/main/java/com/github/graphextras/algorithms/AStarPathfinder.java:86-101 | the new state is that of the turn: a node polled for the first time is marked and its successors relaxed in order; for a stale entry only the entry is dropped; either way the invariant holds and the measure falls |
| AStar.AStarPathfinder.FindPath | src/main/java/com/github/graphextras/algorithms/AStarPathfinder.java:76-104 | an unknown source is returned as its own path when it is the destination, and otherwise throws; from a known source: a path from source to destination costing at most its gScore; the one-node path when they coincide; the empty list only when no path exists; under a consistent heuristic a path of least cost |
| AStar.Create | src/main/java/com/github/graphextras/algorithms/AStarPathfinder.java:54-57 | the checks of the base classes in order; the search fields start empty |
| AStarLemmas.ConsistentStep | src/main/java/com/github/graphextras/algorithms/AStarPathfinder.java:95-97 | a consistent heuristic drops across an edge by at most the edge's weight |
| AStarLemmas.ConsistentAlongPath | src/main/java/com/github/graphextras/algorithms/AStarPathfinder.java:95-97 | under a consistent heuristic, the estimate drops along any path by at most the path's cost |
| AStarLemmas.InitialInv | src/main/java/com/github/graphextras/algorithms/AStarPathfinder.java:66-74 | the state after `initialize` satisfies the loop invariant |
| AStarLemmas.LeastExists | src/main/java/com/github/graphextras/algorithms/AStarPathfinder.java:81 | a non-empty fringe has an entry of least priority |
| AStarLemmas.PoppedPending | src/main/java/com/github/graphextras/algorithms/AStarPathfinder.java:81-87 | removing an entry whose node is visited keeps every unvisited scored node pending, and the fringe sound |
| AStarLemmas.PopStale | src/main/java/com/github/graphextras/algorithms/AStarPathfinder.java:86 | dropping an entry for a node already visited keeps the invariant and optimality |
| AStarLemmas.FirstUnvisited | src/main/java/com/github/graphextras/algorithms/AStarPathfinder.java:80-101 | a sequence ending at an unvisited node has a first unvisited node, whose predecessor is visited |
| AStarLemmas.FrontierScore | src/main/java/com/github/graphextras/algorithms/AStarPathfinder.java:88-100 | the first unvisited node on a path from the source is scored no higher than the path up to it |
| AStarLemmas.PendingEntry | src/main/java/com/github/graphextras/algorithms/AStarPathfinder.java:95-98 | every scored, unvisited node has a fringe entry carrying its current fScore |
| AStarLemmas.CostChain | src/main/java/com/github/graphextras/algorithms/AStarPathfinder.java:81 | chains the bounds behind optimality: the least priority lies between the popped node's fScore and that of the first unvisited node on a path |
| AStarLemmas.PopOptimal | src/main/java/com/github/graphextras/algorithms/AStarPathfinder.java:81-87 | under a consistent heuristic, an unvisited node of least priority already has a score no higher than any path to it |
| AStarLemmas.PoppedExpanding | src/main/java/com/github/graphextras/algorithms/AStarPathfinder.java:86-88 | marking the polled node visited leaves every visited node expanded except that one |
| AStarLemmas.PoppedOptimal | src/main/java/com/github/graphextras/algorithms/AStarPathfinder.java:86-87 | under a consistent heuristic, no path reaches a visited node more cheaply than its score, including the node just marked |
| AStarLemmas.PopFresh | src/main/java/com/github/graphextras/algorithms/AStarPathfinder.java:86-88 | marking a newly polled node visited gives the invariant for expanding that node |
| AStarLemmas.Visits | src/main/java/com/github/graphextras/algorithms/AStarPathfinder.java:86-87 | visiting a new node of the network shrinks the set of unvisited nodes |
| AStarLemmas.ImprovesFacts | src/main/java/com/github/graphextras/algorithms/AStarPathfinder.java:92 | an improving relaxation targets neither the source nor the node being expanded, and its score is not negative |
| AStarLemmas.RelaxScored | src/main/java/com/github/graphextras/algorithms/AStarPathfinder.java:93-94 | relaxation keeps the source rooted, and every scored node a network node with a parent |
| AStarLemmas.RelaxLinks | src/main/java/com/github/graphextras/algorithms/AStarPathfinder.java:93-94 | relaxation keeps every scored node linked to its parent by an edge, newer in (score, stamp) order |
| AStarLemmas.RelaxWitnessed | src/main/java/com/github/graphextras/algorithms/AStarPathfinder.java:93-94 | relaxation keeps, for every scored node, a path from the source costing at most its score |
| AStarLemmas.RelaxFringeSound | src/main/java/com/github/graphextras/algorithms/AStarPathfinder.java:95-98 | relaxation keeps every fringe entry at or above its node's score plus estimate |
| AStarLemmas.RelaxPending | src/main/java/com/github/graphextras/algorithms/AStarPathfinder.java:95-98 | relaxation keeps every scored, unvisited node with a current fringe entry |
| AStarLemmas.VisitedNotImproved | src/main/java/com/github/graphextras/algorithms/AStarPathfinder.java:92 | under optimality, no relaxation improves a node already visited |
| AStarLemmas.RelaxExpanding | src/main/java/com/github/graphextras/algorithms/AStarPathfinder.java:88-100 | relaxing a successor marks it as done in the expansion, scored no higher than the expanded node plus the edge under a consistent heuristic |
| AStarLemmas.RelaxOptimal | src/main/java/com/github/graphextras/algorithms/AStarPathfinder.java:92-94 | relaxation keeps every visited node's score no higher than any path to it |
| AStarLemmas.RelaxPreserves | src/main/java/com/github/graphextras/algorithms/AStarPathfinder.java:88-100 | relaxing one successor keeps the expansion invariant and optimality, and leaves the closed set alone |
| AStarLemmas.FinishExpanding | src/main/java/com/github/graphextras/algorithms/AStarPathfinder.java:88-100 | once every successor is relaxed it is expanded, and the loop invariant holds again |
| AStarLemmas.RootedMonotone | src/main/java/com/github/graphextras/algorithms/Pathfinders.java:31-34 | a parent chain that reaches a root within n steps reaches it within any larger number |
| AStarLemmas.OlderShrinks | src/main/java/com/github/graphextras/algorithms/AStarPathfinder.java:92-94 | a parent is strictly older than its child in (score, stamp) order |
| AStarLemmas.SelfParentIsSource | src/main/java/com/github/graphextras/algorithms/Pathfinders.java:31 | only the source is its own parent |
| AStarLemmas.ChainRooted | src/main/java/com/github/graphextras/algorithms/Pathfinders.java:31-34 | parent links never form a cycle: from every scored node they reach the source, so `reconstructPath` ends |
| AStarLemmas.ParentPathFacts | src/main/java/com/github/graphextras/algorithms/Pathfinders.java:25-37 | a parent path ending at a scored node starts at the source, is a path of the network, and costs at most the end's score |
| AStarLemmas.ScoredIsVisited | src/main/java/com/github/graphextras/algorithms/AStarPathfinder.java:80 | with the fringe empty, every scored node is visited |
| AStarLemmas.ReachableVisited | src/main/java/com/github/graphextras/algorithms/AStarPathfinder.java:80-103 | when the fringe runs dry, every node reachable from the source is visited |
| AStarLemmas.Unreachable | src/main/java/com/github/graphextras/algorithms/AStarPathfinder.java:103 | when the fringe runs dry without the destination, no path reaches it |
| AStarLemmas.Found | src/main/java/com/github/graphextras/algorithms/AStarPathfinder.java:83-84 | the path when the destination is polled goes from the source to it, costs at most its score, and under a consistent heuristic costs exactly that and undercuts every path |
| Dijkstra.ZeroConsistent | src/main/java/com/github/graphextras/algorithms/DijkstraPathfinder.java:29 | the zero heuristic is consistent exactly when no weight is negative |
| Dijkstra.DijkstraPathfinder.constructor | src/main/java/com/github/graphextras/algorithms/DijkstraPathfinder.java:28-30 | keeps the A\* pathfinder it wraps |
| Dijkstra.DijkstraPathfinder.FindPath | src/main/java/com/github/graphextras/algorithms/DijkstraPathfinder.java:33-35 | the A\* result, which with no negative weight is a path of least cost, or the empty list only when no path exists; unknown sources as in A\* |
| Dijkstra.Create | src/main/java/com/github/graphextras/algorithms/DijkstraPathfinder.java:28-30 | builds the A\* pathfinder with the zero heuristic: only the graph and weight checks can fail |
| IDAStar.Deque.constructor | src/main/java/com/github/graphextras/algorithms/IDAStarPathfinder.java:43 | a new deque is empty |
| IDAStar.Deque.AddLast | src/main/java/com/github/graphextras/algorithms/IDAStarPathfinder.java:46 | `addLast` appends the node on top |
| IDAStar.Deque.RemoveLast | src/main/java/com/github/graphextras/algorithms/IDAStarPathfinder.java:94 | `removeLast` removes and returns the top, or fails on an empty deque |
| IDAStar.Deque.PeekLast | src/main/java/com/github/graphextras/algorithms/IDAStarPathfinder.java:70 | `peekLast` is the top node, or null exactly when the deque is empty |
| IDAStar.IDAStarPathfinder.constructor | src/main/java/com/github/graphextras/algorithms/IDAStarPathfinder.java:36-39 | keeps the heuristic pathfinder it extends |
| IDAStar.IDAStarPathfinder.IdaSearch | src/main/java/com/github/graphextras/algorithms/IDAStarPathfinder.java:69-106 | the score returned and the deque left behind are those of the search model with the destination checked first |
| IDAStar.IDAStarPathfinder.ScanSuccessors | src/main/java/com/github/graphextras/algorithms/IDAStarPathfinder.java:78-100 | the loop over the successors gives the scan model's result: the least score, or FOUND as soon as a successor finds the destination |
| IDAStar.IDAStarPathfinder.Descend | src/main/java/com/github/graphextras/algorithms/IDAStarPathfinder.java:80-95 | pushes the successor, searches from it at the depth of the edge, and pops it unless the destination was found |
| IDAStar.IDAStarPathfinder.FindPath | src/main/java/com/github/graphextras/algorithms/IDAStarPathfinder.java:42-54 | an unknown source as in A\*; from a known source, the deepening loop's result from the estimate at the source: a path without repeated nodes from source to destination, the one-node path when they coincide, and the empty list only when no path exists |
| IDAStar.Create | src/main/java/com/github/graphextras/algorithms/IDAStarPathfinder.java:36-39 | the checks of the base classes, in order |
| IDAStarSearch.ExtendsBack | src/main/java/com/github/graphextras/algorithms/IDAStarPathfinder.java:80-81 | an extension of the stack pushed with a new successor extends the stack |
| IDAStarSearch.ExtendsFirst | src/main/java/com/github/graphextras/algorithms/IDAStarPathfinder.java:80-81 | the first node an extension pushes is a successor of the top, not on the stack |
| IDAStarSearch.ExtendsSource | src/main/java/com/github/graphextras/algorithms/IDAStarPathfinder.java:80-81 | the extensions of the one-node stack are the linked paths from it with no repeated node |
| IDAStarSearch.Push | src/main/java/com/github/graphextras/algorithms/IDAStarPathfinder.java:80-81 | pushing a node not on the stack leaves fewer nodes that can still be pushed |
| IDAStarSearch.Successor | src/main/java/com/github/graphextras/algorithms/IDAStarPathfinder.java:79-81 | each successor to scan is a node joined to the top by an edge |
| IDAStarSearch.SearchStep | src/main/java/com/github/graphextras/algorithms/IDAStarPathfinder.java:73-105 | a search returns FOUND when the destination is on top, scans when the total is within the threshold, and otherwise returns the total |
| IDAStarSearch.ScanStep | src/main/java/com/github/graphextras/algorithms/IDAStarPathfinder.java:79-95 | one turn of the loop skips a successor on the stack, and otherwise folds in the search from it at the depth of the edge |
| IDAStarSearch.SearchKeeps | src/main/java/com/github/graphextras/algorithms/IDAStarPathfinder.java:94 | a search that does not find the destination leaves the stack as it was |
| IDAStarSearch.ScanKeeps | src/main/java/com/github/graphextras/algorithms/IDAStarPathfinder.java:94 | a scan that does not find the destination leaves the stack as it was |
| IDAStarSearch.SearchFinds | src/main/java/com/github/graphextras/algorithms/IDAStarPathfinder.java:88-89 | a search that finds the destination leaves an extension of its stack |
| IDAStarSearch.ScanFinds | src/main/java/com/github/graphextras/algorithms/IDAStarPathfinder.java:88-89 | a scan that finds the destination leaves an extension of its stack |
| IDAStarSearch.SearchEnds | src/main/java/com/github/graphextras/algorithms/IDAStarPathfinder.java:73-75 | a search that finds the destination leaves it on top |
| IDAStarSearch.ScanEnds | src/main/java/com/github/graphextras/algorithms/IDAStarPathfinder.java:88-89 | a scan that finds the destination leaves it on top |
| IDAStarSearch.SearchAbove | src/main/java/com/github/graphextras/algorithms/IDAStarPathfinder.java:77-105 | a reported cost is above the threshold |
| IDAStarSearch.ScanAbove | src/main/java/com/github/graphextras/algorithms/IDAStarPathfinder.java:91-93 | a scan reports a cost above the threshold when it starts from one |
| IDAStarSearch.SearchTotal | src/main/java/com/github/graphextras/algorithms/IDAStarPathfinder.java:71-105 | a reported cost is one of the finitely many totals the search can compute |
| IDAStarSearch.ScanTotal | src/main/java/com/github/graphextras/algorithms/IDAStarPathfinder.java:91-100 | a scan reports a total or the value it started from |
| IDAStarSearch.ScanKeepsCost | src/main/java/com/github/graphextras/algorithms/IDAStarPathfinder.java:91-93 | a scan that starts from a cost never reports `MAX_VALUE` |
| IDAStarSearch.ScanInf | src/main/java/com/github/graphextras/algorithms/IDAStarPathfinder.java:91-100 | a scan reporting `MAX_VALUE` got `MAX_VALUE` from every successor off the stack |
| IDAStarSearch.ScanAtMost | src/main/java/com/github/graphextras/algorithms/IDAStarPathfinder.java:91-93 | the least score kept by a scan never rises |
| IDAStarSearch.ScanLeast | src/main/java/com/github/graphextras/algorithms/IDAStarPathfinder.java:91-100 | a scan that finds nothing reports no more than any successor off the stack |
| IDAStarSearch.SearchLeast | src/main/java/com/github/graphextras/algorithms/IDAStarPathfinder.java:77-100 | a search that expands its top and finds nothing reports no more than the search from any successor off the stack |
| IDAStarSearch.SearchInf | src/main/java/com/github/graphextras/algorithms/IDAStarPathfinder.java:78-100 | a search reporting `MAX_VALUE` has no extension reaching the destination |
| IDAStarSearch.InfChild | src/main/java/com/github/graphextras/algorithms/IDAStarPathfinder.java:80-87 | under a search reporting `MAX_VALUE`, every child search reports `MAX_VALUE` too |
| IDAStarDeepening.ThresholdRises | src/main/java/com/github/graphextras/algorithms/IDAStarPathfinder.java:47-52 | raising the threshold to a cut-off total leaves fewer totals above it, so the loop ends |
| IDAStarDeepening.Reached | src/main/java/com/github/graphextras/algorithms/IDAStarPathfinder.java:49-50 | a search from the source that finds the destination leaves a path between them without repeated nodes |
| IDAStarDeepening.Unreachable | src/main/java/com/github/graphextras/algorithms/IDAStarPathfinder.java:52-53 | a search from the source that cuts nothing off and does not find the destination rules out every path |
| IDAStarDeepening.DeepenSound | src/main/java/com/github/graphextras/algorithms/IDAStarPathfinder.java:42-54 | for either order of the tests: a path from source to destination without repeated nodes, the one-node path when they coincide, and the empty list only when no path exists |
| IDAStarDeepening.ExtCostFirst | src/main/java/com/github/graphextras/algorithms/IDAStarPathfinder.java:80-87 | the cost an extension adds is the weight of its first edge plus the cost it adds above that node |
| IDAStarDeepening.ExtCostSuffix | src/main/java/com/github/graphextras/algorithms/IDAStarPathfinder.java:82-86 | the cost an extension adds is the path cost of its part from the old top |
| IDAStarDeepening.SuffixLinked | src/main/java/com/github/graphextras/algorithms/IDAStarPathfinder.java:80-81 | the part of an extension from the old top is linked |
| IDAStarDeepening.SearchUnderPaths | src/main/java/com/github/graphextras/algorithms/IDAStarPathfinder.java:77-105 | under an admissible heuristic, a search that does not find the destination reports a cost no greater than depth plus the cost of any extension to the destination |
| IDAStarDeepening.LeastChild | src/main/java/com/github/graphextras/algorithms/IDAStarPathfinder.java:80-93 | the successor that an extension pushes first is searched, and its score is no lower than the parent's |
| IDAStarDeepening.CutUnderPaths | src/main/java/com/github/graphextras/algorithms/IDAStarPathfinder.java:105 | a cut-off total is at most the cost of any extension to the destination, under an admissible heuristic |
| IDAStarDeepening.SearchFoundCost | src/main/java/com/github/graphextras/algorithms/IDAStarPathfinder.java:73-77 | with the threshold checked first, a find is an extension whose depth plus estimate lies within the threshold |
| IDAStarDeepening.ScanFoundCost | src/main/java/com/github/graphextras/algorithms/IDAStarPathfinder.java:79-89 | the same bound for a find inside the successor loop |
| IDAStarDeepening.SearchFoundOptimal | src/main/java/com/github/graphextras/algorithms/IDAStarPathfinder.java:47-50 | with the threshold checked first and no path cheaper than the threshold, a find costs no more than any path |
| IDAStarDeepening.SearchCostBound | src/main/java/com/github/graphextras/algorithms/IDAStarPathfinder.java:47-52 | with the threshold checked first, a search that finds nothing reports a cost no greater than any path to the destination, or `MAX_VALUE` only when none exists |
| IDAStarDeepening.DeepenOptimal | src/main/java/com/github/graphextras/algorithms/IDAStarPathfinder.java:42-54 | with the threshold checked first, from a threshold no greater than any path cost, the loop returns a path of least cost |
| IDAStarDeepening.ThresholdFirstOptimal | src/main/java/com/github/graphextras/algorithms/IDAStarPathfinder.java:42-54 | with the threshold checked first from the estimate at the source, an admissible heuristic and no negative weight, the result is a path of least cost without repeated nodes, or the empty list only when no path exists |
| IDAStarDeepening.DestinationFirstCostlier | src/main/java/com/github/graphextras/algorithms/IDAStarPathfinder.java:73-77 | a valid network, an admissible zero heuristic and non-negative weights on which the Java order returns [0, 2] although the path [0, 1, 2] costs less |
| Heuristics.Manhattan | src/main/java/com/github/graphextras/algorithms/Heuristics.java:24-28 | not negative, zero between equal coordinates, and at least each axis distance |
| Heuristics.Chebyshev | src/main/java/com/github/graphextras/algorithms/Heuristics.java:55-62 | the larger axis distance: not negative, zero between equal coordinates, at most Manhattan |
| Heuristics.OctileAsWritten | src/main/java/com/github/graphextras/algorithms/Heuristics.java:38-45 | the formula as written: not negative, zero between equal coordinates, but never above Chebyshev |
| Heuristics.Octile | src/main/java/com/github/graphextras/algorithms/Heuristics.java:38-45 | the octile distance as intended: between Chebyshev and Manhattan, and zero between equal coordinates |
| Heuristics.OctileAsWrittenDiffers | src/main/java/com/github/graphextras/algorithms/Heuristics.java:43 | on a diagonal move, the formula as written falls below Chebyshev while the intended one lies above it |
| Heuristics.Symmetric | src/main/java/com/github/graphextras/algorithms/Heuristics.java:24-62 | every distance is the same in both directions |
| Heuristics.ManhattanDistance | src/main/java/com/github/graphextras/algorithms/Heuristics.java:24-28 | the lambda returned gives the Manhattan distance of the two nodes, never negative |
| Heuristics.OctileDistance | src/main/java/com/github/graphextras/algorithms/Heuristics.java:38-45 | the lambda returned gives the formula as written, never negative and never above the Chebyshev distance |
| Heuristics.OctileDistanceCorrected | src/main/java/com/github/graphextras/algorithms/Heuristics.java:38-45 | the corrected lambda gives the octile distance, between the Chebyshev and Manhattan distances |
| Heuristics.ChebyshevDistance | src/main/java/com/github/graphextras/algorithms/Heuristics.java:55-62 | the lambda returned gives the Chebyshev distance, never negative and never above the Manhattan distance |
| TwoDimensionalHeuristics.Manhattan2D | src/main/java/com/github/graphextras/algorithms/TwoDimensionalHeuristics.java:19-21 | not negative, zero between equal points, at least each axis distance |
| TwoDimensionalHeuristics.Chebyshev2D | src/main/java/com/github/graphextras/algorithms/TwoDimensionalHeuristics.java:41-47 | the larger axis distance: not negative and zero between equal points |
| TwoDimensionalHeuristics.Octile2D | src/main/java/com/github/graphextras/algorithms/TwoDimensionalHeuristics.java:28-34 | between the Chebyshev and Manhattan distances, zero between equal points |
| TwoDimensionalHeuristics.Symmetric2D | src/main/java/com/github/graphextras/algorithms/TwoDimensionalHeuristics.java:19-47 | the three distances are the same in both directions, and read only the first two coordinates |

## Left out

- Euclidean distance (`src/main/java/com/github/graphextras/algorithms/Heuristics.java:72-79`, `src/main/java/com/github/graphextras/algorithms/TwoDimensionalHeuristics.java:54-60`): it needs a square root, which Dafny's reals lack.
- Floating point: weights, depths and estimates are exact reals, with no rounding, NaN or infinities.
- Null arguments to `findPath`, which the Java code rejects with `requireNonNull` or `Nonnull` annotations: the model's node type has no null.
- The interfaces `Pathfinder`, `HeuristicPathfinder` and `HeuristicFunction`: they only declare methods, and the classes implement those directly.
- `GraphMakers` and `GraphUtils` are not part of this model. Guava's `Network` is modelled only by the queries the pathfinders make.
- Concurrency: the search fields of A\* are shared by all calls, and the model assumes that calls do not overlap.
- The iteration order of `successors` is the order of the model's successor list. The tie order among fringe entries of equal priority is not fixed: `Poll` may return any entry of least priority.
- AStar.AStarPathfinder.FindPath: requires weights that are not negative. With a negative weight the parents tree can form a cycle, and `reconstructPath` then never ends.
- Dijkstra.DijkstraPathfinder.FindPath: requires weights that are not negative, for the same reason.
- AStar.AStarPathfinder.Relax: an absent gScore counts as infinite, where Java uses `Double.MAX_VALUE`. They differ only for a tentative score of `MAX_VALUE` or more.
- IDAStar.IDAStarPathfinder.IdaSearch: `FOUND` is a value of its own. Java codes it as the double -1.0, so a total of exactly -1.0 would read as a find. With no negative weight or estimate that cannot happen.
- IDAStar.IDAStarPathfinder.FindPath: the loop stops when a search cuts nothing off. Java's test `threshold < Double.MAX_VALUE` would also stop on a real total of `MAX_VALUE`.
- IDAStar.IDAStarPathfinder.FindPath: does not promise a path of least cost, because the Java order of tests does not give one (see Findings).
- Pathfinders.ReconstructPath: requires the parent chain to reach a node that is its own parent. Otherwise the Java loop either never ends, or throws `NullPointerException` when the chain reaches a node with no parent entry (`parents.get` returns null). The A\* model proves the chain does reach one.
- TwoDimensionalHeuristics.Manhattan2D: requires arrays of at least two coordinates. Shorter Java arrays throw `ArrayIndexOutOfBoundsException`. The same holds for the other two-dimensional estimates.
- The Java heuristic factories return lambdas. `ManhattanDistance`, `OctileDistance` and `ChebyshevDistance` return the lambdas of the code as written. `OctileDistanceCorrected` returns the corrected octile formula (see Findings). The two-dimensional factories are modelled by their lambda bodies.

## Findings

| source | as written | input that shows it | evidently intended | confidence | as-written member | corrected member |
|---|---|---|---|---|---|---|
| src/main/java/com/github/graphextras/algorithms/Heuristics.java:43 | `SQRT_2 * min(dx, dy) + abs(dx - dy)`, which is max(dx, dy) minus about 0.586 min(dx, dy) | dx = dy = 1: the result is 0.414, below the Chebyshev distance 1 | `max(dx, dy) + SQRT_2 * min(dx, dy)`, as in `src/main/java/com/github/graphextras/algorithms/TwoDimensionalHeuristics.java:32` | not executed | Heuristics.OctileAsWritten, Heuristics.OctileAsWrittenDiffers | Heuristics.Octile, Heuristics.OctileDistanceCorrected |
| src/main/java/com/github/graphextras/algorithms/IDAStarPathfinder.java:73-77 | `idaSearch` accepts the destination before it compares the total with the threshold | nodes 0, 1, 2; edge 0→2 of weight 10, listed first; edges 0→1 and 1→2 of weight 1; zero heuristic: the result is [0, 2] at cost 10, while [0, 1, 2] costs 2 | a path of least cost under an admissible heuristic: test the threshold first | not executed | IDAStarDeepening.DestinationFirstCostlier | IDAStarDeepening.ThresholdFirstOptimal |

# Unsorted min-priority queue and DAG shortest paths, in Dafny

This project models two small algorithm cores and proves what they promise.

- **`UnsortedMinPQ`** (`unsorted_min_pq.dfy`) models an extrinsic min-priority queue kept as an unsorted list of (item, priority) entries.
  - `add` rejects an item that is already stored and otherwise appends it.
  - `contains` searches on the item alone.
  - `peekMin` and `removeMin` scan from the front with a strict `>` comparison, so they pick the *first* entry of minimum priority.
  - `changePriority` overwrites the priority of the first entry holding the item.
  - The queue is an immutable `seq<Entry<T>>`. Each operation returns the new list. The three exceptions `UnsortedCorrect` throws become `Err` results (`AlreadyContains`, `EmptyQueue`, `NotFound`).
- **`Graphs`** (`graphs.dfy`) holds the weighted directed graph the solver works on.
  - A graph is a finite vertex set plus a `neighbors` function listing each vertex's outgoing edges in order.
  - The module defines paths, reachability (optionally avoiding a set of vertices), acyclicity, edge walks and their weight.
- **`PostOrder`** (`post_order.dfy`) models the recursive depth-first postorder with a visited set, and its reversal.
  - On an acyclic graph, the reversal is a topological order of exactly the vertices reachable from the start.
- **`ToposortDag`** (`toposort_dag.dfy`) models the shortest-path solver for directed acyclic graphs.
  - Construction sets the start to distance 0 with no predecessor edge, orders the reachable vertices as above, and relaxes the outgoing edges of each vertex in that order.
  - `Solution` walks the recorded predecessor edges back from a goal and reverses the collected list.
  - A vertex missing from `distTo` is at distance +infinity. A vertex missing from `edgeTo` has no predecessor; this covers both the `null` stored for the start and a vertex never reached.

Besides one-call contracts, the main proved facts are these:

- the computed distances are exactly the shortest walk weights from the start: every walk weighs at least the distance of its end (`DistanceLowerBound`, `Solve`), and the predecessor chain is a walk of exactly that weight (`TreeWalk`, `Solution`);
- the traversal visits exactly the reachable vertices;
- `removeMin` agrees with `peekMin`;
- `add` followed by `removeMin` of a new lowest-priority item gives back the original queue.

To verify, run `dafny verify graphs.dfy post_order.dfy toposort_dag.dfy unsorted_min_pq.dfy` with Dafny 4.11. All four files belong together.

## Model

| member | source | states |
|---|---|---|
| UnsortedMinPQ.Contains | PriotityQueue/UnsortedCorrect.java:29-37 | true exactly when some stored entry carries the item, whatever its priority |
| UnsortedMinPQ.Add | PriotityQueue/UnsortedCorrect.java:19-25 | fails with AlreadyContains exactly when the item is stored; otherwise the old entries are kept as a prefix, the new entry is last, the size grows by one, and distinct items stay distinct |
| UnsortedMinPQ.AddThenContains | PriotityQueue/UnsortedCorrect.java:19-37 | after a successful add the item is contained and carries the given priority |
| UnsortedMinPQ.AddAllSize | PriotityQueue/UnsortedCorrect.java:19-25 | adding fresh, pairwise distinct items one after another never fails, and the size grows by their number |
| UnsortedMinPQ.FirstMin | PriotityQueue/UnsortedCorrect.java:46-54 | the chosen index holds a minimum priority and every earlier entry has a strictly larger one |
| UnsortedMinPQ.FirstMinUnique | PriotityQueue/UnsortedCorrect.java:46-54 | at most one index is the first minimum, so the tie-break is determined |
| UnsortedMinPQ.MinIndex | PriotityQueue/UnsortedCorrect.java:46-54 | the scan with a strict comparison ends on the first index of minimum priority |
| UnsortedMinPQ.PeekMin | PriotityQueue/UnsortedCorrect.java:40-57 | fails with EmptyQueue exactly on an empty queue; otherwise it returns the item at the first index of minimum priority |
| UnsortedMinPQ.Delete | PriotityQueue/UnsortedCorrect.java:75 | removing index k shifts the later entries down by one and keeps the earlier ones |
| UnsortedMinPQ.RemoveMin | PriotityQueue/UnsortedCorrect.java:59-77 | fails with EmptyQueue exactly on an empty queue; otherwise it returns the item at the first minimum with that entry deleted, the others kept in order, and the size one less; the removed item is no longer stored in a queue with distinct items |
| UnsortedMinPQ.RemoveMinAgreesWithPeekMin | PriotityQueue/UnsortedCorrect.java:59-77 | on a non-empty queue removeMin returns the same item peekMin returns |
| UnsortedMinPQ.AddThenRemoveMin | PriotityQueue/UnsortedCorrect.java:59-77 | adding a new item whose priority is below every stored one, then removing the minimum, returns that item and the original queue |
| UnsortedMinPQ.IndexOf | PriotityQueue/UnsortedCorrect.java:85-86 | the index of the first entry holding the item |
| UnsortedMinPQ.SetPriority | PriotityQueue/UnsortedCorrect.java:85-89 | only the first matching entry gets the new priority; length, items and all other entries are unchanged; without a match the list is unchanged |
| UnsortedMinPQ.SameItemsSameIndex | PriotityQueue/UnsortedCorrect.java:85-89 | two lists with the same items position by position find an item at the same first index |
| UnsortedMinPQ.ChangePriority | PriotityQueue/UnsortedCorrect.java:79-91 | fails with NotFound exactly when the item is absent; otherwise the size, all items and all other priorities are unchanged, the matching entry has the new priority, and distinct items stay distinct |
| UnsortedMinPQ.ChangePriorityEffect | PriotityQueue/UnsortedCorrect.java:79-91 | after the change the item's priority is the new one, and every other stored item keeps its priority |
| UnsortedMinPQ.ChangeToLowestThenPeek | PriotityQueue/UnsortedCorrect.java:79-91 | lowering an item's priority strictly below all others makes peekMin return that item |
| Graphs.NoBackEdge | shortestpaths/ToposortDAGSolver.java:63-66 | in an acyclic graph the target of an edge never reaches its source, so an already marked target is finished |
| Graphs.ReachableInGraph | shortestpaths/ToposortDAGSolver.java:63-66 | everything reachable from a vertex of a well-formed graph is a vertex of it |
| PostOrder.Reverse | shortestpaths/ToposortDAGSolver.java:35 | the reversed list has the same length with position i holding the element at position n-1-i |
| PostOrder.ReversePostOrder | shortestpaths/ToposortDAGSolver.java:34-37 | reversal keeps the elements and their distinctness, and turns "every edge points backwards" into "every edge points forwards" |
| PostOrder.OpenCallsReachTarget | shortestpaths/ToposortDAGSolver.java:65-66 | before the recursive call on an edge target, every vertex whose call is still open reaches that target |
| PostOrder.DescentStep | shortestpaths/ToposortDAGSolver.java:65-67 | after a recursive call the new vertices are reachable from the current vertex, and the marked set is the entry set plus the current vertex plus everything appended since |
| PostOrder.TargetsGrow | shortestpaths/ToposortDAGSolver.java:63-68 | after handling an edge, its target and the targets of all earlier edges are in the result |
| PostOrder.MarkedTargetListed | shortestpaths/ToposortDAGSolver.java:65 | on an acyclic graph, a target that is already marked is already in the result |
| PostOrder.DescentDone | shortestpaths/ToposortDAGSolver.java:69 | appending the vertex after all its targets keeps the result duplicate-free and closed under edges, with every edge pointing backwards, and completes the reachable set |
| PostOrder.DfsPostOrder | shortestpaths/ToposortDAGSolver.java:60-71 | the result extends the old one and ends with the start; it has no duplicates and every edge among its vertices points backwards; it gains exactly the vertices reachable from the start that avoid the previously marked ones; the marked set gains the same vertices |
| PostOrder.TopologicalOrder | shortestpaths/ToposortDAGSolver.java:31-35 | the reversed postorder from an empty visited set begins at the start, has no duplicates, holds exactly the reachable vertices, and every edge among them points forwards |
| ToposortDag.RelaxEdge | shortestpaths/ToposortDAGSolver.java:39-44 | the target's distance never rises and ends at most the source's distance plus the weight (absent counts as +infinity); a change records the edge as the target's predecessor with distance equal to source distance plus weight; nothing else changes |
| ToposortDag.ReachableOrderIsRooted | shortestpaths/ToposortDAGSolver.java:34-37 | in the reversed postorder, every vertex after the start is the target of an edge from an earlier vertex |
| ToposortDag.NextIsReached | shortestpaths/ToposortDAGSolver.java:40 | once the edges of all earlier vertices are relaxed, the next vertex has a distance, so the lookup of the source's distance never fails |
| ToposortDag.TargetAfter | shortestpaths/ToposortDAGSolver.java:37-38 | every edge of a vertex in the order leads to a strictly later vertex |
| ToposortDag.RelaxStepRelaxed | shortestpaths/ToposortDAGSolver.java:38-45 | relaxing one more edge extends the triangle inequality to it and keeps it for the edges already relaxed |
| ToposortDag.RelaxStepKeys | shortestpaths/ToposortDAGSolver.java:41-44 | relaxing an edge keeps the start at distance 0 without a predecessor, and keeps every other reached vertex with a predecessor |
| ToposortDag.RelaxStepTree | shortestpaths/ToposortDAGSolver.java:41-44 | relaxing an edge keeps every recorded predecessor edge a graph edge into its key whose source is already processed, with the key's distance equal to the source's distance plus the weight |
| ToposortDag.RelaxVertex | shortestpaths/ToposortDAGSolver.java:38-46 | after the outgoing edges of one vertex are relaxed, all of them satisfy the triangle inequality and the key and predecessor invariants still hold |
| ToposortDag.RelaxAll | shortestpaths/ToposortDAGSolver.java:29-47 | the pass over the order reaches every listed vertex, every edge out of a listed vertex satisfies the triangle inequality, the start stays at 0 without a predecessor, and every predecessor edge is consistent |
| ToposortDag.DistanceLowerBound | shortestpaths/ToposortDAGSolver.java:37-47 | with the triangle inequality on every edge out of a reached vertex and 0 at the start, every walk from the start ends at a reached vertex whose distance is at most the walk's weight |
| ToposortDag.Solve | shortestpaths/ToposortDAGSolver.java:26-50 | the start has distance 0 and no predecessor; distances exist exactly for the reachable vertices; each non-start reached vertex has a predecessor edge that is a graph edge into it consistent with the distances; the triangle inequality holds; no walk from the start is lighter than the computed distance |
| ToposortDag.PredecessorEarlier | shortestpaths/ToposortDAGSolver.java:78-79 | the source of a recorded predecessor edge comes strictly earlier in the order, so the backward walk terminates |
| ToposortDag.ChainCons | shortestpaths/ToposortDAGSolver.java:78-80 | putting a vertex's recorded predecessor in front of a predecessor chain gives a chain |
| ToposortDag.ReverseSnoc | shortestpaths/ToposortDAGSolver.java:80-82 | appending to the collected list puts the element at the front of its reversal |
| ToposortDag.TreeWalk | shortestpaths/ToposortDAGSolver.java:74-84 | a chain of predecessor edges starting at the start is a walk of the graph whose weight equals the computed distance of its end |
| ToposortDag.Solution | shortestpaths/ToposortDAGSolver.java:74-84 | the path ends at the goal and starts at a vertex without a predecessor; consecutive vertices are linked by recorded predecessor edges; a goal without a predecessor gives [goal]; for a reached goal the path starts at the start and its edges form a walk of weight equal to the goal's distance |

## Left out

- Java `double` arithmetic: queue priorities are exact `real`s (no NaN, no rounding). Edge weights and distances are unbounded `int`s. `Double.POSITIVE_INFINITY` is absence from the distance map.
- `ArrayList`, `HashMap` and `HashSet` internals: they are Dafny `seq`, `map` and `set` values, and mutation is replaced by returning the new value.
- The `Graph` and `Edge` classes are not part of this model. A graph is a vertex set with an abstract `neighbors` function, and `WellFormed` requires each listed edge to leave its own vertex and land inside the vertex set.
- `PriorityNode` equality is not part of this model. It is taken to compare items only, as `contains` and `changePriority` use it.
- The exceptions of the queue and their messages: they are `Err` results carrying one of three error values.
- The unused `DoubleMapMinPQ` and `ExtrinsicMinPQ` imports of the solver, and the `isEmpty` helper, which is read as "the list is empty".
- Recursion depth and stack overflow of the depth-first search.
- UnsortedMinPQ.Size: it returns the list length and has no separate contract; the size changes are stated in the contracts of `Add`, `RemoveMin`, `ChangePriority` and `AddAllSize`.
- PostOrder.DfsPostOrder: it requires an acyclic graph. On a cyclic graph the recursion still terminates thanks to the visited set, but the postorder facts no longer hold, and that case is not modelled.
- ToposortDag.Solve: it requires an acyclic, well-formed graph that contains the start vertex.
- ToposortDag.Solution: it requires the invariants that `Solve` establishes (`Valid`). A solver value built some other way is not covered.
- ToposortDag.Solver: the solver value also keeps the order the pass followed. It is only used to show that the backward walk in `Solution` terminates.

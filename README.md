# Graph algorithms over an adjacency list, with a union-find structure

This project models, in Dafny, a small graph library.

A graph is a list of named nodes and, for each node, a list of weighted entries pointing at other nodes. The library can:

- load a graph from a text and print it back in the same format;
- topologically sort it with Kahn's algorithm;
- compute single-source shortest paths with Dijkstra's algorithm;
- build a minimum spanning forest with Kruskal's algorithm.

Kruskal's algorithm uses a union-find structure (`DisjointSet`). It keeps a flat array in which a negative entry marks a root and holds minus its tree's size, and any other entry is a parent pointer. `find` compresses paths and `doUnion` merges by size.

The source's classes are classes here:

- `DisjointSets.DisjointSet` keeps the array as an `array<int>`.
- `Graphs.Graph` keeps its fields as `seq`s and a `map`.

Each algorithm is a method whose loops carry invariants. Its postconditions relate the result to the graph:

- a topological order exists exactly when no cycle exists;
- distances are finite exactly for the reachable nodes, and are the least walk weights;
- the chosen spanning edges form a forest that connects what the candidate edges connect.

The algorithms return structured results and do not print.

Modules, one per file:

- `Seqs` (`seqs.dfy`): distinctness, integer ranges, pigeonhole, total length of nested sequences.
- `Digraphs` (`digraphs.dfy`): adjacency lists, walks and their weights, reachability, cycles, in-degrees.
- `GraphTexts` (`graph_text.dfy`): the text format, the name map built while loading, the adjacency lists a text loads to, the text a graph prints as, and the round trips between the two in both directions.
- `Topological` (`topological.dfy`): topological orders, cycles, Kahn's invariant, the printed order line.
- `ShortestPaths` (`shortest_paths.dfy`): distances with an explicit infinity, shortest-walk specifications, Dijkstra's invariant and its steps.
- `Connectivity` (`connectivity.dfy`): undirected connectivity over a list of links, and components counted by their least node.
- `SpanningTrees` (`spanning_trees.dfy`): Kruskal's candidate list, its lexicographic sort, the forest and the loop invariant.
- `DisjointSets` (`disjoint_set.dfy`): the union-find class with a ghost partition (`root`) and ghost ranks (`rank`) that make `find` terminate.
- `Graphs` (`graph.dfy`): the graph class.

## Model

| member | source | states |
|---|---|---|
| DisjointSets.DisjointSet.constructor | DisjointSet.cpp:7-10 | every entry is -1: n singleton sets, each element its own representative, and the set of roots is all of 0..n-1 |
| DisjointSets.DisjointSet.Find | DisjointSet.cpp:13-23 | returns the representative of the element, which is a root (negative entry) and its own representative, so finding it again returns it; the array afterwards is the old array with every node of the path relinked to the root; the partition, the roots and the root entries are unchanged |
| DisjointSets.DisjointSet.Link | DisjointSet.cpp:36-45 | the root with the smaller tree (root2 on equal sizes) becomes a child of the other, whose entry becomes the sum of both negative sizes; the partition merges exactly those two sets; the child stops being a root |
| DisjointSets.DisjointSet.DoUnion | DisjointSet.cpp:25-49 | with equal representatives: returns false and the partition and roots are unchanged; otherwise the smaller set goes under the larger (the second root under the first on a tie), the parent's entry is minus the combined size, no other set changes, and the result is true exactly when the combined size is numValues, which is exactly when one root is left |
| DisjointSets.SingletonsInv | DisjointSet.cpp:7-10 | the all -1 array satisfies the invariant, with each element its own set |
| DisjointSets.FindRootIsRoot | DisjointSet.cpp:13-23 | following parent pointers from i ends at i's representative |
| DisjointSets.CompressPreservesInv | DisjointSet.cpp:21 | relinking every node of i's path to its representative keeps the invariant, the roots and the root entries |
| DisjointSets.CompressStep | DisjointSet.cpp:21 | the compression done by find(i) is the parent's compression followed by relinking i |
| DisjointSets.LinkPreservesInv | DisjointSet.cpp:36-45 | hanging one root under another and adding its size keeps the invariant: sizes still count set members |
| DisjointSets.LinkMembers | DisjointSet.cpp:36-45 | after a link the parent's set is the union of both sets and every other set is unchanged |
| DisjointSets.SizesSumToN | DisjointSet.cpp:36-45 | the sizes held at the roots add up to the number of elements |
| DisjointSets.FullTreeIffSingleRoot | DisjointSet.cpp:48 | a tree holds all elements exactly when it is the only tree |
| DisjointSets.ClassesAreRoots | DisjointSet.cpp:36-45 | the number of roots equals the number of sets of the partition |
| Graphs.Graph.constructor | Graph.cpp:8 | an empty, valid graph |
| Graphs.Graph.ResetGraph | Graph.cpp:11-17 | all four fields are emptied |
| Graphs.Graph.GetNodeIndex | Graph.cpp:20-31 | the mapped index for a mapped name, else -1; on a valid graph -1 exactly when no node has that name, and otherwise a node carrying the name |
| Graphs.Graph.ReadGraph | Graph.cpp:34-70 | an unopenable source returns false with the graph unchanged; otherwise returns true and the graph is exactly the loaded one: names in read order, each name mapped to its last position, one entry per resolving edge line appended to its source's list in input order |
| GraphTexts.NameIndexLast | Graph.cpp:48-52 | the name map holds exactly the read names, each mapped to the last position where it occurs |
| GraphTexts.OutgoingMembers | Graph.cpp:58-67 | an entry is in a node's list exactly when some edge line from that node resolves to it; unresolved lines are dropped |
| GraphTexts.LoadedWellFormed | Graph.cpp:58-67 | every loaded entry points at a node |
| GraphTexts.LoadedEdgeCount | Graph.cpp:58-67 | the loaded lists hold as many entries as there are resolving edge lines |
| Graphs.Graph.PrintGraph | Graph.cpp:73-104 | the printed text lists the names in order and the entries by ascending source and then list order; there is one edge line per entry; with distinct names, loading the printed text gives back the same map and lists |
| GraphTexts.DumpRoundTrip | Graph.cpp:73-104 | with distinct names, loading what printing a graph produces gives the same names and lists |
| GraphTexts.LoadDump | Graph.cpp:34-104 | printing what loading a text produces gives the same names in the same order and, as a multiset, exactly the edge lines whose endpoints both name nodes; a repeated name prints as itself |
| GraphTexts.LoadDumpAllResolve | Graph.cpp:34-104 | when every edge line names two nodes, load then print gives the same names, the same number of edge lines and the same multiset of (from, to, weight) lines |
| Graphs.Graph.ComputeInDegrees | Graph.cpp:109-116 | every node's count is the number of entries pointing at it |
| Graphs.Graph.ZeroInDegreeQueue | Graph.cpp:118-125 | the queue holds exactly the nodes of in-degree zero, strictly ascending, and is the ascending list of zero counts (`ZeroNodes`) |
| Topological.ZeroNodesFacts | Graph.cpp:118-125 | the list of zero counts below k is strictly ascending and holds a node exactly when it is below k and its count is zero |
| Graphs.Graph.DecrementTargets | Graph.cpp:134-140 | the queue keeps its old part as a prefix; the part after it and the new counts are the end state of going over the node's entries (`ReleaseInv`), so by `ReleaseDone` the counts drop by the entries pointing at each target, and the new part is, in entry order and once each, the targets whose count reaches zero at their entry (`Released`) |
| Topological.ReleaseStep | Graph.cpp:136-139 | one entry lowers its target's count by one and appends the target to the queued part exactly when that count becomes zero; the state after the entry is the one for one more entry |
| Topological.ReleaseDone | Graph.cpp:134-140 | after all entries: each count has dropped by the number of entries pointing at it; the queued targets are distinct nodes, exactly those with an entry whose count is now zero, in the order their count reached zero |
| Graphs.Graph.ComputeTopologicalSort | Graph.cpp:107-143 | no node is emitted twice; the order is complete exactly when the graph has no directed cycle, and a complete order puts every entry's source before its target; the order is the first-in first-out run of the queue (`KahnTrace`): it begins with the in-degree-zero nodes in ascending order and continues with what each emitted node released, in turn |
| Graphs.Graph.KahnRound | Graph.cpp:128-141 | one pass of the loop appends the queue's front to the order and keeps both Kahn's invariant and the first-in first-out account of the queue |
| Topological.KahnQueueStep | Graph.cpp:128-141 | taking the front and appending, in entry order, what it releases keeps the emitted order followed by the queue equal to everything queued so far |
| Topological.KahnQueueDone | Graph.cpp:128-143 | when the queue is empty the emitted order is a complete first-in first-out run, and it begins with the in-degree-zero nodes |
| Topological.KahnTraceUnique | Graph.cpp:107-143 | two complete first-in first-out runs on the same graph are the same sequence, so the emitted order is determined by the graph |
| Topological.KahnRemaining | Graph.cpp:109-141 | the counts kept during the loop are the in-degrees left after removing the entries of the emitted nodes |
| Topological.KahnStep | Graph.cpp:127-141 | emitting the queue's front and queueing the targets that reach zero keeps Kahn's invariant |
| Topological.KahnOutcome | Graph.cpp:143 | with the queue empty the order is complete exactly when no cycle exists, and then it is a topological order |
| Topological.OrderedAcyclic | Graph.cpp:143-154 | a graph with a topological order has no cycle |
| Topological.StuckHasCycle | Graph.cpp:155-158 | when every remaining node still has an entry from a remaining node, the graph has a cycle |
| Graphs.Graph.TopologicalSortText | Graph.cpp:143-158 | with a cycle, the text is the notice that the graph cannot be sorted; otherwise it is the names, joined by arrows and ending in a newline, of a topological order that is the first-in first-out run of Kahn's queue |
| Graphs.Graph.OrderLine | Graph.cpp:145-153 | the printed line for an order is its names with an arrow exactly between consecutive names |
| Topological.OrderLineJoined | Graph.cpp:145-153 | the corrected order line has an arrow exactly between consecutive names |
| Topological.ArrowAfterLastIndex | Graph.cpp:145-153 | for nodes A, B and an entry B to A, the line as written is "BA --> " rather than "B --> A" |
| Graphs.Graph.ComputeShortestPaths | Graph.cpp:162-235 | an unknown start name is reported; otherwise the start is the node with that name, each distance is finite exactly when the node is reachable and is then the least walk weight, and every other node gets a report in ascending order: no path exactly when unreachable, else a shortest walk and its weight; the reported walks follow the predecessor links of a shortest-walk tree for those distances |
| Graphs.Graph.ShortestDistancesFrom | Graph.cpp:171-202 | the final distances are the shortest walk weights, infinite exactly for unreachable nodes, and the predecessor links form a tree of shortest walks |
| Graphs.Graph.DijkstraRound | Graph.cpp:179-201 | one pop of the minimum pair keeps Dijkstra's invariant, shrinks the queue or settles one more node, and makes no distance longer |
| Graphs.Graph.RelaxEdges | Graph.cpp:189-201 | the distances, predecessors and queue after relaxing every entry of the node, as the relaxation function gives them |
| ShortestPaths.MinimumExists | Graph.cpp:181 | a non-empty queue has a least (distance, node) pair |
| ShortestPaths.DijkstraSkip | Graph.cpp:184-187 | an outdated queue entry is dropped without breaking the invariant |
| ShortestPaths.DijkstraSettle | Graph.cpp:184-189 | a current minimum entry's node is not yet settled, its stored distance equals the popped value, and settling it keeps the invariant with that value as the new floor |
| ShortestPaths.DijkstraImprove | Graph.cpp:194-200 | a shorter distance through the active node updates the target's distance and predecessor and queues it, keeping the invariant |
| ShortestPaths.DijkstraKeep | Graph.cpp:194-195 | an entry giving no improvement keeps the invariant |
| ShortestPaths.RelaxFromInv | Graph.cpp:189-201 | relaxing the rest of the active node's entries keeps the invariant and ends its turn |
| ShortestPaths.RelaxFromNoLonger | Graph.cpp:195-199 | relaxation never makes a stored distance longer |
| ShortestPaths.DijkstraDone | Graph.cpp:179-202 | when the queue is empty the distances are the shortest walk weights, infinite exactly for unreachable nodes, and the predecessor links form a shortest-walk tree |
| ShortestPaths.RelaxedWalk | Graph.cpp:189-202 | along a walk from the start over settled nodes the final distance is at most the walk's weight |
| ShortestPaths.TreeWalk | Graph.cpp:217-222 | following predecessors from a reached node gives a walk from the start of exactly that node's distance |
| Graphs.Graph.ReportPaths | Graph.cpp:205-234 | one report per node other than the start, ascending: no path exactly when unreachable, else a shortest walk from the start and its weight; each reported walk is the predecessor chain read forwards |
| Graphs.Graph.TracePath | Graph.cpp:217-222 | following predecessors from a reached node ends at the start; the walk read forwards goes from the start to the node and weighs the node's distance; each node of the walk after the first has the node before it as its predecessor, so the walk is the one on the predecessor chain |
| Graphs.Graph.CollectCandidates | Graph.cpp:240-253 | the candidate list, gathered node by node in list order |
| SpanningTrees.CandidatesMembers | Graph.cpp:240-253 | a triple is a candidate exactly when the graph has that entry from a node up to a higher-numbered node |
| SpanningTrees.SortCandidates | Graph.cpp:255 | the sorted list is a permutation of the input and is ordered by weight, then source, then target |
| SpanningTrees.SortedUnique | Graph.cpp:255 | two sorted permutations of the same list are equal, so any correct sort gives this order |
| Graphs.Graph.ComputeMinimumSpanningTree | Graph.cpp:238-270 | the chosen edges are exactly the greedy scan of the sorted candidates (`KruskalChoice`: a candidate is taken exactly when its ends are not yet connected by the candidates before it); they form a forest that connects exactly what the candidates connect; the total is their weight sum; there are as many as nodes minus the number of components of the candidate edges |
| SpanningTrees.KruskalChoiceAnySort | Graph.cpp:255-269 | the greedy scan of any sorted arrangement of the candidates takes the same edges |
| Graphs.Graph.KruskalRound | Graph.cpp:264-269 | when the ends' representatives differ, the candidate is appended to the chosen edges, its weight is added to the total, and the partition relabels one of the two sets with the other's representative; when they agree, edges, total and partition are unchanged; the loop invariant, which includes the greedy choice, is kept |
| SpanningTrees.KruskalJoin | Graph.cpp:264-267 | merging two different sets matches adding the link: the partition groups nodes exactly as the extended links connect them, and the two ends were not connected before |
| SpanningTrees.ForestStep | Graph.cpp:264-267 | a link between nodes not yet connected extends the forest |
| SpanningTrees.KruskalJoinStep | Graph.cpp:264-268 | choosing a candidate whose ends lie in different sets keeps Kruskal's invariant |
| SpanningTrees.KruskalSkipStep | Graph.cpp:264 | skipping a candidate whose ends lie in one set keeps the invariant, since the link changes no connectivity |
| SpanningTrees.KruskalOutcome | Graph.cpp:257-270 | after all candidates: a forest of candidates in sorted order with the candidates' connectivity, weight sum as total, nodes minus components many edges, and exactly the greedy scan's edges |
| SpanningTrees.RootsCountComponents | Graph.cpp:257-270 | when the partition matches the links, the union-find roots count the components |
| Connectivity.AddLinkIff | Graph.cpp:266-267 | with one more link, x and y are connected exactly when they were, or each reaches one end of the link |
| Connectivity.AddRedundant | Graph.cpp:264 | a link between nodes already connected changes no connectivity |
| Connectivity.ConnectedEmpty | Graph.cpp:257-260 | without links each node is connected only to itself |
| SpanningTrees.KruskalInit | Graph.cpp:257-260 | fresh singletons, no chosen edge and a zero total satisfy Kruskal's invariant before any candidate is scanned |

## Left out

- File opening and token extraction are not modelled. `ReadGraph` takes a `Source`: either unopenable, or an already tokenised text of names and (from, to, weight) lines. The node and edge counts are the lengths of those sequences.
- Printing is not modelled. The algorithms return values instead:
  - the shortest-path reports and the spanning-tree lines are returned as data;
  - the graph's text is a `GraphText` value;
  - the start-not-found message is the `StartNotFound` outcome.
  Only the topological sort's printed line is modelled (`TopologicalSortText`), because of the finding below.
- `printArrayValues` (DisjointSet.cpp:51-58) only prints.
- C++ `int` overflow is not modelled, because integers are unbounded. This affects `currentDistance + weight` (Graph.cpp:194) and `totalWeight` (Graph.cpp:268).
- `INT_MAX` as "no distance yet" is the `Infinite` constructor.
- Negative weights: `ComputeShortestPaths` requires every weight to be non-negative. With negative weights the source's result is not a shortest-path answer, and the model does not describe it.
- Node names are returned as indices in the topological order, the reports and the spanning-tree edges. `indexToNodeName` turns them into names.
- `TracePath` builds each walk by prepending while following predecessors. The source pushes names and then reverses the vector. The resulting sequence is the same.
- The standard containers are modelled abstractly:
  - `std::map` is a `map`;
  - the adjacency lists and queues are `seq`s;
  - the priority queue is a multiset with extraction of a least pair;
  - `std::sort` is an insertion sort, `SortCandidates`. `SortedUnique` shows that every sorted permutation equals its result.
- Graph.cpp:227-229 prints no arrow after the last name of a path. The reports keep the walk as a sequence, so this formatting has no counterpart in the model.
- Graphs.Graph.ComputeMinimumSpanningTree: minimality of the total weight is not proved. The contract states forest, spanning connectivity, sorted order, weight sum and edge count, but not that no other spanning forest weighs less.
- Graphs.Graph.ComputeMinimumSpanningTree: an entry from a higher- to a lower-numbered node is never a candidate, as in the source. A graph whose undirected edge is stored only in that direction loses it. The contract speaks of the candidate list, not of all entries.
- DisjointSet.h is not part of this model. The constructor (DisjointSet.cpp:7-10) never assigns `numValues`, yet line 48 reads it. The model takes `numValues` to be the constructor's argument.
- DisjointSets.DisjointSet.constructor: takes a `nat` count. The source passes an `int` to `resize` (DisjointSet.cpp:9). A negative count becomes a huge unsigned size there, and the allocation fails with an exception. The model has no such input and no such error path.
- Graph.h is not part of this model beyond the four fields of `Graph`.
- Methods of their own: several methods model one part of a source function, each with its own contract.
  - Whole loops of a source function: `ZeroInDegreeQueue` (Graph.cpp:118-125), `OrderLine` (the printing loop, Graph.cpp:145-153), `ShortestDistancesFrom` (Dijkstra's set-up and outer loop, Graph.cpp:171-202), `ReportPaths` (the report loop, Graph.cpp:205-234), `TracePath` (the report's inner loop, Graph.cpp:217-222) and `CollectCandidates` (Graph.cpp:240-253).
  - The body of one loop iteration: `KahnRound` (Graph.cpp:128-141), `DijkstraRound` (Graph.cpp:179-201) and `KruskalRound` (Graph.cpp:264-269).
  - An inner loop inside one iteration: `DecrementTargets` (Graph.cpp:134-140) and `RelaxEdges` (Graph.cpp:189-201).
  - A branch of `doUnion`: `DisjointSet.Link` (DisjointSet.cpp:36-45).

## Findings

| source | as written | input that shows it | evidently intended | confidence | as-written member | corrected member |
|---|---|---|---|---|---|---|
| Graph.cpp:148 | the arrow after a name is left out when the node's index equals `topOrder.size()-1`, comparing an index with a position | nodes A, B with the single edge B A 1: the order is [1, 0] and the line printed is "BA --> " | an arrow between consecutive names only, "B --> A" | high; not executed | Topological.OrderLineAsWritten (shown by Topological.ArrowAfterLastIndex) | Topological.OrderLinePrefix (proved by Topological.OrderLineJoined, used by Graphs.Graph.OrderLine) |

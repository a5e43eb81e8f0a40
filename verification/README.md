# git-warp: a verified model

git-warp keeps a CRDT graph database in Git commits. This project models its four algorithmic cores in Dafny and proves what they promise:

- the traversal engine: breadth-first and depth-first listing, shortest paths, Dijkstra, A\*, bidirectional search, topological order and what is built on it;
- the OR-set with version vectors: replicas that add, remove, synchronise and collect garbage, and the checkpoint that stores their state;
- the audit chain: a compare-and-swap producer and the verifier that walks its commits backwards;
- the sharded bitmap index: the builder, the sharded form, and the reader with its shard cache.

Run `dafny verify dfyconfig.toml`. Each file holds one module.

## How the source is modelled

Code that changes things step by step keeps that form: the heap, OR-sets, version vectors, the LRU cache, the index builder and reader and the verifier's result are classes whose methods update fields; searches are methods with loops over maps, sets, lists and heaps. Long loop bodies are split into a method for one turn and a method for one neighbour, as the originals are split by `await`. Pure code is functions, and protocols are step systems over whole states.

- Node ids are integers: only their total order matters. A `Graph` value is the neighbour provider for one direction and label filter; `alive` is what `hasNode` answers. Where a search needs both directions, the provider's two lists are required to mirror each other.
- Weights are reals (naturals in the example script, where costs are counted), so rounding is not modelled. `weightFn` and `nodeWeightFn` both appear as one pure weight function of an edge and its label. Parallel edges are allowed; the cost of a pair is that of its cheapest entry.
- Counters, ticks and timestamps are unbounded integers; strings are sequences of code units; JavaScript objects used as dictionaries are maps.
- Calls run one after the other. Interleaving is modelled where it is the point: between replicas, and between the awaits of several audit services.
- Node limits, depth limits and error results are part of every contract. No search demands anything of weights or heuristics; its contract says what follows when they are non-negative, positive or consistent.
- Built-in sorting is modelled by an insertion sort with the comparator of the call.

## Where code and comments differ

- `ORSet.js` argues that compacting a tombstoned dot is safe once every replica's version vector contains it. It is not: `Replicas.ContainmentIsNotEnough` gives a run in which a removed element comes back. `Replicas.SafeIffUnnoticed` is the exact condition: no replica may still hold the dot live.
- A receipt with the zero hash must have tick 1, and the audit service uses the zero hash whenever the ref is unset. A service that is switched on after tick 1 therefore fails on every call and never starts a chain: `AuditProducer.LateStartNeverCommits`. The exact condition is `AuditProducer.StartsIff`: a chain can be started if and only if some call brings a well-formed tick 1 of the service's own writer.
- The index reader keeps its id-to-name table even if a shard could not be loaded while filling it. Later queries then succeed and silently lack neighbours: `BitmapIndex.QueryAcrossOutage`, with the exact condition in `BitmapIndex.AnswerIsRightIff`.
- The searches with a closed set never reopen a node. A consistent heuristic is enough for a cheapest path; an admissible one is not: on the graph of `SearchLimits.AdmissibleIsNotEnough` every answer of A\* costs 5, and a walk of cost 4 exists. The A\* of the example script reopens nodes and needs no more than an admissible heuristic: `ReopeningAStar.AStar`.
- The A\* of the commit DAG orders by the estimate minus EPSILON times the distance, which its comment calls too small to affect the order. Its answers are exact, for real weights of any sign, when the heuristic drops by at most the fraction 1 - EPSILON of each cost: `DagAStar.AStarSearch`. Without a heuristic, the default, this says that no weight is negative (`DagAStar.SilentIsSteadyIff`). No greater fraction will do: for each one, `SearchLimits.BiasLosesOptimum` gives weights and a consistent heuristic with which every answer is too dear. Consistent heuristics keep the answer within the factor 1 / (1 - EPSILON) for non-negative weights, and exact for whole ones below 1 / EPSILON - 1.
- `transitiveClosure` promises all implied edges; a node on a cycle gets no edge to itself: `TransitiveClosure.ClosureIsReachability`.

## Model

| member | source | states |
|---|---|---|
| MinHeaps.MinHeap.Insert | src/domain/utils/MinHeap.js:32-35 | the entry joins the multiset of entries and the array stays a heap |
| MinHeaps.MinHeap.ExtractMin | src/domain/utils/MinHeap.js:42-50 | removes an entry that is least by priority (and by id under the tie-breaker); nothing exactly on the empty heap |
| MinHeaps.MinHeap.BubbleUp | src/domain/utils/MinHeap.js:105-113 | closes a hole above a position by swaps, keeping the multiset |
| MinHeaps.MinHeap.BubbleDown | src/domain/utils/MinHeap.js:121-140 | closes a hole below a position by swaps with the smaller child, keeping the multiset |
| MinHeaps.MinHeap.PeekPriority | src/domain/utils/MinHeap.js:75-77 | a lower bound of all priorities that some entry attains |
| MinHeaps.RootIsLeast | src/domain/utils/MinHeap.js:87-140 | in a heap of any size every entry is at least the root |
| BestFirst.GoalIsCheapest | src/domain/services/GraphTraversal.js:539-554 | when a search extracts the goal under a heuristic that is consistent in the measure of its key, biased or not, the walk recorded for it is a cheapest one |
| BestFirst.LeastOpenIsExact | src/domain/services/DagPathFinding.js:295-332 | closing a least open node under such a heuristic makes its distance exact, for costs of any sign |
| BestFirst.LeastOpenIsBounded | src/domain/services/GraphTraversal.js:539-571 | closing a least open node makes its discounted distance a lower bound on every walk to it |
| BestFirst.TreeIsExact | src/domain/services/GraphTraversal.js:559-570 | between two closings the walk recorded for a node costs exactly its distance, although distances improve behind its back |
| BestFirst.StoppedEarly | src/domain/services/GraphTraversal.js:539-577 | a search that ends without a reachable goal still has heap entries and closed fewer nodes than are reachable |
| CanonicalPaths.CanonicalIsUnique | src/domain/services/GraphTraversal.js:9-28 | with positive costs at most one cheapest walk has least predecessors throughout |
| CanonicalPaths.TreeIsCanonical | src/domain/services/GraphTraversal.js:459-510 | when Dijkstra extracts the goal, every recorded walk has the least optimal predecessor at each step |
| WeightedSearch.WeightedShortestPath | src/domain/services/GraphTraversal.js:459-510 | a real walk costing the total; cheapest for non-negative weights; canonical for positive ones; no path only when unreachable or the node limit struck |
| WeightedSearch.AStarSearch | src/domain/services/GraphTraversal.js:520-577 | a real walk costing the total, cheapest for consistent heuristics; no path only when unreachable or the node limit struck; for all weights and heuristics the answer of the search as a function of the costs |
| SearchOrder.AnswerIsUnique | src/domain/services/GraphTraversal.js:9-28 | with the tie-breaker, costs, policy, limit and the two ends admit one answer, path and total included |
| SearchOrder.AnswerIgnoresListOrder | src/domain/services/GraphTraversal.js:9-28 | two providers with the same entries in any order lead Dijkstra and A\* to the same answer, for all weights and every heuristic |
| SearchOrder.OrdersAgree | src/domain/services/GraphTraversal.js:539-554 | two orders in which nodes are closed agree as far as both go |
| SearchOrder.ReplayEntry | src/domain/services/GraphTraversal.js:558-571 | relaxing the entries of a list one by one, parallel ones and ties included, is relaxing the cheapest edge to each target at once |
| WeightedSearch.RelaxEntry | src/domain/services/GraphTraversal.js:492-503 | one neighbour entry: improves on a strictly cheaper way, or at a tie on the smaller predecessor |
| WeightedSearch.ReconstructPath | src/domain/services/GraphTraversal.js:1528-1539 | following predecessors back and reversing gives the walk the search recorded |
| DagAStar.AStarSearch | src/domain/services/DagPathFinding.js:265-340 | no path exactly when unreachable; a real walk costing the total; cheapest when the heuristic drops by at most 1 - EPSILON of each cost, so for non-negative weights without a heuristic; within 1 / (1 - EPSILON) of the optimum for non-negative weights and a consistent heuristic |
| DagAStar.SilentIsSteadyIff | src/domain/services/DagPathFinding.js:265-270 | the default heuristic meets the condition for exact answers exactly when no weight is negative |
| SearchLimits.BiasLosesOptimum | src/domain/services/DagPathFinding.js:22-27 | for every fraction above 1 - EPSILON there are weights and a consistent heuristic within it for which no answer of the search is a cheapest walk |
| SearchLimits.AdmissibleIsNotEnough | src/domain/services/GraphTraversal.js:539-571 | positive weights and an admissible heuristic for which the only answer of the search costs 5 although a walk costs 4 |
| DagAStar.NearlyCheapestIsCheapest | src/domain/services/DagPathFinding.js:22-27 | with whole costs and an optimum below 1 / EPSILON - 1 the bounded answer is optimal |
| Bidirectional.BidirectionalAStar | src/domain/services/GraphTraversal.js:593-665 | a real walk costing mu; cheapest if one side is soundly guided and the node limit does not strike; no path then means unreachable; for all weights and heuristics the answer of the two-sided search as a function of the costs |
| Bidirectional.OfferImprovedLeast | src/domain/services/GraphTraversal.js:713-719 | when a distance improves, the meeting kept is a cheapest one, and with the tie-break at the smallest node |
| Bidirectional.OfferKnownLeast | src/domain/services/GraphTraversal.js:689-695 | the same when the other side has closed the node |
| BothWays.AnswerBothIsUnique | src/domain/services/GraphTraversal.js:593-665 | costs, policies, limit and ends admit one answer: the side to move, the node, the stop and the meeting are decided |
| BothWays.AnswerBothIgnoresListOrder | src/domain/services/GraphTraversal.js:9-28 | providers with the same entries in any order lead to the same path and total |
| Bidirectional.DagBidirectionalAStar | src/domain/services/DagPathFinding.js:349-430 | a real walk costing mu, cheapest if one side is soundly guided, no path exactly when unreachable; an answer of the two-sided search without tie-breaks |
| Bidirectional.StoppedIsLeast | src/domain/services/GraphTraversal.js:625-654 | once one side's least key reaches mu, mu is at most the cost of every walk |
| Bidirectional.MeetingWalk | src/domain/services/GraphTraversal.js:1551-1569 | the forward walk joined to the turned-around backward walk costs exactly mu |
| Bidirectional.Expand | src/domain/services/GraphTraversal.js:673-724 | one expansion keeps both searches sound and mu the best meeting of the two distance maps |
| Bidirectional.ReconstructBiPath | src/domain/services/GraphTraversal.js:1551-1569 | the two predecessor maps yield the walk through the meeting |
| ReopeningAStar.AStar | examples/scripts/pathfinding.js:161-204 | for any weights and heuristic it ends with a real walk exactly when the goal is reachable; with an admissible heuristic the total is least and realised by the path |
| ReopeningAStar.Dijkstra | examples/scripts/pathfinding.js:70-103 | a cheapest walk and its cost exactly when the goal is reachable |
| ReopeningAStar.GoalIsLeast | examples/scripts/pathfinding.js:171-186 | extracting an up-to-date goal entry under an admissible heuristic means no walk is cheaper, although settled nodes may be reopened |
| ReopeningAStar.ChainRedirected | examples/scripts/pathfinding.js:188-198 | giving a node a nearer parent leaves every chain of prev pointers ending at the start: prev never runs in a circle |
| ReopeningAStar.StepDecreases | examples/scripts/pathfinding.js:171-199 | every turn discovers a node, lowers a distance or shortens the queue, so reopening ends |
| ReopeningAStar.ReconstructPath | examples/scripts/pathfinding.js:104-118 | the path spelled by prev, or nothing if it does not lead to the start |
| Topology.TopologicalSort | src/domain/services/GraphTraversal.js:747-862 | the order is greedy over what is reachable; a cycle is reported exactly when the order cannot go on before it is complete, and is real for every node limit; otherwise the order has as many nodes as the limit allows |
| Topology.CyclicSortIsExact | src/domain/services/GraphTraversal.js:809-858 | with a cycle reported and not refused, the listed nodes are exactly those that no cycle leads to |
| Topology.SortIsUnique | src/domain/services/GraphTraversal.js:747-862 | the answer, refusal and cycle flag included, depends on edges, ids, limit and mode alone |
| Topology.StuckIsUnique | src/domain/services/GraphTraversal.js:809-832 | there is one greedy order that cannot go on |
| Topology.SortIsExact | src/domain/services/GraphTraversal.js:98-103 | with a limit at least the number of reachable nodes, a cycle is reported exactly when there is one, else the order is a complete topological order |
| Topology.GreedyIsLexLeast | src/domain/services/GraphTraversal.js:807-832 | the greedy order is lexicographically least among all topological orders |
| Topology.GreedyIsUnique | src/domain/services/GraphTraversal.js:807-832 | greedy orders of one length are equal, so the order depends on edges and ids alone |
| Topology.StuckHasCycle | src/domain/services/GraphTraversal.js:98-103 | an order that cannot go on before it is complete leaves a cycle among the remaining nodes |
| Topology.Discover | src/domain/services/GraphTraversal.js:762-803 | lists exactly the reachable nodes and counts their in-degrees with parallel edges |
| Topology.KahnLoop | src/domain/services/GraphTraversal.js:807-832 | the loop over the ready heap builds a greedy order, stuck or cut off by the limit |
| Reduction.TransitiveReduction | src/domain/services/GraphTraversal.js:1132-1243 | sorted kept entries are those not redundant, and kept plus removed are all entries of the sorted nodes |
| Reduction.ReductionTheorem | src/domain/services/GraphTraversal.js:1132-1243 | on an acyclic graph within the limit the kept pairs have the original reachability and none can be dropped; the kept entries number the entries of reachable nodes that are not redundant, and removed counts all the others |
| Reduction.AnswerIsSorted | src/domain/services/GraphTraversal.js:1231-1240 | kept entries come by source, then target, then label |
| Reduction.EdgeIsWalkable | src/domain/services/GraphTraversal.js:1163-1213 | every original edge can be walked over kept edges |
| Reduction.KeptIsNeeded | src/domain/services/GraphTraversal.js:1163-1213 | without a kept edge its ends are no longer connected |
| Reduction.MarkNode | src/domain/services/GraphTraversal.js:1167-1213 | the search below the grandchildren of a node marks exactly its edges to nodes that a walk of two or more edges reaches |
| LongestPath.WeightedLongestPath | src/domain/services/GraphTraversal.js:945-1003 | for weights of any sign a real walk with the total; when the limit does not strike, the heaviest one, with the least possible predecessor at each step |
| LongestPath.LongestIgnoresListOrder | src/domain/services/GraphTraversal.js:9-28 | on an acyclic graph, two providers with the same entries in any order lead to the same longest path |
| CanonicalPaths.CanonicalIsUniqueFrom | src/domain/services/GraphTraversal.js:9-28 | if staying at the start is the only cheapest way back, at most one cheapest walk has least predecessors throughout, for costs of any sign |
| LongestPath.SweepConclusion | src/domain/services/GraphTraversal.js:968-999 | one sweep in topological order leaves no heavier walk to the goal, or proves it unreachable |
| Levels.AssignLevels | src/domain/services/GraphTraversal.js:1018-1065 | each node's level is the edge count of a longest walk to it, which starts at a node of in-degree 0; maxLevel is the greatest level |
| Levels.LevelIsExact | src/domain/services/GraphTraversal.js:1018-1065 | after the sweep a level is attained by a walk from a root and exceeded by none |
| Breadth.Bfs | src/domain/services/GraphTraversal.js:240-290 | the first maxNodes of all nodes within maxDepth edges, ordered by distance and id, whatever the list order |
| BreadthOrder.BfsOrderIsSorted | src/domain/services/GraphTraversal.js:11 | of two listed nodes the earlier is nearer, or as near with the smaller id |
| BreadthOrder.BfsOrderIsComplete | src/domain/services/GraphTraversal.js:240-290 | the closed form lists exactly the nodes that a walk within the depth bound reaches |
| Breadth.LayerIsDistance | src/domain/services/GraphTraversal.js:240-290 | the layers of the closed form are the sets of nodes at exactly that distance |
| Depth.Dfs | src/domain/services/GraphTraversal.js:300-340 | the stack loop lists the recursive pre-order with the same depth bound, cut to its first maxNodes nodes; each node is found from the latest listed one with an unlisted neighbour above the depth bound, as its first such neighbour |
| Depth.ListingIsUnique | src/domain/services/GraphTraversal.js:12-13 | start, list order and limits admit one depth-first listing |
| Depth.GoesDownFirst | src/domain/services/GraphTraversal.js:329-335 | after a node above the depth bound with an unlisted neighbour comes the first such neighbour in its list |
| Depth.VisitGoesDown | src/domain/services/GraphTraversal.js:329-335 | the recursive visit of a node starts with the node and its first new neighbour |
| Depth.Turn | src/domain/services/DagTraversal.js:141-163 | one turn of the stack loop keeps done plus pending equal to the recursive pre-order |
| Depth.VisitAllAppend | src/domain/services/GraphTraversal.js:300-340 | visiting two lists in turn is visiting their concatenation |
| Depth.UnseenIsEnough | src/domain/services/GraphTraversal.js:329-335 | leaving out children that are already visited changes nothing |
| Depth.PreOrderIsReachable | src/domain/services/GraphTraversal.js:300-340 | with a depth bound of at least the number of reachable nodes the pre-order has exactly the reachable nodes |
| Depth.PreOrderIsDistinct | src/domain/services/GraphTraversal.js:300-340 | no node comes twice |
| QueueBfs.Bfs | src/domain/services/DagTraversal.js:77-117 | yields come by distance, once each, with the true distance and a parent one level up that was yielded before; nothing nearer than the last is missing, and without the node limit nothing within the depth bound is |
| QueueBfs.BallVisited | src/domain/services/DagTraversal.js:90-117 | everything nearer than the front of the queue has been yielded |
| BidirectionalBfs.ShortestPath | src/domain/services/DagPathFinding.js:113-184 | on any directed graph a path is found exactly when one of at most 2 * maxDepth edges exists, and it is shortest |
| BidirectionalBfs.MeetingIsShortest | src/domain/services/DagPathFinding.js:140-180 | while the two balls were apart, the first meeting gives a shortest walk |
| BidirectionalBfs.ExpandFrontier | src/domain/services/DagPathFinding.js:140-176 | expanding a frontier completes the next ball or meets the other side |
| BidirectionalBfs.ReconstructBidirectionalPath | src/domain/services/DagPathFinding.js:662-683 | both parent maps yield the walk through the meeting |
| UnweightedPath.ShortestPathFrom | src/domain/services/GraphTraversal.js:350-398 | what is found is a shortest walk of at most maxDepth edges, in which each node is the smallest of its level with an edge to the next; with room for the reachable nodes it is found exactly when one exists |
| UnweightedPath.LeastPathIsUnique | src/domain/services/GraphTraversal.js:367-397 | at most one shortest path has, before each node, the smallest node of the level above with an edge to it |
| UnweightedPath.BothAgree | src/domain/services/GraphTraversal.js:350-398 | where no limit cuts in, the one-sided and the bidirectional search agree on existence and length |
| TransitiveClosure.TransitiveClosure | src/domain/services/GraphTraversal.js:1412-1443 | the closure of everything reachable (or of an initial part under the node limit), refused exactly when it exceeds maxEdges |
| TransitiveClosure.ClosureIsReachability | src/domain/services/GraphTraversal.js:1309-1360 | the pairs are exactly those of different nodes that a walk connects |
| TransitiveClosure.ClosureAscends | src/domain/services/GraphTraversal.js:1357-1362 | pairs come strictly ascending by source and target |
| TransitiveClosure.Stream | src/domain/services/GraphTraversal.js:1309-1360 | the per-source searches yield the closure of the listed nodes or stop beyond maxEdges |
| TransitiveClosure.Explore | src/domain/services/GraphTraversal.js:1252-1293 | finds everything reachable unless the node limit is smaller |
| Dots.DecodeUndoesEncode | src/domain/crdt/Dot.js:105-140 | decoding undoes encoding, colons in writer ids or not, exactly for valid dots; the other cases give their own errors |
| Dots.EncodeIsInjective | src/domain/crdt/Dot.js:105-107 | different valid dots have different text |
| Dots.DecodingForgets | src/domain/crdt/Dot.js:121-140 | two texts that decode to one dot |
| Dots.CompareDotsIsExact | src/domain/crdt/Dot.js:153-165 | negative exactly when the writer id is smaller at the first differing code unit or ends there, or the ids agree and the counter is smaller |
| Dots.CompareDotsIsTotalOrder | src/domain/crdt/Dot.js:153-165 | compareDots is total, antisymmetric and transitive, and 0 only for equal dots |
| VersionVectors.VersionVector.Increment | src/domain/crdt/VersionVector.js:91-96 | hands out a dot that was not covered before and is covered after |
| VersionVectors.VersionVector.Merge | src/domain/crdt/VersionVector.js:111-120 | a new vector with the pointwise maximum; inputs unchanged |
| VersionVectors.VersionVector.DescendsFrom | src/domain/crdt/VersionVector.js:130-138 | true exactly when no counter of the second vector is greater |
| VersionVectors.MergedIsLeastUpperBound | src/domain/crdt/VersionVector.js:111-138 | merge is the least upper bound under vvDescends |
| VersionVectors.MergeLaws | src/domain/crdt/VersionVector.js:111-120 | merge is commutative, associative and idempotent |
| ORSets.ORSet.Add | src/domain/crdt/ORSet.js:118-131 | the element gains the encoded dot and nothing else changes |
| ORSets.ORSet.Remove | src/domain/crdt/ORSet.js:140-144 | exactly the observed dots join the tombstones |
| ORSets.ORSet.Contains | src/domain/crdt/ORSet.js:154-167 | true exactly when some dot of the element is not tombstoned |
| ORSets.ORSet.GetDots | src/domain/crdt/ORSet.js:195-209 | the dots of the element that are not tombstoned |
| ORSets.ORSet.Elements | src/domain/crdt/ORSet.js:176-186 | the present elements, each once |
| ORSets.ORSet.Join | src/domain/crdt/ORSet.js:224-255 | a new set with both add relations and both tombstone sets; no sharing |
| ORSets.ORSet.Compact | src/domain/crdt/ORSet.js:297-323 | drops exactly the entry dots that are tombstoned and whose counter is at most that of their writer in the vector, or changes nothing if some entry dot is malformed |
| ORSets.CompactedExactly | src/domain/crdt/ORSet.js:302-322 | which pairs and which tombstones remain, in terms of the counters |
| ORSets.BeyondStays | src/domain/crdt/ORSet.js:273-280 | a dot beyond the vector keeps its entries and its tombstone |
| ORSets.CompactedKeepsLive | src/domain/crdt/ORSet.js:297-323 | compaction changes no element's live dots |
| ORSets.TidyIsUnique | src/domain/crdt/ORSet.js:297-323 | as emptied elements are deleted, the add relation determines the entry map |
| Replicas.FreshDotIsUnknown | src/domain/crdt/VersionVector.js:91-96 | after every run, whatever was compacted, the next dot of a writer occurs at no replica, live or tombstoned |
| Replicas.CollectionIsInvisible | src/domain/crdt/ORSet.js:224-323 | in every run whose compactions take dots live nowhere, all replicas show the live dots and version vectors of the run without compactions |
| Replicas.DeadStaysDead | src/domain/crdt/ORSet.js:258-296 | a dot once tombstoned at a replica is never live there again, whatever was compacted |
| Replicas.SafeIffUnnoticed | src/domain/crdt/ORSet.js:258-323 | a compaction goes unnoticed in all later courses exactly when it takes no dot live at some replica |
| Replicas.ContainmentIsNotEnough | src/domain/crdt/ORSet.js:283-290 | for any two writers, a run where both version vectors contain the dot and compaction still resurrects the element |
| Replicas.AddWins | src/domain/crdt/ORSet.js:11-37 | an element is present exactly when some add of it in the causal past was seen by no remove of it there |
| Replicas.SamePastSameElements | src/domain/crdt/ORSet.js:54-64 | replicas with the same causal past show the same elements |
| GarbageCollection.CountEntries | src/domain/services/GCMetrics.js:24-30 | the number of element-dot pairs |
| GarbageCollection.CountDots | src/domain/services/GCMetrics.js:37-65 | the number of pairs whose dot is tombstoned, or is not |
| GarbageCollection.CollectGCMetrics | src/domain/services/GCMetrics.js:72-100 | all counts, their sums, and a ratio between 0 and 1 that is tombstones over entries |
| GarbageCollection.CompactedCounts | src/domain/services/GCPolicy.js:105-143 | a compaction removes as many entries as tombstoned entries, and no live one |
| GarbageCollection.ExecuteGC | src/domain/services/GCPolicy.js:105-143 | compacts both sets and reports tombstonesRemoved = nodesCompacted + edgesCompacted; a failure tells the phase and what had been done |
| Checkpoint.ComputeAppliedVV | src/domain/services/CheckpointSerializerV5.js:138-164 | for every writer the greatest counter among all entry dots of both sets, tombstoned or not |
| Checkpoint.TakeSnapshot | src/domain/services/CheckpointService.js:253-264 | the checkpointed copy keeps every live dot and no tombstoned entry; the caller's state is untouched |
| Checkpoint.FullCompaction | src/domain/services/CheckpointService.js:253-264 | compacting by a vector that covers all entries leaves exactly the live entries and the tombstones without entries |
| Checkpoint.MergeSortedUnique | src/domain/services/CheckpointService.js:124-157 | two ascending lists become the ascending list of their union |
| Checkpoint.CollectContentOids | src/domain/services/CheckpointService.js:165-203 | whatever the batches, the ascending distinct content ids |
| Checkpoint.AscendingIsUnique | src/domain/services/CheckpointService.js:165-203 | an ascending list is determined by its members, so batching cannot show |
| CheckpointCodec.SortedEntries | src/domain/services/CheckpointSerializerV5.js:41-75 | the pairs of a map by ascending key |
| CheckpointCodec.SerializeSet | src/domain/crdt/ORSet.js:350-386 | a serialised form of the set, refused exactly when some dot is malformed |
| CheckpointCodec.DeserializeSet | src/domain/crdt/ORSet.js:394-415 | the entries and tombstones the lists stand for |
| CheckpointCodec.DotListAscends | src/domain/crdt/ORSet.js:350-386 | listed dots come by writer id and then by counter |
| CheckpointCodec.SetRoundTrip | src/domain/crdt/ORSet.js:350-415 | reading a serialised form gives the set it came from |
| CheckpointCodec.SerializeVV | src/domain/crdt/VersionVector.js:160-180 | fields by ascending writer, refused exactly when a counter is zero |
| CheckpointCodec.DeserializeVV | src/domain/crdt/VersionVector.js:194-208 | refuses negative counters and drops zeros |
| CheckpointCodec.StateImageIsUnique | src/domain/services/CheckpointSerializerV5.js:41-82 | a state whose dots are encoded has one serialised form |
| CheckpointCodec.SerializeFullState | src/domain/services/CheckpointSerializerV5.js:41-82 | a serialised form, refused exactly for malformed dots or zero counters |
| CheckpointCodec.DeserializeFullState | src/domain/services/CheckpointSerializerV5.js:91-124 | the state the image stands for, in new objects |
| CheckpointCodec.SaveAndLoad | src/domain/services/CheckpointSerializerV5.js:41-124 | saving and loading gives the same state unless it could not be written |
| AuditReceipts.BuiltIsAccepted | src/domain/services/AuditReceiptService.js:97-179 | a built receipt survives its record form, passes the verifier's schema and id checks, and has the zero hash only at tick 1 |
| AuditReceipts.SchemaIsExact | src/domain/services/AuditVerifierService.js:89-136 | the record of a receipt passes exactly if it has names, a single tick from 1 on and a time not before 0, and reads back as the receipt |
| AuditReceipts.SchemaIsOfReceipts | src/domain/services/AuditVerifierService.js:89-136 | nothing passes but records of receipts |
| AuditReceipts.SchemaIsClosed | src/domain/services/AuditVerifierService.js:89-136 | the schema admits exactly the nine fields |
| AuditVerifier.WalkChain | src/domain/services/AuditVerifierService.js:401-540 | on any store the walk ends; VALID exactly when a linked, single-writer, tick-descending chain leads to a genesis; PARTIAL exactly when the boundary is met; receipts counted as the commits on the way; otherwise the one error is the first fault at the commit where the walk stops, and the status its verdict; a gap is warned of exactly when ticks are missing |
| AuditVerifier.ChainIsExact | src/domain/services/AuditVerifierService.js:401-540 | a chain is a list of commits that store receipts of the writer and graph under matching trailers, each following the next by its only parent, its receipt, its tick and its id length, down to a genesis |
| AuditVerifier.GapIsExact | src/domain/services/AuditVerifierService.js:663-669 | a gap is reported exactly when a tick is missing, from the older tick to the newer one |
| AuditVerifier.CheckCommit | src/domain/services/AuditVerifierService.js:550-613 | accepts exactly the sound commits that link to the newer receipt, and reports a fault the commit has |
| AuditVerifier.CheckReceipt | src/domain/services/AuditVerifierService.js:441-480 | accepts exactly receipts with fitting ids, matching trailers, the right names and a smaller tick |
| AuditVerifier.Advance | src/domain/services/AuditVerifierService.js:488-528 | after a verified commit: the boundary, the genesis, a broken link, or on to the only parent |
| AuditVerifier.ChainResult.AddError | src/domain/services/AuditVerifierService.js:719-724 | appends the error and replaces a good status by ERROR |
| AuditVerifier.TicksDescend | src/domain/services/AuditVerifierService.js:654-662 | along a verified stretch ticks drop by at least one per commit and no commit repeats |
| AuditVerifier.SegmentsAgree | src/domain/services/AuditVerifierService.js:401-540 | two verified stretches from one tip run along each other |
| AuditProducer.CallsAreAccounted | src/domain/services/AuditReceiptService.js:266-301 | in every run committed + skipped + failed equals the finished calls, with at most two swaps a call |
| AuditProducer.RegularStep | src/domain/services/AuditReceiptService.js:308-456 | every step keeps the parent a service writes equal to the ref value it expects |
| AuditProducer.SwapIffAdvances | src/domain/services/AuditReceiptService.js:390-418 | a successful swap leaves a verifying chain exactly when its tick exceeds the tip's and ids are as long |
| AuditProducer.ProducerMeetsVerifier | src/domain/services/AuditReceiptService.js:266-456 | for any number of services, failed writes and lost swaps, if successful ticks exceed the tip's then the tip heads a linked chain down to a genesis |
| AuditProducer.VerifyRun | src/domain/services/AuditVerifierService.js:401-540 | the verifier's walk from the tip of such a run reports VALID, no error and a genesis, and verifies as many receipts as the services counted commits |
| AuditProducer.EveryCommitIsInTheChain | src/domain/services/AuditReceiptService.js:398-417 | in such a run the chain holds one commit for each that was counted, and no other |
| AuditProducer.RetryCommits | src/domain/services/AuditReceiptService.js:427-443 | a retry reads the ref again and commits on what it finds there, if the tick is well-formed and fits, leaving the service undegraded |
| AuditProducer.LostSwapCommits | src/domain/services/AuditReceiptService.js:404-443 | a first lost swap leads to a commit by the retry |
| AuditProducer.CallCommits | src/domain/services/AuditReceiptService.js:308-418 | a service that remembers the ref's value commits on it |
| AuditProducer.InitCommits | src/domain/services/AuditReceiptService.js:232-418 | a service initialised on a set ref commits on its value |
| AuditProducer.BuildsNextIff | src/domain/services/AuditReceiptService.js:331-346 | on a given ref value a receipt can be built exactly from the ticks it admits |
| AuditProducer.DegradesIff | src/domain/services/AuditReceiptService.js:405-455 | a service degrades exactly when its retry fails: in building, in writing or in a second lost swap |
| AuditProducer.DegradedSkipsAll | src/domain/services/AuditReceiptService.js:266-274 | a degraded service never commits or fails again and skips every call |
| AuditProducer.BuiltIsSound | src/domain/services/AuditReceiptService.js:308-388 | what a service writes passes all checks of one commit, and is a genesis exactly when nothing came before |
| AuditProducer.BuildsFirstIff | src/domain/services/AuditReceiptService.js:97-179 | with the ref unset a receipt can be built exactly from a well-formed tick 1 of the own writer |
| AuditProducer.NeverStarts | src/domain/services/AuditReceiptService.js:266-418 | while no call brings such a tick, nothing is written and every call of every service has failed, none skipped or degraded |
| AuditProducer.StartsIff | src/domain/services/AuditReceiptService.js:157-161 | services told of ticks out of a collection can start a chain if and only if one of these ticks opens it |
| AuditProducer.LateStartNeverCommits | src/domain/services/AuditReceiptService.js:157-161 | services that see no tick 1 write nothing and fail on every call |
| BitmapBuilder.BitmapIndexBuilder.RegisterNode | src/domain/services/BitmapIndexBuilder.js:194-202 | a new name gets the next id, a known one keeps its id |
| BitmapBuilder.BitmapIndexBuilder.AddEdge | src/domain/services/BitmapIndexBuilder.js:122-127 | forward and reverse bitmaps stand for the edges added so far, and both ends are registered |
| BitmapBuilder.BitmapIndexBuilder.Serialize | src/domain/services/BitmapIndexBuilder.js:146-186 | the shards hold exactly the ids and bitmaps, each under its prefix |
| BitmapBuilder.PathsDiffer | src/domain/services/BitmapIndexBuilder.js:146-186 | shard paths of different kinds or prefixes differ, and only id shards look like meta paths |
| LruCaches.LruCache.Get | src/domain/utils/LRUCache.js:33-44 | a hit returns the value and moves the key to the young end |
| LruCaches.LruCache.Set | src/domain/utils/LRUCache.js:55-71 | the key becomes the youngest and the oldest is evicted beyond the size |
| LruCaches.SetIsExact | src/domain/utils/LRUCache.js:55-71 | a known key moves to the young end, a new one joins there, and a full cache loses the item not used for longest |
| LruCaches.SetKeepsItems | src/domain/utils/LRUCache.js:55-71 | a cache of any size holds the new item and otherwise only what it held |
| BitmapReader.BitmapIndexReader.Setup | src/domain/services/BitmapIndexReader.js:129-154 | invalid oids are refused or skipped by mode, and caches start afresh |
| BitmapReader.BitmapIndexReader.LookupId | src/domain/services/BitmapIndexReader.js:163-169 | the id stored for the name, if any |
| BitmapReader.BitmapIndexReader.GetOrLoadShard | src/domain/services/BitmapIndexReader.js:434-459 | what is handed out is what the storage holds, cached or not |
| BitmapReader.BitmapIndexReader.BuildIdToShaMapping | src/domain/services/BitmapIndexReader.js:242-265 | a first complete pass covers all meta shards; a failed one leaves a partial table behind |
| BitmapReader.BitmapIndexReader.GetEdges | src/domain/services/BitmapIndexReader.js:198-230 | the known names of the stored bitmap in id order |
| BitmapReader.AnswerIsSelection | src/domain/services/BitmapIndexReader.js:226-230 | mapping and filtering ids gives the registration-order selection exactly when the table knows every named id |
| BitmapIndex.QueryIndex | src/domain/services/BitmapIndexReader.js:176-230 | with a whole name table a query returns exactly the added edges in registration order, for any cache size |
| BitmapIndex.AnswerIsRightIff | src/domain/services/BitmapIndexReader.js:226-265 | a returned answer is right exactly when the table knows all named neighbours |
| BitmapIndex.QueryAcrossOutage | src/domain/services/BitmapIndexReader.js:242-265 | after an outage during the first query, the next one succeeds with no neighbours |
| IndexRebuild.BuildAndQuery | src/domain/services/IndexRebuildService.js:265-379 | an index that is built, serialised, stored and loaded answers every sequence of queries with exactly the added edges, for any cache size and either mode; only storing can fail, and it does not when ids stand for contents |
| IndexRebuild.PersistIndex | src/domain/services/IndexRebuildService.js:265-273 | every path leads to a stored blob that holds its shard, older blobs unchanged |
| IndexRebuild.Load | src/domain/services/IndexRebuildService.js:329-379 | a reader over what was persisted serves the serialised tree |
| BitmapIndex.NeighborsAscend | src/domain/services/BitmapIndexReader.js:226-230 | the names of an answer come in the order of their ids, each once |
| BitmapIndex.ChildrenAndParentsAreInverse | src/domain/services/BitmapIndexReader.js:171-188 | t is a child of s exactly when s is a parent of t, which is when the edge was added |

## Left out

- Replicas: patches, lamport clocks and the reducer that turns patches into OR-set calls; a synchronisation joins whole states, and JoinReducer is not part of this model.
- AuditProducer: a step system instead of a class, because several services interleave between their awaits; one service runs its calls one after the other, and a swap that fails is taken to have left the ref alone.
- AuditProducer.ProducerMeetsVerifier: asks that data commits of successful swaps have the repository's id length, as ids of one repository do.
- AuditVerifier: verifyChain's second reading of the ref (the moved-tip warning), verifyAll and trust evaluation.
- AuditReceipts: the codec and the trailer format are read as injective encodings, and digests as uninterpreted strings.
- IndexRebuild: walking the commit graph, staleness and automatic rebuilding, the frontier entry, and the tree object between blob ids and paths.
- BitmapReader: checksums and versions of shard envelopes (a shard is good or corrupt), overlapping calls while the name table is being filled, and inherited object properties as names.
- BitmapReader.BitmapIndexReader.GetOrLoadShard: in lenient mode an undecodable bitmap empties its cached shard, so its contract admits the empty shard there.
- CheckpointCodec: the legacy birth-event form, missing buffers, version mismatch and the byte codec; values of registers are opaque.
- Checkpoint: tree formatting, hashing and index shards of a checkpoint.
- GarbageCollection: shouldRunGC and timing.
- GarbageCollection.ExecuteGC: asks for two different sets, as a graph state holds them.
- LruCaches.LruCache: its constructor asks for a positive size, where the source throws.
- WeightedSearch, Bidirectional and the other searches: the LRU cache of neighbour lists, statistics, hooks, abort signals and logging; weight functions are pure, as the engine demands.
- Topology: the cycle witness attached to the error, and the reuse of neighbour lists between the phases.
- DagPathFinding.findPath: it finds a path but, against its comment, not always a shortest one, since the parent of a queued node is overwritten; not modelled.
- GraphTraversal: isReachable, connectedComponent, commonAncestors and rootAncestors, which add nothing beyond the searches above.
- DagTopology and the Dijkstra of DagPathFinding: weaker twins of the engine's versions.
- Last-writer-wins registers, key codecs, frontiers, message codecs, presenters, the CLI and Git access.

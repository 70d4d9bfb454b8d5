# Travelling-salesman engines: a verified model

This project models the solving core of a Java travelling-salesman benchmark. The core
has three exact branch-and-bound engines and a simulated-annealing heuristic:

- BFS uses a FIFO queue.
- DFS uses a LIFO stack.
- LowestCost uses a cost-ordered binary min-heap.

The three containers the exact engines use as their frontier are modelled too. Each
engine reads a problem made of a city count `n` and an `n`×`n` integer distance matrix.

Modules, one per file:

- `Results`: `Option` stands for a nullable result. `Result` stands for a value or the
  exception the Java code throws: `IllegalState`, `IllegalArgument` or
  `IndexOutOfBounds`.
- `Problems`: the distance matrix, and `IntMax`, which is `Integer.MAX_VALUE`.
- `Tours`: permutations, tours from city 0, open and closed path lengths, and lemmas
  about them. These cover prefixes, rotations of a cycle and the pigeonhole bound.
- `Sequences`: the exchange of two positions, which the heap and the swap neighbour
  share.
- `Queues`, `Stacks`, `PriorityQueues`: the frontier containers. Each is a class whose
  `seq` field stands for the backing `LinkedList` or `ArrayList`. The heap class keeps a
  ghost `contents` list of the items in enqueue order. Its validity predicate says that
  the heap is in heap order and holds the same multiset of items as `contents`.
- `Search`: what the three exact engines share:
  - the `Node` datatype;
  - the children that expanding a node produces, scanning cities in ascending order with
    pruning;
  - the loop invariant `SearchInv`. Every frontier node is well-formed, and the best
    tour is sound. With no negative edge, every tour cheaper than the best so far also
    extends the path of some frontier node.
  - the lemmas showing that closing or expanding a dequeued node keeps that invariant
    and lowers a termination measure.
- `BFS`, `DFS`, `LowestCost`: each engine's `solve` loop, with the same three results:
  - a returned tour is a closed tour;
  - with non-negative edges it is optimal;
  - with non-negative edges it exists whenever some tour is shorter than
    `Integer.MAX_VALUE`.
- `SimulatedAnnealing`: the pieces of the annealing engine that do not depend on chance:
  - the cycle-length evaluator;
  - the nearest-neighbour construction;
  - the swap neighbour;
  - the dispatch on the initial-method name;
  - the acceptance rule for improving moves;
  - the best-tracking loop of `solve`.

  The random draws come in as parameters, and so does the clock. The clock becomes a
  finite sequence of moves, one per iteration.

The exact engines use `Integer.MAX_VALUE` as their initial bound and prune every child
whose cost is not below the bound. So, as long as no `int` sum overflows, they return
`null` not only when there are no cities, but also whenever every tour is at least
`Integer.MAX_VALUE` long. Having at least one city is not enough for a tour to be
returned. `Tours.BoundedTour` gives a simple sufficient condition for a non-null result when no
edge is negative: `n` times the longest edge stays below `Integer.MAX_VALUE`. When a sum does overflow, the
Java result can differ from the model's; the overflow line under "## Left out" says how.

## Model

| member | source | states |
|---|---|---|
| Queues.Queue.constructor | src/km/model/structures/Queue.java:6 | a new queue is empty |
| Queues.Queue.Enqueue | src/km/model/structures/Queue.java:8-10 | the item joins the back: the list becomes old list + [item] |
| Queues.Queue.Dequeue | src/km/model/structures/Queue.java:12-17 | an empty queue fails with IllegalState "Queue is empty" and stays empty; otherwise it returns the head and leaves the tail |
| Queues.Queue.Peek | src/km/model/structures/Queue.java:19-24 | returns the head without changing the queue; an empty queue fails with IllegalState |
| Queues.Queue.IsEmpty | src/km/model/structures/Queue.java:26-28 | true exactly when the list has no items |
| Queues.FifoOrder | src/km/model/structures/Queue.java:8-17 | a then b enqueued on an empty queue dequeue as a, then b, then the empty-queue failure |
| Stacks.Stack.constructor | src/km/model/structures/Stack.java:6 | a new stack is empty |
| Stacks.Stack.Push | src/km/model/structures/Stack.java:8-10 | the item goes on top: the list becomes [item] + old list |
| Stacks.Stack.Pop | src/km/model/structures/Stack.java:12-17 | an empty stack fails with IllegalState "Stack is empty" and stays empty; otherwise it returns the top and leaves the rest |
| Stacks.Stack.Peek | src/km/model/structures/Stack.java:19-24 | returns the top without changing the stack; an empty stack fails with IllegalState |
| Stacks.Stack.IsEmpty | src/km/model/structures/Stack.java:26-28 | true exactly when the stack holds no items |
| Stacks.PushThenPop | src/km/model/structures/Stack.java:8-17 | push x then pop returns x and restores the previous contents |
| Stacks.LifoOrder | src/km/model/structures/Stack.java:8-17 | a then b pushed on an empty stack pop as b, then a, then the empty-stack failure |
| Stacks.ReversedSnoc | src/km/algorithms/DFS.java:60 | the item pushed last ends up first in the reversed order |
| Stacks.ReversedSameItems | src/km/algorithms/DFS.java:47-63 | reversal keeps the multiset of items |
| Sequences.Swapped | src/km/model/structures/PriorityQueue.java:87-93 | positions i and j are exchanged, every other position is kept, and the multiset of items is unchanged |
| PriorityQueues.ChildIndex | src/km/model/structures/PriorityQueue.java:65-66 | j has parent k under (j - 1) / 2 exactly when j is 2k + 1 or 2k + 2 |
| PriorityQueues.SiftUpStep | src/km/model/structures/PriorityQueue.java:53-58 | swapping an element smaller than its parent moves the only heap-order violation one level up |
| PriorityQueues.SiftDownStep | src/km/model/structures/PriorityQueue.java:79-82 | swapping an element with its smallest child, when that child is smaller, moves the only violation one level down |
| PriorityQueues.SiftDownDone | src/km/model/structures/PriorityQueue.java:79 | once the element is no larger than its children, the heap order holds everywhere |
| PriorityQueues.SiftDownChoice | src/km/model/structures/PriorityQueue.java:65-83 | the choice of the smallest of the element and its two children either restores heap order or moves the violation to that child |
| PriorityQueues.AppendExceptUp | src/km/model/structures/PriorityQueue.java:17-18 | an item appended to a heap violates heap order at most with its parent |
| PriorityQueues.ReplaceRootExceptDown | src/km/model/structures/PriorityQueue.java:32-35 | moving the removed last element to the root leaves the root as the only violation |
| PriorityQueues.RootIsMinimum | src/km/model/structures/PriorityQueue.java:30 | in a heap the root's key is at most the key of every position |
| PriorityQueues.ReplaceRootItems | src/km/model/structures/PriorityQueue.java:30-35 | dropping the last element and writing it at the root removes exactly the old root from the multiset |
| PriorityQueues.RemoveOccurrence | src/km/model/structures/PriorityQueue.java:32-35 | some list holds the items of s with one occurrence of x removed |
| PriorityQueues.MinimumAtRoot | src/km/model/structures/PriorityQueue.java:30-40 | every item in a heap has a key no smaller than the root's |
| PriorityQueues.PriorityQueue.constructor | src/km/model/structures/PriorityQueue.java:11-13 | a new queue is empty and valid, with the given comparator key |
| PriorityQueues.PriorityQueue.Enqueue | src/km/model/structures/PriorityQueue.java:16-21 | the heap grows by one, the item joins the contents, and heap order and the contents' multiset are kept |
| PriorityQueues.PriorityQueue.Dequeue | src/km/model/structures/PriorityQueue.java:24-41 | an empty queue fails with IllegalState "PriorityQueue is empty" and stays empty; otherwise it returns an item of least key among all items, removes exactly one occurrence of it, and keeps heap order |
| PriorityQueues.PriorityQueue.RemoveRoot | src/km/model/structures/PriorityQueue.java:30-38 | the last element replaces the root and sifts down: heap order is kept, the size drops by one, and exactly the old root leaves the multiset |
| PriorityQueues.PriorityQueue.IsEmpty | src/km/model/structures/PriorityQueue.java:44-46 | true exactly when the heap has size 0, which for a valid queue is exactly when it holds no items |
| PriorityQueues.PriorityQueue.SiftUp | src/km/model/structures/PriorityQueue.java:49-60 | from an order violated only at index, restores heap order by swaps alone (same size, same multiset) |
| PriorityQueues.PriorityQueue.SiftDown | src/km/model/structures/PriorityQueue.java:63-84 | from an order violated only below index, restores heap order by swaps alone; the recursion index strictly grows |
| PriorityQueues.PriorityQueue.Swap | src/km/model/structures/PriorityQueue.java:87-93 | the heap becomes the old heap with positions i and j exchanged, and nothing else changes |
| Tours.ClosedCostAsPath | src/km/algorithms/BFS.java:40-46 | the cycle through s costs as much as the path s followed by its first city again |
| Tours.PrefixCost | src/km/algorithms/BFS.java:54-57 | with no negative edge a prefix of a path is never longer than the path, which makes pruning safe |
| Tours.DistinctCities | src/km/algorithms/BFS.java:52 | a repetition-free path visits as many cities as it has entries |
| Tours.AllCities | src/km/algorithms/BFS.java:50 | the cities 0..n-1 scanned by the expansion are exactly n cities |
| Tours.Pigeonhole | src/km/algorithms/BFS.java:38 | a repetition-free path of cities has at most n entries, and exactly n precisely when it visits every city |
| Tours.PathCostFirstEdge | src/km/algorithms/SimulatedAnnealing.java:118-120 | a path costs its first edge plus the rest of the path |
| Tours.RotateOnce | src/km/algorithms/SimulatedAnnealing.java:116-123 | reading a cycle from its second city keeps its length and its distinct cities |
| Tours.RotateOnceDistinct | src/km/algorithms/SimulatedAnnealing.java:116-123 | rotating by one keeps the cities distinct |
| Tours.RotationCost | src/km/algorithms/SimulatedAnnealing.java:116-123 | a cycle costs the same read from any of its cities, and visits the same distinct cities |
| Tours.RotationStep | src/km/algorithms/SimulatedAnnealing.java:116-123 | rotating by k - 1 and then by one is rotating by k |
| Tours.TourOfCycle | src/km/algorithms/SimulatedAnnealing.java:116-123 | every cyclic order of all cities, read from city 0, is a branch-and-bound tour of the same length |
| Tours.Identity | src/km/algorithms/SimulatedAnnealing.java:77-80 | the list 0..n-1 in order, which RandomSolution's loop builds before the shuffle |
| Tours.PathCostBound | src/km/algorithms/BFS.java:54 | a path with no edge longer than bound costs at most bound per edge |
| Tours.BoundedTour | src/km/algorithms/BFS.java:30 | when n times the longest edge stays below the limit, some tour is shorter than the limit |
| Search.ChildrenNext | src/km/algorithms/BFS.java:50-63 | scanning one more city appends that city's child exactly when the city is unvisited and the child's cost is below the bound |
| Search.ChildrenSpec | src/km/algorithms/BFS.java:50-63 | a node is enqueued iff it is the child for an unvisited scanned city whose cost is below the bound; children come in ascending city order, at most one per city |
| Search.ChildEnqueued | src/km/algorithms/BFS.java:52-63 | every unvisited city whose child is cheaper than the bound gets its child enqueued |
| Search.EnqueuedIsChild | src/km/algorithms/BFS.java:52-63 | every enqueued node is the child for an unvisited city |
| Search.ChildOk | src/km/algorithms/BFS.java:54-63 | a child of a well-formed node is well-formed: path from 0, no repeats, city last, cost the edge sum |
| Search.Weight | src/km/algorithms/BFS.java:33-68 | every node's termination weight is positive |
| Search.FrontierWeightAppend | src/km/algorithms/BFS.java:63 | the measure of a frontier adds up over concatenation |
| Search.FrontierWeightPermutation | src/km/algorithms/LowestCost.java:31-66 | the measure depends only on the multiset of frontier nodes, so it applies to the heap as well |
| Search.RemoveHead | src/km/algorithms/LowestCost.java:33 | matching the head of one list with an occurrence in another leaves equal multisets |
| Search.FrontierWeightRemove | src/km/algorithms/LowestCost.java:33 | the measure is the weight of any one node plus that of the rest |
| Search.FrontierWeightUniform | src/km/algorithms/BFS.java:59-63 | nodes of equal path length weigh the same |
| Search.InitialInv | src/km/algorithms/BFS.java:25-30 | the root node Root = (city 0, path [0], cost 0) alone in the frontier, no best path and the bound Integer.MAX_VALUE satisfy the search invariant |
| Search.RemoveAt | src/km/algorithms/LowestCost.java:33 | removing one position removes exactly that item from the multiset |
| Search.DequeuedMembers | src/km/algorithms/LowestCost.java:33 | the dequeued node was in the frontier, and the rest holds every other node |
| Search.EnqueuedMembers | src/km/algorithms/BFS.java:63 | after an expansion the frontier holds exactly the remaining nodes and the children |
| Search.NodesFrom | src/km/algorithms/BFS.java:35 | nodes taken from a well-formed frontier are well-formed |
| Search.Dequeued | src/km/algorithms/BFS.java:35-38 | a dequeued node is well-formed; a complete one lies in a non-empty problem |
| Search.CloseStep | src/km/algorithms/BFS.java:38-47 | closing a complete node keeps the invariant, takes the new tour exactly when its total is strictly below the best, and lowers the measure |
| Search.CloseTour | src/km/algorithms/BFS.java:40-46 | a complete path followed by 0 is a closed tour of length cost plus the edge home |
| Search.CloseKeepsCover | src/km/algorithms/BFS.java:38-47 | after a close, every tour cheaper than the new best still extends a frontier node |
| Search.CompleteNodeCost | src/km/algorithms/BFS.java:38-40 | a complete node extends only its own tour, whose length is cost plus the edge home |
| Search.ExpandStep | src/km/algorithms/BFS.java:48-66 | expanding an incomplete node keeps the invariant and lowers the measure |
| Search.ExpandKeepsNodes | src/km/algorithms/BFS.java:50-63 | every node in the frontier after an expansion is well-formed |
| Search.ExpandKeepsCover | src/km/algorithms/BFS.java:52-63 | with no negative edge, pruning children not cheaper than the best loses no better tour |
| Search.NextOnTour | src/km/algorithms/BFS.java:52-57 | the child that follows a tour extending the node costs no more than the tour |
| Search.ExpandWeight | src/km/algorithms/BFS.java:48-66 | replacing a node by its children lowers the frontier measure |
| Search.ChildrenWeight | src/km/algorithms/BFS.java:50-63 | the children of an incomplete node (at most n, one city longer) weigh less than the node |
| Search.Conclude | src/km/algorithms/BFS.java:68-70 | once the frontier is empty the best path is a closed tour, optimal with no negative edge; a path is present when some tour is below Integer.MAX_VALUE (with no negative edge) and a present path is itself below Integer.MAX_VALUE |
| Search.OptimalCostsAgree | src/km/algorithms/DFS.java:30-67 | two optimal tours, such as those of BFS, DFS and LowestCost, have equal length |
| Search.ClosedTourCost | src/km/algorithms/BFS.java:45-46 | a closed tour costs what its open tour costs as a cycle |
| BFS.Solve | src/km/algorithms/BFS.java:18-71 | a returned path is a closed tour from 0 over every city and shorter than Integer.MAX_VALUE; with no negative edge it is optimal and is returned exactly when some tour is below Integer.MAX_VALUE; the loop terminates
| BFS.Visit | src/km/algorithms/BFS.java:35-67 | one loop iteration keeps the invariant and lowers the measure; the best never grows, and it changes only to a strictly shorter closed tour current.path + [0] of length cost plus the edge home |
| BFS.EnqueueChildren | src/km/algorithms/BFS.java:50-66 | the queue becomes the old queue followed by exactly the unpruned children in ascending city order |
| DFS.Solve | src/km/algorithms/DFS.java:18-68 | a returned path is a closed tour from 0 over every city and shorter than Integer.MAX_VALUE; with no negative edge it is optimal and is returned exactly when some tour is below Integer.MAX_VALUE; the loop terminates
| DFS.Visit | src/km/algorithms/DFS.java:32-64 | one loop iteration keeps the invariant and lowers the measure; the best never grows, and it changes only to a strictly shorter closed tour current.path + [0] of length cost plus the edge home |
| DFS.PushChildren | src/km/algorithms/DFS.java:47-63 | the stack becomes the unpruned children, last scanned on top, above the old stack, with the children's multiset added |
| DFS.PushOrderNext | src/km/algorithms/DFS.java:49-60 | scanning one more city pushes its child on top exactly when the city is unvisited and the cost is below the bound |
| DFS.PushOrderReversed | src/km/algorithms/DFS.java:47-63 | the pushed segment is the ascending enqueue order read backwards |
| LowestCost.Solve | src/km/algorithms/LowestCost.java:19-69 | a returned path is a closed tour from 0 over every city and shorter than Integer.MAX_VALUE; with no negative edge it is optimal and is returned exactly when some tour is below Integer.MAX_VALUE; the loop terminates
| LowestCost.CheapestFirst | src/km/algorithms/LowestCost.java:23-33 | the node dequeued from the cost-keyed heap has the least cost of the whole frontier |
| LowestCost.NodeCost | src/km/algorithms/LowestCost.java:23 | the comparator key of the heap: a node's cost so far, so that PriorityQueue.Dequeue returns a node of least cost in the frontier |
| LowestCost.Visit | src/km/algorithms/LowestCost.java:33-65 | one loop iteration keeps the heap valid and the invariant, and lowers the measure; the best never grows, and it changes only to a strictly shorter closed tour |
| LowestCost.EnqueueChildren | src/km/algorithms/LowestCost.java:48-64 | the heap's contents become the old contents followed by exactly the unpruned children, and the heap stays valid |
| SimulatedAnnealing.CalculateTotalDistance | src/km/algorithms/SimulatedAnnealing.java:116-123 | the sum of consecutive edges plus the edge from the last city back to the first; an empty list fails with IndexOutOfBounds |
| SimulatedAnnealing.TriangleCost | src/km/algorithms/SimulatedAnnealing.java:116-123 | [0, 1, 2] with every edge 1 costs 3 |
| SimulatedAnnealing.NoShorterThanOptimal | src/km/algorithms/SimulatedAnnealing.java:116-123 | no permutation's cycle is shorter than an optimal branch-and-bound tour |
| SimulatedAnnealing.GreedyExtend | src/km/algorithms/SimulatedAnnealing.java:107-108 | appending the nearest city keeps the path greedy |
| SimulatedAnnealing.NearestUnique | src/km/algorithms/SimulatedAnnealing.java:100-105 | the scan's choice is unique, because the strict < breaks ties towards the lowest index |
| SimulatedAnnealing.NearestOrStranded | src/km/algorithms/SimulatedAnnealing.java:100-105 | finding a nearest city and finding none exclude each other |
| SimulatedAnnealing.NeverStranded | src/km/algorithms/SimulatedAnnealing.java:98-105 | with every distance below Integer.MAX_VALUE, the scan finds a city until all are visited |
| SimulatedAnnealing.NearestNeighborSolution | src/km/algorithms/SimulatedAnnealing.java:86-113 | no cities fails as nextInt(0) does; success gives a permutation that starts at the drawn city with each next city the nearest unvisited one; failure otherwise means a greedy path reached a city with every unvisited city at least Integer.MAX_VALUE away |
| SimulatedAnnealing.NearestCity | src/km/algorithms/SimulatedAnnealing.java:97-105 | -1 when every unvisited city is at least Integer.MAX_VALUE away, otherwise the nearest unvisited city with the lowest index |
| SimulatedAnnealing.RandomSolution | src/km/algorithms/SimulatedAnnealing.java:76-83 | the shuffled list of the cities 0..n-1 is a permutation, namely the one the shuffle drew |
| SimulatedAnnealing.LowerChar | src/km/algorithms/SimulatedAnnealing.java:66-68 | ASCII capitals map to their lower-case letters; other characters are kept |
| SimulatedAnnealing.UpperChar | src/km/algorithms/SimulatedAnnealing.java:66-68 | ASCII lower-case letters map to their capitals; other characters are kept (non-ASCII letters are not folded) |
| SimulatedAnnealing.Lower | src/km/algorithms/SimulatedAnnealing.java:66-68 | each character lower-cased, length kept |
| SimulatedAnnealing.EqualsIgnoreCase | src/km/algorithms/SimulatedAnnealing.java:66-68 | String.equalsIgnoreCase: equal lengths, and the characters at each position match ignoring case |
| SimulatedAnnealing.CharsMatch | src/km/algorithms/SimulatedAnnealing.java:66-68 | two characters match when they are equal, or equal once upper-cased, or equal once upper-cased and then lower-cased, as Java compares them; only ASCII letters are folded |
| SimulatedAnnealing.CharsMatchLower | src/km/algorithms/SimulatedAnnealing.java:66-68 | two characters match ignoring case exactly when their lower-case forms agree |
| SimulatedAnnealing.EqualsIgnoreCaseLower | src/km/algorithms/SimulatedAnnealing.java:66-68 | equalsIgnoreCase holds exactly when the lower-case forms are equal |
| SimulatedAnnealing.ParseInitialMethod | src/km/algorithms/SimulatedAnnealing.java:65-73 | "random" and "nearestNeighbor", with ASCII letters in any case, select their method (both directions); any other name fails with IllegalArgument "Unknown initial solution method: " + name (non-ASCII case folding is not modelled) |
| SimulatedAnnealing.GenerateInitialSolution | src/km/algorithms/SimulatedAnnealing.java:65-73 | an unknown name fails with its IllegalArgument; "random" returns the shuffle; a successful result is a permutation, and the nearest-neighbour one starts at the drawn city and is greedy; a known name fails only for nearest neighbour, with no cities (nextInt(0)) or when a greedy path from the drawn city is stranded |
| SimulatedAnnealing.GenerateNeighbor | src/km/algorithms/SimulatedAnnealing.java:132-139 | a copy of the tour with positions i and j exchanged; the input is a value and stays unchanged |
| SimulatedAnnealing.SwapPermutation | src/km/algorithms/SimulatedAnnealing.java:137 | a swap of two positions turns a permutation into a permutation |
| SimulatedAnnealing.SwapInvolution | src/km/algorithms/SimulatedAnnealing.java:137 | swapping a position with itself gives a copy, and swapping twice undoes the swap |
| SimulatedAnnealing.AcceptanceProbability | src/km/algorithms/SimulatedAnnealing.java:125-130 | the first branch (1.0) is taken exactly when the new tour is strictly shorter; otherwise the exponent's numerator, the non-positive gain, is kept |
| SimulatedAnnealing.Accepted | src/km/algorithms/SimulatedAnnealing.java:42 | the test probability > nextDouble(): a certain move is accepted, since the draw is below 1.0; any other move is accepted exactly when its oracle bit says so |
| SimulatedAnnealing.Step | src/km/algorithms/SimulatedAnnealing.java:39-50 | an iteration keeps both tours permutations with their true lengths and best no longer than current; an improving neighbour is always taken; the best never grows, becomes the current tour when it shrinks and stays the same tour when its length stays |
| SimulatedAnnealing.Run | src/km/algorithms/SimulatedAnnealing.java:38-58 | the iterations keep the state sound and the best never grows |
| SimulatedAnnealing.Iterate | src/km/algorithms/SimulatedAnnealing.java:39-50 | the loop body computes exactly one Step |
| SimulatedAnnealing.Solve | src/km/algorithms/SimulatedAnnealing.java:25-61 | an unknown name fails; with no cities "random" fails with IndexOutOfBounds and nearest neighbour with IllegalArgument; with at least one city "random" always succeeds and nearest neighbour fails only when a greedy path from the drawn city is stranded; a result is the best tour of the iterations (stopping early at optimalSolution), a permutation no longer than the initial tour, which is the shuffle or a greedy tour from the drawn city |

## Left out

- src/km/Main.java: configuration, repeated timed runs, relative-error averaging in
  floating point, and console output are left out. Its own `calculateTotalDistance`
  (lines 130-137) is a copy of the annealing engine's evaluator, which is modelled once.
- CSVWriter.java, Display.java, ProgressIndicator.java and TimeMeasurer.java are I/O,
  console and clock plumbing, and are left out.
- TSPProblem.java is not part of this model. The problem becomes a city count with a
  square integer matrix, and `getDistance` becomes an index into that matrix.
- Randomness: the start city of the nearest-neighbour construction, the permutation
  `Collections.shuffle` produces and the two positions of each swap are parameters. Each
  `random.nextDouble()` comparison for a move that does not improve the tour is an
  oracle bit in `Move`.
- The wall clock: `solve`'s time budget is replaced by the finite sequence of moves, one
  per iteration. When the moves run out, the loop ends.
- Floating point: `Math.exp`, the temperature and its geometric cooling are left out. A
  move that does not improve the tour is accepted exactly when its oracle bit says so.
  `AcceptanceProbability` records only the non-positive gain the exponent would use.
  As a result the oracle also decides moves of equal length. In Java such a move gives
  `Math.exp(0.0) == 1.0` and is always accepted while the temperature is positive. Once
  the cooled temperature underflows to 0.0, the quotient is NaN and the move is
  rejected. So the model allows more runs than Java does, and every property proved for
  all oracles holds for Java's runs too.
- The console message `solve` prints before stopping early at the optimum is left out.
- SimulatedAnnealing.RandomSolution: requires the shuffle to be a permutation of the
  cities, which is what `Collections.shuffle` of 0..n-1 yields. It does not model the
  shuffle's distribution.
- SimulatedAnnealing.GenerateNeighbor: requires both positions to be in range, which
  `nextInt(size)` guarantees. The empty list, where `nextInt(0)` throws, is not reached,
  because `Solve` fails earlier on an empty problem.
- Java `int` overflow: costs and sums are mathematical integers. `Integer.MAX_VALUE` is
  kept only as the initial bound. Java's sums wrap around at 2^31. With n = 2,
  d(0, 1) = 2147483646 and d(1, 0) = 5, for example, the closing sum wraps to a negative
  number, and the engines return [0, 1, 0]. The model returns none, because the only
  tour is 2^31 + 3 long. `Tours.BoundedTour` states a condition under which a
  tour below that bound exists: `n` times the longest edge stays below it. When in
  addition no edge is negative, no sum the engines form overflows either, because every
  sum is at most `n` times the longest edge. With negative edges that is not so: with
  n = 2 and both edges -2^31, the condition holds, yet the closing sum -2^32 wraps to 0.
- SimulatedAnnealing.LowerChar: models `equalsIgnoreCase` on ASCII letters only. No
  other character's case is folded.
- SimulatedAnnealing.UpperChar: folds ASCII letters only. Java's `Character.toUpperCase`
  also maps non-ASCII letters such as U+0131 (dotless i) to `I` and U+017F (long s) to
  `S`.
- SimulatedAnnealing.ParseInitialMethod: because of that ASCII-only folding, names that
  Java's `equalsIgnoreCase` accepts through non-ASCII letters fail here with
  IllegalArgument. Examples are "nearestNe\u0131ghbor" and "neare\u017FtNeighbor"; Java treats
  both as nearest neighbour.
- Aliasing: Java's `new ArrayList<>(…)` copies of paths and tours are values here, so
  no sharing between nodes or between current and best tour is modelled.
- Helper steps: the loop bodies are modelled as separate methods, each with its own
  contract:
  - `Visit`, `EnqueueChildren`, `PushChildren` (the expansion of a node);
  - `PriorityQueue.RemoveRoot` (the heap part of `dequeue`);
  - `NearestCity` (the inner scan of the nearest-neighbour construction);
  - `Iterate` (the body of the annealing loop).

  They are inlined in the Java source.
- PriorityQueues.PriorityQueue.Dequeue: the ghost `contents` stands for the multiset of
  enqueued items. The model does not say in which order equal-cost items leave the heap.
- SimulatedAnnealing.Run: the contract states soundness and the non-increasing best. The
  early stop at `optimalSolution` is stated by its definition and by `Solve`'s contract,
  not by a separate lemma.

/** Best-first (lowest cost) branch and bound: a binary min-heap of partial tours ordered
    by their cost so far. */
module LowestCost {
  import opened Results
  import opened Problems
  import opened Tours
  import opened Search
  import opened PriorityQueues

  /** The comparator of the priority queue: `Comparator.comparingInt(n -> n.cost)`. */
  function NodeCost(node: Node): int {
    node.cost
  }

  /** Returns the cheapest closed tour starting and ending at city 0, or None when every
      tour is at least `Integer.MAX_VALUE` long or there are no cities (when no edge is
      negative). */
  method Solve(p: Problem) returns (bestPath: Option<seq<nat>>)
    requires p.Valid()
    ensures bestPath.Some? ==> IsClosedTour(bestPath.value, p.n)
    ensures p.NonNegative() && bestPath.Some? ==> IsOptimal(p, bestPath.value)
    ensures p.NonNegative() && HasTourBelow(p, IntMax) ==> bestPath.Some?
    ensures bestPath.Some? ==> PathCost(p, bestPath.value) < IntMax && HasTourBelow(p, IntMax)
  {
    var priorityQueue := new PriorityQueue<Node>(NodeCost);
    priorityQueue.Enqueue(Root);
    bestPath := None;
    var bestDistance := IntMax;
    InitialInv(p);
    var empty := priorityQueue.IsEmpty();
    while !empty
      invariant priorityQueue.Valid()
      invariant empty <==> priorityQueue.contents == []
      invariant SearchInv(p, priorityQueue.contents, bestDistance, bestPath)
      decreases FrontierWeight(p.n, priorityQueue.contents)
    {
      ghost var frontier := priorityQueue.contents;
      ghost var heap := priorityQueue.heap;
      var r := priorityQueue.Dequeue();
      var current := r.value;
      CheapestFirst(frontier, heap, current);
      bestDistance, bestPath := Visit(p, priorityQueue, current, bestDistance, bestPath, frontier);
      empty := priorityQueue.IsEmpty();
    }
    Conclude(p, bestDistance, bestPath);
  }

  /** The node the heap hands out has the least cost of the whole frontier, because the
      heap holds the frontier's nodes and is keyed by their cost. */
  lemma CheapestFirst(frontier: seq<Node>, heap: seq<Node>, current: Node)
    requires multiset(heap) == multiset(frontier)
    requires forall x :: x in heap ==> NodeCost(current) <= NodeCost(x)
    ensures forall x :: x in frontier ==> current.cost <= x.cost
  {
    forall x | x in frontier ensures current.cost <= x.cost {
      assert x in multiset(frontier);
      assert x in multiset(heap);
      assert NodeCost(current) <= NodeCost(x);
    }
  }

  /** Processes a dequeued node: a node whose path visits every city closes its tour and
      may improve the best one; any other node is expanded. The invariant carries over
      from the frontier before the dequeue to the heap afterwards, whose measure is
      smaller. */
  method Visit(p: Problem, priorityQueue: PriorityQueue<Node>, current: Node, bestDistance: int,
               bestPath: Option<seq<nat>>, ghost frontier: seq<Node>)
    returns (bestDistance': int, bestPath': Option<seq<nat>>)
    requires p.Valid() && SearchInv(p, frontier, bestDistance, bestPath)
    requires multiset(frontier) == multiset(priorityQueue.contents) + multiset{current}
    requires priorityQueue.Valid()
    modifies priorityQueue
    ensures priorityQueue.Valid()
    ensures SearchInv(p, priorityQueue.contents, bestDistance', bestPath')
    ensures FrontierWeight(p.n, priorityQueue.contents) < FrontierWeight(p.n, frontier)
    ensures bestDistance' <= bestDistance
    ensures bestDistance' == bestDistance ==> bestPath' == bestPath
    ensures bestDistance' != bestDistance ==>
      && |current.path| == p.n && 1 <= p.n && current.city < p.n
      && bestDistance' == current.cost + p.Dist(current.city, 0) && bestPath' == Some(current.path + [0])
  {
    ghost var rest := priorityQueue.contents;
    Dequeued(p, frontier, rest, current, bestDistance, bestPath);
    bestDistance', bestPath' := bestDistance, bestPath;
    if |current.path| == p.n {
      CloseStep(p, frontier, rest, current, bestDistance, bestPath);
      var totalDistance := current.cost + p.Dist(current.city, 0);
      if totalDistance < bestDistance {
        bestDistance' := totalDistance;
        bestPath' := Some(current.path + [0]);
      }
    } else {
      EnqueueChildren(p, priorityQueue, current, bestDistance);
      ExpandStep(p, frontier, rest, current, bestDistance, bestPath, priorityQueue.contents);
    }
  }

  /** The expansion of a node whose path is not yet complete: scans every city in
      ascending order and enqueues a child for each unvisited city whose cost stays below
      `best`; the heap keeps its order throughout. */
  method EnqueueChildren(p: Problem, priorityQueue: PriorityQueue<Node>, current: Node, best: int)
    requires p.Valid() && (p.n > 0 ==> current.city < p.n) && priorityQueue.Valid()
    modifies priorityQueue
    ensures priorityQueue.Valid()
    ensures priorityQueue.contents == old(priorityQueue.contents) + Children(p, current, best, p.n)
  {
    for nextCity: nat := 0 to p.n
      invariant priorityQueue.Valid()
      invariant priorityQueue.contents == old(priorityQueue.contents) + Children(p, current, best, nextCity)
    {
      ghost var before := priorityQueue.contents;
      if nextCity !in current.path {
        var nextCost := current.cost + p.Dist(current.city, nextCity);
        if nextCost < best {
          var child := Node(nextCity, current.path + [nextCity], nextCost);
          assert old(priorityQueue.contents) + Children(p, current, best, nextCity + 1) == before + [child] by {
            ChildrenNext(p, current, best, nextCity, old(priorityQueue.contents));
          }
          priorityQueue.Enqueue(child);
        } else {
          ChildrenNext(p, current, best, nextCity, old(priorityQueue.contents));
        }
      } else {
        ChildrenNext(p, current, best, nextCity, old(priorityQueue.contents));
      }
    }
  }
}

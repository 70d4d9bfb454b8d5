/** Breadth-first branch and bound: a FIFO queue of partial tours, expanded level by level. */
module BFS {
  import opened Results
  import opened Problems
  import opened Tours
  import opened Search
  import opened Queues

  /** Returns the cheapest closed tour starting and ending at city 0, or None when every
      tour is at least `Integer.MAX_VALUE` long or there are no cities (when no edge is
      negative). */
  method Solve(p: Problem) returns (bestPath: Option<seq<nat>>)
    requires p.Valid()
    ensures bestPath.Some? ==> IsClosedTour(bestPath.value, p.n)
    ensures p.NonNegative() && bestPath.Some? ==> IsOptimal(p, bestPath.value)
    ensures p.NonNegative() && HasTourBelow(p, IntMax) ==> bestPath.Some?
    ensures bestPath.Some? ==> PathCost(p, bestPath.value) < IntMax && HasTourBelow(p, IntMax)
  {
    var queue := new Queue<Node>();
    queue.Enqueue(Root);
    bestPath := None;
    var bestDistance := IntMax;
    InitialInv(p);
    var empty := queue.IsEmpty();
    while !empty
      invariant empty <==> queue.list == []
      invariant SearchInv(p, queue.list, bestDistance, bestPath)
      decreases FrontierWeight(p.n, queue.list)
    {
      ghost var frontier := queue.list;
      var r := queue.Dequeue();
      var current := r.value;
      assert frontier == [current] + queue.list;
      bestDistance, bestPath := Visit(p, queue, current, bestDistance, bestPath, frontier);
      empty := queue.IsEmpty();
    }
    Conclude(p, bestDistance, bestPath);
  }

  /** Processes a dequeued node: a node whose path visits every city closes its tour and
      may improve the best one; any other node is expanded. The invariant carries over
      from the frontier before the dequeue to the queue afterwards, whose measure is
      smaller. */
  method Visit(p: Problem, queue: Queue<Node>, current: Node, bestDistance: int,
               bestPath: Option<seq<nat>>, ghost frontier: seq<Node>)
    returns (bestDistance': int, bestPath': Option<seq<nat>>)
    requires p.Valid() && SearchInv(p, frontier, bestDistance, bestPath)
    requires frontier == [current] + queue.list
    modifies queue
    ensures SearchInv(p, queue.list, bestDistance', bestPath')
    ensures FrontierWeight(p.n, queue.list) < FrontierWeight(p.n, frontier)
    ensures bestDistance' <= bestDistance
    ensures bestDistance' == bestDistance ==> bestPath' == bestPath
    ensures bestDistance' != bestDistance ==>
      && |current.path| == p.n && 1 <= p.n && current.city < p.n
      && bestDistance' == current.cost + p.Dist(current.city, 0) && bestPath' == Some(current.path + [0])
  {
    ghost var rest := queue.list;
    Dequeued(p, frontier, rest, current, bestDistance, bestPath);
    bestDistance', bestPath' := bestDistance, bestPath;
    if |current.path| == p.n {
      CloseStep(p, frontier, rest, current, bestDistance, bestPath);
      var totalDistance := current.cost + p.Dist(current.city, 0);
      if totalDistance < bestDistance {
        bestDistance' := totalDistance;
        bestPath' := Some(current.path + [0]);
      }
    } else {
      EnqueueChildren(p, queue, current, bestDistance);
      ExpandStep(p, frontier, rest, current, bestDistance, bestPath, queue.list);
    }
  }

  /** The expansion of a node whose path is not yet complete: scans every city in
      ascending order and enqueues a child for each unvisited city whose cost stays below
      `best`. */
  method EnqueueChildren(p: Problem, queue: Queue<Node>, current: Node, best: int)
    requires p.Valid() && (p.n > 0 ==> current.city < p.n)
    modifies queue
    ensures queue.list == old(queue.list) + Children(p, current, best, p.n)
  {
    for nextCity: nat := 0 to p.n
      invariant queue.list == old(queue.list) + Children(p, current, best, nextCity)
    {
      ChildrenNext(p, current, best, nextCity, old(queue.list));
      if nextCity !in current.path {
        var nextCost := current.cost + p.Dist(current.city, nextCity);
        if nextCost < best {
          queue.Enqueue(Node(nextCity, current.path + [nextCity], nextCost));
        }
      }
    }
  }
}

/** Depth-first branch and bound: a LIFO stack of partial tours, deepest first. */
module DFS {
  import opened Results
  import opened Problems
  import opened Tours
  import opened Search
  import opened Stacks

  /** Returns the cheapest closed tour starting and ending at city 0, or None when every
      tour is at least `Integer.MAX_VALUE` long or there are no cities (when no edge is
      negative). */
  method Solve(p: Problem) returns (bestPath: Option<seq<nat>>)
    requires p.Valid()
    ensures bestPath.Some? ==> IsClosedTour(bestPath.value, p.n)
    ensures p.NonNegative() && bestPath.Some? ==> IsOptimal(p, bestPath.value)
    ensures p.NonNegative() && HasTourBelow(p, IntMax) ==> bestPath.Some?
    ensures bestPath.Some? ==> PathCost(p, bestPath.value) < IntMax && HasTourBelow(p, IntMax)
  {
    var stack := new Stack<Node>();
    stack.Push(Root);
    bestPath := None;
    var bestDistance := IntMax;
    InitialInv(p);
    var empty := stack.IsEmpty();
    while !empty
      invariant empty <==> stack.list == []
      invariant SearchInv(p, stack.list, bestDistance, bestPath)
      decreases FrontierWeight(p.n, stack.list)
    {
      ghost var frontier := stack.list;
      var r := stack.Pop();
      var current := r.value;
      assert frontier == [current] + stack.list;
      bestDistance, bestPath := Visit(p, stack, current, bestDistance, bestPath, frontier);
      empty := stack.IsEmpty();
    }
    Conclude(p, bestDistance, bestPath);
  }

  /** Processes a dequeued node: a node whose path visits every city closes its tour and
      may improve the best one; any other node is expanded. The invariant carries over
      from the frontier before the dequeue to the stack afterwards, whose measure is
      smaller. */
  method Visit(p: Problem, stack: Stack<Node>, current: Node, bestDistance: int,
               bestPath: Option<seq<nat>>, ghost frontier: seq<Node>)
    returns (bestDistance': int, bestPath': Option<seq<nat>>)
    requires p.Valid() && SearchInv(p, frontier, bestDistance, bestPath)
    requires frontier == [current] + stack.list
    modifies stack
    ensures SearchInv(p, stack.list, bestDistance', bestPath')
    ensures FrontierWeight(p.n, stack.list) < FrontierWeight(p.n, frontier)
    ensures bestDistance' <= bestDistance
    ensures bestDistance' == bestDistance ==> bestPath' == bestPath
    ensures bestDistance' != bestDistance ==>
      && |current.path| == p.n && 1 <= p.n && current.city < p.n
      && bestDistance' == current.cost + p.Dist(current.city, 0) && bestPath' == Some(current.path + [0])
  {
    ghost var rest := stack.list;
    Dequeued(p, frontier, rest, current, bestDistance, bestPath);
    bestDistance', bestPath' := bestDistance, bestPath;
    if |current.path| == p.n {
      CloseStep(p, frontier, rest, current, bestDistance, bestPath);
      var totalDistance := current.cost + p.Dist(current.city, 0);
      if totalDistance < bestDistance {
        bestDistance' := totalDistance;
        bestPath' := Some(current.path + [0]);
      }
    } else {
      PushChildren(p, stack, current, bestDistance);
      ExpandStep(p, frontier, rest, current, bestDistance, bestPath, stack.list);
    }
  }

  /** The expansion of a node whose path is not yet complete: scans every city in
      ascending order and pushes a child for each unvisited city whose cost stays below
      `best`. */
  method PushChildren(p: Problem, stack: Stack<Node>, current: Node, best: int)
    requires p.Valid() && (p.n > 0 ==> current.city < p.n)
    modifies stack
    ensures stack.list == Reversed(Children(p, current, best, p.n)) + old(stack.list)
    ensures multiset(stack.list) == multiset(old(stack.list)) + multiset(Children(p, current, best, p.n))
  {
    for nextCity: nat := 0 to p.n
      invariant stack.list == PushOrder(p, current, best, nextCity) + old(stack.list)
    {
      PushOrderNext(p, current, best, nextCity, old(stack.list));
      if nextCity !in current.path {
        var nextCost := current.cost + p.Dist(current.city, nextCity);
        if nextCost < best {
          stack.Push(Node(nextCity, current.path + [nextCity], nextCost));
        }
      }
    }
    PushOrderReversed(p, current, best, p.n);
    ReversedSameItems(Children(p, current, best, p.n));
  }

  /** The stack segment the scan of cities 0..k-1 pushes, top first: the child for the
      last city scanned lies on top. */
  ghost function PushOrder(p: Problem, c: Node, best: int, k: nat): seq<Node>
    requires p.Valid() && k <= p.n && (k > 0 ==> c.city < p.n)
  {
    if k == 0 then []
    else
      (if k - 1 !in c.path && Child(p, c, k - 1).cost < best then [Child(p, c, k - 1)] else [])
      + PushOrder(p, c, best, k - 1)
  }

  /** Scanning city k pushes its child on top when the city is not yet on the path and the
      child's cost stays below the bound, and pushes nothing otherwise. */
  lemma PushOrderNext(p: Problem, c: Node, best: int, k: nat, below: seq<Node>)
    requires p.Valid() && k < p.n && c.city < p.n
    ensures k !in c.path && c.cost + p.Dist(c.city, k) < best ==>
      PushOrder(p, c, best, k + 1) + below
      == [Node(k, c.path + [k], c.cost + p.Dist(c.city, k))] + (PushOrder(p, c, best, k) + below)
    ensures !(k !in c.path && c.cost + p.Dist(c.city, k) < best) ==>
      PushOrder(p, c, best, k + 1) == PushOrder(p, c, best, k)
  {
    assert [] + PushOrder(p, c, best, k) == PushOrder(p, c, best, k);
  }

  /** The pushed segment is the enqueue order of the children, read backwards. */
  lemma {:induction false} PushOrderReversed(p: Problem, c: Node, best: int, k: nat)
    requires p.Valid() && k <= p.n && (k > 0 ==> c.city < p.n)
    ensures PushOrder(p, c, best, k) == Reversed(Children(p, c, best, k))
  {
    if k > 0 {
      PushOrderReversed(p, c, best, k - 1);
      var before := Children(p, c, best, k - 1);
      var child := Child(p, c, k - 1);
      if k - 1 !in c.path && child.cost < best {
        assert Children(p, c, best, k) == before + [child];
        assert PushOrder(p, c, best, k) == [child] + PushOrder(p, c, best, k - 1);
        ReversedSnoc(before, child);
      } else {
        assert Children(p, c, best, k) == before + [] == before;
        assert PushOrder(p, c, best, k) == [] + PushOrder(p, c, best, k - 1) == PushOrder(p, c, best, k - 1);
      }
    }
  }
}

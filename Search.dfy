/** What the three branch-and-bound searches share: the search node, the expansion of a
    node, and the invariant of the search loop with the two steps that preserve it. */
module Search {
  import opened Results
  import opened Problems
  import opened Tours

  /** A partial tour: the city reached, the cities visited in order, and the length so far. */
  datatype Node = Node(city: nat, path: seq<nat>, cost: int)

  /** The node every search starts from: city 0, path [0], cost 0. */
  const Root: Node := Node(0, [0], 0)

  /** A well-formed node: its path starts at 0, repeats no city, ends at `city`, and
      `cost` is the sum of its edges. With no cities, only the root exists. */
  ghost predicate NodeOk(p: Problem, node: Node)
    requires p.Valid()
  {
    && |node.path| >= 1 && node.path[0] == 0 && Distinct(node.path)
    && node.city == node.path[|node.path| - 1]
    && (p.n == 0 ==> node == Root)
    && (p.n > 0 ==> InRange(node.path, p.n) && node.cost == PathCost(p, node.path))
  }

  /** The node reached from `c` by moving on to city `x`. */
  function Child(p: Problem, c: Node, x: nat): Node
    requires p.Valid() && x < p.n && c.city < p.n
  {
    Node(x, c.path + [x], c.cost + p.Dist(c.city, x))
  }

  /** The children the expansion of `c` enqueues while it scans cities 0..k-1: one for
      each city not yet on the path whose edge keeps the cost below `best`, in scan order. */
  function Children(p: Problem, c: Node, best: int, k: nat): seq<Node>
    requires p.Valid() && k <= p.n && (k > 0 ==> c.city < p.n)
  {
    if k == 0 then []
    else
      Children(p, c, best, k - 1)
      + (if k - 1 !in c.path && Child(p, c, k - 1).cost < best then [Child(p, c, k - 1)] else [])
  }

  /** Scanning one more city appends that city's child, behind the nodes already in
      `front`, exactly when the city is not yet on the path and the child's cost is below
      the bound; otherwise nothing changes. */
  lemma ChildrenNext(p: Problem, c: Node, best: int, k: nat, front: seq<Node>)
    requires p.Valid() && k < p.n && c.city < p.n
    ensures k !in c.path && c.cost + p.Dist(c.city, k) < best ==>
      front + Children(p, c, best, k + 1)
      == (front + Children(p, c, best, k)) + [Node(k, c.path + [k], c.cost + p.Dist(c.city, k))]
    ensures !(k !in c.path && c.cost + p.Dist(c.city, k) < best) ==>
      Children(p, c, best, k + 1) == Children(p, c, best, k)
  {
    assert Children(p, c, best, k) + [] == Children(p, c, best, k);
  }

  /** A node is enqueued exactly when it is the child of a city below k, absent from the
      path, whose cost is below the bound; children come in ascending city order. */
  lemma {:induction false} ChildrenSpec(p: Problem, c: Node, best: int, k: nat)
    requires p.Valid() && k <= p.n && (k > 0 ==> c.city < p.n)
    ensures forall m :: m in Children(p, c, best, k) <==>
      m.city < k && m.city !in c.path && m == Child(p, c, m.city) && m.cost < best
    ensures forall i, j :: 0 <= i < j < |Children(p, c, best, k)| ==>
      Children(p, c, best, k)[i].city < Children(p, c, best, k)[j].city
    ensures |Children(p, c, best, k)| <= k
  {
    if k > 0 {
      ChildrenSpec(p, c, best, k - 1);
    }
  }

  /** The expansion enqueues the child for every unvisited city whose edge keeps the cost
      below the bound. */
  lemma ChildEnqueued(p: Problem, c: Node, best: int, x: nat)
    requires p.Valid() && x < p.n && c.city < p.n && x !in c.path && Child(p, c, x).cost < best
    ensures Child(p, c, x) in Children(p, c, best, p.n)
  {
    ChildrenSpec(p, c, best, p.n);
  }

  /** Everything the expansion enqueues is a child for an unvisited city, one city longer. */
  lemma EnqueuedIsChild(p: Problem, c: Node, best: int, m: Node)
    requires p.Valid() && p.n > 0 && c.city < p.n && m in Children(p, c, best, p.n)
    ensures m.city < p.n && m.city !in c.path && m == Child(p, c, m.city)
  {
    ChildrenSpec(p, c, best, p.n);
  }

  /** A node of the frontier that is the child of a well-formed node is well-formed. */
  lemma ChildOk(p: Problem, c: Node, x: nat)
    requires p.Valid() && p.n > 0 && NodeOk(p, c) && x < p.n && x !in c.path
    ensures NodeOk(p, Child(p, c, x))
  {
    var path := c.path + [x];
    assert path[..|path| - 1] == c.path;
  }

  /** Every tour cheaper than `best` extends the path of some node of `frontier`. */
  ghost predicate Covered(p: Problem, frontier: seq<Node>, best: int)
    requires p.Valid()
  {
    forall t :: IsTour(t, p.n) && ClosedCost(p, t) < best ==>
      exists k :: 0 <= k < |frontier| && frontier[k].path <= t
  }

  /** The best tour so far: none while `best` is still `Integer.MAX_VALUE`, otherwise a
      closed tour of length `best`. */
  ghost predicate BestOk(p: Problem, best: int, bestPath: Option<seq<nat>>)
    requires p.Valid()
  {
    && best <= IntMax
    && (bestPath.None? <==> best == IntMax)
    && (bestPath.Some? ==> IsClosedTour(bestPath.value, p.n) && PathCost(p, bestPath.value) == best)
  }

  /** The invariant of the search loop. */
  ghost predicate SearchInv(p: Problem, frontier: seq<Node>, best: int, bestPath: Option<seq<nat>>)
    requires p.Valid()
  {
    && (forall k :: 0 <= k < |frontier| ==> NodeOk(p, frontier[k]))
    && BestOk(p, best, bestPath)
    && (p.NonNegative() ==> Covered(p, frontier, best))
  }

  // The termination measure: a node with a path of length `len` can still give rise to
  // at most Weight(n, len) dequeues, itself included.

  ghost function Weight(n: nat, len: nat): (w: nat)
    ensures w >= 1
    decreases n - len
  {
    if len >= n then 1 else 1 + n * Weight(n, len + 1)
  }

  ghost function FrontierWeight(n: nat, frontier: seq<Node>): nat {
    if frontier == [] then 0 else Weight(n, |frontier[0].path|) + FrontierWeight(n, frontier[1..])
  }

  lemma {:induction false} FrontierWeightAppend(n: nat, a: seq<Node>, b: seq<Node>)
    ensures FrontierWeight(n, a + b) == FrontierWeight(n, a) + FrontierWeight(n, b)
  {
    if a == [] {
      assert a + b == b;
    } else {
      FrontierWeightAppend(n, a[1..], b);
      assert (a + b)[0] == a[0];
      assert (a + b)[1..] == a[1..] + b;
    }
  }

  /** The measure depends only on which nodes are in the frontier, not on their order. */
  lemma {:induction false} FrontierWeightPermutation(n: nat, a: seq<Node>, b: seq<Node>)
    requires multiset(a) == multiset(b)
    ensures FrontierWeight(n, a) == FrontierWeight(n, b)
    decreases |a|
  {
    if a == [] {
      assert |b| == |multiset(b)| == 0;
    } else {
      var x := a[0];
      assert x in multiset(b);
      var i :| 0 <= i < |b| && b[i] == x;
      RemoveHead(a, b, i);
      FrontierWeightPermutation(n, a[1..], b[..i] + b[i + 1..]);
      FrontierWeightRemove(n, b, i);
    }
  }

  /** Matching the head of `a` with an occurrence in `b` leaves equal multisets behind. */
  lemma RemoveHead<T>(a: seq<T>, b: seq<T>, i: nat)
    requires a != [] && i < |b| && b[i] == a[0] && multiset(a) == multiset(b)
    ensures multiset(a[1..]) == multiset(b[..i] + b[i + 1..])
  {
    RemoveAt(b, i);
    assert a == [a[0]] + a[1..];
  }

  /** The measure of a frontier is the weight of any one node plus that of the others. */
  lemma FrontierWeightRemove(n: nat, b: seq<Node>, i: nat)
    requires i < |b|
    ensures FrontierWeight(n, b) == Weight(n, |b[i].path|) + FrontierWeight(n, b[..i] + b[i + 1..])
  {
    assert b == b[..i] + ([b[i]] + b[i + 1..]);
    FrontierWeightAppend(n, b[..i], [b[i]] + b[i + 1..]);
    FrontierWeightAppend(n, b[..i], b[i + 1..]);
    assert ([b[i]] + b[i + 1..])[1..] == b[i + 1..];
  }

  /** Nodes that all have paths of length `len` weigh Weight(n, len) each. */
  lemma {:induction false} FrontierWeightUniform(n: nat, s: seq<Node>, len: nat)
    requires forall k :: 0 <= k < |s| ==> |s[k].path| == len
    ensures FrontierWeight(n, s) == |s| * Weight(n, len)
  {
    if s != [] {
      FrontierWeightUniform(n, s[1..], len);
    }
  }

  /** The search starts with the root alone in the frontier and no tour found. */
  lemma InitialInv(p: Problem)
    requires p.Valid()
    ensures SearchInv(p, [Root], IntMax, None)
  {
    if p.NonNegative() {
      forall t | IsTour(t, p.n) && ClosedCost(p, t) < IntMax
        ensures exists k :: 0 <= k < |[Root]| && [Root][k].path <= t
      {
        assert [Root][0].path <= t;
      }
    }
  }

  /** Removing one item from a multiset of frontier nodes. */
  lemma RemoveAt<T>(b: seq<T>, i: nat)
    requires i < |b|
    ensures multiset(b[..i] + b[i + 1..]) == multiset(b) - multiset{b[i]}
  {
    assert b == b[..i] + [b[i]] + b[i + 1..];
  }

  /** The frontier after a dequeue: `rest` holds every node but one copy of `c`. */
  lemma DequeuedMembers<T>(frontier: seq<T>, rest: seq<T>, c: T)
    requires multiset(frontier) == multiset(rest) + multiset{c}
    ensures c in frontier
    ensures forall x :: x in rest ==> x in frontier
    ensures forall x :: x in frontier && x != c ==> x in rest
  {
    assert c in multiset(frontier);
    forall x | x in rest ensures x in frontier {
      assert x in multiset(rest);
      assert x in multiset(frontier);
    }
    forall x | x in frontier && x != c ensures x in rest {
      assert x in multiset(frontier);
      assert x in multiset(rest);
    }
  }

  /** The frontier after an expansion holds the remaining nodes and the children. */
  lemma EnqueuedMembers<T>(next: seq<T>, rest: seq<T>, children: seq<T>)
    requires multiset(next) == multiset(rest) + multiset(children)
    ensures forall x :: x in next <==> x in rest || x in children
  {
    forall x ensures x in next <==> x in rest || x in children {
      assert x in next <==> x in multiset(next);
      assert x in rest <==> x in multiset(rest);
      assert x in children <==> x in multiset(children);
    }
  }

  /** Every node of `sub` is well-formed when every node of `frontier` is and `sub`'s nodes
      all come from `frontier`. */
  lemma NodesFrom(p: Problem, frontier: seq<Node>, sub: seq<Node>)
    requires p.Valid() && (forall k :: 0 <= k < |frontier| ==> NodeOk(p, frontier[k]))
    requires forall x :: x in sub ==> x in frontier
    ensures forall k :: 0 <= k < |sub| ==> NodeOk(p, sub[k])
  {
    forall k | 0 <= k < |sub| ensures NodeOk(p, sub[k]) {
      assert sub[k] in frontier;
      var j :| 0 <= j < |frontier| && frontier[j] == sub[k];
    }
  }

  /** A dequeued node is well-formed: a complete one can be closed and an incomplete one
      expanded. */
  lemma Dequeued(p: Problem, frontier: seq<Node>, rest: seq<Node>, c: Node, best: int, bestPath: Option<seq<nat>>)
    requires p.Valid() && SearchInv(p, frontier, best, bestPath)
    requires multiset(frontier) == multiset(rest) + multiset{c}
    ensures NodeOk(p, c) && (p.n > 0 ==> c.city < p.n)
    ensures |c.path| == p.n ==> p.n >= 1 && c.city < p.n
  {
    DequeuedMembers(frontier, rest, c);
    var i :| 0 <= i < |frontier| && frontier[i] == c;
  }

  /** Dequeuing a node whose path visits all cities and closing its tour keeps the
      invariant, and the frontier's measure drops. */
  lemma CloseStep(p: Problem, frontier: seq<Node>, rest: seq<Node>, c: Node, best: int, bestPath: Option<seq<nat>>)
    requires p.Valid() && SearchInv(p, frontier, best, bestPath)
    requires multiset(frontier) == multiset(rest) + multiset{c}
    requires |c.path| == p.n
    ensures p.n >= 1 && c.city < p.n
    ensures var total := c.cost + p.Dist(c.city, 0);
            if total < best then SearchInv(p, rest, total, Some(c.path + [0]))
            else SearchInv(p, rest, best, bestPath)
    ensures FrontierWeight(p.n, rest) < FrontierWeight(p.n, frontier)
  {
    Dequeued(p, frontier, rest, c, best, bestPath);
    var n := p.n;
    var total := c.cost + p.Dist(c.city, 0);
    var best' := if total < best then total else best;
    var bestPath' := if total < best then Some(c.path + [0]) else bestPath;
    DequeuedMembers(frontier, rest, c);
    NodesFrom(p, frontier, rest);
    if total < best {
      CloseTour(p, c);
    }
    assert BestOk(p, best', bestPath');
    if p.NonNegative() {
      CloseKeepsCover(p, frontier, rest, c, best, best');
    }
    FrontierWeightPermutation(n, frontier, [c] + rest);
    assert ([c] + rest)[1..] == rest;
  }

  /** A complete node's path followed by 0 is a closed tour of length cost + the edge home. */
  lemma CloseTour(p: Problem, c: Node)
    requires p.Valid() && NodeOk(p, c) && |c.path| == p.n && p.n >= 1
    ensures IsClosedTour(c.path + [0], p.n)
    ensures PathCost(p, c.path + [0]) == c.cost + p.Dist(c.city, 0)
  {
    var r := c.path + [0];
    assert r[..p.n] == c.path;
    assert r[..|r| - 1] == c.path;
  }

  lemma CloseKeepsCover(p: Problem, frontier: seq<Node>, rest: seq<Node>, c: Node, best: int, best': int)
    requires p.Valid() && p.NonNegative() && Covered(p, frontier, best)
    requires forall x :: x in frontier && x != c ==> x in rest
    requires NodeOk(p, c) && |c.path| == p.n && p.n >= 1
    requires var total := c.cost + p.Dist(c.city, 0);
             best' == if total < best then total else best
    ensures Covered(p, rest, best')
  {
    forall t | IsTour(t, p.n) && ClosedCost(p, t) < best'
      ensures exists k :: 0 <= k < |rest| && rest[k].path <= t
    {
      CompleteNodeCost(p, c, t);
      var k :| 0 <= k < |frontier| && frontier[k].path <= t;
      assert frontier[k] in rest;
      var j :| 0 <= j < |rest| && rest[j] == frontier[k];
    }
  }

  /** A node whose path visits every city is a prefix only of its own tour, which costs
      the node's cost plus the edge home. */
  lemma CompleteNodeCost(p: Problem, c: Node, t: seq<nat>)
    requires p.Valid() && NodeOk(p, c) && |c.path| == p.n && p.n >= 1 && IsTour(t, p.n)
    ensures c.path <= t ==> ClosedCost(p, t) == c.cost + p.Dist(c.city, 0)
  {
    if c.path <= t {
      assert c.path == t;
    }
  }

  /** Dequeuing a node whose path is not yet complete and enqueuing its children keeps the
      invariant, and the frontier's measure drops. */
  lemma ExpandStep(p: Problem, frontier: seq<Node>, rest: seq<Node>, c: Node, best: int,
                   bestPath: Option<seq<nat>>, next: seq<Node>)
    requires p.Valid() && SearchInv(p, frontier, best, bestPath)
    requires multiset(frontier) == multiset(rest) + multiset{c}
    requires |c.path| != p.n && (p.n > 0 ==> c.city < p.n)
    requires multiset(next) == multiset(rest) + multiset(Children(p, c, best, p.n))
    ensures SearchInv(p, next, best, bestPath)
    ensures FrontierWeight(p.n, next) < FrontierWeight(p.n, frontier)
  {
    Dequeued(p, frontier, rest, c, best, bestPath);
    DequeuedMembers(frontier, rest, c);
    EnqueuedMembers(next, rest, Children(p, c, best, p.n));
    ExpandKeepsNodes(p, frontier, rest, c, best, next);
    if p.NonNegative() {
      ExpandKeepsCover(p, frontier, rest, c, best, next);
    }
    ExpandWeight(p, frontier, rest, c, best, next);
  }

  lemma ExpandKeepsNodes(p: Problem, frontier: seq<Node>, rest: seq<Node>, c: Node, best: int, next: seq<Node>)
    requires p.Valid() && (forall k :: 0 <= k < |frontier| ==> NodeOk(p, frontier[k]))
    requires forall x :: x in rest ==> x in frontier
    requires NodeOk(p, c) && (p.n > 0 ==> c.city < p.n)
    requires forall x :: x in next <==> x in rest || x in Children(p, c, best, p.n)
    ensures forall k :: 0 <= k < |next| ==> NodeOk(p, next[k])
  {
    forall k | 0 <= k < |next| ensures NodeOk(p, next[k]) {
      var x := next[k];
      if x in rest {
        var j :| 0 <= j < |frontier| && frontier[j] == x;
      } else {
        assert x in Children(p, c, best, p.n);
        EnqueuedIsChild(p, c, best, x);
        ChildOk(p, c, x.city);
      }
    }
  }

  lemma ExpandKeepsCover(p: Problem, frontier: seq<Node>, rest: seq<Node>, c: Node, best: int, next: seq<Node>)
    requires p.Valid() && p.NonNegative() && Covered(p, frontier, best)
    requires forall x :: x in frontier && x != c ==> x in rest
    requires NodeOk(p, c) && |c.path| != p.n && (p.n > 0 ==> c.city < p.n)
    requires forall x :: x in next <==> x in rest || x in Children(p, c, best, p.n)
    ensures Covered(p, next, best)
  {
    forall t | IsTour(t, p.n) && ClosedCost(p, t) < best
      ensures exists k :: 0 <= k < |next| && next[k].path <= t
    {
      var k :| 0 <= k < |frontier| && frontier[k].path <= t;
      var m := frontier[k];
      if m == c {
        var child := NextOnTour(p, c, t);
        ChildEnqueued(p, c, best, t[|c.path|]);
        assert child in next;
        var j :| 0 <= j < |next| && next[j] == child;
      } else {
        assert m in next;
        var j :| 0 <= j < |next| && next[j] == m;
      }
    }
  }

  /** The child of an incomplete node that follows a tour extending its path costs no more
      than the tour, when no edge is negative. */
  lemma NextOnTour(p: Problem, c: Node, t: seq<nat>) returns (child: Node)
    requires p.Valid() && p.NonNegative() && NodeOk(p, c) && |c.path| != p.n
    requires IsTour(t, p.n) && c.path <= t
    ensures c.city < p.n && |c.path| < p.n && t[|c.path|] < p.n && t[|c.path|] !in c.path
    ensures child == Child(p, c, t[|c.path|]) && child.path <= t
    ensures child.cost <= ClosedCost(p, t)
  {
    var len := |c.path|;
    assert c.path == t[..len];
    var x := t[len];
    child := Child(p, c, x);
    assert child.path == t[..len + 1];
    assert t[..len + 1][..len] == c.path;
    PrefixCost(p, t, len + 1);
    assert p.Dist(t[|t| - 1], t[0]) >= 0;
  }

  lemma ExpandWeight(p: Problem, frontier: seq<Node>, rest: seq<Node>, c: Node, best: int, next: seq<Node>)
    requires p.Valid() && NodeOk(p, c) && |c.path| != p.n && (p.n > 0 ==> c.city < p.n)
    requires multiset(frontier) == multiset(rest) + multiset{c}
    requires multiset(next) == multiset(rest) + multiset(Children(p, c, best, p.n))
    ensures FrontierWeight(p.n, next) < FrontierWeight(p.n, frontier)
  {
    var n := p.n;
    var children := Children(p, c, best, n);
    FrontierWeightPermutation(n, frontier, [c] + rest);
    assert ([c] + rest)[1..] == rest;
    FrontierWeightPermutation(n, next, rest + children);
    FrontierWeightAppend(n, rest, children);
    ChildrenWeight(p, c, best);
  }

  /** The children of an incomplete node together weigh less than the node. */
  lemma ChildrenWeight(p: Problem, c: Node, best: int)
    requires p.Valid() && NodeOk(p, c) && |c.path| != p.n && (p.n > 0 ==> c.city < p.n)
    ensures FrontierWeight(p.n, Children(p, c, best, p.n)) < Weight(p.n, |c.path|)
  {
    var n := p.n;
    var children := Children(p, c, best, n);
    ChildrenSpec(p, c, best, n);
    if n > 0 {
      Pigeonhole(c.path, n);
      var len := |c.path|;
      forall k | 0 <= k < |children| ensures |children[k].path| == len + 1 {
        EnqueuedIsChild(p, c, best, children[k]);
      }
      FrontierWeightUniform(n, children, len + 1);
      MultiplyMonotone(|children|, n, Weight(n, len + 1));
    }
  }

  lemma MultiplyMonotone(a: nat, b: nat, w: nat)
    requires a <= b
    ensures a * w <= b * w
  {
  }

  /** When the frontier is empty, the best tour found is optimal and exists whenever some
      tour is cheaper than the initial bound; a tour found is cheaper than that bound. */
  lemma Conclude(p: Problem, best: int, bestPath: Option<seq<nat>>)
    requires p.Valid() && SearchInv(p, [], best, bestPath)
    ensures bestPath.Some? ==> IsClosedTour(bestPath.value, p.n)
    ensures p.NonNegative() && bestPath.Some? ==> IsOptimal(p, bestPath.value)
    ensures p.NonNegative() && HasTourBelow(p, IntMax) ==> bestPath.Some?
    ensures bestPath.Some? ==> PathCost(p, bestPath.value) < IntMax && HasTourBelow(p, IntMax)
  {
    if bestPath.Some? {
      ClosedTourCost(p, bestPath.value);
      assert IsTour(bestPath.value[..p.n], p.n);
    }
  }

  /** All branch-and-bound strategies return tours of the same length: any two optimal
      closed tours cost the same. */
  lemma OptimalCostsAgree(p: Problem, r1: seq<nat>, r2: seq<nat>)
    requires p.Valid() && IsOptimal(p, r1) && IsOptimal(p, r2)
    ensures PathCost(p, r1) == PathCost(p, r2)
  {
    ClosedTourCost(p, r1);
    ClosedTourCost(p, r2);
  }

  /** A closed tour costs what its open tour costs as a cycle. */
  lemma ClosedTourCost(p: Problem, r: seq<nat>)
    requires p.Valid() && IsClosedTour(r, p.n)
    ensures PathCost(p, r) == ClosedCost(p, r[..p.n])
  {
    var t := r[..p.n];
    ClosedCostAsPath(p, t);
    assert t + [t[0]] == r;
  }
}

/** The simulated-annealing engine. Its random draws and its clock come from outside: the
    start city of the nearest-neighbour construction, the permutation `Collections.shuffle`
    chooses, and per iteration the two swap positions and whether a move that does not
    improve the tour is accepted. The sequence of iterations stands for the time budget. */
module SimulatedAnnealing {
  import opened Results
  import opened Problems
  import opened Tours
  import opened Sequences

  // ---------------------------------------------------------------------------------
  // Tour length

  /** `calculateTotalDistance`: the length of the cycle through `solution`, back to its
      first city. An empty list throws when its last element is read. */
  method CalculateTotalDistance(p: Problem, solution: seq<nat>) returns (r: Result<int>)
    requires p.Valid() && InRange(solution, p.n)
    ensures solution == [] ==> r == Failure(IndexOutOfBounds)
    ensures solution != [] ==> r == Success(ClosedCost(p, solution))
  {
    var distance := 0;
    var i := 0;
    while i < |solution| - 1
      invariant solution == [] ==> i == 0
      invariant solution != [] ==> i < |solution| && distance == PathCost(p, solution[..i + 1])
    {
      assert solution[..i + 2][..i + 1] == solution[..i + 1];
      distance := distance + p.Dist(solution[i], solution[i + 1]);
      i := i + 1;
    }
    if solution == [] {
      return Failure(IndexOutOfBounds);
    }
    assert solution[..i + 1] == solution;
    distance := distance + p.Dist(solution[|solution| - 1], solution[0]);
    r := Success(distance);
  }

  /** The three cities of a unit triangle, visited in order, make a cycle of length 3. */
  lemma TriangleCost()
    ensures var p := Problem(3, [[0, 1, 1], [1, 0, 1], [1, 1, 0]]);
            p.Valid() && ClosedCost(p, [0, 1, 2]) == 3
  {
    var p := Problem(3, [[0, 1, 1], [1, 0, 1], [1, 1, 0]]);
    assert [0, 1, 2][..2] == [0, 1];
    assert [0, 1, 2][..2][..1] == [0];
  }

  /** Annealing never beats the exact engines: every cyclic order of the cities is at
      least as long as an optimal tour, whatever city it starts from. */
  lemma NoShorterThanOptimal(p: Problem, r: seq<nat>, s: seq<nat>)
    requires p.Valid() && p.n >= 1 && IsOptimal(p, r) && IsPermutation(s, p.n)
    ensures PathCost(p, r) <= ClosedCost(p, s)
  {
    var t := TourOfCycle(p, s);
  }

  // ---------------------------------------------------------------------------------
  // Nearest-neighbour construction

  /** `x` is the city the nearest-neighbour scan picks after the cities in `visited`: an
      unvisited city whose edge from the last visited city is shorter than
      `Integer.MAX_VALUE`, no longer than the edge to any other unvisited city, and
      strictly shorter than the edge to any unvisited city of lower index. */
  ghost predicate Nearest(p: Problem, visited: seq<nat>, x: nat)
    requires p.Valid() && visited != [] && InRange(visited, p.n)
  {
    var last := visited[|visited| - 1];
    && x < p.n && x !in visited && p.Dist(last, x) < IntMax
    && forall j :: 0 <= j < p.n && j !in visited ==>
         p.Dist(last, x) <= p.Dist(last, j) && (j < x ==> p.Dist(last, x) < p.Dist(last, j))
  }

  /** Every unvisited city is at least `Integer.MAX_VALUE` away from the last visited one,
      so the scan picks none. */
  ghost predicate Stranded(p: Problem, visited: seq<nat>)
    requires p.Valid() && visited != [] && InRange(visited, p.n)
  {
    forall j :: 0 <= j < p.n && j !in visited ==> p.Dist(visited[|visited| - 1], j) >= IntMax
  }

  /** Each city of `path` after the first is the nearest one to its predecessor among
      those not yet on the path. */
  ghost predicate Greedy(p: Problem, path: seq<nat>)
    requires p.Valid() && InRange(path, p.n)
  {
    forall i :: 1 <= i < |path| ==> Nearest(p, path[..i], path[i])
  }

  /** Appending the nearest city keeps a path greedy. */
  lemma GreedyExtend(p: Problem, path: seq<nat>, x: nat)
    requires p.Valid() && path != [] && InRange(path, p.n) && Greedy(p, path)
    requires Nearest(p, path, x)
    ensures InRange(path + [x], p.n) && Greedy(p, path + [x])
  {
    var path' := path + [x];
    forall i | 1 <= i < |path'| ensures Nearest(p, path'[..i], path'[i]) {
      assert path'[..i] == path[..i];
    }
  }

  /** The scan's choice is unique: the tie-break by lowest index leaves no freedom. */
  lemma NearestUnique(p: Problem, visited: seq<nat>, x: nat, y: nat)
    requires p.Valid() && visited != [] && InRange(visited, p.n)
    requires Nearest(p, visited, x) && Nearest(p, visited, y)
    ensures x == y
  {
  }

  /** A scan that finds a city leaves no city stranded. */
  lemma NearestOrStranded(p: Problem, visited: seq<nat>, x: nat)
    requires p.Valid() && visited != [] && InRange(visited, p.n) && Nearest(p, visited, x)
    ensures !Stranded(p, visited)
  {
    assert x !in visited && x < p.n;
  }

  /** With every distance below `Integer.MAX_VALUE`, a path that has not yet visited every
      city is never stranded. */
  lemma NeverStranded(p: Problem, visited: seq<nat>)
    requires p.Valid() && visited != [] && Distinct(visited) && InRange(visited, p.n)
    requires |visited| < p.n
    requires forall i, j :: 0 <= i < p.n && 0 <= j < p.n ==> p.Dist(i, j) < IntMax
    ensures !Stranded(p, visited)
  {
    Pigeonhole(visited, p.n);
    var j :| 0 <= j < p.n && j !in visited;
    assert p.Dist(visited[|visited| - 1], j) < IntMax;
  }

  /** Some greedy path from `start` that has not yet visited every city is stranded: the
      nearest-neighbour construction from `start` then finds no next city. */
  ghost predicate StrandsFrom(p: Problem, start: nat)
    requires p.Valid()
  {
    exists path :: && 1 <= |path| < p.n && path[0] == start && Distinct(path)
                   && InRange(path, p.n) && Greedy(p, path) && Stranded(p, path)
  }

  /** `generateNearestNeighborSolution` with `start` as the city `nextInt` drew: from the
      start, repeatedly moves to the nearest unvisited city. It throws when there are no
      cities (`nextInt(0)`), and when at some step every unvisited city is
      `Integer.MAX_VALUE` or more away, for then it marks city -1 as visited. */
  method NearestNeighborSolution(p: Problem, start: nat) returns (r: Result<seq<nat>>)
    requires p.Valid() && (p.n > 0 ==> start < p.n)
    ensures p.n == 0 ==> r == Failure(IllegalArgument("bound must be positive"))
    ensures r.Success? ==> IsPermutation(r.value, p.n) && r.value[0] == start && Greedy(p, r.value)
    ensures r.Failure? && p.n > 0 ==> r.error == IndexOutOfBounds && StrandsFrom(p, start)
  {
    if p.n == 0 {
      return Failure(IllegalArgument("bound must be positive"));
    }
    var visited := new bool[p.n](_ => false);
    var path: seq<nat> := [start];
    var currentCity: nat := start;
    visited[currentCity] := true;
    for i := 1 to p.n
      invariant |path| == i && path[0] == start && currentCity == path[i - 1]
      invariant Distinct(path) && InRange(path, p.n) && Greedy(p, path)
      invariant forall k :: 0 <= k < p.n ==> (visited[k] <==> k in path)
    {
      var nextCity := NearestCity(p, visited, path, currentCity);
      if nextCity == -1 {
        // -1 joins the path, and marking it visited is out of the array's bounds
        return Failure(IndexOutOfBounds);
      }
      GreedyExtend(p, path, nextCity);
      currentCity := nextCity;
      path := path + [currentCity];
      visited[currentCity] := true;
    }
    r := Success(path);
  }

  /** The inner scan of `generateNearestNeighborSolution`: over the cities in ascending
      order, keeps an unvisited one strictly closer to `currentCity` than the closest so
      far, starting from `Integer.MAX_VALUE`; -1 when none qualifies. */
  method NearestCity(p: Problem, visited: array<bool>, path: seq<nat>, currentCity: nat)
    returns (nextCity: int)
    requires p.Valid() && path != [] && InRange(path, p.n) && currentCity == path[|path| - 1]
    requires visited.Length == p.n && forall k :: 0 <= k < p.n ==> (visited[k] <==> k in path)
    ensures nextCity == -1 ==> Stranded(p, path)
    ensures nextCity != -1 ==> 0 <= nextCity && Nearest(p, path, nextCity)
  {
    nextCity := -1;
    var shortestDistance := IntMax;
    for j := 0 to p.n
      invariant nextCity == -1 ==>
        shortestDistance == IntMax && forall k :: 0 <= k < j && k !in path ==> p.Dist(currentCity, k) >= IntMax
      invariant nextCity != -1 ==>
        && 0 <= nextCity < j && nextCity !in path
        && shortestDistance == p.Dist(currentCity, nextCity) < IntMax
        && forall k :: 0 <= k < j && k !in path ==>
             shortestDistance <= p.Dist(currentCity, k) && (k < nextCity ==> shortestDistance < p.Dist(currentCity, k))
    {
      if !visited[j] && p.Dist(currentCity, j) < shortestDistance {
        nextCity := j;
        shortestDistance := p.Dist(currentCity, j);
      }
    }
  }

  // ---------------------------------------------------------------------------------
  // Random construction

  /** `generateRandomSolution`: lists the cities 0..n-1 and lets `Collections.shuffle`
      reorder them; `shuffle` is the order the shuffle chose, so position k receives the
      city shuffle[k]. */
  method RandomSolution(n: nat, shuffle: seq<nat>) returns (solution: seq<nat>)
    requires IsPermutation(shuffle, n)
    ensures IsPermutation(solution, n) && solution == shuffle
  {
    solution := [];
    for i := 0 to n
      invariant solution == Identity(i)
    {
      solution := solution + [i];
    }
    solution := seq(n, k requires 0 <= k < n => solution[shuffle[k]]);
    assert forall k :: 0 <= k < n ==> solution[k] == shuffle[k];
  }

  // ---------------------------------------------------------------------------------
  // Choice of the initial solution

  /** The initial-solution methods `generateInitialSolution` knows. */
  datatype InitialMethod = RandomOrder | NearestNeighbor

  /** `Character.toLowerCase` on ASCII letters; other characters are kept. */
  function LowerChar(c: char): (d: char)
    ensures 'A' <= c <= 'Z' ==> 'a' <= d <= 'z' && d as int - c as int == 32
    ensures !('A' <= c <= 'Z') ==> d == c
  {
    if 'A' <= c <= 'Z' then (c as int + 32) as char else c
  }

  /** `Character.toUpperCase` on ASCII letters; other characters are kept. */
  function UpperChar(c: char): (d: char)
    ensures 'a' <= c <= 'z' ==> 'A' <= d <= 'Z' && c as int - d as int == 32
    ensures !('a' <= c <= 'z') ==> d == c
  {
    if 'a' <= c <= 'z' then (c as int - 32) as char else c
  }

  /** `s` in lower case. */
  function Lower(s: string): (r: string)
    ensures |r| == |s| && forall i :: 0 <= i < |s| ==> r[i] == LowerChar(s[i])
  {
    seq(|s|, i requires 0 <= i < |s| => LowerChar(s[i]))
  }

  /** `String.equalsIgnoreCase`: equal lengths, and at each position the two characters
      are equal, or equal once upper-cased, or equal once upper-cased and then
      lower-cased. */
  predicate EqualsIgnoreCase(a: string, b: string) {
    |a| == |b| && forall i :: 0 <= i < |a| ==> CharsMatch(a[i], b[i])
  }

  predicate CharsMatch(c: char, d: char) {
    c == d || UpperChar(c) == UpperChar(d) || LowerChar(UpperChar(c)) == LowerChar(UpperChar(d))
  }

  /** Two characters match ignoring case exactly when their lower-case forms agree. */
  lemma CharsMatchLower(c: char, d: char)
    ensures CharsMatch(c, d) <==> LowerChar(c) == LowerChar(d)
  {
  }

  /** Two strings are equal ignoring case exactly when their lower-case forms agree. */
  lemma EqualsIgnoreCaseLower(a: string, b: string)
    ensures EqualsIgnoreCase(a, b) <==> Lower(a) == Lower(b)
  {
    forall i | 0 <= i < |a| && i < |b| {
      CharsMatchLower(a[i], b[i]);
    }
    if Lower(a) == Lower(b) {
      assert forall i :: 0 <= i < |a| ==> Lower(a)[i] == Lower(b)[i];
    }
  }

  /** The dispatch of `generateInitialSolution`: "random" and "nearestNeighbor" in any
      case; any other name throws. */
  function ParseInitialMethod(name: string): (r: Result<InitialMethod>)
    ensures r == Success(RandomOrder) <==> Lower(name) == "random"
    ensures r == Success(NearestNeighbor) <==> Lower(name) == "nearestneighbor"
    ensures r.Failure? ==> r.error == IllegalArgument("Unknown initial solution method: " + name)
  {
    EqualsIgnoreCaseLower("random", name);
    EqualsIgnoreCaseLower("nearestNeighbor", name);
    assert Lower("random") == "random";
    assert Lower("nearestNeighbor") == "nearestneighbor";
    if EqualsIgnoreCase("random", name) then Success(RandomOrder)
    else if EqualsIgnoreCase("nearestNeighbor", name) then Success(NearestNeighbor)
    else Failure(IllegalArgument("Unknown initial solution method: " + name))
  }

  /** `generateInitialSolution`: builds the starting tour by the named method. */
  method GenerateInitialSolution(p: Problem, name: string, start: nat, shuffle: seq<nat>)
    returns (r: Result<seq<nat>>)
    requires p.Valid() && (p.n > 0 ==> start < p.n) && IsPermutation(shuffle, p.n)
    ensures ParseInitialMethod(name).Failure? ==> r == Failure(ParseInitialMethod(name).error)
    ensures ParseInitialMethod(name) == Success(RandomOrder) ==> r == Success(shuffle)
    ensures r.Success? ==> IsPermutation(r.value, p.n)
    ensures ParseInitialMethod(name) == Success(NearestNeighbor) && r.Success? ==>
              p.n >= 1 && IsPermutation(r.value, p.n) && r.value[0] == start && Greedy(p, r.value)
    ensures r.Failure? && ParseInitialMethod(name).Success? ==>
              && ParseInitialMethod(name) == Success(NearestNeighbor)
              && (p.n == 0 ==> r.error == IllegalArgument("bound must be positive"))
              && (p.n > 0 ==> r.error == IndexOutOfBounds && StrandsFrom(p, start))
  {
    var chosen := ParseInitialMethod(name);
    match chosen {
      case Failure(e) =>
        r := Failure(e);
      case Success(RandomOrder) =>
        var solution := RandomSolution(p.n, shuffle);
        r := Success(solution);
      case Success(NearestNeighbor) =>
        r := NearestNeighborSolution(p, start);
    }
  }

  // ---------------------------------------------------------------------------------
  // Neighbours and acceptance

  /** `generateNeighbor`: a copy of `solution` with the entries at `i` and `j` exchanged,
      where `i` and `j` are the positions `nextInt` drew. */
  method GenerateNeighbor(solution: seq<nat>, i: nat, j: nat) returns (neighbor: seq<nat>)
    requires i < |solution| && j < |solution|
    ensures neighbor == Swapped(solution, i, j)
  {
    var copy := new nat[|solution|](k requires 0 <= k < |solution| => solution[k]);
    var temp := copy[i];
    copy[i] := copy[j];
    copy[j] := temp;
    neighbor := copy[..];
  }

  /** A swap of two positions turns a permutation into a permutation. */
  lemma SwapPermutation(s: seq<nat>, n: nat, i: nat, j: nat)
    requires IsPermutation(s, n) && i < n && j < n
    ensures IsPermutation(Swapped(s, i, j), n)
  {
    var r := Swapped(s, i, j);
    forall a, b | 0 <= a < b < |r| ensures r[a] != r[b] {
      var a' := if a == i then j else if a == j then i else a;
      var b' := if b == i then j else if b == j then i else b;
      assert r[a] == s[a'] && r[b] == s[b'] && a' != b';
    }
  }

  /** Swapping a position with itself copies the tour, and swapping twice undoes it. */
  lemma SwapInvolution(s: seq<nat>, i: nat, j: nat)
    requires i < |s| && j < |s|
    ensures Swapped(s, i, i) == s
    ensures Swapped(Swapped(s, i, j), i, j) == s
  {
  }

  /** What `acceptanceProbability` returns: 1.0 for an improving move; otherwise
      exp((current - new) / temperature), kept here as its non-positive numerator. */
  datatype Acceptance = Certain | Boltzmann(gain: int)

  function AcceptanceProbability(currentDistance: int, newDistance: int): (a: Acceptance)
    ensures a == Certain <==> newDistance < currentDistance
    ensures a.Boltzmann? ==> a.gain == currentDistance - newDistance <= 0
  {
    if newDistance < currentDistance then Certain else Boltzmann(currentDistance - newDistance)
  }

  /** `probability > random.nextDouble()`: a certain move beats every draw, which lies in
      [0, 1); for any other move the outcome of the comparison is `worseAccepted`. */
  predicate Accepted(a: Acceptance, worseAccepted: bool) {
    a.Certain? || worseAccepted
  }

  // ---------------------------------------------------------------------------------
  // The annealing loop

  /** One iteration's draws: the positions `generateNeighbor` swaps, and whether a move that
      does not improve the tour is accepted. */
  datatype Move = Move(i: nat, j: nat, worseAccepted: bool)

  /** The state `solve` carries from one iteration to the next. */
  datatype Anneal = Anneal(current: seq<nat>, currentDistance: int, best: seq<nat>, bestDistance: int)

  /** Both tours are permutations of the cities, each distance is its tour's length, and
      the best is no longer than the current one. */
  ghost predicate AnnealOk(p: Problem, s: Anneal) {
    && p.Valid() && p.n >= 1
    && IsPermutation(s.current, p.n) && IsPermutation(s.best, p.n)
    && s.currentDistance == ClosedCost(p, s.current) && s.bestDistance == ClosedCost(p, s.best)
    && s.bestDistance <= s.currentDistance
  }

  /** All draws name positions of an n-city tour. */
  ghost predicate MovesFit(moves: seq<Move>, n: nat) {
    forall k :: 0 <= k < |moves| ==> moves[k].i < n && moves[k].j < n
  }

  /** One iteration: the swapped neighbour becomes current when accepted, and the current
      tour becomes the best when it is strictly shorter. An improving neighbour is always
      taken, and the best never gets longer. */
  function Step(p: Problem, s: Anneal, m: Move): (t: Anneal)
    requires AnnealOk(p, s) && m.i < p.n && m.j < p.n
    ensures AnnealOk(p, t) && t.bestDistance <= s.bestDistance
    ensures ClosedCost(p, Swapped(s.current, m.i, m.j)) < s.currentDistance ==>
              t.current == Swapped(s.current, m.i, m.j)
    ensures t.current == s.current || t.current == Swapped(s.current, m.i, m.j)
    ensures t.bestDistance < s.bestDistance ==> t.best == t.current
    ensures t.bestDistance == s.bestDistance ==> t.best == s.best
  {
    SwapPermutation(s.current, p.n, m.i, m.j);
    var neighbor := Swapped(s.current, m.i, m.j);
    var newDistance := ClosedCost(p, neighbor);
    var accepted := Accepted(AcceptanceProbability(s.currentDistance, newDistance), m.worseAccepted);
    var current := if accepted then neighbor else s.current;
    var currentDistance := if accepted then newDistance else s.currentDistance;
    if currentDistance < s.bestDistance then Anneal(current, currentDistance, current, currentDistance)
    else Anneal(current, currentDistance, s.best, s.bestDistance)
  }

  /** The iterations the time budget allows, one per move, stopping early right after one
      that leaves the current tour exactly `optimalSolution` long. The state stays sound,
      and the best tour is no longer than at the start. */
  function Run(p: Problem, s: Anneal, moves: seq<Move>, optimalSolution: int): (t: Anneal)
    requires AnnealOk(p, s) && MovesFit(moves, p.n)
    ensures AnnealOk(p, t) && t.bestDistance <= s.bestDistance
    decreases |moves|
  {
    if moves == [] then s
    else
      var next := Step(p, s, moves[0]);
      if next.currentDistance == optimalSolution then next
      else Run(p, next, moves[1..], optimalSolution)
  }

  /** The body of `solve`'s loop: draws a swap neighbour, takes it when accepted, and
      records the current tour as the best when it is strictly shorter. */
  method Iterate(p: Problem, currentSolution: seq<nat>, currentDistance: int,
                 bestSolution: seq<nat>, bestDistance: int, move: Move)
    returns (currentSolution': seq<nat>, currentDistance': int, bestSolution': seq<nat>, bestDistance': int)
    requires AnnealOk(p, Anneal(currentSolution, currentDistance, bestSolution, bestDistance))
    requires move.i < p.n && move.j < p.n
    ensures Anneal(currentSolution', currentDistance', bestSolution', bestDistance')
         == Step(p, Anneal(currentSolution, currentDistance, bestSolution, bestDistance), move)
  {
    var newSolution := GenerateNeighbor(currentSolution, move.i, move.j);
    SwapPermutation(currentSolution, p.n, move.i, move.j);
    var newMeasured := CalculateTotalDistance(p, newSolution);
    var newDistance := newMeasured.value;
    currentSolution', currentDistance' := currentSolution, currentDistance;
    if Accepted(AcceptanceProbability(currentDistance, newDistance), move.worseAccepted) {
      currentSolution' := newSolution;
      currentDistance' := newDistance;
    }
    bestSolution', bestDistance' := bestSolution, bestDistance;
    if currentDistance' < bestDistance {
      bestSolution' := currentSolution';
      bestDistance' := currentDistance';
    }
  }

  /** `solve`: builds the initial tour by the named method, then runs the iterations the
      moves allow and returns the best tour met. `initial` is the tour it started from. */
  method Solve(p: Problem, name: string, start: nat, shuffle: seq<nat>, optimalSolution: int,
               moves: seq<Move>)
    returns (r: Result<seq<nat>>, ghost initial: seq<nat>)
    requires p.Valid() && (p.n > 0 ==> start < p.n) && IsPermutation(shuffle, p.n)
    requires MovesFit(moves, p.n)
    ensures ParseInitialMethod(name).Failure? ==> r == Failure(ParseInitialMethod(name).error)
    ensures p.n == 0 ==> r.Failure?
    ensures r.Success? ==>
      && p.n >= 1 && IsPermutation(initial, p.n) && IsPermutation(r.value, p.n)
      && ClosedCost(p, r.value) <= ClosedCost(p, initial)
      && var s := Anneal(initial, ClosedCost(p, initial), initial, ClosedCost(p, initial));
         AnnealOk(p, s) && r.value == Run(p, s, moves, optimalSolution).best
    ensures r.Success? && ParseInitialMethod(name) == Success(RandomOrder) ==> initial == shuffle
    ensures r.Success? && ParseInitialMethod(name) == Success(NearestNeighbor) ==>
              initial[0] == start && Greedy(p, initial)
    ensures p.n >= 1 && ParseInitialMethod(name) == Success(RandomOrder) ==> r.Success?
    ensures p.n == 0 && ParseInitialMethod(name) == Success(RandomOrder) ==> r == Failure(IndexOutOfBounds)
    ensures p.n == 0 && ParseInitialMethod(name) == Success(NearestNeighbor) ==>
              r == Failure(IllegalArgument("bound must be positive"))
    ensures r.Failure? && p.n >= 1 && ParseInitialMethod(name).Success? ==>
              && ParseInitialMethod(name) == Success(NearestNeighbor)
              && r.error == IndexOutOfBounds && StrandsFrom(p, start)
  {
    initial := [];
    var generated := GenerateInitialSolution(p, name, start, shuffle);
    if generated.Failure? {
      return Failure(generated.error), initial;
    }
    var currentSolution := generated.value;
    initial := currentSolution;
    var bestSolution := currentSolution;
    var measured := CalculateTotalDistance(p, currentSolution);
    if measured.Failure? {
      return Failure(measured.error), initial;
    }
    var currentDistance := measured.value;
    var bestDistance := currentDistance;
    ghost var s0 := Anneal(initial, currentDistance, initial, currentDistance);
    var k := 0;
    while k < |moves|
      invariant k <= |moves|
      invariant AnnealOk(p, Anneal(currentSolution, currentDistance, bestSolution, bestDistance))
      invariant Run(p, s0, moves, optimalSolution)
             == Run(p, Anneal(currentSolution, currentDistance, bestSolution, bestDistance), moves[k..], optimalSolution)
      invariant bestDistance <= ClosedCost(p, initial)
    {
      ghost var s := Anneal(currentSolution, currentDistance, bestSolution, bestDistance);
      currentSolution, currentDistance, bestSolution, bestDistance :=
        Iterate(p, currentSolution, currentDistance, bestSolution, bestDistance, moves[k]);
      assert moves[k..][1..] == moves[k + 1..];
      if currentDistance == optimalSolution {
        // the optimum the caller knows is reached: stop early
        assert Run(p, s0, moves, optimalSolution) == Anneal(currentSolution, currentDistance, bestSolution, bestDistance);
        break;
      }
      k := k + 1;
    }
    r := Success(bestSolution);
  }
}

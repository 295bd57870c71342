/** The five searches.  Each seeds its frontier with the start node, then
    repeatedly pops a node, marks it explored, counts an iteration and tests
    it against the goal; on success it extracts the path and recomputes its
    cost, otherwise it generates the successors and pushes those whose
    position is not yet explored (each is marked explored as it is pushed).

    The process-wide node counter is the parameter `nodeCount` (its value on
    entry) and the result `nodeCount'` (its value on return). */
module Search {
  import opened Nodes
  import opened Successors
  import opened Paths
  import opened Heap
  import opened SearchInvariant
  import opened Layers

  /** The tuple every search returns: goal node, nodes generated, most nodes
      stored at once, iterations, depth of goal and cost of the path. */
  datatype SearchResult = SearchResult(
    goalnode: Node,
    totalNodesGenerated: nat,
    maxNodesStored: nat,
    numIters: nat,
    depthOfGoal: nat,
    totalCostOfGoal: int)

  /** A successful search returns a generated node at the goal, whose path
      starts at the start position and walks the grid, with its depth and
      the recomputed cost of its path, which is the sum of the edge costs
      charged along it. */
  ghost predicate Succeeded(grid: Grid, s: Pos, e: Pos, h: Heuristic, r: SearchResult)
    requires IsGrid(grid)
  {
    var g := r.goalnode;
    && Generated(g, grid, s, e, h)
    && g.position == e
    && r.depthOfGoal == g.depth
    && |PathOf(g)| == g.depth + 1
    && PathOf(g)[0] == s
    && IsWalk(grid, PathOf(g))
    && r.totalCostOfGoal == PathCost(PathOf(g))
    && r.totalCostOfGoal == EdgeCostSum(g, e, h)
    && r.numIters >= 1
  }

  /** A failed search returns the placeholder `node(None, endpos)` and zero
      nodes, depth and cost, after one iteration per cell of the start's
      connected component. */
  ghost predicate Failed(grid: Grid, s: Pos, e: Pos, r: SearchResult)
    requires IsGrid(grid)
  {
    && r.goalnode == RootNode(e)
    && r.totalNodesGenerated == 0
    && r.depthOfGoal == 0
    && r.totalCostOfGoal == 0
    && r.numIters == |ReachableCells(grid, s)|
  }

  /** The contract every search meets: it succeeds exactly when the goal is
      reachable, and its counters stay within the cells it can visit. */
  ghost predicate SearchContract(grid: Grid, s: Pos, e: Pos, h: Heuristic,
                                 nodeCount: nat, r: SearchResult, nodeCount': nat)
    requires IsGrid(grid)
  {
    && r.numIters <= |Universe(grid, s)|
    && r.maxNodesStored <= |Universe(grid, s)|
    && nodeCount + 2 <= nodeCount' <= nodeCount + 2 + 4 * r.numIters
    && (r.totalNodesGenerated != 0 <==> Reachable(grid, s, e))
    && (r.totalNodesGenerated != 0 ==> r.totalNodesGenerated == nodeCount' && Succeeded(grid, s, e, h, r))
    && (r.totalNodesGenerated == 0 ==> Failed(grid, s, e, r))
  }

  /** A successful search returns the goal at its least depth: no walk of
      the grid from the start to the goal has fewer steps. */
  ghost predicate LeastDepth(grid: Grid, s: Pos, e: Pos, r: SearchResult)
    requires IsGrid(grid)
  {
    r.totalNodesGenerated != 0 ==>
      forall w :: IsWalk(grid, w) && |w| > 0 && w[0] == s && w[|w| - 1] == e ==> r.depthOfGoal <= |w| - 1
  }

  /** The goal bookkeeping of a successful search: the extracted path is the
      node's path, and its recomputed cost is the edge-cost sum. */
  lemma GoalReached(grid: Grid, s: Pos, e: Pos, h: Heuristic, n: Node, paths: seq<Pos>, cost: int)
    requires IsGrid(grid)
    requires Generated(n, grid, s, e, h) && n.position == e
    requires |paths| == |Chain(n)| && forall i :: 0 <= i < |paths| ==> paths[i] == Chain(n)[i].position
    requires cost == PathCost(paths)
    ensures paths == PathOf(n)
    ensures |PathOf(n)| == n.depth + 1 && PathOf(n)[0] == s && IsWalk(grid, PathOf(n))
    ensures cost == EdgeCostSum(n, e, h)
  {
    assert paths == PathOf(n);
    GeneratedPath(n, grid, s, e, h);
    RecomputedCostMatchesEdgeCosts(n, grid, s, e, h);
  }

  /** A search that popped the goal node `n` meets the contract. */
  lemma SuccessContract(grid: Grid, s: Pos, e: Pos, h: Heuristic, n: Node, paths: seq<Pos>,
                        nodeCount: nat, nodeCount': nat, r: SearchResult)
    requires IsGrid(grid)
    requires Generated(n, grid, s, e, h) && n.position == e && Reachable(grid, s, e)
    requires |paths| == |Chain(n)| && forall i :: 0 <= i < |paths| ==> paths[i] == Chain(n)[i].position
    requires r.goalnode == n && r.depthOfGoal == n.depth && r.totalCostOfGoal == PathCost(paths)
    requires 1 <= r.numIters <= |Universe(grid, s)| && r.maxNodesStored <= |Universe(grid, s)|
    requires nodeCount + 2 <= nodeCount' <= nodeCount + 2 + 4 * r.numIters
    requires r.totalNodesGenerated == nodeCount'
    ensures SearchContract(grid, s, e, h, nodeCount, r, nodeCount')
  {
    GoalReached(grid, s, e, h, n, paths, r.totalCostOfGoal);
  }

  /** A search whose frontier ran empty meets the contract. */
  lemma FailureContract(grid: Grid, s: Pos, e: Pos, h: Heuristic, E: set<Pos>, P: set<Pos>,
                        nodeCount: nat, nodeCount': nat, r: SearchResult)
    requires IsGrid(grid)
    requires Core(grid, s, e, h, [], E, P, r.numIters, r.maxNodesStored) && ClosedOn(grid, P, E)
    requires r.goalnode == RootNode(e) && r.totalNodesGenerated == 0
    requires r.depthOfGoal == 0 && r.totalCostOfGoal == 0
    requires r.numIters <= |Universe(grid, s)|
    requires nodeCount + 2 <= nodeCount' <= nodeCount + 2 + 4 * r.numIters
    ensures SearchContract(grid, s, e, h, nodeCount, r, nodeCount')
  {
    Exhausted(grid, s, e, h, E, P, r.numIters, r.maxNodesStored);
  }

  /** The goal branch every search shares: record the goal's depth and the
      nodes generated so far, extract the path and recompute its cost. */
  method ReportGoal(grid: Grid, s: Pos, e: Pos, h: Heuristic, nextNode: Node,
                    maxNodesStored: nat, numIters: nat, nodeCount: nat, nodeCount': nat)
    returns (r: SearchResult)
    requires IsGrid(grid)
    requires Generated(nextNode, grid, s, e, h) && nextNode.position == e && Reachable(grid, s, e)
    requires 1 <= numIters <= |Universe(grid, s)| && maxNodesStored <= |Universe(grid, s)|
    requires nodeCount + 2 <= nodeCount' <= nodeCount + 2 + 4 * numIters
    ensures SearchContract(grid, s, e, h, nodeCount, r, nodeCount')
    ensures r.goalnode == nextNode && r.numIters == numIters && r.maxNodesStored == maxNodesStored
  {
    var depthOfGoal := nextNode.depth;
    var totalNodesGenerated := nodeCount';
    var goalnode := nextNode;
    var paths := ExtractPath(nextNode);
    var totalCostOfGoal := RecomputePathCost(paths);
    r := SearchResult(goalnode, totalNodesGenerated, maxNodesStored, numIters, depthOfGoal, totalCostOfGoal);
    SuccessContract(grid, s, e, h, nextNode, paths, nodeCount, nodeCount', r);
  }

  /** One pass of the successor loop of the stack and queue searches: append
      the child when its position is neither explored nor in the frontier,
      marking it explored, and raise the recorded maximum frontier size. */
  method PushIfUnexplored(grid: Grid, s: Pos, e: Pos, ghost P: set<Pos>, ghost k: nat, nextNode: Node,
                          unexploredNode: Node, frontier0: seq<Node>, explored0: set<Pos>, max0: nat)
    returns (frontier: seq<Node>, exploredSet: set<Pos>, maxNodesStored: nat)
    requires IsGrid(grid)
    requires Core(grid, s, e, ZeroHeuristic, frontier0, explored0, P, k, max0) && k > 0
    requires nextNode.position in explored0 && Generated(nextNode, grid, s, e, ZeroHeuristic)
    requires IsChild(grid, e, ZeroHeuristic, nextNode, unexploredNode)
    ensures Core(grid, s, e, ZeroHeuristic, frontier, exploredSet, P, k, maxNodesStored)
    ensures exploredSet == explored0 + {unexploredNode.position}
    ensures frontier == if unexploredNode.position in explored0 || IndexOf(frontier0, unexploredNode) != -1
                        then frontier0 else frontier0 + [unexploredNode]
    ensures maxNodesStored == if |frontier| > max0 then |frontier| else max0
  {
    frontier, exploredSet, maxNodesStored := frontier0, explored0, max0;
    if unexploredNode.position !in exploredSet && IndexOf(frontier, unexploredNode) == -1 {
      PushStep(grid, s, e, ZeroHeuristic, frontier, exploredSet, P, k, maxNodesStored, nextNode, unexploredNode);
      exploredSet := exploredSet + {unexploredNode.position};
      frontier := frontier + [unexploredNode];
      if |frontier| > maxNodesStored {
        maxNodesStored := |frontier|;
      }
    } else {
      SkippedIsExplored(s, frontier, exploredSet, P, k, unexploredNode);
    }
  }

  /** The successor loop of the stack and queue searches. */
  method PushUnexplored(grid: Grid, s: Pos, e: Pos, ghost P: set<Pos>, ghost k: nat, nextNode: Node,
                        successors: seq<Node>, frontier0: seq<Node>, explored0: set<Pos>, max0: nat)
    returns (frontier: seq<Node>, exploredSet: set<Pos>, maxNodesStored: nat)
    requires IsGrid(grid)
    requires Core(grid, s, e, ZeroHeuristic, frontier0, explored0, P, k, max0) && k > 0
    requires nextNode.position in explored0 && Generated(nextNode, grid, s, e, ZeroHeuristic)
    requires forall t :: 0 <= t < |successors| ==> IsChild(grid, e, ZeroHeuristic, nextNode, successors[t])
    ensures Core(grid, s, e, ZeroHeuristic, frontier, exploredSet, P, k, maxNodesStored)
    ensures frontier == frontier0 + Unexplored(successors, explored0)
    ensures maxNodesStored == if |frontier| > max0 then |frontier| else max0
    ensures exploredSet == Marked(explored0, successors)
    ensures AllExplored(successors, exploredSet)
  {
    frontier, exploredSet, maxNodesStored := frontier0, explored0, max0;
    for j := 0 to |successors|
      invariant Core(grid, s, e, ZeroHeuristic, frontier, exploredSet, P, k, maxNodesStored)
      invariant frontier == frontier0 + Unexplored(successors[..j], explored0)
      invariant |frontier0| <= |frontier|
      invariant maxNodesStored == if |frontier| > max0 then |frontier| else max0
      invariant explored0 <= exploredSet
      invariant exploredSet == Marked(explored0, successors[..j])
      invariant AllExplored(successors[..j], exploredSet)
    {
      ghost var before, f0 := exploredSet, frontier;
      frontier, exploredSet, maxNodesStored :=
        PushIfUnexplored(grid, s, e, P, k, nextNode, successors[j], frontier, exploredSet, maxNodesStored);
      UnexploredStep(successors, j, frontier0, explored0, f0, before, frontier, exploredSet);
      AllExploredGrows(successors, j, before, exploredSet);
    }
    assert successors[..|successors|] == successors;
  }

  /** `frontier.pop()` on the stack: the last entry and the rest. */
  method PopLast(f: seq<Node>) returns (x: Node, rest: seq<Node>)
    requires |f| > 0
    ensures x == f[|f| - 1] && rest == RemovedAt(f, |f| - 1)
  {
    x := f[|f| - 1];
    rest := f[..|f| - 1];
  }

  /** `frontier.popleft()` on the queue: the first entry and the rest. */
  method PopFirst(f: seq<Node>) returns (x: Node, rest: seq<Node>)
    requires |f| > 0
    ensures x == f[0] && rest == RemovedAt(f, 0)
  {
    x := f[0];
    rest := f[1..];
  }

  /** `depth_first_search`: the frontier is a stack (push and pop at the
      back); a child is skipped when its position is explored or already in
      the frontier. */
  method DepthFirstSearch(grid: Grid, startpos: Pos, endpos: Pos, nodeCount: nat)
    returns (r: SearchResult, nodeCount': nat)
    requires IsGrid(grid)
    ensures SearchContract(grid, startpos, endpos, ZeroHeuristic, nodeCount, r, nodeCount')
  {
    var goalnode := RootNode(endpos);
    nodeCount' := nodeCount + 1;
    var totalNodesGenerated: nat := 0;
    var maxNodesStored: nat := 0;
    var numIters: nat := 0;
    var depthOfGoal: nat := 0;
    var totalCostOfGoal := 0;

    var frontier: seq<Node> := [];
    var startNode := RootNode(startpos);
    nodeCount' := nodeCount' + 1;
    frontier := frontier + [startNode];
    assert frontier == [startNode];
    var exploredSet: set<Pos> := {};
    ghost var popped: set<Pos> := {};
    Init(grid, startpos, endpos, ZeroHeuristic);

    while |frontier| > 0
      invariant Core(grid, startpos, endpos, ZeroHeuristic, frontier, exploredSet, popped, numIters, maxNodesStored)
      invariant ClosedOn(grid, popped, exploredSet)
      invariant numIters <= |Universe(grid, startpos)|
      invariant nodeCount + 2 <= nodeCount' <= nodeCount + 2 + 4 * numIters
      decreases |Universe(grid, startpos)| - numIters
    {
      PopStep(grid, startpos, endpos, ZeroHeuristic, frontier, exploredSet, popped, numIters, maxNodesStored, |frontier| - 1);
      var nextNode;
      nextNode, frontier := PopLast(frontier);
      ghost var expanded := popped;
      exploredSet := exploredSet + {nextNode.position};
      popped := popped + {nextNode.position};
      numIters := numIters + 1;

      if GoalTest(nextNode, endpos) {
        r := ReportGoal(grid, startpos, endpos, ZeroHeuristic, nextNode, maxNodesStored, numIters, nodeCount, nodeCount');
        return;
      }

      var successors := GetSuccessors(nextNode, grid, endpos, ZeroHeuristic);
      nodeCount' := nodeCount' + |successors|;
      frontier, exploredSet, maxNodesStored :=
        PushUnexplored(grid, startpos, endpos, popped, numIters, nextNode, successors, frontier, exploredSet, maxNodesStored);
      ExpandDone(grid, endpos, ZeroHeuristic, expanded, exploredSet, nextNode);
    }

    r := SearchResult(goalnode, totalNodesGenerated, maxNodesStored, numIters, depthOfGoal, totalCostOfGoal);
    FailureContract(grid, startpos, endpos, ZeroHeuristic, exploredSet, popped, nodeCount, nodeCount', r);
  }

  /** The successor loop of the queue search: `PushUnexplored`, which in
      addition keeps the children appended one level below the node popped
      last at their shortest depth. */
  method PushUnexploredQueued(grid: Grid, s: Pos, e: Pos, ghost P: set<Pos>, ghost k: nat, ghost D: int,
                              nextNode: Node, successors: seq<Node>, frontier0: seq<Node>, explored0: set<Pos>,
                              max0: nat)
    returns (frontier: seq<Node>, exploredSet: set<Pos>, maxNodesStored: nat)
    requires IsGrid(grid)
    requires Core(grid, s, e, ZeroHeuristic, frontier0, explored0, P, k, max0) && k > 0
    requires Layered(grid, s, frontier0, explored0, P, k, D) && nextNode.depth == D
    requires nextNode.position in explored0 && Generated(nextNode, grid, s, e, ZeroHeuristic)
    requires forall t :: 0 <= t < |successors| ==> IsChild(grid, e, ZeroHeuristic, nextNode, successors[t])
    ensures Core(grid, s, e, ZeroHeuristic, frontier, exploredSet, P, k, maxNodesStored)
    ensures Layered(grid, s, frontier, exploredSet, P, k, D)
    ensures frontier == frontier0 + Unexplored(successors, explored0)
    ensures maxNodesStored == if |frontier| > max0 then |frontier| else max0
    ensures exploredSet == Marked(explored0, successors)
    ensures AllExplored(successors, exploredSet)
  {
    frontier, exploredSet, maxNodesStored := frontier0, explored0, max0;
    for j := 0 to |successors|
      invariant Core(grid, s, e, ZeroHeuristic, frontier, exploredSet, P, k, maxNodesStored)
      invariant Layered(grid, s, frontier, exploredSet, P, k, D)
      invariant frontier == frontier0 + Unexplored(successors[..j], explored0)
      invariant |frontier0| <= |frontier|
      invariant maxNodesStored == if |frontier| > max0 then |frontier| else max0
      invariant explored0 <= exploredSet
      invariant exploredSet == Marked(explored0, successors[..j])
      invariant AllExplored(successors[..j], exploredSet)
    {
      ghost var before, f0 := exploredSet, frontier;
      frontier, exploredSet, maxNodesStored :=
        PushIfUnexplored(grid, s, e, P, k, nextNode, successors[j], frontier, exploredSet, maxNodesStored);
      UnexploredStep(successors, j, frontier0, explored0, f0, before, frontier, exploredSet);
      LayeredPush(grid, s, e, ZeroHeuristic, f0, before, P, k, D, nextNode, successors[j], frontier, exploredSet);
      AllExploredGrows(successors, j, before, exploredSet);
    }
    assert successors[..|successors|] == successors;
  }

  /** `breadth_first_search`: the frontier is a queue (push at the back, pop
      at the front); a child is skipped when its position is explored or
      already in the frontier. */
  method BreadthFirstSearch(grid: Grid, startpos: Pos, endpos: Pos, nodeCount: nat)
    returns (r: SearchResult, nodeCount': nat)
    requires IsGrid(grid)
    ensures SearchContract(grid, startpos, endpos, ZeroHeuristic, nodeCount, r, nodeCount')
    ensures LeastDepth(grid, startpos, endpos, r)
  {
    var goalnode := RootNode(endpos);
    nodeCount' := nodeCount + 1;
    var totalNodesGenerated: nat := 0;
    var maxNodesStored: nat := 0;
    var numIters: nat := 0;
    var depthOfGoal: nat := 0;
    var totalCostOfGoal := 0;

    var frontier: seq<Node> := [];
    var startNode := RootNode(startpos);
    nodeCount' := nodeCount' + 1;
    frontier := frontier + [startNode];
    assert frontier == [startNode];
    var exploredSet: set<Pos> := {};
    ghost var popped: set<Pos> := {};
    Init(grid, startpos, endpos, ZeroHeuristic);
    ghost var D: int := 0;
    LayeredInit(grid, startpos);

    while |frontier| > 0
      invariant Core(grid, startpos, endpos, ZeroHeuristic, frontier, exploredSet, popped, numIters, maxNodesStored)
      invariant ClosedOn(grid, popped, exploredSet)
      invariant Layered(grid, startpos, frontier, exploredSet, popped, numIters, D)
      invariant numIters <= |Universe(grid, startpos)|
      invariant nodeCount + 2 <= nodeCount' <= nodeCount + 2 + 4 * numIters
      decreases |Universe(grid, startpos)| - numIters
    {
      PopStep(grid, startpos, endpos, ZeroHeuristic, frontier, exploredSet, popped, numIters, maxNodesStored, 0);
      LayeredPop(grid, startpos, frontier, exploredSet, popped, numIters, D);
      var nextNode;
      nextNode, frontier := PopFirst(frontier);
      ghost var expanded := popped;
      exploredSet := exploredSet + {nextNode.position};
      popped := popped + {nextNode.position};
      numIters := numIters + 1;
      D := nextNode.depth;

      if GoalTest(nextNode, endpos) {
        r := ReportGoal(grid, startpos, endpos, ZeroHeuristic, nextNode, maxNodesStored, numIters, nodeCount, nodeCount');
        return;
      }

      var successors := GetSuccessors(nextNode, grid, endpos, ZeroHeuristic);
      nodeCount' := nodeCount' + |successors|;
      frontier, exploredSet, maxNodesStored :=
        PushUnexploredQueued(grid, startpos, endpos, popped, numIters, D, nextNode, successors, frontier, exploredSet,
                             maxNodesStored);
      ExpandDone(grid, endpos, ZeroHeuristic, expanded, exploredSet, nextNode);
    }

    r := SearchResult(goalnode, totalNodesGenerated, maxNodesStored, numIters, depthOfGoal, totalCostOfGoal);
    FailureContract(grid, startpos, endpos, ZeroHeuristic, exploredSet, popped, nodeCount, nodeCount', r);
  }

  /** Every frontier node is shallower than the bound `d`. */
  predicate ShallowerThan(f: seq<Node>, d: int)
  {
    forall i {:trigger f[i].depth} :: 0 <= i < |f| ==> f[i].depth < d
  }

  /** Raising the bound by one keeps the frontier under it, with or
      without a child of depth at most the old bound appended. */
  lemma ShallowerStep(f: seq<Node>, c: Node, d: int)
    requires ShallowerThan(f, d) && c.depth <= d
    ensures ShallowerThan(f, d + 1) && ShallowerThan(f + [c], d + 1)
  {
  }

  /** Popping the top of the stack keeps the rest under the bound. */
  lemma ShallowerPop(f: seq<Node>, d: int)
    requires ShallowerThan(f, d) && |f| > 0
    ensures f[|f| - 1].depth < d && ShallowerThan(RemovedAt(f, |f| - 1), d)
  {
  }

  /** One pass of the successor loop of `iterative_deepening_search`: as in
      the stack search, with the extra depth test `unexploredNode.depth <= d`
      (which a child of a node shallower than `d` always passes); `d` then
      grows by one whether or not the child was pushed. */
  method PushIfWithin(grid: Grid, s: Pos, e: Pos, ghost P: set<Pos>, ghost k: nat, nextNode: Node,
                      unexploredNode: Node, frontier0: seq<Node>, explored0: set<Pos>, max0: nat, d0: nat)
    returns (frontier: seq<Node>, exploredSet: set<Pos>, maxNodesStored: nat, d: nat)
    requires IsGrid(grid)
    requires Core(grid, s, e, ZeroHeuristic, frontier0, explored0, P, k, max0) && k > 0
    requires nextNode.position in explored0 && Generated(nextNode, grid, s, e, ZeroHeuristic)
    requires IsChild(grid, e, ZeroHeuristic, nextNode, unexploredNode)
    requires nextNode.depth < d0 && ShallowerThan(frontier0, d0)
    ensures Core(grid, s, e, ZeroHeuristic, frontier, exploredSet, P, k, maxNodesStored)
    ensures exploredSet == explored0 + {unexploredNode.position}
    ensures frontier == if unexploredNode.position in explored0 || IndexOf(frontier0, unexploredNode) != -1
                        then frontier0 else frontier0 + [unexploredNode]
    ensures maxNodesStored == if |frontier| > max0 then |frontier| else max0
    ensures d == d0 + 1 && ShallowerThan(frontier, d)
  {
    frontier, exploredSet, maxNodesStored, d := frontier0, explored0, max0, d0;
    ShallowerStep(frontier, unexploredNode, d);
    if unexploredNode.position !in exploredSet && IndexOf(frontier, unexploredNode) == -1 && unexploredNode.depth <= d {
      PushStep(grid, s, e, ZeroHeuristic, frontier, exploredSet, P, k, maxNodesStored, nextNode, unexploredNode);
      exploredSet := exploredSet + {unexploredNode.position};
      frontier := frontier + [unexploredNode];
      if |frontier| > maxNodesStored {
        maxNodesStored := |frontier|;
      }
    } else {
      SkippedIsExplored(s, frontier, exploredSet, P, k, unexploredNode);
    }
    d := d + 1;
  }

  /** The successor loop of `iterative_deepening_search`. */
  method PushUnexploredWithin(grid: Grid, s: Pos, e: Pos, ghost P: set<Pos>, ghost k: nat, nextNode: Node,
                              successors: seq<Node>, frontier0: seq<Node>, explored0: set<Pos>, max0: nat, d0: nat)
    returns (frontier: seq<Node>, exploredSet: set<Pos>, maxNodesStored: nat, d: nat)
    requires IsGrid(grid)
    requires Core(grid, s, e, ZeroHeuristic, frontier0, explored0, P, k, max0) && k > 0
    requires nextNode.position in explored0 && Generated(nextNode, grid, s, e, ZeroHeuristic)
    requires forall t :: 0 <= t < |successors| ==> IsChild(grid, e, ZeroHeuristic, nextNode, successors[t])
    requires nextNode.depth < d0 && ShallowerThan(frontier0, d0)
    ensures Core(grid, s, e, ZeroHeuristic, frontier, exploredSet, P, k, maxNodesStored)
    ensures frontier == frontier0 + Unexplored(successors, explored0)
    ensures maxNodesStored == if |frontier| > max0 then |frontier| else max0
    ensures exploredSet == Marked(explored0, successors)
    ensures AllExplored(successors, exploredSet)
    ensures d == d0 + |successors| && ShallowerThan(frontier, d)
  {
    frontier, exploredSet, maxNodesStored, d := frontier0, explored0, max0, d0;
    for j := 0 to |successors|
      invariant Core(grid, s, e, ZeroHeuristic, frontier, exploredSet, P, k, maxNodesStored)
      invariant frontier == frontier0 + Unexplored(successors[..j], explored0)
      invariant |frontier0| <= |frontier|
      invariant maxNodesStored == if |frontier| > max0 then |frontier| else max0
      invariant explored0 <= exploredSet
      invariant exploredSet == Marked(explored0, successors[..j])
      invariant AllExplored(successors[..j], exploredSet)
      invariant d == d0 + j && ShallowerThan(frontier, d)
    {
      ghost var before, f0 := exploredSet, frontier;
      frontier, exploredSet, maxNodesStored, d :=
        PushIfWithin(grid, s, e, P, k, nextNode, successors[j], frontier, exploredSet, maxNodesStored, d);
      UnexploredStep(successors, j, frontier0, explored0, f0, before, frontier, exploredSet);
      AllExploredGrows(successors, j, before, exploredSet);
    }
    assert successors[..|successors|] == successors;
  }

  /** `iterative_deepening_search`.  Its outer `while (d)` loop ends in an
      unconditional `break`, so it runs once: one stack search whose depth
      bound `d` starts at 1 and grows with every successor looked at. */
  method IterativeDeepeningSearch(grid: Grid, startpos: Pos, endpos: Pos, nodeCount: nat)
    returns (r: SearchResult, nodeCount': nat)
    requires IsGrid(grid)
    ensures SearchContract(grid, startpos, endpos, ZeroHeuristic, nodeCount, r, nodeCount')
  {
    var goalnode := RootNode(endpos);
    nodeCount' := nodeCount + 1;
    var totalNodesGenerated: nat := 0;
    var maxNodesStored: nat := 0;
    var numIters: nat := 0;
    var depthOfGoal: nat := 0;
    var totalCostOfGoal := 0;
    var d: nat := 1;

    var frontier: seq<Node> := [];
    var exploredSet: set<Pos> := {};
    var startNode := RootNode(startpos);
    nodeCount' := nodeCount' + 1;
    frontier := frontier + [startNode];
    assert frontier == [startNode];
    ghost var popped: set<Pos> := {};
    Init(grid, startpos, endpos, ZeroHeuristic);

    while |frontier| > 0
      invariant Core(grid, startpos, endpos, ZeroHeuristic, frontier, exploredSet, popped, numIters, maxNodesStored)
      invariant ClosedOn(grid, popped, exploredSet)
      invariant numIters <= |Universe(grid, startpos)|
      invariant nodeCount + 2 <= nodeCount' <= nodeCount + 2 + 4 * numIters
      invariant ShallowerThan(frontier, d)
      decreases |Universe(grid, startpos)| - numIters
    {
      ShallowerPop(frontier, d);
      PopStep(grid, startpos, endpos, ZeroHeuristic, frontier, exploredSet, popped, numIters, maxNodesStored, |frontier| - 1);
      var nextNode;
      nextNode, frontier := PopLast(frontier);
      ghost var expanded := popped;
      exploredSet := exploredSet + {nextNode.position};
      popped := popped + {nextNode.position};
      numIters := numIters + 1;

      if GoalTest(nextNode, endpos) {
        r := ReportGoal(grid, startpos, endpos, ZeroHeuristic, nextNode, maxNodesStored, numIters, nodeCount, nodeCount');
        return;
      }

      var successors := GetSuccessors(nextNode, grid, endpos, ZeroHeuristic);
      nodeCount' := nodeCount' + |successors|;
      frontier, exploredSet, maxNodesStored, d :=
        PushUnexploredWithin(grid, startpos, endpos, popped, numIters, nextNode, successors, frontier, exploredSet, maxNodesStored, d);
      ExpandDone(grid, endpos, ZeroHeuristic, expanded, exploredSet, nextNode);
    }

    r := SearchResult(goalnode, totalNodesGenerated, maxNodesStored, numIters, depthOfGoal, totalCostOfGoal);
    FailureContract(grid, startpos, endpos, ZeroHeuristic, exploredSet, popped, nodeCount, nodeCount', r);
  }

  /** One pass of the successor loop of the uniform-cost and A* searches:
      a child whose position is not explored is marked explored and handed
      to `push_or_update`, which appends it (no frontier entry can share its
      position), and the recorded maximum frontier size is raised. */
  method PushIfUnexploredHeap(grid: Grid, s: Pos, e: Pos, h: Heuristic, ghost P: set<Pos>, ghost k: nat,
                              nextNode: Node, unexploredNode: Node, frontier: MinHeap,
                              explored0: set<Pos>, max0: nat)
    returns (exploredSet: set<Pos>, maxNodesStored: nat)
    requires IsGrid(grid)
    requires Core(grid, s, e, h, frontier.container, explored0, P, k, max0) && k > 0
    requires nextNode.position in explored0 && Generated(nextNode, grid, s, e, h)
    requires IsChild(grid, e, h, nextNode, unexploredNode)
    modifies frontier
    ensures Core(grid, s, e, h, frontier.container, exploredSet, P, k, maxNodesStored)
    ensures exploredSet == explored0 + {unexploredNode.position}
    ensures frontier.container == if unexploredNode.position in explored0
                                  then old(frontier.container) else old(frontier.container) + [unexploredNode]
    ensures maxNodesStored == if |frontier.container| > max0 then |frontier.container| else max0
  {
    exploredSet, maxNodesStored := explored0, max0;
    if unexploredNode.position !in exploredSet {
      PushStep(grid, s, e, h, frontier.container, exploredSet, P, k, maxNodesStored, nextNode, unexploredNode);
      AbsentFromFrontier(frontier.container, exploredSet, unexploredNode);
      exploredSet := exploredSet + {unexploredNode.position};
      frontier.PushOrUpdate(unexploredNode);
      if frontier.Len() > maxNodesStored {
        maxNodesStored := frontier.Len();
      }
    }
  }

  /** The successor loop of the uniform-cost and A* searches. */
  method PushUnexploredHeap(grid: Grid, s: Pos, e: Pos, h: Heuristic, ghost P: set<Pos>, ghost k: nat,
                            nextNode: Node, successors: seq<Node>, frontier: MinHeap,
                            explored0: set<Pos>, max0: nat)
    returns (exploredSet: set<Pos>, maxNodesStored: nat)
    requires IsGrid(grid)
    requires Core(grid, s, e, h, frontier.container, explored0, P, k, max0) && k > 0
    requires nextNode.position in explored0 && Generated(nextNode, grid, s, e, h)
    requires forall t :: 0 <= t < |successors| ==> IsChild(grid, e, h, nextNode, successors[t])
    modifies frontier
    ensures Core(grid, s, e, h, frontier.container, exploredSet, P, k, maxNodesStored)
    ensures frontier.container == old(frontier.container) + Unexplored(successors, explored0)
    ensures maxNodesStored == if |frontier.container| > max0 then |frontier.container| else max0
    ensures exploredSet == Marked(explored0, successors)
    ensures AllExplored(successors, exploredSet)
  {
    exploredSet, maxNodesStored := explored0, max0;
    for j := 0 to |successors|
      invariant Core(grid, s, e, h, frontier.container, exploredSet, P, k, maxNodesStored)
      invariant frontier.container == old(frontier.container) + Unexplored(successors[..j], explored0)
      invariant |old(frontier.container)| <= |frontier.container|
      invariant maxNodesStored == if |frontier.container| > max0 then |frontier.container| else max0
      invariant explored0 <= exploredSet
      invariant exploredSet == Marked(explored0, successors[..j])
      invariant AllExplored(successors[..j], exploredSet)
    {
      ghost var before, f0 := exploredSet, frontier.container;
      exploredSet, maxNodesStored :=
        PushIfUnexploredHeap(grid, s, e, h, P, k, nextNode, successors[j], frontier, exploredSet, maxNodesStored);
      UnexploredStep(successors, j, old(frontier.container), explored0, f0, before, frontier.container, exploredSet);
      AllExploredGrows(successors, j, before, exploredSet);
    }
    assert successors[..|successors|] == successors;
  }

  /** `a_star_search(grid, startpos, endpos, heuristic)`: the frontier is a
      `MinHeap` ordered by total cost; a child is skipped when its position
      is explored. */
  method AStarSearch(grid: Grid, startpos: Pos, endpos: Pos, h: Heuristic, nodeCount: nat)
    returns (r: SearchResult, nodeCount': nat)
    requires IsGrid(grid)
    ensures SearchContract(grid, startpos, endpos, h, nodeCount, r, nodeCount')
  {
    var goalnode := RootNode(endpos);
    nodeCount' := nodeCount + 1;
    var totalNodesGenerated: nat := 0;
    var maxNodesStored: nat := 0;
    var numIters: nat := 0;
    var depthOfGoal: nat := 0;
    var totalCostOfGoal := 0;

    var frontier := new MinHeap();
    var startNode := RootNode(startpos);
    nodeCount' := nodeCount' + 1;
    frontier.PushOrUpdate(startNode);
    assert frontier.container == [startNode];
    var exploredSet: set<Pos> := {};
    ghost var popped: set<Pos> := {};
    Init(grid, startpos, endpos, h);

    while frontier.Len() > 0
      invariant Core(grid, startpos, endpos, h, frontier.container, exploredSet, popped, numIters, maxNodesStored)
      invariant ClosedOn(grid, popped, exploredSet)
      invariant numIters <= |Universe(grid, startpos)|
      invariant nodeCount + 2 <= nodeCount' <= nodeCount + 2 + 4 * numIters
      decreases |Universe(grid, startpos)| - numIters
    {
      ghost var f := frontier.container;
      var nextNode: Node;
      ghost var i: nat;
      nextNode, i := frontier.Pop();
      PopStep(grid, startpos, endpos, h, f, exploredSet, popped, numIters, maxNodesStored, i);
      ghost var expanded := popped;
      exploredSet := exploredSet + {nextNode.position};
      popped := popped + {nextNode.position};
      numIters := numIters + 1;

      if GoalTest(nextNode, endpos) {
        r := ReportGoal(grid, startpos, endpos, h, nextNode, maxNodesStored, numIters, nodeCount, nodeCount');
        return;
      }

      var successors := GetSuccessors(nextNode, grid, endpos, h);
      nodeCount' := nodeCount' + |successors|;
      exploredSet, maxNodesStored :=
        PushUnexploredHeap(grid, startpos, endpos, h, popped, numIters, nextNode, successors, frontier, exploredSet, maxNodesStored);
      ExpandDone(grid, endpos, h, expanded, exploredSet, nextNode);
    }

    r := SearchResult(goalnode, totalNodesGenerated, maxNodesStored, numIters, depthOfGoal, totalCostOfGoal);
    FailureContract(grid, startpos, endpos, h, exploredSet, popped, nodeCount, nodeCount', r);
  }

  /** `a_star_search(grid, startpos, endpos)` with its default heuristic,
      the Manhattan distance. */
  method AStarSearchManhattan(grid: Grid, startpos: Pos, endpos: Pos, nodeCount: nat)
    returns (r: SearchResult, nodeCount': nat)
    requires IsGrid(grid)
    ensures SearchContract(grid, startpos, endpos, Manhattan, nodeCount, r, nodeCount')
  {
    r, nodeCount' := AStarSearch(grid, startpos, endpos, Manhattan, nodeCount);
  }

  /** `uniform_cost_search(grid, startpos, endpos)`: the same loop as the
      A* search, with successors generated under the default zero
      heuristic. */
  method UniformCostSearch(grid: Grid, startpos: Pos, endpos: Pos, nodeCount: nat)
    returns (r: SearchResult, nodeCount': nat)
    requires IsGrid(grid)
    ensures SearchContract(grid, startpos, endpos, ZeroHeuristic, nodeCount, r, nodeCount')
  {
    r, nodeCount' := AStarSearch(grid, startpos, endpos, ZeroHeuristic, nodeCount);
  }
}

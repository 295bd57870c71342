/** Path recovery (`extract_path`), the path-cost recomputation every search
    performs on success, and what a chain of generated nodes means: a walk
    through the grid from the start position. */
module Paths {
  import opened Nodes
  import opened Successors

  function Reverse<T>(s: seq<T>): (r: seq<T>)
    ensures |r| == |s|
    ensures forall i :: 0 <= i < |s| ==> r[i] == s[|s| - 1 - i]
  {
    if s == [] then [] else Reverse(s[1..]) + [s[0]]
  }

  /** The positions of `n`'s chain, root first. */
  function PathOf(n: Node): (path: seq<Pos>)
  {
    var c := Chain(n);
    seq(|c|, i requires 0 <= i < |c| => c[i].position)
  }

  /** The chain of an optional node; empty for None. */
  function ChainOf(o: Option<Node>): seq<Node>
  {
    match o
    case None => []
    case Some(m) => Chain(m)
  }

  /** `extract_path(curnode)`: collect positions while following parent
      links, then reverse. */
  method ExtractPath(n: Node) returns (path: seq<Pos>)
    ensures |path| == |Chain(n)|
    ensures forall i :: 0 <= i < |path| ==> path[i] == Chain(n)[i].position
  {
    ghost var c := Chain(n);
    var acc: seq<Pos> := [];
    var cur := Some(n);
    while cur.Some?
      invariant |acc| <= |c|
      invariant ChainOf(cur) == c[..|c| - |acc|]
      invariant forall i :: 0 <= i < |acc| ==> acc[i] == c[|c| - 1 - i].position
      decreases |c| - |acc|
    {
      var m := cur.value;
      ghost var k := |c| - |acc| - 1;
      assert Chain(m) == c[..k + 1];
      assert m == c[k];
      assert ChainOf(m.parent) == Chain(m)[..k];
      acc := acc + [m.position];
      cur := m.parent;
    }
    path := Reverse(acc);
  }

  /** Cost of a path of positions as the searches recompute it: nothing for
      fewer than two positions, otherwise the step cost of every consecutive
      pair. */
  function PathCost(path: seq<Pos>): int
  {
    if |path| <= 1 then 0
    else PathCost(path[..|path| - 1]) + StepCost(path[|path| - 2], path[|path| - 1])
  }

  /** The loop the searches run over the extracted path to total its cost
      (with a counter and the previous position). */
  method RecomputePathCost(paths: seq<Pos>) returns (total: int)
    ensures total == PathCost(paths)
  {
    total := 0;
    var count := 0;
    var prevTuple := Pos(0, 0);
    while count < |paths|
      invariant 0 <= count <= |paths|
      invariant total == PathCost(paths[..count])
      invariant count > 0 ==> prevTuple == paths[count - 1]
    {
      var nextTuple := paths[count];
      if count < |paths| && count > 0 {
        if prevTuple.row < nextTuple.row {
          total := total + 3;
        } else if prevTuple.row > nextTuple.row {
          total := total + 1;
        } else if prevTuple.col < nextTuple.col {
          total := total + 2;
        } else {
          total := total + 4;
        }
      }
      assert paths[..count + 1][..count] == paths[..count];
      prevTuple := nextTuple;
      count := count + 1;
    }
    assert paths[..count] == paths;
  }

  /** `n` was produced by the searches from the start position: either the
      start node itself, or a child (under heuristic `h`) of a node that was.
      `GetSuccessors` emits only children, and a child is fixed by its parent
      and position, so this is the set of nodes the generator can reach. */
  predicate Generated(n: Node, grid: Grid, startpos: Pos, endpos: Pos, h: Heuristic)
    requires IsGrid(grid)
    decreases n
  {
    match n.parent
    case None => n == RootNode(startpos)
    case Some(p) => Generated(p, grid, startpos, endpos, h) && IsChild(grid, endpos, h, p, n)
  }

  /** The edge costs along the chain of `n`: each non-root node's path cost
      minus the heuristic term the generator added to it. */
  function EdgeCostSum(n: Node, endpos: Pos, h: Heuristic): int
    decreases n
  {
    match n.parent
    case None => 0
    case Some(p) => EdgeCostSum(p, endpos, h) + n.pathcost - h(p.position, endpos)
  }

  /** Consecutive positions are one generator step apart. */
  predicate IsWalk(grid: Grid, w: seq<Pos>)
    requires IsGrid(grid)
  {
    forall i :: 0 <= i < |w| - 1 ==> Step(grid, w[i], w[i + 1])
  }

  /** `t` can be reached from `s` by generator steps. */
  ghost predicate Reachable(grid: Grid, s: Pos, t: Pos)
    requires IsGrid(grid)
  {
    exists w :: IsWalk(grid, w) && |w| > 0 && w[0] == s && w[|w| - 1] == t
  }

  /** Every node the searches generate is well formed, and its path runs
      from the start position to its own position through grid steps, one
      position per level of depth. */
  lemma {:induction false} GeneratedPath(n: Node, grid: Grid, startpos: Pos, endpos: Pos, h: Heuristic)
    requires IsGrid(grid)
    requires Generated(n, grid, startpos, endpos, h)
    ensures WellFormed(n)
    ensures |PathOf(n)| == n.depth + 1
    ensures PathOf(n)[0] == startpos && PathOf(n)[n.depth] == n.position
    ensures IsWalk(grid, PathOf(n))
    decreases n
  {
    match n.parent
    case None =>
    case Some(p) =>
      GeneratedPath(p, grid, startpos, endpos, h);
      assert PathOf(n) == PathOf(p) + [n.position];
  }

  /** The recomputed cost of the extracted path equals the sum of the edge
      costs the generator charged along the chain. */
  lemma {:induction false} RecomputedCostMatchesEdgeCosts(n: Node, grid: Grid, startpos: Pos, endpos: Pos, h: Heuristic)
    requires IsGrid(grid)
    requires Generated(n, grid, startpos, endpos, h)
    ensures PathCost(PathOf(n)) == EdgeCostSum(n, endpos, h)
    decreases n
  {
    match n.parent
    case None =>
    case Some(p) =>
      RecomputedCostMatchesEdgeCosts(p, grid, startpos, endpos, h);
      var path := PathOf(n);
      assert path == PathOf(p) + [n.position];
      assert path[..|path| - 1] == PathOf(p);
      GeneratedPath(p, grid, startpos, endpos, h);
  }

  /** A set that holds the first position of a walk and is closed under
      steps holds its last position too. */
  lemma {:induction false} ClosedSetHoldsWalk(grid: Grid, S: set<Pos>, w: seq<Pos>)
    requires IsGrid(grid)
    requires forall p, q :: p in S && Step(grid, p, q) ==> q in S
    requires IsWalk(grid, w) && |w| > 0 && w[0] in S
    ensures w[|w| - 1] in S
    decreases |w|
  {
    if |w| > 1 {
      var w' := w[..|w| - 1];
      assert IsWalk(grid, w');
      ClosedSetHoldsWalk(grid, S, w');
      assert Step(grid, w[|w| - 2], w[|w| - 1]);
    }
  }

  /** Manhattan distance never overstates the recomputed cost of a walk,
      nor its number of steps: the heuristic is admissible under the
      direction-cost model. */
  lemma {:induction false} ManhattanAdmissible(grid: Grid, w: seq<Pos>)
    requires IsGrid(grid)
    requires IsWalk(grid, w) && |w| > 0
    ensures Manhattan(w[0], w[|w| - 1]) <= |w| - 1 <= PathCost(w)
    decreases |w|
  {
    if |w| > 1 {
      var w' := w[..|w| - 1];
      assert IsWalk(grid, w');
      ManhattanAdmissible(grid, w');
      assert Step(grid, w[|w| - 2], w[|w| - 1]);
    }
  }
}

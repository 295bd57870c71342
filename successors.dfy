/** The occupancy grid and the successor generator `get_successors`. */
module Successors {
  import opened Nodes

  /** Rows of small integers; 0 is a wall, anything else is passable. */
  type Grid = seq<seq<int>>

  /** A heuristic maps (current position, goal position) to an estimate. */
  type Heuristic = (Pos, Pos) -> int

  /** The shape the grid provider guarantees: at least one row, all rows as
      long as the first. */
  predicate IsGrid(grid: Grid)
  {
    |grid| > 0 && forall r :: 0 <= r < |grid| ==> |grid[r]| == |grid[0]|
  }

  predicate InBounds(grid: Grid, p: Pos)
    requires IsGrid(grid)
  {
    0 <= p.row < |grid| && 0 <= p.col < |grid[0]|
  }

  predicate Open(grid: Grid, p: Pos)
    requires IsGrid(grid)
  {
    InBounds(grid, p) && grid[p.row][p.col] != 0
  }

  predicate Adjacent(p: Pos, q: Pos)
  {
    Abs(p.row - q.row) + Abs(p.col - q.col) == 1
  }

  /** Declarative statement of one move of the generator: from `p` (which
      must not lie past the last row or column) to a 4-adjacent, in-bounds,
      passable cell `q`. */
  predicate Step(grid: Grid, p: Pos, q: Pos)
    requires IsGrid(grid)
  {
    p.row < |grid| && p.col < |grid[0]| && Adjacent(p, q) && Open(grid, q)
  }

  /** The cost of moving from `p` to `q`, inferred from the coordinate delta
      alone: row grows 3 (south), row shrinks 1 (north), column grows 2
      (east), anything else 4 (west). */
  function StepCost(p: Pos, q: Pos): int
  {
    if p.row < q.row then 3
    else if p.row > q.row then 1
    else if p.col < q.col then 2
    else 4
  }

  /** The node for one direction, if the neighbour is inside the grid and
      not a wall.  Its path cost is the edge cost plus the heuristic of the
      PARENT's position; nothing of the parent's own path cost is added. */
  function Candidate(cur: Node, grid: Grid, endpos: Pos, h: Heuristic, pos: Pos, edge: int): seq<Node>
    requires IsGrid(grid)
  {
    if InBounds(grid, pos) && grid[pos.row][pos.col] != 0 then
      [MakeNode(Some(cur), pos, edge + h(cur.position, endpos), 0)]
    else
      []
  }

  /** `get_successors(curnode, grid, endpos, heuristic)`. */
  function GetSuccessors(cur: Node, grid: Grid, endpos: Pos, h: Heuristic): (r: seq<Node>)
    requires IsGrid(grid)
    ensures |r| <= 4
    ensures forall i :: 0 <= i < |r| ==> IsChild(grid, endpos, h, cur, r[i])
  {
    var p := cur.position;
    if p.row < |grid| && p.col < |grid[0]| then
      Candidate(cur, grid, endpos, h, Pos(p.row - 1, p.col), 1)
      + Candidate(cur, grid, endpos, h, Pos(p.row, p.col + 1), 2)
      + Candidate(cur, grid, endpos, h, Pos(p.row + 1, p.col), 3)
      + Candidate(cur, grid, endpos, h, Pos(p.row, p.col - 1), 4)
    else
      []
  }

  /** What every generated child satisfies: its parent is `cur`, it is one
      deeper, it is one step away on a passable cell, and its path cost is
      the edge cost of that step plus the heuristic at the parent. */
  predicate IsChild(grid: Grid, endpos: Pos, h: Heuristic, cur: Node, c: Node)
    requires IsGrid(grid)
  {
    && c.parent == Some(cur)
    && c.depth == cur.depth + 1
    && Step(grid, cur.position, c.position)
    && c.pathcost == StepCost(cur.position, c.position) + h(cur.position, endpos)
    && c.heuristic == 0
    && c.totalcost == c.pathcost
  }

  /** The generator emits exactly the positions one step away. */
  lemma SuccessorsComplete(cur: Node, grid: Grid, endpos: Pos, h: Heuristic, q: Pos)
    requires IsGrid(grid)
    ensures Step(grid, cur.position, q) <==>
      exists i :: 0 <= i < |GetSuccessors(cur, grid, endpos, h)| && GetSuccessors(cur, grid, endpos, h)[i].position == q
  {
    var r := GetSuccessors(cur, grid, endpos, h);
    var p := cur.position;
    if Step(grid, p, q) {
      var north := Candidate(cur, grid, endpos, h, Pos(p.row - 1, p.col), 1);
      var east := Candidate(cur, grid, endpos, h, Pos(p.row, p.col + 1), 2);
      var south := Candidate(cur, grid, endpos, h, Pos(p.row + 1, p.col), 3);
      NeighbourCases(p, grid);
      if q == Pos(p.row - 1, p.col) {
        assert r[0].position == q;
      } else if q == Pos(p.row, p.col + 1) {
        assert r[|north|].position == q;
      } else if q == Pos(p.row + 1, p.col) {
        assert r[|north| + |east|].position == q;
      } else {
        assert r[|north| + |east| + |south|].position == q;
      }
    }
  }

  /** Successors come in north, east, south, west order, which is the
      order of increasing edge cost 1, 2, 3, 4. */
  lemma SuccessorsOrdered(cur: Node, grid: Grid, endpos: Pos, h: Heuristic, i: int, j: int)
    requires IsGrid(grid)
    requires 0 <= i < j < |GetSuccessors(cur, grid, endpos, h)|
    ensures var r := GetSuccessors(cur, grid, endpos, h);
      StepCost(cur.position, r[i].position) < StepCost(cur.position, r[j].position)
  {
  }

  /** The four neighbours are the only adjacent positions. */
  lemma NeighbourCases(p: Pos, grid: Grid)
    requires IsGrid(grid)
    ensures forall q :: Adjacent(p, q) ==>
      q == Pos(p.row - 1, p.col) || q == Pos(p.row, p.col + 1) ||
      q == Pos(p.row + 1, p.col) || q == Pos(p.row, p.col - 1)
  {
  }

  /** `goal_test(curnode, endpos)`. */
  predicate GoalTest(n: Node, endpos: Pos)
  {
    n.position == endpos
  }
}

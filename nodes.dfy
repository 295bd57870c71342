/** Search-tree vertices of the grid route finder, and the two integer
    heuristics.  A node never changes after construction, so it is a value;
    its parent link is the predecessor on the path that produced it. */
module Nodes {

  datatype Option<+T> = None | Some(value: T)

  /** A grid coordinate: row index, then column index. */
  datatype Pos = Pos(row: int, col: int)

  /** One vertex of the search tree.  `heuristic` is stored but every node of
      the searches is built with the default 0, so `totalcost` is the
      `pathcost` the successor generator computed. */
  datatype Node = Node(
    position: Pos,
    parent: Option<Node>,
    pathcost: int,
    heuristic: int,
    totalcost: int,
    depth: nat)

  /** The invariant the node constructor establishes, all the way up the
      parent chain: the total cost is path cost plus heuristic, a root has
      depth 0 and every other node is one deeper than its parent. */
  predicate WellFormed(n: Node)
    decreases n
  {
    n.totalcost == n.pathcost + n.heuristic &&
    match n.parent
    case None => n.depth == 0
    case Some(p) => n.depth == p.depth + 1 && WellFormed(p)
  }

  /** The node constructor `node(parent, position, pathcost, heuristic)`. */
  function MakeNode(parent: Option<Node>, position: Pos, pathcost: int, heuristic: int): (n: Node)
    ensures (n.depth == 0) == parent.None?
    ensures (parent.None? || WellFormed(parent.value)) ==> WellFormed(n)
  {
    Node(position, parent, pathcost, heuristic, pathcost + heuristic,
         if parent.None? then 0 else parent.value.depth + 1)
  }

  /** `node(None, pos)`: the start node of a search, and the placeholder a
      failed search returns. */
  function RootNode(pos: Pos): Node
  {
    MakeNode(None, pos, 0, 0)
  }

  /** Node equality (and hashing) looks at the position only. */
  predicate SameNode(a: Node, b: Node)
  {
    a.position == b.position
  }

  /** Node ordering for the priority frontier compares total cost only. */
  predicate Less(a: Node, b: Node)
  {
    a.totalcost < b.totalcost
  }

  /** The nodes from the root of `n`'s tree down to `n`, root first. */
  function Chain(n: Node): (c: seq<Node>)
    decreases n
    ensures |c| >= 1 && c[|c| - 1] == n && c[0].parent.None?
    ensures forall i :: 0 <= i < |c| - 1 ==> c[i + 1].parent == Some(c[i])
    ensures WellFormed(n) ==> |c| == n.depth + 1
  {
    match n.parent
    case None => [n]
    case Some(p) => Chain(p) + [n]
  }

  function Abs(x: int): nat
  {
    if x < 0 then -x else x
  }

  /** The heuristic used when a search has none. */
  function ZeroHeuristic(curpos: Pos, endpos: Pos): int
  {
    0
  }

  /** Manhattan distance between two coordinates. */
  function Manhattan(curpos: Pos, endpos: Pos): (d: int)
    ensures d >= 0
    ensures d == 0 <==> curpos == endpos
  {
    Abs(endpos.row - curpos.row) + Abs(endpos.col - curpos.col)
  }
}

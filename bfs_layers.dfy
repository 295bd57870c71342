/** Why the queue search returns a goal of least depth.  Children are
    appended one level below the node being expanded and nodes leave from
    the front, so the queue holds at most two consecutive depths in order;
    each node's depth is the length of a shortest walk to its position,
    because every position closer to the start was explored before it was
    generated. */
module Layers {
  import opened Nodes
  import opened Successors
  import opened Paths
  import opened Heap
  import opened SearchInvariant

  /** No walk from `s` reaches `m`'s position in fewer steps than `m`'s
      depth. */
  ghost predicate Shortest(grid: Grid, s: Pos, m: Node)
    requires IsGrid(grid)
  {
    forall w :: IsWalk(grid, w) && |w| > 0 && w[0] == s && w[|w| - 1] == m.position ==> m.depth <= |w| - 1
  }

  /** Every position reachable from `s` in at most `L` steps is in `S`. */
  ghost predicate Within(grid: Grid, s: Pos, L: int, S: set<Pos>)
    requires IsGrid(grid)
  {
    forall w :: IsWalk(grid, w) && |w| > 0 && w[0] == s && |w| - 1 <= L ==> w[|w| - 1] in S
  }

  /** Queue depths are non-decreasing from front to back and lie in
      `D` or `D + 1`. */
  predicate Levels(f: seq<Node>, D: int)
  {
    && (forall i :: 0 <= i < |f| ==> D <= f[i].depth <= D + 1)
    && (forall i, j :: 0 <= i <= j < |f| ==> f[i].depth <= f[j].depth)
  }

  /** The queue-search invariant beside `Core`, where `D` is the depth of
      the node popped last (0 before the first pop): positions closer than
      `D` have been popped, positions at most `D` away are explored once
      anything was popped, and every queued node is at its shortest depth. */
  ghost predicate Layered(grid: Grid, s: Pos, f: seq<Node>, E: set<Pos>, P: set<Pos>, k: nat, D: int)
    requires IsGrid(grid)
  {
    && Levels(f, D)
    && 0 <= D
    && (k == 0 ==> D == 0)
    && Within(grid, s, D - 1, P)
    && (k > 0 ==> Within(grid, s, D, E))
    && (forall i :: 0 <= i < |f| ==> Shortest(grid, s, f[i]))
  }

  /** Dropping the last position of a walk leaves a walk one step shorter
      whose end steps to the dropped position. */
  lemma WalkPrefix(grid: Grid, w: seq<Pos>)
    requires IsGrid(grid) && IsWalk(grid, w) && |w| > 1
    ensures IsWalk(grid, w[..|w| - 1])
    ensures Step(grid, w[|w| - 2], w[|w| - 1])
  {
  }

  lemma WithinMono(grid: Grid, s: Pos, L: int, L': int, S: set<Pos>, S': set<Pos>)
    requires IsGrid(grid) && Within(grid, s, L, S) && L' <= L && S <= S'
    ensures Within(grid, s, L', S')
  {
  }

  /** The seeded queue: the start node alone, nothing explored. */
  lemma LayeredInit(grid: Grid, s: Pos)
    requires IsGrid(grid)
    ensures Layered(grid, s, [RootNode(s)], {}, {}, 0, 0)
  {
    assert Shortest(grid, s, RootNode(s));
  }

  /** A queued node that is not at its shortest depth is impossible while
      everything at most `D` steps away is explored and the popped set and
      the queue cover the explored set: such a node would have to be popped
      already, or queued at a depth the order rules out.  Stated for the
      case the pop needs: the front is one level down, so every explored
      position at most `D` away has been popped. */
  lemma FrontierBelow(grid: Grid, s: Pos, f: seq<Node>, E: set<Pos>, P: set<Pos>, k: nat, D: int)
    requires IsGrid(grid)
    requires Layered(grid, s, f, E, P, k, D) && k > 0
    requires Bookkeeping(s, f, E, P, k) && |f| > 0 && f[0].depth == D + 1
    ensures Within(grid, s, D, P)
  {
    forall w | IsWalk(grid, w) && |w| > 0 && w[0] == s && |w| - 1 <= D
      ensures w[|w| - 1] in P
    {
      var p := w[|w| - 1];
      forall j | 0 <= j < |f| ensures f[j].position != p {
        assert Shortest(grid, s, f[j]);
        assert f[0].depth <= f[j].depth;
      }
      assert p !in Positions(f);
    }
  }

  /** The queue behind its front keeps the order and the shortest depths,
      with the front's depth as the new lower level. */
  lemma PopTail(grid: Grid, s: Pos, f: seq<Node>, D: int)
    requires IsGrid(grid) && |f| > 0 && Levels(f, D)
    requires forall i :: 0 <= i < |f| ==> Shortest(grid, s, f[i])
    ensures Levels(RemovedAt(f, 0), f[0].depth)
    ensures forall i :: 0 <= i < |RemovedAt(f, 0)| ==> Shortest(grid, s, RemovedAt(f, 0)[i])
  {
    var f' := RemovedAt(f, 0);
    forall i | 0 <= i < |f'| ensures f[0].depth <= f'[i].depth <= f[0].depth + 1 && Shortest(grid, s, f'[i]) {
      assert f'[i] == f[i + 1];
    }
    forall i, j | 0 <= i <= j < |f'| ensures f'[i].depth <= f'[j].depth {
      assert f'[i] == f[i + 1] && f'[j] == f[j + 1];
    }
  }

  /** When the front is one level down, every position at most `D + 1`
      away is explored once the front is: the ones at most `D` away were
      popped, so their neighbours were explored when they were expanded. */
  lemma PopNextLevel(grid: Grid, s: Pos, f: seq<Node>, E: set<Pos>, P: set<Pos>, k: nat, D: int)
    requires IsGrid(grid)
    requires Layered(grid, s, f, E, P, k, D) && k > 0
    requires Bookkeeping(s, f, E, P, k) && ClosedOn(grid, P, E) && |f| > 0 && f[0].depth == D + 1
    ensures Within(grid, s, D, P + {f[0].position})
    ensures Within(grid, s, D + 1, E + {f[0].position})
  {
    FrontierBelow(grid, s, f, E, P, k, D);
    WithinMono(grid, s, D, D, P, P + {f[0].position});
    forall w | IsWalk(grid, w) && |w| > 0 && w[0] == s && |w| - 1 <= D + 1
      ensures w[|w| - 1] in E + {f[0].position}
    {
      if |w| - 1 == D + 1 {
        WalkPrefix(grid, w);
        var w' := w[..|w| - 1];
        assert w'[|w'| - 1] in P;
      }
    }
  }

  /** Popping the front keeps the invariant with `D` set to the popped
      node's depth, which is its shortest depth. */
  lemma LayeredPop(grid: Grid, s: Pos, f: seq<Node>, E: set<Pos>, P: set<Pos>, k: nat, D: int)
    requires IsGrid(grid)
    requires Layered(grid, s, f, E, P, k, D)
    requires Bookkeeping(s, f, E, P, k) && ClosedOn(grid, P, E) && |f| > 0
    ensures Shortest(grid, s, f[0])
    ensures f[0].depth == D || f[0].depth == D + 1
    ensures Layered(grid, s, RemovedAt(f, 0), E + {f[0].position}, P + {f[0].position}, k + 1, f[0].depth)
  {
    var n := f[0];
    PopTail(grid, s, f, D);
    if k == 0 {
      WithinMono(grid, s, D - 1, n.depth - 1, P, P + {n.position});
      forall w | IsWalk(grid, w) && |w| > 0 && w[0] == s && |w| - 1 <= n.depth
        ensures w[|w| - 1] in E + {n.position}
      {
        assert w[|w| - 1] == w[0];
      }
    } else if n.depth == D {
      WithinMono(grid, s, D - 1, D - 1, P, P + {n.position});
      WithinMono(grid, s, D, D, E, E + {n.position});
    } else {
      PopNextLevel(grid, s, f, E, P, k, D);
    }
  }

  /** Looking at a child of the node popped last, whose depth is `D`, keeps
      the invariant whether the child is appended or skipped; an appended
      child is at its shortest depth, since every position at most `D` away
      is already explored. */
  lemma LayeredPush(grid: Grid, s: Pos, e: Pos, h: Heuristic, f0: seq<Node>, E0: set<Pos>, P: set<Pos>,
                    k: nat, D: int, n: Node, c: Node, f: seq<Node>, E: set<Pos>)
    requires IsGrid(grid)
    requires Layered(grid, s, f0, E0, P, k, D) && k > 0
    requires n.depth == D && IsChild(grid, e, h, n, c)
    requires E == E0 + {c.position}
    requires f == if c.position in E0 || IndexOf(f0, c) != -1 then f0 else f0 + [c]
    ensures Layered(grid, s, f, E, P, k, D)
  {
    WithinMono(grid, s, D, D, E0, E);
    if c.position !in E0 && IndexOf(f0, c) == -1 {
      assert Shortest(grid, s, c);
      assert Levels(f, D) by {
        forall i, j | 0 <= i <= j < |f| ensures f[i].depth <= f[j].depth {
          if j < |f0| {
            assert f[i] == f0[i] && f[j] == f0[j];
          } else if i < |f0| {
            assert f[i] == f0[i];
          }
        }
      }
      forall i | 0 <= i < |f| ensures Shortest(grid, s, f[i]) {
        if i < |f0| {
          assert f[i] == f0[i];
        }
      }
    }
  }
}

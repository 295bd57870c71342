/** What every search loop keeps true between iterations, and the lemmas
    that carry it across one pop, one push and one finished expansion.

    The state of a search is its frontier `f` (stack, queue or heap list),
    its explored set `E` of positions, the ghost set `P` of positions popped
    so far, the iteration counter `k` and the largest frontier size seen `M`.
    Every child is added to `E` when it is generated, so `E` holds exactly
    the popped positions and the frontier's positions. */
module SearchInvariant {
  import opened Nodes
  import opened Successors
  import opened Paths
  import opened Heap

  /** Passable cells of the grid. */
  function PassableCells(grid: Grid): set<Pos>
    requires IsGrid(grid)
  {
    set r: int, c: int | 0 <= r < |grid| && 0 <= c < |grid[0]| && grid[r][c] != 0 :: Pos(r, c)
  }

  /** Every position a search can ever hold: the passable cells and the
      start position (which the searches never check). */
  function Universe(grid: Grid, s: Pos): set<Pos>
    requires IsGrid(grid)
  {
    PassableCells(grid) + {s}
  }

  /** The cells reachable from `s`: its connected component. */
  ghost function ReachableCells(grid: Grid, s: Pos): set<Pos>
    requires IsGrid(grid)
  {
    set p | p in Universe(grid, s) && Reachable(grid, s, p)
  }

  function Positions(f: seq<Node>): set<Pos>
  {
    set m | m in f :: m.position
  }

  /** Every node of `c` has its position in `E`. */
  predicate AllExplored(c: seq<Node>, E: set<Pos>)
  {
    |c| == 0 || (c[|c| - 1].position in E && AllExplored(c[..|c| - 1], E))
  }

  lemma {:induction false} AllExploredMono(c: seq<Node>, E: set<Pos>, E': set<Pos>)
    requires AllExplored(c, E) && E <= E'
    ensures AllExplored(c, E')
    decreases |c|
  {
    if |c| > 0 {
      AllExploredMono(c[..|c| - 1], E, E');
    }
  }

  lemma AllExploredGrows(c: seq<Node>, j: nat, E: set<Pos>, E': set<Pos>)
    requires j < |c| && AllExplored(c[..j], E) && E <= E' && c[j].position in E'
    ensures AllExplored(c[..j + 1], E')
  {
    AllExploredMono(c[..j], E, E');
    assert c[..j + 1][..j] == c[..j];
  }

  lemma {:induction false} AllExploredAt(c: seq<Node>, E: set<Pos>, t: nat)
    requires AllExplored(c, E) && t < |c|
    ensures c[t].position in E
    decreases |c|
  {
    if t < |c| - 1 {
      AllExploredAt(c[..|c| - 1], E, t);
    }
  }

  /** The children a successor loop appends, in the order they come: each
      one whose position is neither explored before the loop nor taken by
      a child appended earlier in it. */
  function Unexplored(cs: seq<Node>, E: set<Pos>): seq<Node>
    decreases |cs|
  {
    if |cs| == 0 then []
    else if cs[0].position in E then Unexplored(cs[1..], E)
    else [cs[0]] + Unexplored(cs[1..], E + {cs[0].position})
  }

  /** The appended children are successors whose positions were not explored
      beforehand, and no two of them share a position. */
  lemma {:induction false} UnexploredFacts(cs: seq<Node>, E: set<Pos>)
    decreases |cs|
    ensures var r := Unexplored(cs, E);
      && |r| <= |cs|
      && (forall i :: 0 <= i < |r| ==> r[i] in cs && r[i].position !in E)
      && DistinctPositions(r)
  {
    if |cs| > 0 {
      if cs[0].position in E {
        UnexploredFacts(cs[1..], E);
        assert forall x :: x in cs[1..] ==> x in cs;
      } else {
        var E' := E + {cs[0].position};
        var t := Unexplored(cs[1..], E');
        var r := [cs[0]] + t;
        UnexploredFacts(cs[1..], E');
        assert forall x :: x in cs[1..] ==> x in cs;
        assert forall i :: 0 < i < |r| ==> r[i] == t[i - 1];
      }
    }
  }

  /** Every successor position not explored beforehand is appended. */
  lemma {:induction false} UnexploredCovers(cs: seq<Node>, E: set<Pos>)
    decreases |cs|
    ensures Positions(Unexplored(cs, E)) == Positions(cs) - E
  {
    if |cs| > 0 {
      assert Positions(cs) == {cs[0].position} + Positions(cs[1..]) by {
        assert cs == [cs[0]] + cs[1..];
      }
      if cs[0].position in E {
        UnexploredCovers(cs[1..], E);
      } else {
        var t := Unexplored(cs[1..], E + {cs[0].position});
        UnexploredCovers(cs[1..], E + {cs[0].position});
        assert Positions([cs[0]] + t) == {cs[0].position} + Positions(t);
      }
    }
  }

  /** `E` with the positions of `c` added one by one, as a successor loop
      marks them explored. */
  function Marked(E: set<Pos>, c: seq<Node>): set<Pos>
    decreases |c|
  {
    if |c| == 0 then E else Marked(E, c[..|c| - 1]) + {c[|c| - 1].position}
  }

  /** Marking every node of `c` adds exactly the positions of `c`. */
  lemma {:induction false} MarkedPositions(E: set<Pos>, c: seq<Node>)
    decreases |c|
    ensures Marked(E, c) == E + Positions(c)
  {
    if |c| > 0 {
      var n := |c| - 1;
      MarkedPositions(E, c[..n]);
      assert c == c[..n] + [c[n]];
      assert Positions(c) == Positions(c[..n]) + {c[n].position};
    }
  }

  /** Filtering one more child: it is appended exactly when its position is
      neither explored beforehand nor taken by an earlier child. */
  lemma {:induction false} UnexploredSnoc(cs: seq<Node>, c: Node, E: set<Pos>)
    decreases |cs|
    ensures Unexplored(cs + [c], E)
         == Unexplored(cs, E) + (if c.position in E + Positions(cs) then [] else [c])
  {
    if |cs| == 0 {
      assert [c][1..] == [];
    } else {
      var x, rest := cs[0], cs[1..];
      assert (cs + [c])[0] == x && (cs + [c])[1..] == rest + [c];
      assert Positions(cs) == {x.position} + Positions(rest) by {
        assert cs == [x] + rest;
      }
      if x.position in E {
        UnexploredSnoc(rest, c, E);
      } else {
        UnexploredSnoc(rest, c, E + {x.position});
      }
    }
  }

  /** One step of a successor loop, which started from frontier `f0` and
      explored set `E0`, appends `Unexplored`'s next child or skips it.  The
      loop bodies state the new frontier `f'` with or without the frontier
      lookup, which agree while the frontier is explored. */
  lemma UnexploredStep(cs: seq<Node>, j: nat, f0: seq<Node>, E0: set<Pos>,
                       f: seq<Node>, E: set<Pos>, f': seq<Node>, E': set<Pos>)
    requires j < |cs| && Positions(f) <= E
    requires f == f0 + Unexplored(cs[..j], E0) && E == Marked(E0, cs[..j])
    requires E' == E + {cs[j].position}
    requires || f' == (if cs[j].position in E || IndexOf(f, cs[j]) != -1 then f else f + [cs[j]])
             || f' == (if cs[j].position in E then f else f + [cs[j]])
    ensures f' == f0 + Unexplored(cs[..j + 1], E0) && E' == Marked(E0, cs[..j + 1])
  {
    assert cs[..j + 1] == cs[..j] + [cs[j]] && cs[..j + 1][..j] == cs[..j];
    MarkedPositions(E0, cs[..j]);
    UnexploredSnoc(cs[..j], cs[j], E0);
    if cs[j].position !in E {
      AbsentFromFrontier(f, E, cs[j]);
    }
  }

  /** Every step out of a position of `S` lands in `E`. */
  ghost predicate ClosedOn(grid: Grid, S: set<Pos>, E: set<Pos>)
    requires IsGrid(grid)
  {
    forall p, q :: p in S && Step(grid, p, q) ==> q in E
  }

  /** The frontier holds generated nodes, at most one per position. */
  ghost predicate FrontierOk(grid: Grid, s: Pos, e: Pos, h: Heuristic, f: seq<Node>)
    requires IsGrid(grid)
  {
    && (forall m :: m in f ==> Generated(m, grid, s, e, h))
    && DistinctPositions(f)
  }

  /** How the frontier, the explored set and the popped set relate.  No
      popped position is in the frontier, so none is pushed twice; after the
      first pop every frontier position is also explored. */
  predicate Bookkeeping(s: Pos, f: seq<Node>, E: set<Pos>, P: set<Pos>, k: nat)
  {
    && Positions(f) !! P
    && P <= E <= P + Positions(f)
    && k == |P|
    && (k == 0 ==> f == [RootNode(s)] && E == {})
    && (k > 0 ==> Positions(f) <= E && s in P)
  }

  /** Every explored position is a reachable cell of the grid (or the start),
      the goal has not been popped, and the recorded maximum bounds the
      frontier seen since the first pop. */
  ghost predicate Bounds(grid: Grid, s: Pos, e: Pos, f: seq<Node>, E: set<Pos>, P: set<Pos>, k: nat, M: nat)
    requires IsGrid(grid)
  {
    && E <= Universe(grid, s)
    && (forall p :: p in E ==> Reachable(grid, s, p))
    && e !in P
    && M <= |E|
    && (k > 0 ==> |f| <= M)
  }

  ghost predicate Core(grid: Grid, s: Pos, e: Pos, h: Heuristic,
                       f: seq<Node>, E: set<Pos>, P: set<Pos>, k: nat, M: nat)
    requires IsGrid(grid)
  {
    FrontierOk(grid, s, e, h, f) && Bookkeeping(s, f, E, P, k) && Bounds(grid, s, e, f, E, P, k, M)
  }

  lemma SubsetCard(A: set<Pos>, B: set<Pos>)
    requires A <= B
    ensures |A| <= |B|
  {
    assert B == A + (B - A);
  }

  lemma {:induction false} DistinctCard(f: seq<Node>)
    requires DistinctPositions(f)
    ensures |Positions(f)| == |f|
    decreases |f|
  {
    if |f| > 0 {
      var f' := f[..|f| - 1];
      assert DistinctPositions(f');
      DistinctCard(f');
      assert Positions(f) == Positions(f') + {f[|f| - 1].position};
      assert f[|f| - 1].position !in Positions(f');
    }
  }

  lemma ReachSelf(grid: Grid, s: Pos)
    requires IsGrid(grid)
    ensures Reachable(grid, s, s)
  {
    assert IsWalk(grid, [s]);
  }

  lemma ReachStep(grid: Grid, s: Pos, p: Pos, q: Pos)
    requires IsGrid(grid)
    requires Reachable(grid, s, p) && Step(grid, p, q)
    ensures Reachable(grid, s, q)
  {
    var w :| IsWalk(grid, w) && |w| > 0 && w[0] == s && w[|w| - 1] == p;
    assert IsWalk(grid, w + [q]);
  }

  /** Removing entry `i` of a frontier with distinct positions removes its
      position and nothing else. */
  lemma RemovedAtPositions(f: seq<Node>, i: nat)
    requires i < |f| && DistinctPositions(f)
    ensures var f' := RemovedAt(f, i);
      && DistinctPositions(f')
      && Positions(f') == Positions(f) - {f[i].position}
      && (forall m :: m in f' ==> m in f)
  {
    var f' := RemovedAt(f, i);
    forall a, b | 0 <= a < |f'| && 0 <= b < |f'| && f'[a].position == f'[b].position
      ensures a == b
    {
      var sa := if a < i then a else a + 1;
      var sb := if b < i then b else b + 1;
      assert f'[a] == f[sa] && f'[b] == f[sb];
    }
    forall x | x in Positions(f) - {f[i].position} ensures x in Positions(f') {
      var m :| m in f && m.position == x;
      var j :| 0 <= j < |f| && f[j] == m;
      assert j != i;
      assert f'[if j < i then j else j - 1] == m;
    }
  }

  /** The start of every search satisfies the invariant. */
  lemma Init(grid: Grid, s: Pos, e: Pos, h: Heuristic)
    requires IsGrid(grid)
    ensures Core(grid, s, e, h, [RootNode(s)], {}, {}, 0, 0)
    ensures ClosedOn(grid, {}, {})
  {
    assert DistinctPositions([RootNode(s)]);
  }

  /** Popping entry `i`: the node is generated, reachable and not popped
      before; the iteration count stays within the universe; and unless it
      is the goal the invariant holds for the state after the pop. */
  lemma PopStep(grid: Grid, s: Pos, e: Pos, h: Heuristic,
                f: seq<Node>, E: set<Pos>, P: set<Pos>, k: nat, M: nat, i: nat)
    requires IsGrid(grid)
    requires Core(grid, s, e, h, f, E, P, k, M) && ClosedOn(grid, P, E)
    requires i < |f|
    ensures Generated(f[i], grid, s, e, h)
    ensures Reachable(grid, s, f[i].position)
    ensures f[i].position !in P
    ensures k + 1 <= |Universe(grid, s)| && M <= |Universe(grid, s)|
    ensures ClosedOn(grid, P, E + {f[i].position})
    ensures f[i].position != e ==>
      Core(grid, s, e, h, RemovedAt(f, i), E + {f[i].position}, P + {f[i].position}, k + 1, M)
  {
    var n := f[i];
    assert n in f;
    PopBookkeeping(s, f, E, P, k, i);
    PopBounds(grid, s, e, f, E, P, k, M, i);
    if n.position != e {
      RemovedAtPositions(f, i);
    }
  }

  lemma PopBookkeeping(s: Pos, f: seq<Node>, E: set<Pos>, P: set<Pos>, k: nat, i: nat)
    requires Bookkeeping(s, f, E, P, k) && DistinctPositions(f) && i < |f|
    ensures f[i].position !in P
    ensures k == 0 ==> f[i] == RootNode(s)
    ensures k > 0 ==> f[i].position in E
    ensures Bookkeeping(s, RemovedAt(f, i), E + {f[i].position}, P + {f[i].position}, k + 1)
  {
    var n := f[i];
    var f' := RemovedAt(f, i);
    assert n in f;
    assert n.position in Positions(f);
    RemovedAtPositions(f, i);
  }

  lemma PopBounds(grid: Grid, s: Pos, e: Pos, f: seq<Node>, E: set<Pos>, P: set<Pos>, k: nat, M: nat, i: nat)
    requires IsGrid(grid)
    requires Bookkeeping(s, f, E, P, k) && Bounds(grid, s, e, f, E, P, k, M)
    requires DistinctPositions(f) && i < |f|
    ensures Reachable(grid, s, f[i].position)
    ensures k + 1 <= |Universe(grid, s)| && M <= |Universe(grid, s)|
    ensures f[i].position != e ==>
      Bounds(grid, s, e, RemovedAt(f, i), E + {f[i].position}, P + {f[i].position}, k + 1, M)
  {
    var n := f[i];
    var E', P' := E + {n.position}, P + {n.position};
    PopBookkeeping(s, f, E, P, k, i);
    if k == 0 {
      ReachSelf(grid, s);
    }
    assert n.position in Universe(grid, s);
    SubsetCard(P', E');
    SubsetCard(E', Universe(grid, s));
    SubsetCard(E, E');
  }

  /** Pushing a child `c` of the expanded node `n` whose position is not
      explored keeps the invariant, with the maximum updated as the searches
      do. */
  lemma PushStep(grid: Grid, s: Pos, e: Pos, h: Heuristic,
                 f: seq<Node>, E: set<Pos>, P: set<Pos>, k: nat, M: nat, n: Node, c: Node)
    requires IsGrid(grid)
    requires Core(grid, s, e, h, f, E, P, k, M) && k > 0
    requires n.position in E && Generated(n, grid, s, e, h)
    requires IsChild(grid, e, h, n, c)
    requires c.position !in E
    ensures var M' := if |f| + 1 > M then |f| + 1 else M;
      Core(grid, s, e, h, f + [c], E + {c.position}, P, k, M')
  {
    PushBookkeeping(s, f, E, P, k, c);
    PushFrontier(grid, s, e, h, f, n, c);
    ReachStep(grid, s, n.position, c.position);
    PushBounds(grid, s, e, f, E, P, k, M, c);
  }

  lemma PushBookkeeping(s: Pos, f: seq<Node>, E: set<Pos>, P: set<Pos>, k: nat, c: Node)
    requires Bookkeeping(s, f, E, P, k) && k > 0 && c.position !in E
    ensures Positions(f) <= E && c.position !in Positions(f)
    ensures Bookkeeping(s, f + [c], E + {c.position}, P, k)
  {
    assert Positions(f + [c]) == Positions(f) + {c.position};
  }

  lemma PushBounds(grid: Grid, s: Pos, e: Pos, f: seq<Node>, E: set<Pos>, P: set<Pos>, k: nat, M: nat, c: Node)
    requires IsGrid(grid)
    requires Bounds(grid, s, e, f, E, P, k, M)
    requires Open(grid, c.position) && Reachable(grid, s, c.position)
    requires DistinctPositions(f + [c]) && Positions(f) <= E
    ensures var M' := if |f| + 1 > M then |f| + 1 else M;
      Bounds(grid, s, e, f + [c], E + {c.position}, P, k, M')
  {
    var f', E' := f + [c], E + {c.position};
    assert Positions(f') == Positions(f) + {c.position};
    assert c.position in PassableCells(grid);
    DistinctCard(f');
    SubsetCard(Positions(f'), E');
    SubsetCard(E, E');
  }

  lemma PushFrontier(grid: Grid, s: Pos, e: Pos, h: Heuristic, f: seq<Node>, n: Node, c: Node)
    requires IsGrid(grid)
    requires FrontierOk(grid, s, e, h, f) && Generated(n, grid, s, e, h)
    requires IsChild(grid, e, h, n, c)
    requires c.position !in Positions(f)
    ensures FrontierOk(grid, s, e, h, f + [c])
    ensures DistinctPositions(f + [c])
  {
    assert Generated(c, grid, s, e, h);
    var f' := f + [c];
    forall a | 0 <= a < |f| ensures f[a].position != c.position {
      assert f[a] in f;
    }
    forall a, b | 0 <= a < |f'| && 0 <= b < |f'| && f'[a].position == f'[b].position
      ensures a == b
    {
      if a < |f| && b < |f| {
        assert f'[a] == f[a] && f'[b] == f[b];
      }
    }
    forall m | m in f' ensures Generated(m, grid, s, e, h) {
      if m != c {
        assert m in f;
      }
    }
  }

  /** A child whose position is not explored has no entry in a frontier
      whose positions are all explored, so `push_or_update` inserts it. */
  lemma AbsentFromFrontier(f: seq<Node>, E: set<Pos>, c: Node)
    requires Positions(f) <= E && c.position !in E
    ensures IndexOf(f, c) == -1
  {
    forall j | 0 <= j < |f| ensures !SameNode(f[j], c) {
      assert f[j] in f;
    }
  }

  /** A child skipped because its position is already in the frontier is
      explored too. */
  lemma SkippedIsExplored(s: Pos, f: seq<Node>, E: set<Pos>, P: set<Pos>, k: nat, c: Node)
    requires Bookkeeping(s, f, E, P, k) && k > 0
    requires c.position in E || IndexOf(f, c) != -1
    ensures c.position in E
  {
    if IndexOf(f, c) != -1 {
      assert f[IndexOf(f, c)] in f;
    }
  }

  /** Once every successor of `n` is in `E`, the popped set including `n`
      is closed. */
  lemma ExpandDone(grid: Grid, e: Pos, h: Heuristic, P: set<Pos>, E: set<Pos>, n: Node)
    requires IsGrid(grid)
    requires ClosedOn(grid, P, E)
    requires AllExplored(GetSuccessors(n, grid, e, h), E)
    ensures ClosedOn(grid, P + {n.position}, E)
  {
    forall p, q | p in P + {n.position} && Step(grid, p, q) ensures q in E {
      if p !in P {
        SuccessorsComplete(n, grid, e, h, q);
        var t :| 0 <= t < |GetSuccessors(n, grid, e, h)| && GetSuccessors(n, grid, e, h)[t].position == q;
        AllExploredAt(GetSuccessors(n, grid, e, h), E, t);
      }
    }
  }

  /** An exhausted frontier means the goal is unreachable and every cell of
      the start's component was popped exactly once. */
  lemma Exhausted(grid: Grid, s: Pos, e: Pos, h: Heuristic, E: set<Pos>, P: set<Pos>, k: nat, M: nat)
    requires IsGrid(grid)
    requires Core(grid, s, e, h, [], E, P, k, M) && ClosedOn(grid, P, E)
    ensures !Reachable(grid, s, e)
    ensures k == |ReachableCells(grid, s)|
    ensures M <= |Universe(grid, s)|
  {
    assert E == P;
    if Reachable(grid, s, e) {
      var w :| IsWalk(grid, w) && |w| > 0 && w[0] == s && w[|w| - 1] == e;
      ClosedSetHoldsWalk(grid, P, w);
    }
    forall p | p in ReachableCells(grid, s) ensures p in P {
      var w :| IsWalk(grid, w) && |w| > 0 && w[0] == s && w[|w| - 1] == p;
      ClosedSetHoldsWalk(grid, P, w);
    }
    assert ReachableCells(grid, s) == P;
    SubsetCard(E, Universe(grid, s));
  }
}

/** The `MinHeap` priority container of the uniform-cost and A* searches.
    Its list is kept as a sequence whose order is not modelled: a pop hands
    out some entry of least total cost, which is all the binary-heap layout
    guarantees when costs tie. */
module Heap {
  import opened Nodes

  /** No two entries share a position. */
  predicate DistinctPositions(c: seq<Node>)
  {
    forall i, j :: 0 <= i < |c| && 0 <= j < |c| && c[i].position == c[j].position ==> i == j
  }

  /** `obj in container` followed by `container.index(obj)`: the index of the
      first entry equal to `obj` (same position), or -1 when there is none. */
  function IndexOf(c: seq<Node>, obj: Node): (i: int)
    ensures -1 <= i < |c|
    ensures i == -1 <==> forall j :: 0 <= j < |c| ==> !SameNode(c[j], obj)
    ensures i >= 0 ==> SameNode(c[i], obj) && forall j :: 0 <= j < i ==> !SameNode(c[j], obj)
  {
    if |c| == 0 then -1
    else if SameNode(c[0], obj) then 0
    else
      var k := IndexOf(c[1..], obj);
      if k == -1 then -1 else k + 1
  }

  /** Position of an entry of least total cost. */
  method MinIndex(c: seq<Node>) returns (k: nat)
    requires |c| > 0
    ensures k < |c|
    ensures forall j :: 0 <= j < |c| ==> c[k].totalcost <= c[j].totalcost
  {
    k := 0;
    var j := 1;
    while j < |c|
      invariant 1 <= j <= |c| && k < j
      invariant forall i :: 0 <= i < j ==> c[k].totalcost <= c[i].totalcost
    {
      if Less(c[j], c[k]) {
        k := j;
      }
      j := j + 1;
    }
  }

  /** The list after `push_or_update` replaces entry `i` by `obj`: the last
      entry is swapped into slot `i`, the list shortened by one, and `obj`
      appended. */
  function Replaced(c: seq<Node>, i: nat, obj: Node): seq<Node>
    requires i < |c|
  {
    var last := |c| - 1;
    c[i := c[last]][..last] + [obj]
  }

  /** Replacing keeps the length and swaps exactly entry `i` for `obj`. */
  lemma ReplacedContents(c: seq<Node>, i: nat, obj: Node)
    requires i < |c|
    ensures |Replaced(c, i, obj)| == |c|
    ensures multiset(Replaced(c, i, obj)) == multiset(c) - multiset{c[i]} + multiset{obj}
  {
    var last := |c| - 1;
    var r := c[i := c[last]][..last];
    assert Replaced(c, i, obj) == r + [obj];
    SwapDrop(c, i);
    assert multiset(c) - multiset{c[i]} == multiset(r);
  }

  /** Moving the last entry into slot `i` and dropping the last loses
      exactly the old entry `i`. */
  lemma SwapDrop(c: seq<Node>, i: nat)
    requires i < |c|
    ensures var last := |c| - 1;
      multiset(c[i := c[last]][..last]) + multiset{c[i]} == multiset(c)
  {
    var last := |c| - 1;
    if i < last {
      var a, b := c[..i], c[i + 1..last];
      assert c == a + [c[i]] + b + [c[last]];
      assert c[i := c[last]][..last] == a + [c[last]] + b;
    } else {
      assert c == c[..last] + [c[last]];
    }
  }

  /** The list after `push_or_update(obj)`. */
  function PushedOrUpdated(c: seq<Node>, obj: Node): seq<Node>
  {
    var i := IndexOf(c, obj);
    if i == -1 then c + [obj]
    else if obj.totalcost < c[i].totalcost then Replaced(c, i, obj)
    else c
  }

  /** The three outcomes of `push_or_update`: a new position grows the list
      by `obj`; a strictly cheaper node takes the place of the entry at its
      position; otherwise nothing changes.  Positions stay distinct. */
  lemma PushOrUpdateOutcomes(c: seq<Node>, obj: Node)
    ensures var r, i := PushedOrUpdated(c, obj), IndexOf(c, obj);
      && (i == -1 ==> |r| == |c| + 1 && multiset(r) == multiset(c) + multiset{obj})
      && (i != -1 && obj.totalcost < c[i].totalcost ==>
            |r| == |c| && multiset(r) == multiset(c) - multiset{c[i]} + multiset{obj})
      && (i != -1 && obj.totalcost >= c[i].totalcost ==> multiset(r) == multiset(c))
      && (DistinctPositions(c) ==> DistinctPositions(r))
  {
    var i := IndexOf(c, obj);
    if i == -1 {
      var r := c + [obj];
      if DistinctPositions(c) {
        assert forall j :: 0 <= j < |c| ==> r[j] == c[j] && !SameNode(c[j], obj);
        assert r[|c|] == obj;
      }
    } else if obj.totalcost < c[i].totalcost {
      ReplacedContents(c, i, obj);
      if DistinctPositions(c) {
        DistinctAfterReplace(c, i, obj);
      }
    }
  }

  /** With distinct positions, `push_or_update` leaves the same entries
      whatever the order of the list: two lists holding the same entries
      compare `obj` against the same entry.  So the binary-heap layout,
      which this model does not keep, cannot change what the heap holds. */
  lemma PushOrUpdateOrderFree(c1: seq<Node>, c2: seq<Node>, obj: Node)
    requires multiset(c1) == multiset(c2) && DistinctPositions(c1)
    ensures multiset(PushedOrUpdated(c1, obj)) == multiset(PushedOrUpdated(c2, obj))
  {
    PushOrUpdateOutcomes(c1, obj);
    PushOrUpdateOutcomes(c2, obj);
    var i1, i2 := IndexOf(c1, obj), IndexOf(c2, obj);
    if i1 != -1 {
      assert c1[i1] in multiset(c2);
      var m :| 0 <= m < |c2| && c2[m] == c1[i1];
      assert SameNode(c2[m], obj);
      assert c2[i2] in multiset(c1);
      var n :| 0 <= n < |c1| && c1[n] == c2[i2];
      assert c2[i2] == c1[i1];
    } else {
      forall j | 0 <= j < |c2| ensures !SameNode(c2[j], obj) {
        assert c2[j] in multiset(c1);
      }
    }
  }

  /** The list without entry `k`. */
  function RemovedAt(c: seq<Node>, k: nat): seq<Node>
    requires k < |c|
  {
    c[..k] + c[k + 1..]
  }

  /** Removing entry `k` shortens the list by one and loses only that
      entry. */
  lemma RemoveOne(c: seq<Node>, k: nat)
    requires k < |c|
    ensures |RemovedAt(c, k)| == |c| - 1
    ensures multiset(RemovedAt(c, k)) + multiset{c[k]} == multiset(c)
  {
    assert c == c[..k] + [c[k]] + c[k + 1..];
  }

  class MinHeap {
    var container: seq<Node>

    constructor ()
      ensures container == []
    {
      container := [];
    }

    /** `len(heap)`. */
    function Len(): nat
      reads this
    {
      |container|
    }

    /** `push(obj)`: always inserts, even a position already present. */
    method Push(obj: Node)
      modifies this
      ensures container == old(container) + [obj]
    {
      container := container + [obj];
    }

    /** `push_or_update(obj)`: insert when no entry has `obj`'s position;
        when one has, replace the first such entry if `obj` is strictly
        cheaper, and otherwise leave the container alone. */
    method PushOrUpdate(obj: Node)
      modifies this
      ensures container == PushedOrUpdated(old(container), obj)
    {
      var index := IndexOf(container, obj);
      if index != -1 {
        if obj.totalcost < container[index].totalcost {
          var last := |container| - 1;
          container := container[index := container[last]][..last];
          container := container + [obj];
        }
      } else {
        container := container + [obj];
      }
    }

    /** `pop()`: remove and return an entry of least total cost.  The ghost
        `k` says which entry left. */
    method Pop() returns (x: Node, ghost k: nat)
      requires |container| > 0
      modifies this
      ensures k < |old(container)| && x == old(container)[k]
      ensures container == RemovedAt(old(container), k)
      ensures |container| == |old(container)| - 1
      ensures multiset(container) + multiset{x} == multiset(old(container))
      ensures forall y :: y in old(container) ==> x.totalcost <= y.totalcost
    {
      var m := MinIndex(container);
      RemoveOne(container, m);
      x := container[m];
      container := container[..m] + container[m + 1..];
      k := m;
    }

    /** `top()`: an entry of least total cost, left in place. */
    method Top() returns (x: Node)
      requires |container| > 0
      ensures x in container
      ensures forall y :: y in container ==> x.totalcost <= y.totalcost
    {
      var k := MinIndex(container);
      x := container[k];
    }
  }

  /** Replacing an entry by a node at the same position keeps the
      positions distinct. */
  lemma DistinctAfterReplace(c: seq<Node>, i: nat, obj: Node)
    requires i < |c| && DistinctPositions(c) && obj.position == c[i].position
    ensures DistinctPositions(Replaced(c, i, obj))
  {
    var last := |c| - 1;
    var d := Replaced(c, i, obj);
    // each entry of d sits at index a of c, at `last`, or (for obj) at `i`
    forall a, b | 0 <= a < |d| && 0 <= b < |d| && d[a].position == d[b].position
      ensures a == b
    {
      var sa := if a == last then i else if a == i then last else a;
      var sb := if b == last then i else if b == i then last else b;
      assert d[a].position == c[sa].position;
      assert d[b].position == c[sb].position;
    }
  }
}

# Grid route finding: a Dafny model of `search.py`

This project models the route-finding core of `search.py`. The core searches
a 4-connected occupancy grid, where 0 is a wall and any other value is
passable. It has five parts:

- the `node` record (position, parent, path cost, heuristic, total cost,
  depth; equality by position);
- the zero and Manhattan heuristics;
- the successor generator `get_successors`, with direction costs
  north 1, east 2, south 3, west 4;
- `extract_path`, and the loop each search runs to recompute the cost of
  the path it found;
- the `MinHeap` priority container and the five searches: depth-first
  (stack), breadth-first (queue), iterative deepening (a depth-filtered
  stack pass), uniform cost and A* (both on `MinHeap`).

Modules, one per file:

| file | module | contents |
|---|---|---|
| `nodes.dfy` | `Nodes` | `Node` datatype, constructor, parent chain, heuristics |
| `successors.dfy` | `Successors` | grid, one generator step, `GetSuccessors`, goal test |
| `paths.dfy` | `Paths` | `ExtractPath`, path-cost recomputation, walks, reachability |
| `min_heap.dfy` | `Heap` | `MinHeap` class and its specification functions |
| `search_invariant.dfy` | `SearchInvariant` | the loop invariant shared by all searches, and its step lemmas |
| `bfs_layers.dfy` | `Layers` | why the queue search returns the goal at its least depth |
| `search.dfy` | `Search` | the five searches and their successor loops |

Every search is proved against one contract, `Search.SearchContract`:

- It succeeds exactly when the goal is reachable from the start through
  generator steps.
- On success it returns a node at the goal that the generator produced.
  The node's depth is the reported goal depth. Its path starts at the start
  position and walks the grid one step per level. The reported cost is the
  recomputed cost of that path, which equals the sum of the edge costs
  charged along the parent chain.
- On failure it returns the placeholder `node(None, endpos)` with zero
  nodes, depth and cost. The iteration count then equals the number of
  cells in the start's connected component.
- The iteration count and the largest frontier size are bounded by the
  number of passable cells (plus the start).
- The node counter grows by two plus at most four per iteration.

The breadth-first search also meets `Search.LeastDepth`: no walk from the
start to the goal is shorter than the depth of the goal it returns. Its
extra loop invariant (`Layers.Layered`) says four things:

- The queue holds the depths `D` and `D + 1` in order, where `D` is the
  depth of the node popped last.
- Every position closer than `D` has been popped.
- Every position at most `D` away is explored.
- No walk from the start to a queued node's position is shorter than the node's depth. Together with `SearchInvariant.Core`, whose generated nodes carry a walk of exactly their depth (`Paths.GeneratedPath`), the depth is the length of a shortest walk.

The loop invariant (`SearchInvariant.Core`) records three things:

- Every frontier node was generated, and no two frontier nodes share a
  position.
- Once the first node has been popped, every frontier position is already
  explored, so no position is pushed twice.
- The recorded maximum bounds the frontier size.

Where the repository's prose and its code disagree, the model follows the
code:

- A child's path cost is its edge cost plus the heuristic at the PARENT's
  position. It is not accumulated from the parent. The node's `heuristic`
  field stays 0, so its total cost equals that path cost
  (search.py:104,113,122,131).
- The goal test runs when a node is popped, not when it is generated
  (search.py:177), whatever the comments at search.py:158,215,277 say.
- A failed search returns `node(None, endpos)`, not an absent node. It
  keeps the iteration count and largest frontier size it accumulated; only
  the node count, depth and cost are 0 (search.py:160-165,211).
- Iterative deepening pops from the same end as it pushes, so its frontier
  is a stack (search.py:232). It raises its bound `d` once per successor
  examined (search.py:267), and its outer loop always ends after one pass
  (search.py:268). Each frontier node stays shallower than `d`, so the
  depth test never rejects a child. The search is therefore
  complete exactly like the stack search.
- Every search marks a child explored when the child is generated, before
  pushing it. So in the uniform-cost and A* searches `push_or_update` always
  inserts, and its update branch is never taken from a search
  (`SearchInvariant.AbsentFromFrontier`).
- The uniform-cost search is the A* loop run with the zero heuristic
  (search.py:331-385 and 387-440 differ only in the heuristic passed to
  `get_successors`).
- The node counter `node.node_count` is process-wide in the source. Here it
  is the parameter `nodeCount` (its value on entry) and the result
  `nodeCount'` (its value on return).

## Model

| member | source | states |
|---|---|---|
| Nodes.RootNode | search.py:160-168 | its body builds `node(None, pos)`: a node with no parent, zero path cost, heuristic and total cost, and depth 0 |
| Nodes.Less | search.py:62-63 | its body compares total costs strictly, as `__lt__` does |
| Nodes.SameNode | search.py:68-73 | its body compares positions only, as `__eq__` and `__hash__` do; this is why explored sets hold positions |
| Nodes.ZeroHeuristic | search.py:77-78 | its body is 0 for every pair of positions |
| Nodes.MakeNode | search.py:48-59 | a node has depth 0 exactly when it has no parent; built on a well-formed parent it is well formed: total cost is path cost plus heuristic and depth is one more than the parent's, all the way up the chain |
| Nodes.Chain | search.py:56-59 | the parent chain of a node runs from a root to the node, each entry's parent is the entry before it, and for a well-formed node it has depth + 1 entries |
| Nodes.Manhattan | search.py:81-82 | the Manhattan distance is never negative and is zero exactly when the two positions coincide |
| Successors.GetSuccessors | search.py:90-134 | at most four successors, each a child of the current node: parent is the current node, one level deeper, one step to an adjacent in-bounds passable cell, path cost the direction cost plus the heuristic at the parent, heuristic field 0 |
| Successors.SuccessorsComplete | search.py:90-134 | a position is among the successors exactly when it is one generator step away (adjacent, in bounds, not a wall, from a position not past the last row or column) |
| Successors.SuccessorsOrdered | search.py:97-131 | successors come in north, east, south, west order, which is strictly increasing edge cost |
| Successors.GoalTest | search.py:137-138 | its body is true exactly when the node's position is the goal position |
| Paths.Reverse | search.py:148 | the reversed list has the same length and the entries in opposite order |
| Paths.ExtractPath | search.py:143-148 | the returned path is the positions of the node's parent chain, root first, one per chain entry |
| Paths.RecomputePathCost | search.py:182-200 | the loop's total is the path cost: 0 for fewer than two positions, otherwise 3, 1, 2 or 4 per consecutive pair by the direction of the coordinate change |
| Paths.GeneratedPath | search.py:90-148 | every generated node is well formed and its path has depth + 1 positions, starts at the start position, ends at the node's position and walks the grid one generator step at a time |
| Paths.RecomputedCostMatchesEdgeCosts | search.py:182-200 | the recomputed cost of a generated node's path equals the sum of the edge costs the generator charged along its chain |
| Paths.ClosedSetHoldsWalk | search.py:204-209 | a set of positions holding the start of a walk and closed under generator steps holds its end |
| Paths.ManhattanAdmissible | search.py:81-82 | along any walk the Manhattan distance between its ends is at most its number of steps, which is at most its recomputed cost |
| Heap.IndexOf | search.py:23-24 | the index of the first entry with the node's position, or -1 exactly when no entry has it |
| Heap.MinIndex | search.py:33-34 | the index of an entry whose total cost is at most that of every entry |
| Heap.PushOrUpdateOrderFree | search.py:22-31 | with distinct positions, two lists holding the same entries in any order hold the same entries after `push_or_update`, so the heap layout cannot change the outcome |
| Heap.PushOrUpdateOutcomes | search.py:22-31 | a new position grows the list by one with the node added; a strictly cheaper node keeps the length and swaps out the entry at its position; an equal or dearer node leaves the contents unchanged; positions stay distinct |
| Heap.ReplacedContents | search.py:26-29 | replacing entry i keeps the length and exchanges exactly that entry for the new node |
| Heap.DistinctAfterReplace | search.py:26-29 | replacing an entry by a node at the same position keeps positions distinct |
| Heap.RemoveOne | search.py:33-34 | removing one entry shortens the list by one and loses exactly that entry |
| Heap.MinHeap.constructor | search.py:12-13 | a new heap is empty |
| Heap.MinHeap.Push | search.py:15-16 | the node is added, whatever its position |
| Heap.MinHeap.PushOrUpdate | search.py:22-31 | the container becomes the three-outcome update of the old container |
| Heap.MinHeap.Pop | search.py:33-34 | removes and returns one entry whose total cost is at most that of every entry; the container loses exactly that entry and shrinks by one |
| Heap.MinHeap.Top | search.py:36-37 | returns an entry of least total cost and changes nothing |
| Heap.MinHeap.Len | search.py:40-41 | its body is the number of entries in the container |
| SearchInvariant.Init | search.py:167-170 | the seeded frontier, empty explored set and zero counters satisfy the search invariant |
| SearchInvariant.RemovedAtPositions | search.py:173 | removing a frontier entry removes its position and nothing else, and keeps positions distinct |
| SearchInvariant.PopStep | search.py:172-175 | a popped node was generated, is reachable and was not popped before; the iteration count stays within the cells; unless it is the goal, the invariant holds after marking it explored |
| SearchInvariant.PopBookkeeping | search.py:172-175 | popping keeps explored, popped and frontier positions related as the invariant requires |
| SearchInvariant.PopBounds | search.py:172-175 | popping keeps the explored set within the reachable cells and the counters within bounds |
| SearchInvariant.PushStep | search.py:204-209 | pushing an unexplored child and marking it explored keeps the invariant, with the maximum raised as the searches raise it |
| SearchInvariant.PushBookkeeping | search.py:204-207 | pushing an unexplored child keeps the frontier positions explored and disjoint from the popped ones |
| SearchInvariant.PushBounds | search.py:204-209 | pushing keeps explored positions reachable and the frontier size within the recorded maximum |
| SearchInvariant.PushFrontier | search.py:204-207 | the frontier stays a list of generated nodes with distinct positions after a push |
| SearchInvariant.AbsentFromFrontier | search.py:379-381 | a child whose position is not explored has no heap entry, so `push_or_update` inserts it |
| SearchInvariant.SkippedIsExplored | search.py:205 | a child skipped because it is explored or has a frontier entry at its position is explored |
| SearchInvariant.MarkedPositions | search.py:204-206 | marking the successors explored one by one adds exactly their positions to the explored set |
| SearchInvariant.UnexploredFacts | search.py:204-209 | the children a successor loop appends are successors whose positions were unexplored before the loop, no more than the successors, and no two share a position |
| SearchInvariant.UnexploredCovers | search.py:204-209 | the appended children's positions are exactly the successor positions that were unexplored before the loop |
| SearchInvariant.UnexploredSnoc | search.py:204-207 | looking at one more successor appends it exactly when its position is neither explored before the loop nor taken by an earlier successor |
| SearchInvariant.UnexploredStep | search.py:204-209 | one pass of a successor loop, appending or skipping the child, keeps the frontier equal to the starting frontier plus the children appended so far, and the explored set equal to the starting set plus their positions |
| SearchInvariant.ExpandDone | search.py:204-209 | once every successor is explored, every step out of the expanded node lands in the explored set |
| SearchInvariant.Exhausted | search.py:172-211 | an empty frontier means the goal is unreachable and exactly the start's connected component was popped |
| Search.GoalReached | search.py:177-200 | the extracted path of the goal node is its chain's path, starting at the start and walking the grid, and the recomputed cost is the edge-cost sum |
| Search.SuccessContract | search.py:177-202 | a search that pops the goal meets the search contract |
| Search.FailureContract | search.py:160-211 | a search whose frontier ran empty meets the search contract |
| Search.ReportGoal | search.py:177-202 | the goal branch returns the popped node with its depth, node count, path and recomputed cost, and the iteration count and largest frontier size unchanged, meeting the search contract |
| Search.PushIfUnexplored | search.py:204-209 | a child is appended and marked explored exactly when its position is neither explored nor in the frontier; the maximum is raised; the invariant is kept |
| Search.PushUnexplored | search.py:204-209 | after the successor loop the frontier is the old one with the unexplored successors appended in N, E, S, W order, each position once; the explored set is the old one plus every successor's position; the maximum is raised to the new frontier size when that is larger; the invariant holds |
| Search.PopLast | search.py:173 | the stack pop returns the last entry and leaves the others in order |
| Search.PopFirst | search.py:291 | the queue pop returns the first entry and leaves the others in order |
| Search.DepthFirstSearch | search.py:156-211 | meets the search contract |
| Layers.LayeredInit | search.py:286-289 | the seeded queue holding the start node alone satisfies the layered invariant |
| Layers.FrontierBelow | search.py:290-293 | when the queue front is a level below the last popped node, every position at most that node's depth away has been popped |
| Layers.PopTail | search.py:291 | the queue behind its front keeps its order and its shortest depths |
| Layers.PopNextLevel | search.py:290-293 | when the popped node starts a new level, every position at most one step beyond the old level is explored |
| Layers.LayeredPop | search.py:290-293 | the popped front is at its shortest depth, at the last level or one below, and the invariant holds with it as the last popped node |
| Layers.LayeredPush | search.py:322-327 | looking at a child of the last popped node keeps the invariant: an appended child is at its shortest depth, one level below |
| Search.PushUnexploredQueued | search.py:322-327 | the queue search's successor loop: the new queue, explored set and maximum are as for `PushUnexplored`, and the layered invariant is kept |
| Search.BreadthFirstSearch | search.py:275-329 | meets the search contract, and returns the goal at its least depth: no walk from the start to the goal has fewer steps |
| Search.ShallowerStep | search.py:257-267 | a child of a node shallower than the bound passes the depth test, and the frontier stays shallower than the raised bound |
| Search.ShallowerPop | search.py:232 | the popped node and the rest of the frontier are shallower than the bound |
| Search.PushIfWithin | search.py:257-267 | as the stack push, with the depth test always passed and the bound raised by one |
| Search.PushUnexploredWithin | search.py:257-267 | after the successor loop the frontier is the old one with the unexplored successors appended in order, the explored set is the old one plus every successor's position, the maximum is raised to the new frontier size when that is larger, the invariant holds, and the bound has grown by the number of successors |
| Search.IterativeDeepeningSearch | search.py:213-272 | meets the search contract |
| Search.PushIfUnexploredHeap | search.py:433-438 | an unexplored child is inserted by `push_or_update` and marked explored; an explored one is skipped; the invariant is kept |
| Search.PushUnexploredHeap | search.py:433-438 | after the successor loop the heap's list is the old one with the unexplored successors added in order, the explored set is the old one plus every successor's position, the maximum is raised to the new heap size when that is larger, and the invariant holds |
| Search.AStarSearch | search.py:387-440 | meets the search contract under the given heuristic |
| Search.AStarSearchManhattan | search.py:387-440 | `a_star_search` with its default Manhattan heuristic meets the search contract |
| Search.UniformCostSearch | search.py:331-385 | meets the search contract under the zero heuristic |

## Left out

- `simulator.py` is not part of this model: argument handling, module loading, grid file reading, printing and the path overlay.
- `euclidean` (search.py:85-86) is left out: it takes a floating-point square root; heuristics here are integer functions.
- The `print` calls inside iterative deepening (search.py:229,231,260) are output only and are left out.
- The per-node `idnum` and the process-wide `node.node_count` are not kept as global state; the count is threaded through each search as `nodeCount` in and `nodeCount'` out.
- `heapq` internals (`heappush`, `heappop`, `heapify`) are not modelled. The heap is a list whose order is free, and a pop removes some entry of least total cost. With distinct positions this order cannot change what `push_or_update` leaves (`Heap.PushOrUpdateOrderFree`); with repeated positions it can (next line).
- Heap.MinHeap.PushOrUpdate: when two entries share `obj`'s position, the source compares `obj` with the first of them in `heapq`'s layout, and the model compares it with the first in insertion order, so the two can keep different entries. Example: `push(a)` at X with cost 5, then `push(b)` at X with cost 1, then `push_or_update(c)` at X with cost 3. The source leaves {a, b}; the model leaves {b, c}. Repeated positions arise only through `push` (search.py:15-16), which no search calls; every search keeps positions distinct (`SearchInvariant.FrontierOk`).
- Heap.MinHeap.Pop: states that some least entry leaves, not which one `heapq` picks when costs tie. It requires a non-empty heap: the source raises IndexError on an empty one (search.py:34), but every call site first checks `len(frontier) > 0` (search.py:346,401).
- Heap.MinHeap.Top: returns some least entry rather than specifically `container[0]`, because the heap layout is not modelled. It requires a non-empty heap: the source raises IndexError on an empty one (search.py:37); no search calls `top`.
- Python 2 `sets.Set` and `collections.deque` are modelled as a set of positions and a sequence of nodes; hashing by position is modelled by keeping positions in the set.
- An empty or ragged grid is excluded by `Successors.IsGrid`; on such a grid the source's `len(grid[0])` and row indexing can raise.
- Search.IterativeDeepeningSearch: does not state that the goal depth is the least possible, because the code does not give it. Its single pass is the stack search (search.py:232,268). Worked by hand from search.py:95-132 and 232-263 on a 3x3 grid with no walls, start (0,0) and goal (0,2): the pass pops (0,0), (1,0), (2,0), (2,1), (2,2), (1,2) and then (0,2), so it returns the goal at depth 6, while the walk (0,0), (0,1), (0,2) has 2 steps.
- Search.AStarSearch: does not state that the path found is cheapest; with path costs that are not accumulated the code gives no such guarantee.
- Search.UniformCostSearch: does not state that the path found is cheapest, for the same reason.

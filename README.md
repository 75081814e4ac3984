# A* maze solver — Dafny model

This project models the A* solver of `main.py`. The solver works on a 15 × 15 maze whose cells are free (0) or walls (1). It moves in eight directions. Its result is either a negative error code, 0 when no path exists, or the list of cells from the destination back to the source. Three modules mirror the three parts of the program:

- `Geometry` (`geometry.dfy`) models the `Point` class: the bounds check, component-wise equality and addition, the Manhattan distance, and the eight-entry `movement_vector`. Lemmas show that:
  - the template is exactly the eight king moves;
  - adjacency is Chebyshev distance one;
  - the maze has exactly `bound_x · bound_y` valid points.
- `Cells` (`cells.dfy`) models the `Cell` class: a search node with position, grid value, parent link and the costs `f`, `g` and `h`. It also has the position tests, the `f`-only ordering used by the priority queue, the Manhattan heuristic, and `backtrack_to_source`. The last is a recursive method that collects the chain of parent links.
- `AStar` (`astar.dfy`) models `a_star`.
  - The three ordered precondition checks each have their own failure code.
  - The frontier is a sequence. A pop takes an entry of least `f`, found with the queue's own comparison.
  - The explored dictionary is a `map` from positions to nodes.
  - Each expansion runs the loop over the template and creates a child for every valid, free and unexplored neighbour.
  - `Search` and `Explore` prove the following:
    - a returned path runs from the destination back to a parentless start at the source;
    - consecutive nodes are one template move apart, and each node's parent is the next node;
    - every node stands on a free cell inside the maze;
    - `g` equals the number of links back to the start;
    - `h` is the Manhattan estimate, and `f = g + h` (the start has zeros);
    - no position appears twice in the path;
    - a path is returned exactly when the destination can be reached by moves over free cells; code 0 exactly when it cannot;
    - the loop terminates.

A node's attributes are fixed when it is created. The program assigns `parent`, `g`, `h` and `f` right after creating a node, before the node enters the queue, and never changes a node once it is queued. The model passes these values to the constructor, so a `Cell` has `const` fields.

The search re-records and re-expands a position when a second frontier entry for it is popped: `main.py:153` records every pop without checking whether the position was already explored. The model keeps this behaviour. The termination measure therefore has two parts:

1. the set of valid positions not yet explored, which a fresh pop shrinks;
2. the number of frontier entries on already-explored positions, which a stale pop lowers, because children are only ever created on unexplored positions.

## Model

| member | source | states |
|---|---|---|
| Geometry.IsValid | main.py:35-36 | the bounds check `0 <= x < bound_x and 0 <= y < bound_y`; it holds exactly on the `bound_x × bound_y` maze points |
| Geometry.ValidPointsCount | main.py:9-11 | the maze has exactly `bound_x · bound_y` valid points |
| Geometry.ValidSubsetBounded | main.py:9-11 | any set of valid points has at most `bound_x · bound_y` members |
| Geometry.Manhattan | main.py:31-32 | the L1 distance is a natural number and is zero exactly on equal points |
| Geometry.DiagonalIsAdjacent | main.py:56-65 | the step from (0,0) to (1,1) is a template move |
| Geometry.ManhattanAlongDiagonal | main.py:31-32 | the Manhattan distances to (2,2) are 4 from (0,0) and 2 from (1,1) |
| Geometry.ManhattanDropsTwoOnADiagonal | main.py:31-32 | one diagonal move, which costs one step, lowers the Manhattan distance to a point by two, so the Manhattan estimate is not consistent for this move set |
| Geometry.ManhattanVersusChebyshev | main.py:31-32 | Manhattan lies between the king-move distance and twice it, and equals twice it on a diagonal, so with unit-cost diagonal moves it can overestimate the remaining cost |
| Geometry.Equals | main.py:39-40 | component-wise equality of points agrees with equality of the values |
| Geometry.Add | main.py:43-44 | the component-wise sum of two points; taking either summand away from it leaves the other |
| Geometry.AddSubInverse | main.py:43-44 | adding an offset and taking it away again are inverse, so the offset from a point to its neighbour is recovered |
| Geometry.MovementsAreKingMoves | main.py:56-65 | the template has 8 pairwise distinct offsets, and an offset is in it exactly when it is at Chebyshev distance 1 from the origin |
| Geometry.AdjacentIsChebyshevOne | main.py:56-65 | being one template move apart is the same as being at Chebyshev distance 1, and it is symmetric |
| Geometry.NeighbourIsAdjacent | main.py:161-164 | the i-th child position of a point is one template move from it |
| Geometry.AdjacentIsSomeNeighbour | main.py:161-164 | every point one move away is produced by some entry of the template |
| Cells.Cell.constructor | main.py:75-87 | a new node has exactly the given position, value, parent and costs, and is one link deeper than its parent |
| Cells.HeuristicTo | main.py:89-94 | the Manhattan estimate to the destination is zero exactly at the destination, and between two positions it changes by at most the Manhattan distance between them; it is not consistent when a diagonal move costs one step (Geometry.ManhattanDropsTwoOnADiagonal) |
| Cells.Cell.IsSame | main.py:97-98 | a node matches a point exactly when it stands on it |
| Cells.Cell.SamePosition | main.py:105-106 | two nodes are equal exactly when they stand on the same position, whatever their costs and parents |
| Cells.Cell.Gt | main.py:109-110 | `a > b` compares f only, and holds exactly when `b < a` under `__st__` |
| Cells.Cell.St | main.py:113-114 | `a < b` compares f only; it is irreflexive and asymmetric |
| Cells.OrderedByPriorityOnly | main.py:108-114 | a queue's `a < b` answered by `b > a` is `a.St(b)`; the order is irreflexive and transitive, and two nodes tie exactly when their f values are equal |
| Cells.Cell.BacktrackToSource | main.py:116-121 | the result is the accumulator followed by the node and all its ancestors, nearest first |
| Cells.ChainShape | main.py:116-121 | the collected chain ends at a parentless node, each entry's parent is the next entry, and each entry is one link shallower than the one before |
| Cells.ChainPointsOfChain | main.py:116-121 | the positions of the collected chain are exactly the positions reached by following parent links |
| AStar.Failure.Code | main.py:127-135 | the value `a_star` returns for a failure: -1, -2 or -3 for the three rejected inputs, and 0 (the only non-negative code) exactly when the frontier runs out (main.py:186) |
| AStar.FailureCodesDistinct | main.py:127-135 | the return codes -1, -2, -3 and 0 identify the four failures one-to-one |
| AStar.CandidatesUpToMembers | main.py:161-176 | after the first n moves, a position has been generated exactly when it is free, unexplored and one of those n moves away |
| AStar.CandidatesAreOpenUnexploredNeighbours | main.py:161-176 | expanding a node generates a position exactly when it is one move away, inside the maze, not a wall and not yet explored |
| AStar.MinIndex | main.py:150-152 | the popped entry has the least f of the frontier, and no earlier entry has the same f |
| AStar.MakeChild | main.py:162-185 | a child is created exactly when the neighbour is valid, free and unexplored; it has `current` as parent, g one more than the parent's, the Manhattan h and f = g + h |
| AStar.ExpandChildren | main.py:161-185 | the children pushed by one expansion stand exactly on the generated positions in template order; each has the expanded node as parent, none is on an explored position, and each satisfies the node invariant |
| AStar.ChainIsTreePath | main.py:116-121 | following parent links from any node the search creates gives a path from that node back to the source with all the path properties below |
| AStar.ChainLinks | main.py:116-121 | along the chain each node's parent is the next node, one template move away, and the last node is the parentless start at the source |
| AStar.ChainOpen | main.py:165-179 | every node of the chain stands on a free cell inside the maze, carries that cell's value, and has g equal to its number of links back to the start |
| AStar.ChainCosts | main.py:178-183 | every node but the start has the Manhattan h to the destination and f = g + h; the start has h = f = 0 |
| AStar.ChainSimple | main.py:174-176 | no position occurs twice on the chain, because a child is only made on a position outside its parent's chain |
| AStar.TreePathIsWalk | main.py:157-159 | a returned path, reversed, is a walk of single moves over free cells from the source to its first node |
| AStar.WalkStaysInClosedSet | main.py:150-186 | a walk that starts in a set of positions closed under free neighbours never leaves it |
| AStar.ClosedSetSeparates | main.py:150-186 | once the frontier is empty, the explored positions contain the source, not the destination, and are closed under free neighbours, so no walk reaches the destination |
| AStar.CandidatesCovered | main.py:161-185 | every free, unexplored neighbour of the expanded position gets a child in the frontier |
| AStar.PendingSurvives | main.py:152 | a pending position other than the popped one stays pending after the pop and the pushes |
| AStar.CoveredAfterExpansion | main.py:161-185 | after an expansion, every free neighbour of an explored position is explored or waiting in the frontier |
| AStar.PoppedIsGood | main.py:152-154 | the popped node satisfies the node invariant, and its chain lies inside the explored positions once its own position is recorded |
| AStar.StaleCountRemove | main.py:152 | removing a frontier entry removes exactly its share of the count of entries on explored positions |
| AStar.StaleCountDrops | main.py:150-185 | popping an entry on an explored position and pushing only children on unexplored positions lowers that count |
| AStar.PointsAfterRemoval | main.py:152 | removing an entry from the frontier loses at most that entry's position and adds no node |
| AStar.ExpansionKeepsInvariant | main.py:150-185 | one iteration that does not reach the destination keeps the loop invariant |
| AStar.ExpansionProgresses | main.py:150-185 | each such iteration either explores a new valid position or lowers the count of stale frontier entries, so the loop terminates |
| AStar.RecordingKeepsBound | main.py:153-154 | recording a valid position keeps every explored position valid and at most `bound_x · bound_y` of them |
| AStar.ExploredIsBounded | main.py:150-154 | at the head of every iteration the explored dictionary has at most `bound_x · bound_y` keys |
| AStar.FoundPathIsTreePath | main.py:157-159 | when the destination is popped, the backtracked list is a path from the destination to the source, and the destination is reachable |
| AStar.Search | main.py:125-186 | invalid points give -1 before anything else; equal points give -2; a wall at either end gives -3; otherwise the result is a path exactly when the destination is reachable, and 0 exactly when it is not; a path has all the properties above |
| AStar.Explore | main.py:137-186 | from a single start node and an empty explored map, the loop returns a path from the destination back to the source when the destination is reachable, and NoPathFound exactly when it is not |

## Left out

- Reading the maze from `input1.txt` (main.py:189-205) is left out. The model takes the grid as a parameter and requires it to give every valid point the value 0 or 1.
- Printing is left out: the path and solved map (main.py:207-221), the messages inside `a_star`, and the `__str__` methods.
- `Point.__hash__` is left out. Positions are values and serve as map keys directly.
- The Euclidean heuristic (main.py:26-28, 91-92) is left out because it is computed with floating-point `sqrt`. Only the Manhattan branch is modelled.
- An unrecognised heuristic name, which leaves `h` unset, is not modelled either: the search always uses Manhattan.
- The `math.inf` defaults of `f`, `g` and `h` (main.py:79-81) are not modelled. Every node the search creates gets finite costs before it is queued.
- The infinite step cost out of a non-zero cell (main.py:179) is not modelled. With values in {0, 1} it cannot occur, since a node only ever stands on a free cell; the model asserts this at that point.
- AStar.MinIndex: the queue's choice among entries of equal `f` is a property of the library heap, not of the program. The model takes the earliest such entry. The proofs about the search use only "least `f`", so they hold for any tie-break.
- Cells.Cell.BacktrackToSource: the default list of `backtrack_to_source` is created once and shared by every call that omits it. The model passes a fresh empty list at the single call site, which is what the program's one search sees.
- Cells.HeuristicTo: `heuristic_to` stores the estimate into the node's `h`. The model computes it as a function of the child's position and passes it to the constructor, because nodes are fixed once created.
- AStar.MakeChild: the child is allocated only after the explored check rather than before it. The discarded allocation is not observable.
- AStar.Search: the comment at main.py:124 says `a_star` returns the shortest path, and the model does not promise that. Manhattan overestimates with diagonal moves (Geometry.ManhattanVersusChebyshev, Geometry.ManhattanDropsTwoOnADiagonal), and explored positions are never reopened. A maze traced by hand (not executed) shows the gap: all walls except the free cells (1,0), (2,0), (3,0), (4,0), (5,1) … (5,5), (5,6) and (0,1), (1,2), (2,3), (3,4), (4,5), with source (1,0) and destination (5,6). The search pops every cell as a strict minimum and returns the 9-move path along the lower corridor, although the 6-move diagonal path through (0,1) … (4,5) exists.
- The grid is a value in the model, so `a_star` cannot write to it.

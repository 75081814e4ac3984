/** The A* search over the maze: precondition checks with their return
    codes, the frontier loop with its explored map, child generation and
    path reconstruction. */
module AStar {
  import opened Geometry
  import opened Cells

  /** Why a search returns no path, with the integer code the caller sees. */
  datatype Failure = InvalidPoints | AlreadyAtDestination | BlockedEndpoint | NoPathFound
  {
    /** The integer the caller sees: negative for the three rejected
        inputs, zero only when the frontier runs out. */
    function Code(): (c: int)
      ensures c <= 0
      ensures c == 0 <==> this == NoPathFound
    {
      match this
      case InvalidPoints => -1
      case AlreadyAtDestination => -2
      case BlockedEndpoint => -3
      case NoPathFound => 0
    }
  }

  /** The four return codes tell the four failures apart. */
  lemma FailureCodesDistinct(a: Failure, b: Failure)
    ensures a.Code() == b.Code() <==> a == b
  {
  }

  /** A search either fails with a code or returns the path, destination first. */
  datatype SearchResult = Failed(reason: Failure) | Found(path: seq<Cell>)

  /** The maze as the loader delivers it: an entry for every valid point,
      0 for a free cell and 1 for a wall. */
  ghost predicate GridOk(grid: map<Point, int>)
  {
    forall p :: IsValid(p) ==> p in grid && (grid[p] == 0 || grid[p] == 1)
  }

  /** A point a node may stand on: inside the maze and not a wall. */
  predicate Open(grid: map<Point, int>, p: Point)
  {
    IsValid(p) && p in grid && grid[p] != 1
  }

  /** The positions that expanding a node at `p` pushes, in template order,
      considering only the first `n` moves: each is open and unexplored. */
  function CandidatesUpTo(p: Point, grid: map<Point, int>, explored: set<Point>, n: nat): seq<Point>
    requires n <= |Movements|
  {
    if n == 0 then []
    else
      var q := Add(p, Movements[n - 1]);
      CandidatesUpTo(p, grid, explored, n - 1) + (if Open(grid, q) && q !in explored then [q] else [])
  }

  function Candidates(p: Point, grid: map<Point, int>, explored: set<Point>): seq<Point>
  {
    CandidatesUpTo(p, grid, explored, |Movements|)
  }

  lemma {:induction false} CandidatesUpToMembers(p: Point, grid: map<Point, int>, explored: set<Point>, n: nat, q: Point)
    requires n <= |Movements|
    ensures q in CandidatesUpTo(p, grid, explored, n) <==>
              Open(grid, q) && q !in explored && exists i :: 0 <= i < n && Add(p, Movements[i]) == q
  {
    if n > 0 {
      CandidatesUpToMembers(p, grid, explored, n - 1, q);
    }
  }

  /** One more move of the template adds its position when it is open and
      unexplored, and nothing otherwise. */
  lemma CandidatesStep(p: Point, grid: map<Point, int>, explored: set<Point>, n: nat)
    requires n < |Movements|
    ensures var q := Add(p, Movements[n]);
            CandidatesUpTo(p, grid, explored, n + 1) ==
              CandidatesUpTo(p, grid, explored, n) + (if Open(grid, q) && q !in explored then [q] else [])
  {
  }

  /** A position is pushed when a node at `p` is expanded exactly when it is
      one move from `p`, open, and not yet explored. */
  lemma CandidatesAreOpenUnexploredNeighbours(p: Point, grid: map<Point, int>, explored: set<Point>, q: Point)
    ensures q in Candidates(p, grid, explored) <==> Adjacent(p, q) && Open(grid, q) && q !in explored
  {
    CandidatesUpToMembers(p, grid, explored, |Movements|, q);
    if Adjacent(p, q) {
      var i := AdjacentIsSomeNeighbour(p, q);
    }
    forall i | 0 <= i < |Movements| && Add(p, Movements[i]) == q
      ensures Adjacent(p, q)
    {
      NeighbourIsAdjacent(p, i);
    }
  }

  /** What the search maintains of every node it creates, and so of every
      node on its parent chain: it stands on an open point and copies its
      grid value, its g is its number of parent links, the root is the start
      with zero costs, and every other node is one move from its parent, on a
      position not on its parent's chain, with the Manhattan heuristic to
      `dest` and f = g + h. */
  ghost predicate Good(c: Cell, grid: map<Point, int>, source: Point, dest: Point)
    decreases c.depth
  {
    && c.Linked()
    && Open(grid, c.point)
    && c.value == grid[c.point]
    && c.g == c.depth
    && (c.parent == null ==> c.point == source && c.h == 0 && c.f == 0)
    && (c.parent != null ==>
          && Good(c.parent, grid, source, dest)
          && Adjacent(c.parent.point, c.point)
          && c.point !in c.parent.ChainPoints()
          && c.h == Manhattan(c.point, dest)
          && c.f == c.g + c.h)
  }

  /** A reconstructed path, read from its first node back to the start: the
      last node is the parentless start at `source`; each node's parent is
      the next node, one move away; every node is on an open point and has g
      equal to its number of links back to the start; every node but the
      start has the Manhattan heuristic to `dest` and f = g + h, the start
      has h = f = 0; and no position occurs twice. */
  ghost predicate IsTreePath(path: seq<Cell>, grid: map<Point, int>, source: Point, dest: Point)
  {
    && PathLinks(path, source)
    && PathOpen(path, grid)
    && PathCosts(path, dest)
    && PathSimple(path)
  }

  ghost predicate PathLinks(path: seq<Cell>, source: Point)
  {
    && |path| > 0
    && path[|path| - 1].point == source
    && path[|path| - 1].parent == null
    && (forall i :: 0 <= i < |path| - 1 ==> path[i].parent == path[i + 1] && Adjacent(path[i + 1].point, path[i].point))
  }

  ghost predicate PathOpen(path: seq<Cell>, grid: map<Point, int>)
  {
    forall i :: 0 <= i < |path| ==>
      Open(grid, path[i].point) && path[i].value == grid[path[i].point] && path[i].g == |path| - 1 - i
  }

  ghost predicate PathCosts(path: seq<Cell>, dest: Point)
  {
    && (|path| > 0 ==> path[|path| - 1].h == 0 && path[|path| - 1].f == 0)
    && (forall i :: 0 <= i < |path| - 1 ==> path[i].h == Manhattan(path[i].point, dest) && path[i].f == path[i].g + path[i].h)
  }

  ghost predicate PathSimple(path: seq<Cell>)
  {
    forall i, j :: 0 <= i < j < |path| ==> path[i].point != path[j].point
  }

  /** Following parent links from a Good node yields a tree path. */
  lemma ChainIsTreePath(c: Cell, grid: map<Point, int>, source: Point, dest: Point)
    requires Good(c, grid, source, dest)
    ensures c.Linked() && IsTreePath(c.Chain(), grid, source, dest)
  {
    ChainLinks(c, grid, source, dest);
    ChainOpen(c, grid, source, dest);
    ChainCosts(c, grid, source, dest);
    ChainSimple(c, grid, source, dest);
  }

  lemma {:induction false} ChainLinks(c: Cell, grid: map<Point, int>, source: Point, dest: Point)
    requires Good(c, grid, source, dest)
    ensures c.Linked() && PathLinks(c.Chain(), source)
    decreases c.depth
  {
    if c.parent != null {
      ChainLinks(c.parent, grid, source, dest);
      var s, t := c.Chain(), c.parent.Chain();
      assert s == [c] + t;
      forall i | 0 <= i < |s| - 1
        ensures s[i].parent == s[i + 1] && Adjacent(s[i + 1].point, s[i].point)
      {
        if i > 0 {
          assert s[i] == t[i - 1] && s[i + 1] == t[i];
        }
      }
    }
  }

  lemma {:induction false} ChainOpen(c: Cell, grid: map<Point, int>, source: Point, dest: Point)
    requires Good(c, grid, source, dest)
    ensures c.Linked() && PathOpen(c.Chain(), grid)
    decreases c.depth
  {
    if c.parent != null {
      ChainOpen(c.parent, grid, source, dest);
      var s, t := c.Chain(), c.parent.Chain();
      assert s == [c] + t;
      forall i | 0 <= i < |s|
        ensures Open(grid, s[i].point) && s[i].value == grid[s[i].point] && s[i].g == |s| - 1 - i
      {
        if i > 0 {
          assert s[i] == t[i - 1];
        }
      }
    }
  }

  lemma {:induction false} ChainCosts(c: Cell, grid: map<Point, int>, source: Point, dest: Point)
    requires Good(c, grid, source, dest)
    ensures c.Linked() && PathCosts(c.Chain(), dest)
    decreases c.depth
  {
    if c.parent != null {
      ChainCosts(c.parent, grid, source, dest);
      var s, t := c.Chain(), c.parent.Chain();
      assert s == [c] + t;
      forall i | 0 <= i < |s| - 1
        ensures s[i].h == Manhattan(s[i].point, dest) && s[i].f == s[i].g + s[i].h
      {
        if i > 0 {
          assert s[i] == t[i - 1];
        }
      }
    }
  }

  lemma {:induction false} ChainSimple(c: Cell, grid: map<Point, int>, source: Point, dest: Point)
    requires Good(c, grid, source, dest)
    ensures c.Linked() && PathSimple(c.Chain())
    decreases c.depth
  {
    if c.parent != null {
      ChainSimple(c.parent, grid, source, dest);
      ChainPointsOfChain(c.parent);
      var s, t := c.Chain(), c.parent.Chain();
      assert s == [c] + t;
      assert c.point !in c.parent.ChainPoints();
      forall i, j | 0 <= i < j < |s|
        ensures s[i].point != s[j].point
      {
        assert s[j] == t[j - 1];
        if i == 0 {
          assert s[0] == c;
          assert t[j - 1].point in c.parent.ChainPoints();
        } else {
          assert s[i] == t[i - 1];
        }
      }
    }
  }

  /** A sequence of open points, each one move from the one before. */
  ghost predicate IsWalk(grid: map<Point, int>, w: seq<Point>)
  {
    && |w| > 0
    && (forall i :: 0 <= i < |w| ==> Open(grid, w[i]))
    && (forall i :: 0 <= i < |w| - 1 ==> Adjacent(w[i], w[i + 1]))
  }

  /** `dest` can be reached from `source` by moves over open points. */
  ghost predicate Reachable(grid: map<Point, int>, source: Point, dest: Point)
  {
    exists w :: IsWalk(grid, w) && w[0] == source && w[|w| - 1] == dest
  }

  /** A tree path, read backwards, is a walk from the start to its first node. */
  lemma TreePathIsWalk(path: seq<Cell>, grid: map<Point, int>, source: Point, dest: Point)
    requires IsTreePath(path, grid, source, dest)
    ensures Reachable(grid, source, path[0].point)
  {
    var n := |path|;
    var w := seq(n, i requires 0 <= i < n => path[n - 1 - i].point);
    assert IsWalk(grid, w);
    assert w[0] == source && w[n - 1] == path[0].point;
  }

  /** The positions of the nodes of a frontier. */
  ghost function PointsOf(s: seq<Cell>): set<Point>
  {
    set c | c in s :: c.point
  }

  /** Every open neighbour of an explored point is explored or pending. */
  ghost predicate NeighboursCovered(grid: map<Point, int>, explored: set<Point>, pending: set<Point>)
  {
    forall p, i :: p in explored && 0 <= i < |Movements| && Open(grid, Add(p, Movements[i])) ==>
      Add(p, Movements[i]) in explored || Add(p, Movements[i]) in pending
  }

  /** A walk that starts in a set of points closed under open neighbours
      never leaves it. */
  lemma {:induction false} WalkStaysInClosedSet(grid: map<Point, int>, closed: set<Point>, w: seq<Point>, k: nat)
    requires NeighboursCovered(grid, closed, {})
    requires IsWalk(grid, w) && w[0] in closed
    requires k < |w|
    ensures w[k] in closed
  {
    if k > 0 {
      WalkStaysInClosedSet(grid, closed, w, k - 1);
      var i := AdjacentIsSomeNeighbour(w[k - 1], w[k]);
    }
  }

  /** When the frontier is empty, the explored points are closed under open
      neighbours; if they hold the source but not the destination, no walk
      connects the two. */
  lemma ClosedSetSeparates(grid: map<Point, int>, closed: set<Point>, source: Point, dest: Point)
    requires NeighboursCovered(grid, closed, {})
    requires source in closed && dest !in closed
    ensures !Reachable(grid, source, dest)
  {
    if Reachable(grid, source, dest) {
      var w :| IsWalk(grid, w) && w[0] == source && w[|w| - 1] == dest;
      WalkStaysInClosedSet(grid, closed, w, |w| - 1);
    }
  }

  /** Number of frontier entries whose position is already explored: the
      entries that a pop can take without growing the explored map. */
  function StaleCount(s: seq<Cell>, explored: set<Point>): nat
  {
    if s == [] then 0 else (if s[0].point in explored then 1 else 0) + StaleCount(s[1..], explored)
  }

  lemma {:induction false} StaleCountAppend(a: seq<Cell>, b: seq<Cell>, explored: set<Point>)
    ensures StaleCount(a + b, explored) == StaleCount(a, explored) + StaleCount(b, explored)
  {
    if a != [] {
      StaleCountAppend(a[1..], b, explored);
      assert (a + b)[1..] == a[1..] + b;
    } else {
      assert a + b == b;
    }
  }

  lemma {:induction false} StaleCountNone(s: seq<Cell>, explored: set<Point>)
    requires forall i :: 0 <= i < |s| ==> s[i].point !in explored
    ensures StaleCount(s, explored) == 0
  {
    if s != [] {
      StaleCountNone(s[1..], explored);
    }
  }

  /** The priority-queue pop: the index of an entry of least f, found with
      the queue's comparison (`a < b` is answered by b.Gt(a)); among entries
      of equal f the earliest is taken. */
  method MinIndex(frontier: seq<Cell>) returns (k: nat)
    requires |frontier| > 0
    ensures k < |frontier|
    ensures forall j :: 0 <= j < |frontier| ==> frontier[k].f <= frontier[j].f
    ensures forall j :: 0 <= j < k ==> frontier[k].f < frontier[j].f
  {
    k := 0;
    for j := 1 to |frontier|
      invariant k < j
      invariant forall i :: 0 <= i < j ==> frontier[k].f <= frontier[i].f
      invariant forall i :: 0 <= i < k ==> frontier[k].f < frontier[i].f
    {
      if frontier[k].Gt(frontier[j]) {
        k := j;
      }
    }
  }

  /** A node one move from a Good parent, on an open position outside the
      explored ones (which hold the parent's chain), with g one more than its
      parent's, the Manhattan heuristic and f = g + h, is Good. */
  lemma ChildIsGood(current: Cell, child: Cell, grid: map<Point, int>, source: Point, dest: Point,
                    explored: set<Point>)
    requires Good(current, grid, source, dest) && current.ChainPoints() <= explored
    requires child.parent == current && child.depth == current.depth + 1
    requires Open(grid, child.point) && child.value == grid[child.point]
    requires Adjacent(current.point, child.point) && child.point !in explored
    requires child.g == current.g + 1 && child.h == Manhattan(child.point, dest) && child.f == child.g + child.h
    ensures Good(child, grid, source, dest)
  {
  }

  /** The body of the expansion loop for move `i`: a child is created when
      the position one move away is valid, not a wall and not explored. Its
      parent is `current`, its g one more than current's (leaving a free
      cell costs one step), its h the Manhattan distance to the destination
      and f = g + h; it is then a Good node. */
  method MakeChild(grid: map<Point, int>, endCell: Cell, current: Cell, explored: map<Point, Cell>,
                   i: nat, ghost source: Point)
    returns (child: Cell?)
    requires GridOk(grid)
    requires i < |Movements|
    requires Good(current, grid, source, endCell.point)
    requires current.ChainPoints() <= explored.Keys
    ensures var q := Add(current.point, Movements[i]);
            child != null <==> Open(grid, q) && q !in explored
    ensures child != null ==>
              && child.parent == current
              && child.point == Add(current.point, Movements[i])
              && Good(child, grid, source, endCell.point)
  {
    child := null;
    var childPoint := Add(current.point, Movements[i]);
    if IsValid(childPoint) {
      if grid[childPoint] != 1 && childPoint !in explored {
        // `current` stands on an open cell and the grid holds only 0 and 1,
        // so it has value 0 and the step costs one.
        assert current.value == 0;
        var g := current.g + 1;
        var h := HeuristicTo(childPoint, endCell);
        child := new Cell(childPoint, grid[childPoint], current, g + h, g, h);
        NeighbourIsAdjacent(current.point, i);
        ChildIsGood(current, child, grid, source, endCell.point, explored.Keys);
      }
    }
  }

  /** Expands `current`: runs the loop body for each move of the template in
      order and collects the children it creates. They stand exactly on the
      candidates of current's position, in order, each has `current` as its
      parent, and each is a Good node. */
  method ExpandChildren(grid: map<Point, int>, endCell: Cell, current: Cell, explored: map<Point, Cell>,
                        ghost source: Point)
    returns (children: seq<Cell>)
    requires GridOk(grid)
    requires Good(current, grid, source, endCell.point)
    requires current.ChainPoints() <= explored.Keys
    ensures |children| == |Candidates(current.point, grid, explored.Keys)|
    ensures forall i :: 0 <= i < |children| ==>
              && children[i].parent == current
              && children[i].point !in explored
              && children[i].point == Candidates(current.point, grid, explored.Keys)[i]
              && Good(children[i], grid, source, endCell.point)
  {
    children := [];
    for i := 0 to |Movements|
      invariant |children| == |CandidatesUpTo(current.point, grid, explored.Keys, i)|
      invariant forall j :: 0 <= j < |children| ==>
                  && children[j].parent == current
                  && children[j].point !in explored
                  && children[j].point == CandidatesUpTo(current.point, grid, explored.Keys, i)[j]
                  && Good(children[j], grid, source, endCell.point)
    {
      var child := MakeChild(grid, endCell, current, explored, i, source);
      CandidatesStep(current.point, grid, explored.Keys, i);
      if child != null {
        children := children + [child];
      }
    }
  }

  /** Every candidate of `p` stands on one of the children made for it. */
  lemma CandidatesCovered(p: Point, grid: map<Point, int>, explored: set<Point>, children: seq<Cell>, n: Point)
    requires |children| == |Candidates(p, grid, explored)|
    requires forall i :: 0 <= i < |children| ==> children[i].point == Candidates(p, grid, explored)[i]
    requires Adjacent(p, n) && Open(grid, n) && n !in explored
    ensures n in PointsOf(children)
  {
    var cands := Candidates(p, grid, explored);
    CandidatesAreOpenUnexploredNeighbours(p, grid, explored, n);
    var j :| 0 <= j < |cands| && cands[j] == n;
    assert children[j] in children;
  }

  /** A position of a frontier entry other than entry k survives the removal
      of entry k, and the appending of further entries. */
  lemma PendingSurvives(before: seq<Cell>, k: nat, children: seq<Cell>, n: Point)
    requires k < |before|
    requires n in PointsOf(before) && n != before[k].point
    ensures n in PointsOf(before[..k] + before[k + 1..] + children)
  {
    var after := before[..k] + before[k + 1..] + children;
    var c :| c in before && c.point == n;
    var j :| 0 <= j < |before| && before[j] == c;
    if j < k {
      assert after[j] == c;
    } else {
      assert j != k;
      assert after[j - 1] == c;
    }
  }

  /** After popping entry k of `before` at `p` and pushing the candidates of
      `p`, every open neighbour of an explored point is still explored or
      pending. */
  lemma CoveredAfterExpansion(grid: map<Point, int>, explored: set<Point>, before: seq<Cell>, k: nat,
                              children: seq<Cell>)
    requires k < |before|
    requires NeighboursCovered(grid, explored, PointsOf(before))
    requires |children| == |Candidates(before[k].point, grid, explored + {before[k].point})|
    requires forall i :: 0 <= i < |children| ==>
               children[i].point == Candidates(before[k].point, grid, explored + {before[k].point})[i]
    ensures NeighboursCovered(grid, explored + {before[k].point},
                              PointsOf(before[..k] + before[k + 1..] + children))
  {
    var p := before[k].point;
    var explored' := explored + {p};
    var after := before[..k] + before[k + 1..] + children;
    assert PointsOf(children) <= PointsOf(after);
    forall q, i | q in explored' && 0 <= i < |Movements| && Open(grid, Add(q, Movements[i]))
      ensures Add(q, Movements[i]) in explored' || Add(q, Movements[i]) in PointsOf(after)
    {
      var n := Add(q, Movements[i]);
      if n !in explored' {
        if q == p {
          NeighbourIsAdjacent(p, i);
          CandidatesCovered(p, grid, explored', children, n);
        } else {
          PendingSurvives(before, k, children, n);
        }
      }
    }
  }

  /** What holds of the search state at the head of every iteration: every
      frontier entry is a Good node whose parent's chain lies inside the
      explored positions; the explored positions are valid; the destination
      was never explored; the source is
      explored or pending; and every open neighbour of an explored position
      is explored or pending. */
  ghost predicate SearchInvariant(frontier: seq<Cell>, explored: set<Point>,
                                  grid: map<Point, int>, source: Point, dest: Point)
  {
    && (forall c :: c in frontier ==>
          Good(c, grid, source, dest) && (c.parent != null ==> c.parent.ChainPoints() <= explored))
    && explored <= ValidPoints
    && dest !in explored
    && (source in explored || source in PointsOf(frontier))
    && NeighboursCovered(grid, explored, PointsOf(frontier))
  }

  /** The entry taken from the frontier is a Good node whose chain, once its
      own position is recorded, lies inside the explored positions. */
  lemma PoppedIsGood(frontier: seq<Cell>, explored: set<Point>,
                     grid: map<Point, int>, source: Point, dest: Point, k: nat)
    requires SearchInvariant(frontier, explored, grid, source, dest)
    requires k < |frontier|
    ensures Good(frontier[k], grid, source, dest)
    ensures frontier[k].ChainPoints() <= explored + {frontier[k].point}
  {
    assert frontier[k] in frontier;
  }

  /** Removing entry k takes away exactly that entry's share of the count. */
  lemma {:induction false} StaleCountRemove(s: seq<Cell>, k: nat, explored: set<Point>)
    requires k < |s|
    ensures StaleCount(s[..k] + s[k + 1..], explored) + (if s[k].point in explored then 1 else 0) ==
            StaleCount(s, explored)
  {
    if k == 0 {
      assert s[..k] + s[k + 1..] == s[1..];
    } else {
      StaleCountRemove(s[1..], k - 1, explored);
      assert s[..k] + s[k + 1..] == [s[0]] + (s[1..][..k - 1] + s[1..][k..]);
    }
  }

  /** Removing entry k and appending entries whose positions are not yet
      explored lowers the count of stale entries when entry k was stale. */
  lemma StaleCountDrops(before: seq<Cell>, k: nat, children: seq<Cell>, explored: set<Point>)
    requires k < |before| && before[k].point in explored
    requires forall i :: 0 <= i < |children| ==> children[i].point !in explored
    ensures StaleCount(before[..k] + before[k + 1..] + children, explored) < StaleCount(before, explored)
  {
    StaleCountRemove(before, k, explored);
    StaleCountAppend(before[..k] + before[k + 1..], children, explored);
    StaleCountNone(children, explored);
  }

  /** Entry k of `before` leaves the frontier at position k. */
  lemma PointsAfterRemoval(before: seq<Cell>, k: nat)
    requires k < |before|
    ensures PointsOf(before) <= PointsOf(before[..k] + before[k + 1..]) + {before[k].point}
    ensures forall c :: c in before[..k] + before[k + 1..] ==> c in before
  {
    var rest := before[..k] + before[k + 1..];
    forall q | q in PointsOf(before) ensures q in PointsOf(rest) + {before[k].point} {
      var c :| c in before && c.point == q;
      var j :| 0 <= j < |before| && before[j] == c;
      if j < k {
        assert rest[j] == c;
      } else if j > k {
        assert rest[j - 1] == c;
      }
    }
    forall c | c in rest ensures c in before {
      var j :| 0 <= j < |rest| && rest[j] == c;
      if j < k {
        assert before[j] == c;
      } else {
        assert before[j + 1] == c;
      }
    }
  }

  /** One iteration that does not reach the destination keeps the invariant:
      entry k is popped, its position recorded, and its children (one per
      candidate, in order) pushed. */
  lemma ExpansionKeepsInvariant(before: seq<Cell>, explored: set<Point>,
                                grid: map<Point, int>, source: Point, dest: Point, k: nat, children: seq<Cell>)
    requires SearchInvariant(before, explored, grid, source, dest)
    requires k < |before| && before[k].point != dest
    requires |children| == |Candidates(before[k].point, grid, explored + {before[k].point})|
    requires forall i :: 0 <= i < |children| ==>
               && children[i].point == Candidates(before[k].point, grid, explored + {before[k].point})[i]
               && children[i].parent == before[k]
               && Good(children[i], grid, source, dest)
    ensures SearchInvariant(before[..k] + before[k + 1..] + children,
                            explored + {before[k].point}, grid, source, dest)
  {
    var current := before[k];
    var explored' := explored + {current.point};
    var rest := before[..k] + before[k + 1..];
    var after := rest + children;
    PoppedIsGood(before, explored, grid, source, dest, k);
    PointsAfterRemoval(before, k);
    RecordingKeepsBound(explored, current.point);

    forall c | c in after
      ensures Good(c, grid, source, dest) && (c.parent != null ==> c.parent.ChainPoints() <= explored')
    {
      if c in rest {
        assert c in before;
      } else {
        var i :| 0 <= i < |children| && children[i] == c;
      }
    }
    assert PointsOf(rest) <= PointsOf(after);
    CoveredAfterExpansion(grid, explored, before, k, children);
  }

  /** Each iteration that does not return makes progress: it either records
      a position not explored before, or it pops a stale entry and pushes
      only entries on unexplored positions. */
  lemma ExpansionProgresses(before: seq<Cell>, explored: set<Point>, k: nat, children: seq<Cell>)
    requires k < |before| && IsValid(before[k].point)
    requires forall i :: 0 <= i < |children| ==> children[i].point !in explored + {before[k].point}
    ensures || ValidPoints - (explored + {before[k].point}) < ValidPoints - explored
            || (&& ValidPoints - (explored + {before[k].point}) == ValidPoints - explored
                && StaleCount(before[..k] + before[k + 1..] + children, explored + {before[k].point})
                   < StaleCount(before, explored))
  {
    var p := before[k].point;
    if p in explored {
      assert explored + {p} == explored;
      StaleCountDrops(before, k, children, explored);
    } else {
      assert p in ValidPoints - explored;
    }
  }

  /** Recording a valid position keeps the explored positions among the
      valid ones, and so within the size of the maze. */
  lemma RecordingKeepsBound(explored: set<Point>, p: Point)
    requires explored <= ValidPoints && IsValid(p)
    ensures explored + {p} <= ValidPoints && |explored + {p}| <= BoundX * BoundY
  {
    ValidSubsetBounded(explored + {p});
  }

  /** At the head of every iteration the explored map has at most
      BoundX * BoundY keys, so the loop runs at most that many fresh pops. */
  lemma ExploredIsBounded(frontier: seq<Cell>, explored: set<Point>,
                          grid: map<Point, int>, source: Point, dest: Point)
    requires SearchInvariant(frontier, explored, grid, source, dest)
    ensures |explored| <= BoundX * BoundY
  {
    ValidSubsetBounded(explored);
  }

  /** Once the destination is popped, backtracking from it gives a tree path
      that starts at the destination, and the destination is reachable. */
  lemma FoundPathIsTreePath(c: Cell, path: seq<Cell>, grid: map<Point, int>, source: Point, dest: Point)
    requires Good(c, grid, source, dest) && c.point == dest
    requires path == c.Chain()
    ensures IsTreePath(path, grid, source, dest) && path[0].point == dest
    ensures Reachable(grid, source, dest)
  {
    ChainIsTreePath(c, grid, source, dest);
    TreePathIsWalk(path, grid, source, dest);
  }

  /** The A* search from `source` to `dest` with the Manhattan heuristic.
      The three checks run in order (bounds, equal endpoints, walls) and each
      has its own failure; otherwise the search returns a path exactly when
      the destination can be reached, and NoPathFound exactly when it cannot.
      A path is returned destination first and is a tree path from the
      source. */
  method Search(grid: map<Point, int>, source: Point, dest: Point) returns (r: SearchResult)
    requires GridOk(grid)
    ensures !(IsValid(source) && IsValid(dest)) ==> r == Failed(InvalidPoints)
    ensures IsValid(source) && IsValid(dest) && source == dest ==> r == Failed(AlreadyAtDestination)
    ensures IsValid(source) && IsValid(dest) && source != dest && (grid[source] == 1 || grid[dest] == 1) ==>
              r == Failed(BlockedEndpoint)
    ensures IsValid(source) && IsValid(dest) && source != dest && grid[source] != 1 && grid[dest] != 1 ==>
              r.Found? || r == Failed(NoPathFound)
    ensures r.Found? ==> IsTreePath(r.path, grid, source, dest) && r.path[0].point == dest
    ensures r.Found? ==> Reachable(grid, source, dest)
    ensures r == Failed(NoPathFound) ==> !Reachable(grid, source, dest)
  {
    if !(IsValid(source) && IsValid(dest)) {
      return Failed(InvalidPoints);
    }
    if Equals(source, dest) {
      return Failed(AlreadyAtDestination);
    }
    if grid[source] == 1 || grid[dest] == 1 {
      return Failed(BlockedEndpoint);
    }
    r := Explore(grid, source, dest);
  }

  /** The search loop proper, entered once the three checks have passed:
      the frontier starts with the start node alone and the explored map
      empty; each iteration pops an entry of least f, records its position,
      returns the path back from it if it is the destination, and otherwise
      pushes its children. An exhausted frontier means no path. */
  method Explore(grid: map<Point, int>, source: Point, dest: Point) returns (r: SearchResult)
    requires GridOk(grid)
    requires Open(grid, source) && Open(grid, dest) && source != dest
    ensures r.Found? || r == Failed(NoPathFound)
    ensures r.Found? ==> IsTreePath(r.path, grid, source, dest) && r.path[0].point == dest
    ensures r.Found? ==> Reachable(grid, source, dest)
    ensures r == Failed(NoPathFound) ==> !Reachable(grid, source, dest)
  {
    var start := new Cell(source, grid[source], null, 0, 0, 0);
    var endCell := new Cell(dest, grid[dest], null, 0, 0, 0);
    var frontier: seq<Cell> := [start];
    var explored: map<Point, Cell> := map[];
    assert Good(start, grid, source, dest);
    assert PointsOf(frontier) == {source};

    while frontier != []
      invariant SearchInvariant(frontier, explored.Keys, grid, source, dest)
      decreases ValidPoints - explored.Keys, StaleCount(frontier, explored.Keys)
    {
      ghost var before, keys := frontier, explored.Keys;
      var k := MinIndex(frontier);
      var current := frontier[k];
      PoppedIsGood(frontier, keys, grid, source, dest, k);
      frontier := frontier[..k] + frontier[k + 1..];
      explored := explored[current.point := current];
      assert explored.Keys == keys + {current.point};

      if current.IsSame(dest) {
        var path := current.BacktrackToSource([]);
        FoundPathIsTreePath(current, path, grid, source, dest);
        return Found(path);
      }

      var children := ExpandChildren(grid, endCell, current, explored, source);
      frontier := frontier + children;
      ExpansionKeepsInvariant(before, keys, grid, source, dest, k, children);
      ExpansionProgresses(before, keys, k, children);
    }

    ClosedSetSeparates(grid, explored.Keys, source, dest);
    return Failed(NoPathFound);
  }
}

/** The search node of the A* solver: a maze position together with its
    grid value, the node that generated it and the costs g, h and f. */
module Cells {
  import opened Geometry

  class Cell {
    /** Every attribute is fixed when the node is created: the search
        assigns parent, g, h and f before the node is first shared, and no
        node is changed once it is on the frontier. */
    const point: Point
    const value: int
    const parent: Cell?
    /** Priority of the node: g + h for every generated child. */
    const f: nat
    /** Cost of the path from the start to this node. */
    const g: nat
    /** Heuristic estimate of the cost from this node to the destination. */
    const h: nat
    /** Number of parent links from this node back to the root. */
    ghost const depth: nat

    /** A node with the given position, grid value, parent and costs. */
    constructor (point: Point, value: int, parent: Cell?, f: nat, g: nat, h: nat)
      ensures this.point == point && this.value == value && this.parent == parent
      ensures this.f == f && this.g == g && this.h == h
      ensures depth == if parent == null then 0 else parent.depth + 1
    {
      this.point := point;
      this.value := value;
      this.parent := parent;
      this.f := f;
      this.g := g;
      this.h := h;
      this.depth := if parent == null then 0 else parent.depth + 1;
    }

    /** The parent links form a finite chain: each parent is exactly one
        link closer to the root, which has no parent. */
    ghost predicate Linked()
      decreases depth
    {
      if parent == null then depth == 0 else parent.depth + 1 == depth && parent.Linked()
    }

    /** The nodes met when following parent links from this one, itself first. */
    ghost function Chain(): (s: seq<Cell>)
      requires Linked()
      decreases depth
      ensures |s| == depth + 1 && s[0] == this
    {
      if parent == null then [this] else [this] + parent.Chain()
    }

    /** The positions of the nodes of Chain(). */
    ghost function ChainPoints(): set<Point>
      requires Linked()
      decreases depth
    {
      {point} + (if parent == null then {} else parent.ChainPoints())
    }

    /** Whether this node stands on position `p` (component-wise). */
    function IsSame(p: Point): (r: bool)
      ensures r <==> point == p
    {
      p.x == point.x && p.y == point.y
    }

    /** Two nodes are equal when they stand on the same position, whatever
        their costs and parents. */
    function SamePosition(other: Cell): (r: bool)
      ensures r <==> point == other.point
    {
      point.x == other.point.x && point.y == other.point.y
    }

    /** Strictly greater priority: `a.Gt(b)` is `b.St(a)`. */
    function Gt(other: Cell): (r: bool)
      ensures r <==> other.St(this)
    {
      f > other.f
    }

    /** Strictly smaller priority: no node is smaller than itself, and of
        two nodes at most one is smaller than the other. */
    function St(other: Cell): (r: bool)
      ensures r ==> other != this && !(other.f < f)
    {
      f < other.f
    }

    /** Collects the chain from this node to the root onto the end of `acc`:
        the path comes out from this node back to the start. */
    method BacktrackToSource(acc: seq<Cell>) returns (r: seq<Cell>)
      requires Linked()
      decreases depth
      ensures r == acc + Chain()
    {
      if parent != null {
        r := parent.BacktrackToSource(acc + [this]);
      } else {
        r := acc + [this];
      }
    }
  }

  /** The Manhattan heuristic: the estimate a node standing at `p` gets
      towards the destination node, the L1 distance between the two
      positions; it is zero only at the destination itself, and from one
      position to another it changes by at most the Manhattan distance
      between them (not by at most the number of moves: a diagonal move
      counts two). */
  function HeuristicTo(p: Point, dest: Cell): (h: nat)
    ensures h == 0 <==> p == dest.point
    ensures forall q :: Manhattan(q, dest.point) <= h + Manhattan(p, q)
  {
    Manhattan(p, dest.point)
  }

  /** A priority queue that asks `a < b` of nodes gets `b.Gt(a)` (the class
      has no less-than of its own), which is `a.St(b)`: nodes are ordered by
      f alone, and two nodes with equal f are tied whatever their positions. */
  lemma OrderedByPriorityOnly(a: Cell, b: Cell, c: Cell)
    ensures b.Gt(a) <==> a.St(b)
    ensures !a.Gt(a)
    ensures a.Gt(b) && b.Gt(c) ==> a.Gt(c)
    ensures !a.Gt(b) && !b.Gt(a) <==> a.f == b.f
  {
  }

  /** The chain runs from a node through its ancestors, each the parent of
      the one before it and one link closer to the root, and ends at a node
      without a parent. */
  lemma {:induction false} ChainShape(c: Cell)
    requires c.Linked()
    ensures c.Chain()[|c.Chain()| - 1].parent == null
    ensures forall i :: 0 <= i < |c.Chain()| - 1 ==> c.Chain()[i].parent == c.Chain()[i + 1]
    ensures forall i :: 0 <= i < |c.Chain()| ==> c.Chain()[i].Linked() && c.Chain()[i].depth == c.depth - i
    decreases c.depth
  {
    if c.parent != null {
      ChainShape(c.parent);
    }
  }

  /** ChainPoints holds exactly the positions on the chain. */
  lemma {:induction false} ChainPointsOfChain(c: Cell)
    requires c.Linked()
    ensures forall i :: 0 <= i < |c.Chain()| ==> c.Chain()[i].point in c.ChainPoints()
    ensures forall p :: p in c.ChainPoints() ==> exists i :: 0 <= i < |c.Chain()| && c.Chain()[i].point == p
    decreases c.depth
  {
    if c.parent != null {
      ChainPointsOfChain(c.parent);
      var s, t := c.Chain(), c.parent.Chain();
      assert s == [c] + t;
      assert c.ChainPoints() == {c.point} + c.parent.ChainPoints();
      forall i | 0 <= i < |s|
        ensures s[i].point in c.ChainPoints()
      {
        if i > 0 {
          assert s[i] == t[i - 1];
        }
      }
      forall p | p in c.ChainPoints()
        ensures exists i :: 0 <= i < |c.Chain()| && c.Chain()[i].point == p
      {
        if p != c.point {
          var j :| 0 <= j < |t| && t[j].point == p;
          assert s[j + 1].point == p;
        } else {
          assert s[0].point == p;
        }
      }
    } else {
      assert c.Chain()[0].point == c.point;
    }
  }
}

/** Coordinates on the maze, the bounds check, the two distances and the
    fixed eight-direction movement template used to generate neighbours. */
module Geometry {

  /** Extent of the maze: rows are 0 .. BoundX - 1 and columns 0 .. BoundY - 1. */
  const BoundX: int := 15
  const BoundY: int := 15

  /** A point of the maze; x is the vertical axis and y the horizontal one. */
  datatype Point = Point(x: int, y: int)

  /** Every point that passes the bounds check. */
  const ValidPoints: set<Point> := set x: int, y: int | 0 <= x < BoundX && 0 <= y < BoundY :: Point(x, y)

  /** The bounds check of a point: it holds exactly on the points of the maze. */
  function IsValid(p: Point): (r: bool)
    ensures r <==> p in ValidPoints
  {
    assert p == Point(p.x, p.y);
    0 <= p.x < BoundX && 0 <= p.y < BoundY
  }

  /** One row of the maze: the points whose x is `row`, columns 0 .. n - 1. */
  ghost function RowPrefix(row: int, n: nat): set<Point>
  {
    set y: int | 0 <= y < n :: Point(row, y)
  }

  /** The rows 0 .. n - 1 of the maze. */
  ghost function RowsPrefix(n: nat): set<Point>
  {
    set x: int, y: int | 0 <= x < n && 0 <= y < BoundY :: Point(x, y)
  }

  lemma {:induction false} RowPrefixSize(row: int, n: nat)
    ensures |RowPrefix(row, n)| == n
  {
    if n > 0 {
      RowPrefixSize(row, n - 1);
      assert RowPrefix(row, n) == RowPrefix(row, n - 1) + {Point(row, n - 1)};
      assert Point(row, n - 1) !in RowPrefix(row, n - 1);
    } else {
      assert RowPrefix(row, n) == {};
    }
  }

  lemma {:induction false} RowsPrefixSize(n: nat)
    ensures |RowsPrefix(n)| == n * BoundY
  {
    if n > 0 {
      RowsPrefixSize(n - 1);
      RowPrefixSize(n - 1, BoundY);
      assert RowsPrefix(n) == RowsPrefix(n - 1) + RowPrefix(n - 1, BoundY);
      assert RowsPrefix(n - 1) !! RowPrefix(n - 1, BoundY);
    } else {
      assert RowsPrefix(n) == {};
    }
  }

  /** The maze has exactly BoundX * BoundY valid points, which bounds the
      number of distinct positions a search can ever explore. */
  lemma ValidPointsCount()
    ensures |ValidPoints| == BoundX * BoundY
  {
    RowsPrefixSize(BoundX);
    assert ValidPoints == RowsPrefix(BoundX);
  }

  /** Any set of valid points, such as the positions a search has
      explored, has at most BoundX * BoundY members. */
  lemma ValidSubsetBounded(s: set<Point>)
    requires s <= ValidPoints
    ensures |s| <= BoundX * BoundY
  {
    ValidPointsCount();
    SubsetSize(s, ValidPoints);
  }

  lemma {:induction false} SubsetSize(a: set<Point>, b: set<Point>)
    requires a <= b
    ensures |a| <= |b|
    decreases |b|
  {
    if a != {} {
      var x :| x in a;
      SubsetSize(a - {x}, b - {x});
    }
  }

  function Abs(n: int): nat
  {
    if n < 0 then -n else n
  }

  /** L1 distance between two points: zero exactly on equal points. */
  function Manhattan(a: Point, b: Point): (r: nat)
    ensures r == 0 <==> a == b
  {
    Abs(a.x - b.x) + Abs(a.y - b.y)
  }

  /** Chebyshev (L-infinity) distance: the number of king moves between two
      points on an unbounded board. main.py has no such function; it is
      the reference against which the movement template is checked. */
  function Chebyshev(a: Point, b: Point): nat
  {
    var dx, dy := Abs(a.x - b.x), Abs(a.y - b.y);
    if dx < dy then dy else dx
  }

  /** The diagonal step from the origin to (1, 1) is a template move. */
  lemma DiagonalIsAdjacent()
    ensures Adjacent(Point(0, 0), Point(1, 1))
  {
    MovementsAreKingMoves(Sub(Point(1, 1), Point(0, 0)));
  }

  /** From (0, 0) and from (1, 1) the Manhattan distances to (2, 2) are 4 and 2. */
  lemma ManhattanAlongDiagonal()
    ensures Manhattan(Point(0, 0), Point(2, 2)) == 4
    ensures Manhattan(Point(1, 1), Point(2, 2)) == 2
  {
  }

  /** One diagonal move lowers the Manhattan distance to a point by two,
      although every move costs one step. */
  lemma ManhattanDropsTwoOnADiagonal()
    ensures Adjacent(Point(0, 0), Point(1, 1))
    ensures Manhattan(Point(0, 0), Point(2, 2)) == Manhattan(Point(1, 1), Point(2, 2)) + 2
  {
    DiagonalIsAdjacent();
    ManhattanAlongDiagonal();
  }

  /** Manhattan is within a factor two of the king-move distance; on a
      diagonal it reaches that factor, so with unit-cost diagonal moves it
      can overestimate the remaining cost. */
  lemma ManhattanVersusChebyshev(a: Point, b: Point)
    ensures Chebyshev(a, b) <= Manhattan(a, b) <= 2 * Chebyshev(a, b)
    ensures a.x - b.x == a.y - b.y ==> Manhattan(a, b) == 2 * Chebyshev(a, b)
  {
  }

  /** Component-wise equality of points agrees with structural equality. */
  function Equals(a: Point, b: Point): (r: bool)
    ensures r <==> a == b
  {
    a.x == b.x && a.y == b.y
  }

  /** Component-wise sum of two points; taking either summand away again
      leaves the other. */
  function Add(a: Point, b: Point): (r: Point)
    ensures Sub(r, a) == b && Sub(r, b) == a
  {
    Point(a.x + b.x, a.y + b.y)
  }

  /** Component-wise difference; the offset that leads from `b` to `a`. */
  function Sub(a: Point, b: Point): Point
  {
    Point(a.x - b.x, a.y - b.y)
  }

  /** Adding an offset and taking it away again are inverse. */
  lemma AddSubInverse(a: Point, d: Point)
    ensures Sub(Add(a, d), a) == d
    ensures Add(a, Sub(d, a)) == d
  {
  }

  /** The movement template: north, south, east, west and the four diagonals,
      in the order in which children are generated. */
  const Movements: seq<Point> := [
    Point(-1, 0),
    Point(1, 0),
    Point(0, 1),
    Point(0, -1),
    Point(-1, 1),
    Point(-1, -1),
    Point(1, 1),
    Point(1, -1)
  ]

  /** The template is exactly the set of eight king moves: pairwise distinct
      offsets, and an offset belongs to it if and only if it is at
      Chebyshev distance one from the origin. */
  lemma MovementsAreKingMoves(d: Point)
    ensures |Movements| == 8
    ensures forall i, j :: 0 <= i < j < |Movements| ==> Movements[i] != Movements[j]
    ensures d in Movements <==> Chebyshev(d, Point(0, 0)) == 1
  {
    if Chebyshev(d, Point(0, 0)) == 1 {
      assert -1 <= d.x <= 1 && -1 <= d.y <= 1;
      if d.x == -1 {
        assert d == Point(-1, d.y);
      } else if d.x == 0 {
        assert d == Point(0, d.y);
      } else {
        assert d == Point(1, d.y);
      }
    }
  }

  /** `b` is one template move away from `a`. */
  predicate Adjacent(a: Point, b: Point)
  {
    Sub(b, a) in Movements
  }

  /** Adjacency is king-move distance one, and it is symmetric. */
  lemma AdjacentIsChebyshevOne(a: Point, b: Point)
    ensures Adjacent(a, b) <==> Chebyshev(a, b) == 1
    ensures Adjacent(a, b) <==> Adjacent(b, a)
  {
    MovementsAreKingMoves(Sub(b, a));
    MovementsAreKingMoves(Sub(a, b));
  }

  /** The i-th neighbour of a point is adjacent to it. */
  lemma NeighbourIsAdjacent(p: Point, i: int)
    requires 0 <= i < |Movements|
    ensures Adjacent(p, Add(p, Movements[i]))
  {
    AddSubInverse(p, Movements[i]);
  }

  /** Every adjacent point is produced by some entry of the template. */
  lemma AdjacentIsSomeNeighbour(a: Point, b: Point) returns (i: nat)
    requires Adjacent(a, b)
    ensures i < |Movements| && Add(a, Movements[i]) == b
  {
    var d := Sub(b, a);
    i :| 0 <= i < |Movements| && Movements[i] == d;
    AddSubInverse(a, b);
  }
}

/** The `Polygon` capability of the source and its two shapes. A shape exposes its
    vertices as a cyclic sequence; the medial points are derived from it once, for
    every shape. */
module Polygons {
  import opened Geometry

  /** A triangle or a quadrilateral, its vertices listed in cyclic order. */
  datatype Polygon =
    | Triangle(a: Point, b: Point, c: Point)
    | Quadrilateral(a: Point, b: Point, c: Point, d: Point)
  {
    /** The vertex list, in the order the fields are declared. */
    function Points(): (ps: seq<Point>)
      ensures |ps| == (if Triangle? then 3 else 4)
      ensures ps[0] == a && ps[1] == b && ps[2] == c
      ensures Quadrilateral? ==> ps[3] == d
    {
      if Triangle? then [a, b, c] else [a, b, c, d]
    }
  }

  /** The vertex list shifted one place: each vertex is replaced by its cyclic successor. */
  function Successors(ps: seq<Point>): (r: seq<Point>)
    ensures |r| == |ps|
    ensures forall i :: 0 <= i < |ps| ==> r[i] == ps[(i + 1) % |ps|]
  {
    if |ps| == 0 then [] else ps[1..] + [ps[0]]
  }

  /** Midpoints of two equally long sequences, taken position by position. */
  function PairwiseMidpoints(ps: seq<Point>, qs: seq<Point>): (r: seq<Point>)
    requires |ps| == |qs|
    ensures |r| == |ps|
    ensures forall i :: 0 <= i < |r| ==> r[i] == Midpoint(ps[i], qs[i])
  {
    if |ps| == 0 then [] else [Midpoint(ps[0], qs[0])] + PairwiseMidpoints(ps[1..], qs[1..])
  }

  /** The medial points of a vertex list: element i is the midpoint of vertex i and
      of the vertex after it, the last vertex being followed by the first. */
  function MedialPoints(ps: seq<Point>): (r: seq<Point>)
    ensures |r| == |ps|
    ensures forall i :: 0 <= i < |ps| ==> r[i] == Midpoint(ps[i], ps[(i + 1) % |ps|])
  {
    PairwiseMidpoints(ps, Successors(ps))
  }

  /** The last medial point closes the polygon: it joins the final vertex to the first. */
  lemma MedialPointsWrapAround(ps: seq<Point>)
    requires |ps| > 0
    ensures MedialPoints(ps)[|ps| - 1] == Midpoint(ps[|ps| - 1], ps[0])
  {
  }

  /** Medial points of vertices inside a square stay inside that square. */
  lemma MedialPointsStayInSquare(ps: seq<Point>, lo: real, hi: real)
    requires forall i :: 0 <= i < |ps| ==> InSquare(ps[i], lo, hi)
    ensures forall i :: 0 <= i < |ps| ==> InSquare(MedialPoints(ps)[i], lo, hi)
  {
    forall i | 0 <= i < |ps|
      ensures InSquare(MedialPoints(ps)[i], lo, hi)
    {
      MidpointStaysInSquare(ps[i], ps[(i + 1) % |ps|], lo, hi);
    }
  }

  /** `Triangle::new_equilateral`: base from the origin along the x axis, apex above
      the middle of the base at height `length`. */
  function NewEquilateral(length: real): (t: Polygon)
    ensures t.Triangle?
  {
    Triangle(Point(0.0, 0.0), Point(length, 0.0), Point(length / 2.0, length))
  }

  /** `Quadrilateral::square`: the axis-aligned square with a corner at the origin,
      corners listed counter-clockwise for a positive `length`. */
  function Square(length: real): (s: Polygon)
    ensures s.Quadrilateral?
  {
    Quadrilateral(Point(0.0, 0.0), Point(length, 0.0), Point(length, length), Point(0.0, length))
  }

  function SquaredDistance(p: Point, q: Point): real {
    (p.x - q.x) * (p.x - q.x) + (p.y - q.y) * (p.y - q.y)
  }

  /** The triangle the source calls equilateral has a base of `length` on the x axis,
      and its two other sides are equal to each other, with squared length
      5/4 * length^2: it is isosceles, and equilateral only when `length` is 0. */
  lemma NewEquilateralShape(length: real)
    ensures var t := NewEquilateral(length);
      && t.a == Point(0.0, 0.0)
      && t.b == Point(length, 0.0)
      && t.c.y == length
      && SquaredDistance(t.a, t.b) == length * length
      && SquaredDistance(t.b, t.c) == SquaredDistance(t.c, t.a)
      && SquaredDistance(t.c, t.a) == 5.0 / 4.0 * (length * length)
      && t.c.x == (t.a.x + t.b.x) / 2.0
  {
  }

  /** For a non-zero side, the four corners of the square are distinct, and two
      corners share a coordinate exactly when they are not opposite each other
      (cyclic neighbours, or the same corner). */
  lemma SquareCorners(length: real)
    requires length != 0.0
    ensures var ps := Square(length).Points();
      && |ps| == 4
      && ps[0] == Point(0.0, 0.0)
      && (forall i, j :: 0 <= i < 4 && 0 <= j < 4 ==> (ps[i] == ps[j] <==> i == j))
      && (forall i, j :: 0 <= i < 4 && 0 <= j < 4 ==>
            (SharesCoordinate(ps[i], ps[j]) <==> (j - i) % 4 != 2))
  {
    var ps := Square(length).Points();
    forall i, j | 0 <= i < 4 && 0 <= j < 4
      ensures ps[i] == ps[j] <==> i == j
      ensures SharesCoordinate(ps[i], ps[j]) <==> (j - i) % 4 != 2
    {
      assert i == 0 || i == 1 || i == 2 || i == 3;
      assert j == 0 || j == 1 || j == 2 || j == 3;
    }
  }

  /** For a non-zero side, the square's medial points are the midpoints of its sides,
      and none of them is a corner: the game never starts on a vertex. */
  lemma SquareMedialPoints(length: real)
    requires length != 0.0
    ensures var ps := Square(length).Points();
      var ms := MedialPoints(ps);
      && ms == [Point(length / 2.0, 0.0), Point(length, length / 2.0),
                Point(length / 2.0, length), Point(0.0, length / 2.0)]
      && forall i, j :: 0 <= i < 4 && 0 <= j < 4 ==> ms[i] != ps[j]
  {
    var ps := Square(length).Points();
    var ms := MedialPoints(ps);
    assert ms[0] == Midpoint(ps[0], ps[1]);
    assert ms[1] == Midpoint(ps[1], ps[2]);
    assert ms[2] == Midpoint(ps[2], ps[3]);
    assert ms[3] == Midpoint(ps[3], ps[0]);
  }
}

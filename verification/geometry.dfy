/** Points of the plane and the two operations the chaos game performs on them.
    The source's `f64` coordinates are modelled as mathematical reals. */
module Geometry {

  /** A point of the plane. Equality is coordinate-wise, like the derived `PartialEq`. */
  datatype Point = Point(x: real, y: real)

  /** True when the two points agree on at least one coordinate. */
  predicate SharesCoordinate(p: Point, q: Point) {
    p.x == q.x || p.y == q.y
  }

  /** True when both coordinates of `p` lie in the closed interval [lo, hi]. */
  predicate InSquare(p: Point, lo: real, hi: real) {
    lo <= p.x <= hi && lo <= p.y <= hi
  }

  /** The coordinate-wise mean of two points: it is as far from `p` as `q` is from it. */
  function Midpoint(p: Point, q: Point): (m: Point)
    ensures m.x - p.x == q.x - m.x
    ensures m.y - p.y == q.y - m.y
  {
    Point((p.x + q.x) / 2.0, (p.y + q.y) / 2.0)
  }

  /** Moves from `p` along the vector towards `q`, by the fraction `distance` of it.
      The fraction is not restricted: outside [0, 1] the move extrapolates. Its
      properties are stated by the lemmas below rather than as postconditions, so
      that proofs about whole runs do not carry them at every step. */
  function JumpTowards(p: Point, q: Point, distance: real): Point
  {
    Point(p.x * (1.0 - distance) + q.x * distance,
          p.y * (1.0 - distance) + q.y * distance)
  }

  /** The jump's displacement is `distance` times the vector from `p` to `q`. */
  lemma JumpDisplacement(p: Point, q: Point, distance: real)
    ensures JumpTowards(p, q, distance).x - p.x == distance * (q.x - p.x)
    ensures JumpTowards(p, q, distance).y - p.y == distance * (q.y - p.y)
  {
  }

  lemma MidpointSymmetric(p: Point, q: Point)
    ensures Midpoint(p, q) == Midpoint(q, p)
  {
  }

  lemma MidpointOfSelf(p: Point)
    ensures Midpoint(p, p) == p
  {
  }

  /** A jump of distance 0 stays put and a jump of distance 1 lands on the target. */
  lemma JumpEndpoints(p: Point, q: Point)
    ensures JumpTowards(p, q, 0.0) == p
    ensures JumpTowards(p, q, 1.0) == q
  {
  }

  /** The midpoint is the jump of half the distance, in either direction. */
  lemma HalfJumpIsMidpoint(p: Point, q: Point)
    ensures JumpTowards(p, q, 0.5) == Midpoint(p, q)
    ensures JumpTowards(q, p, 0.5) == Midpoint(p, q)
  {
  }

  /** A jump by a fraction in [0, 1] between two points of a square stays in the square. */
  lemma JumpStaysInSquare(p: Point, q: Point, distance: real, lo: real, hi: real)
    requires InSquare(p, lo, hi) && InSquare(q, lo, hi)
    requires 0.0 <= distance <= 1.0
    ensures InSquare(JumpTowards(p, q, distance), lo, hi)
  {
    var r := JumpTowards(p, q, distance);
    BetweenCoordinate(p.x, q.x, distance, lo, hi);
    BetweenCoordinate(p.y, q.y, distance, lo, hi);
    assert r.x == p.x + distance * (q.x - p.x);
    assert r.y == p.y + distance * (q.y - p.y);
  }

  /** One coordinate of a convex combination stays between the bounds of its two ends. */
  lemma BetweenCoordinate(a: real, b: real, t: real, lo: real, hi: real)
    requires lo <= a <= hi && lo <= b <= hi
    requires 0.0 <= t <= 1.0
    ensures lo <= a + t * (b - a) <= hi
  {
    if a <= b {
      ProductOfNonNegatives(t, b - a);
      ProductOfNonNegatives(1.0 - t, b - a);
      assert t * (b - a) + (1.0 - t) * (b - a) == b - a;
    } else {
      ProductOfNonNegatives(t, a - b);
      ProductOfNonNegatives(1.0 - t, a - b);
      assert t * (a - b) + (1.0 - t) * (a - b) == a - b;
      assert t * (b - a) == -(t * (a - b));
    }
  }

  lemma ProductOfNonNegatives(u: real, v: real)
    requires 0.0 <= u && 0.0 <= v
    ensures 0.0 <= u * v
  {
  }

  /** Points taken from a list inside a square are inside that square. */
  lemma MembersInSquare(cs: seq<Point>, refs: seq<Point>, lo: real, hi: real)
    requires forall i :: 0 <= i < |cs| ==> InSquare(cs[i], lo, hi)
    requires forall k :: 0 <= k < |refs| ==> refs[k] in cs
    ensures forall k :: 0 <= k < |refs| ==> InSquare(refs[k], lo, hi)
  {
  }

  lemma MidpointStaysInSquare(p: Point, q: Point, lo: real, hi: real)
    requires InSquare(p, lo, hi) && InSquare(q, lo, hi)
    ensures InSquare(Midpoint(p, q), lo, hi)
  {
  }
}

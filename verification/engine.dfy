/** `Polygon::chaos_game`: starting from a medial point, emit the current point,
    ask the closure for a reference vertex, and jump towards it. Printing is replaced
    by the sequence of emitted points. */
module Engine {
  import opened Geometry
  import opened Polygons
  import opened Selection
  import opened Wrappers

  /** The points emitted when the closure returns `refs`, one per iteration: the
      start first, then each point the jump from its predecessor. The point reached
      by the last jump is never emitted. */
  function Orbit(start: Point, refs: seq<Point>, distance: real): (emitted: seq<Point>)
    ensures |emitted| == |refs|
    ensures |refs| > 0 ==> emitted[0] == start
    ensures forall k {:trigger JumpTowards(emitted[k], refs[k], distance)} :: 0 <= k < |refs| - 1 ==>
      emitted[k + 1] == JumpTowards(emitted[k], refs[k], distance)
    decreases |refs|
  {
    if |refs| == 0 then []
    else [start] + Orbit(JumpTowards(start, refs[0], distance), refs[1..], distance)
  }

  /** The current point after all the jumps towards `refs`. */
  function Walk(start: Point, refs: seq<Point>, distance: real): Point
    decreases |refs|
  {
    if |refs| == 0 then start
    else Walk(JumpTowards(start, refs[0], distance), refs[1..], distance)
  }

  /** One more iteration emits the current point and then jumps from it. */
  lemma {:induction false} OrbitExtend(start: Point, refs: seq<Point>, v: Point, distance: real)
    ensures Orbit(start, refs + [v], distance) == Orbit(start, refs, distance) + [Walk(start, refs, distance)]
    ensures Walk(start, refs + [v], distance) == JumpTowards(Walk(start, refs, distance), v, distance)
    decreases |refs|
  {
    if |refs| > 0 {
      var next := JumpTowards(start, refs[0], distance);
      assert (refs + [v])[1..] == refs[1..] + [v];
      OrbitExtend(next, refs[1..], v, distance);
    }
  }

  /** The last reference vertex has no influence on what is emitted: the result of
      the final jump is never shown. */
  lemma LastReferenceUnused(start: Point, refs: seq<Point>, q: Point, distance: real)
    requires |refs| > 0
    ensures Orbit(start, refs, distance) == Orbit(start, refs[..|refs| - 1] + [q], distance)
  {
    var init := refs[..|refs| - 1];
    assert refs == init + [refs[|refs| - 1]];
    OrbitExtend(start, init, refs[|refs| - 1], distance);
    OrbitExtend(start, init, q, distance);
  }

  /** Running fewer iterations emits a prefix of the longer run. */
  lemma {:induction false} OrbitPrefix(start: Point, refs: seq<Point>, k: nat, distance: real)
    requires k <= |refs|
    ensures Orbit(start, refs[..k], distance) == Orbit(start, refs, distance)[..k]
    decreases k
  {
    if k > 0 {
      var next := JumpTowards(start, refs[0], distance);
      assert refs[..k][1..] == refs[1..][..k - 1];
      OrbitPrefix(next, refs[1..], k - 1, distance);
    }
  }

  /** With a jump fraction in [0, 1], a start and references inside a square keep
      every emitted point, and the final one, inside that square. */
  lemma {:induction false} OrbitStaysInSquare(start: Point, refs: seq<Point>, distance: real, lo: real, hi: real)
    requires InSquare(start, lo, hi)
    requires forall k :: 0 <= k < |refs| ==> InSquare(refs[k], lo, hi)
    requires 0.0 <= distance <= 1.0
    ensures forall k :: 0 <= k < |refs| ==> InSquare(Orbit(start, refs, distance)[k], lo, hi)
    ensures InSquare(Walk(start, refs, distance), lo, hi)
    decreases |refs|
  {
    if |refs| > 0 {
      var next := JumpTowards(start, refs[0], distance);
      JumpStaysInSquare(start, refs[0], distance, lo, hi);
      OrbitStaysInSquare(next, refs[1..], distance, lo, hi);
      var e := Orbit(start, refs, distance);
      assert forall k :: 0 < k < |refs| ==> e[k] == Orbit(next, refs[1..], distance)[k - 1];
    }
  }

  /** The chaos game as a whole: `iterations` calls of the closure from the selector
      `sel` over the stream `draws`, read from position `from` on, starting at medial
      point `startDraw`. `None` when the stream runs out before every call has
      returned. */
  function Play(poly: Polygon, iterations: nat, distance: real, startDraw: nat,
                sel: Selector, draws: seq<nat>, from: nat): (r: Option<seq<Point>>)
    requires startDraw < |MedialPoints(poly.Points())|
    requires ValidDraws(draws, |sel.candidates|)
    ensures r.Some? ==> |r.value| == iterations
    ensures r.Some? && iterations > 0 ==> r.value[0] == MedialPoints(poly.Points())[startDraw]
    ensures r.Some? <==> SelectMany(sel, draws, from, iterations).Some?
    ensures r.Some? ==> forall k {:trigger JumpTowards(r.value[k], SelectMany(sel, draws, from, iterations).value.refs[k], distance)} :: 0 <= k < iterations - 1 ==>
      r.value[k + 1] == JumpTowards(r.value[k], SelectMany(sel, draws, from, iterations).value.refs[k], distance)
  {
    match SelectMany(sel, draws, from, iterations)
    case None => None
    case Some(b) => Some(Orbit(MedialPoints(poly.Points())[startDraw], b.refs, distance))
  }

  /** With a jump fraction in [0, 1], a polygon and candidates inside a square keep
      every point the game emits inside that square. */
  lemma PlayStaysInSquare(poly: Polygon, iterations: nat, distance: real, startDraw: nat,
                          sel: Selector, draws: seq<nat>, from: nat, lo: real, hi: real)
    requires startDraw < |MedialPoints(poly.Points())|
    requires ValidDraws(draws, |sel.candidates|)
    requires forall i :: 0 <= i < |poly.Points()| ==> InSquare(poly.Points()[i], lo, hi)
    requires forall i :: 0 <= i < |sel.candidates| ==> InSquare(sel.candidates[i], lo, hi)
    requires 0.0 <= distance <= 1.0
    ensures Play(poly, iterations, distance, startDraw, sel, draws, from).Some? ==>
      forall k :: 0 <= k < iterations ==>
        InSquare(Play(poly, iterations, distance, startDraw, sel, draws, from).value[k], lo, hi)
  {
    var b := SelectMany(sel, draws, from, iterations);
    if b.Some? {
      var refs := b.value.refs;
      var ps := poly.Points();
      MedialPointsStayInSquare(ps, lo, hi);
      SelectManyCandidates(sel, draws, from, iterations);
      MembersInSquare(sel.candidates, refs, lo, hi);
      OrbitStaysInSquare(MedialPoints(ps)[startDraw], refs, distance, lo, hi);
    }
  }

  /** The loop of `chaos_game`, with the emitted points collected instead of printed
      and each `next_point()` call being one `Select` from the current position in
      the stream of draws. */
  method ChaosGame(poly: Polygon, iterations: nat, distance: real, startDraw: nat,
                   sel: Selector, draws: seq<nat>, from: nat) returns (r: Option<seq<Point>>)
    requires startDraw < |MedialPoints(poly.Points())|
    requires ValidDraws(draws, |sel.candidates|)
    ensures r == Play(poly, iterations, distance, startDraw, sel, draws, from)
  {
    var start := MedialPoints(poly.Points())[startDraw];
    var current := start;
    var emitted: seq<Point> := [];
    var state := sel;
    var pos: nat := from;
    ghost var taken: seq<Point> := [];
    var k := 0;
    while k < iterations
      invariant 0 <= k <= iterations
      invariant emitted == Orbit(start, taken, distance)
      invariant current == Walk(start, taken, distance)
      invariant IsBatch(SelectMany(sel, draws, from, k), taken, state, pos)
    {
      var choice := Select(state, draws, pos);
      if choice.None? {
        SelectManyStall(sel, draws, from, k, iterations, taken, state, pos);
        return None;
      }
      var c := choice.value;
      SelectManyExtend(sel, draws, from, k, taken, state, pos, c);
      OrbitExtend(start, taken, c.vertex, distance);
      emitted := emitted + [current];
      current := JumpTowards(current, c.vertex, distance);
      taken := taken + [c.vertex];
      state := c.next;
      pos := c.at + 1;
      k := k + 1;
    }
    r := Some(emitted);
  }
}

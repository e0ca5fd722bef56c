/** The four fractals the binary can draw and the command-line dispatch of `main`.
    Each preset fixes a shape, a candidate list for its closure, a jump fraction
    and a selection policy; the closure's random draws come from one stream. */
module Presets {
  import opened Geometry
  import opened Polygons
  import opened Selection
  import opened Engine
  import opened Wrappers

  datatype Preset = SierpinskiTriangle | SquareOne | SquareTwo | Vicsek

  /** The side of every preset's shape. */
  const Side: real := 100.0

  /** The number of points `main` asks each preset for. */
  const Iterations: nat := 1000000

  /** The polygon whose medial points give the starting point: the triangle for the
      Sierpinski preset, the square for the three others. */
  function Shape(p: Preset): (poly: Polygon)
    ensures p.SierpinskiTriangle? <==> poly.Triangle?
    ensures forall i :: 0 <= i < |poly.Points()| ==> InSquare(poly.Points()[i], 0.0, Side)
  {
    if p.SierpinskiTriangle? then NewEquilateral(Side) else Square(Side)
  }

  /** The vertices of each preset's shape: the triangle (0, 0), (100, 0), (50, 100)
      for the Sierpinski preset, and the square with corners (0, 0), (100, 0),
      (100, 100), (0, 100), in that order, for the three others. */
  lemma ShapeVertices(p: Preset)
    ensures p.SierpinskiTriangle? ==>
      Shape(p).Points() == [Point(0.0, 0.0), Point(Side, 0.0), Point(Side / 2.0, Side)]
    ensures !p.SierpinskiTriangle? ==>
      Shape(p).Points() == [Point(0.0, 0.0), Point(Side, 0.0), Point(Side, Side), Point(0.0, Side)]
  {
  }

  /** The vertex the Vicsek preset adds to the square's corners: the midpoint of the
      first and third corners. */
  function Centre(): (c: Point)
    ensures c == Midpoint(Square(Side).Points()[1], Square(Side).Points()[3])
    ensures forall i :: 0 <= i < 4 ==> c != Square(Side).Points()[i]
  {
    var ps := Square(Side).Points();
    Midpoint(ps[0], ps[2])
  }

  /** The list the closure draws from: the shape's vertices, and for the Vicsek
      preset the centre of the square after them. */
  function Candidates(p: Preset): (cs: seq<Point>)
    ensures |cs| == |Shape(p).Points()| + (if p.Vicsek? then 1 else 0)
    ensures forall i :: 0 <= i < |Shape(p).Points()| ==> cs[i] == Shape(p).Points()[i]
    ensures p.Vicsek? ==> cs[4] == Point(Side / 2.0, Side / 2.0)
  {
    if p.Vicsek? then Square(Side).Points() + [Centre()] else Shape(p).Points()
  }

  /** The fraction of the way to the reference vertex each step covers. The Vicsek
      preset uses the decimal 0.66666666667, a hair above two thirds. */
  function JumpDistance(p: Preset): (d: real)
    ensures 0.0 < d < 1.0
    ensures !p.Vicsek? ==> d == 0.5
    ensures p.Vicsek? ==> 0.0 < d - 2.0 / 3.0 < 0.00000000001
  {
    if p.Vicsek? then 0.66666666667 else 0.5
  }

  /** For every preset but Vicsek, each step lands on the midpoint between the
      current point and the reference vertex. */
  lemma HalfwayPresets(p: Preset, a: Point, b: Point)
    requires !p.Vicsek?
    ensures JumpTowards(a, b, JumpDistance(p)) == Midpoint(a, b)
  {
    HalfJumpIsMidpoint(a, b);
  }

  /** The draws taken before the game starts: the three presets with a previous
      vertex draw it from the candidates first. */
  function SetupDraws(p: Preset): (n: nat)
    ensures n <= 1
    ensures n == 0 <==> p.SierpinskiTriangle?
  {
    if p.SierpinskiTriangle? then 0 else 1
  }

  /** The closure as it is created, its previous vertex (if any) being the candidate
      of the first draw; `None` when the stream is empty and one was needed. */
  function Setup(p: Preset, draws: seq<nat>): (s: Option<Selector>)
    requires ValidDraws(draws, |Candidates(p)|)
    ensures s.Some? <==> SetupDraws(p) <= |draws|
    ensures s.Some? ==> s.value.candidates == Candidates(p)
    ensures s.Some? ==> match p
      case SierpinskiTriangle => s.value.SierpinskiRule?
      case SquareOne => s.value.SquareOneRule? && s.value.prev == Candidates(p)[draws[0]]
      case SquareTwo => s.value.SquareTwoRule? && s.value.prev == Candidates(p)[draws[0]]
      case Vicsek => s.value.VicsekRule? && s.value.prev == Candidates(p)[draws[0]]
  {
    var cs := Candidates(p);
    match p
    case SierpinskiTriangle => Some(SierpinskiRule(cs))
    case _ =>
      if |draws| == 0 then None
      else
        var prev := cs[draws[0]];
        Some(match p
          case SquareOne => SquareOneRule(cs, prev)
          case SquareTwo => SquareTwoRule(cs, prev)
          case _ => VicsekRule(cs, prev))
  }

  /** The outcome of `iterations` calls of a preset's closure, read from the draws
      after the setup; its references are always candidates of the preset. */
  function PresetBatch(p: Preset, iterations: nat, draws: seq<nat>): (b: Option<Batch>)
    requires ValidDraws(draws, |Candidates(p)|)
    ensures b.Some? ==> |b.value.refs| == iterations
    ensures b.Some? ==> forall k :: 0 <= k < iterations ==> b.value.refs[k] in Candidates(p)
  {
    match Setup(p, draws)
    case None => None
    case Some(sel) =>
      SelectManyCandidates(sel, draws, SetupDraws(p), iterations);
      SelectMany(sel, draws, SetupDraws(p), iterations)
  }

  /** One preset's run of the chaos game (`sierpinski_triangle`, `square_one`,
      `square_two`, `vicsek_fractal`): the emitted points start at the chosen medial
      point of the shape and step towards the references of the preset's closure. */
  function RunPreset(p: Preset, iterations: nat, startDraw: nat, draws: seq<nat>): (r: Option<seq<Point>>)
    requires startDraw < |Shape(p).Points()|
    requires ValidDraws(draws, |Candidates(p)|)
    ensures r.Some? <==> PresetBatch(p, iterations, draws).Some?
    ensures r.Some? ==> |r.value| == iterations
    ensures r.Some? && iterations > 0 ==> r.value[0] == MedialPoints(Shape(p).Points())[startDraw]
    ensures r.Some? ==> forall k {:trigger JumpTowards(r.value[k], PresetBatch(p, iterations, draws).value.refs[k], JumpDistance(p))} :: 0 <= k < iterations - 1 ==>
      r.value[k + 1] == JumpTowards(r.value[k], PresetBatch(p, iterations, draws).value.refs[k], JumpDistance(p))
  {
    match Setup(p, draws)
    case None => None
    case Some(sel) => Play(Shape(p), iterations, JumpDistance(p), startDraw, sel, draws, SetupDraws(p))
  }

  /** Once set up, a preset's batch is the batch of its closure after the setup
      draws. */
  lemma PresetBatchUnfold(p: Preset, iterations: nat, draws: seq<nat>)
    requires ValidDraws(draws, |Candidates(p)|)
    requires Setup(p, draws).Some?
    ensures var b := SelectMany(Setup(p, draws).value, draws, SetupDraws(p), iterations);
      && (PresetBatch(p, iterations, draws).Some? <==> b.Some?)
      && (b.Some? ==> PresetBatch(p, iterations, draws).value.refs == b.value.refs)
  {
  }

  /** Every candidate of every preset lies in the square [0, 100] x [0, 100]. */
  lemma CandidatesInSquare(p: Preset)
    ensures forall i :: 0 <= i < |Candidates(p)| ==> InSquare(Candidates(p)[i], 0.0, Side)
  {
  }

  /** Every point any preset emits lies in the square [0, 100] x [0, 100]. */
  lemma PresetStaysInSquare(p: Preset, iterations: nat, startDraw: nat, draws: seq<nat>)
    requires startDraw < |Shape(p).Points()|
    requires ValidDraws(draws, |Candidates(p)|)
    ensures RunPreset(p, iterations, startDraw, draws).Some? ==>
      forall k :: 0 <= k < iterations ==> InSquare(RunPreset(p, iterations, startDraw, draws).value[k], 0.0, Side)
  {
    var s := Setup(p, draws);
    if s.Some? {
      var sel, poly, d := s.value, Shape(p), JumpDistance(p);
      assert RunPreset(p, iterations, startDraw, draws) == Play(poly, iterations, d, startDraw, sel, draws, SetupDraws(p));
      CandidatesInSquare(p);
      PlayStaysInSquare(poly, iterations, d, startDraw, sel, draws, SetupDraws(p), 0.0, Side);
    }
  }

  /** The Sierpinski and Vicsek presets never reject a draw: they fail only when the
      stream is shorter than the setup draws plus one per iteration, and the
      reference of iteration k is the candidate of the draw right after the setup. */
  lemma FirstDrawPresets(p: Preset, iterations: nat, draws: seq<nat>)
    requires p.SierpinskiTriangle? || p.Vicsek?
    requires ValidDraws(draws, |Candidates(p)|)
    ensures PresetBatch(p, iterations, draws).Some? <==> SetupDraws(p) + iterations <= |draws|
    ensures PresetBatch(p, iterations, draws).Some? ==>
      forall k :: 0 <= k < iterations ==>
        PresetBatch(p, iterations, draws).value.refs[k] == Candidates(p)[draws[SetupDraws(p) + k]]
  {
    var s := Setup(p, draws);
    if s.Some? {
      FirstDrawRulesNeverStall(s.value, draws, SetupDraws(p), iterations);
    }
  }

  /** The square presets' closures start reading the stream after the draw that set
      their previous vertex: the first reference is the candidate of some later draw,
      and every draw between the two was rejected. */
  lemma SquarePresetsDrawAfterSetup(p: Preset, iterations: nat, draws: seq<nat>)
    requires p.SquareOne? || p.SquareTwo?
    requires ValidDraws(draws, |Candidates(p)|)
    ensures PresetBatch(p, iterations, draws).Some? && iterations > 0 ==>
      exists j :: 1 <= j < |draws|
        && PresetBatch(p, iterations, draws).value.refs[0] == Candidates(p)[draws[j]]
        && forall i :: 1 <= i < j ==> !Accepts(Setup(p, draws).value, Candidates(p)[draws[i]])
  {
    var s := Setup(p, draws);
    if s.Some? && iterations > 0 && PresetBatch(p, iterations, draws).Some? {
      var sel := s.value;
      PresetBatchUnfold(p, iterations, draws);
      var c, tail := SelectManyHead(sel, draws, 1, iterations);
      SelectIsFirstAcceptable(sel, draws, 1);
      assert PresetBatch(p, iterations, draws).value.refs[0] == Candidates(p)[draws[c.at]];
    }
  }

  /** The corner diagonally across the square from `v`. */
  function Opposite(v: Point): (w: Point)
    ensures Midpoint(v, w) == Point(Side / 2.0, Side / 2.0)
  {
    Point(Side - v.x, Side - v.y)
  }

  /** No corner lies on a mid-line of the square, so no corner shares a coordinate
      with its opposite. */
  lemma CornerOffMidlines(v: Point)
    requires v in Square(Side).Points()
    ensures v.x != Side / 2.0 && v.y != Side / 2.0
    ensures !SharesCoordinate(v, Opposite(v))
  {
  }

  /** On the square's corners, the square-one policy accepts every corner but the
      previous one, and the square-two policy every corner but the opposite one. */
  lemma SquarePoliciesOnCorners(cs: seq<Point>, prev: Point, v: Point)
    requires prev in Square(Side).Points() && v in Square(Side).Points()
    ensures Accepts(SquareOneRule(cs, prev), v) <==> v != prev
    ensures Accepts(SquareTwoRule(cs, prev), v) <==> v != Opposite(prev)
  {
  }

  /** The square-one preset never returns the same corner twice in a row, nor the
      corner drawn as its initial previous vertex first. */
  lemma SquareOneNeverRepeats(iterations: nat, draws: seq<nat>)
    requires ValidDraws(draws, |Candidates(SquareOne)|)
    ensures PresetBatch(SquareOne, iterations, draws).Some? ==>
      var refs := PresetBatch(SquareOne, iterations, draws).value.refs;
      && (iterations > 0 ==> refs[0] != Candidates(SquareOne)[draws[0]])
      && forall k :: 0 < k < iterations ==> refs[k] != refs[k - 1]
  {
    var s := Setup(SquareOne, draws);
    if s.Some? {
      var sel := s.value;
      PresetBatchUnfold(SquareOne, iterations, draws);
      SelectManyAccepted(sel, draws, 1, iterations);
      var b := SelectMany(sel, draws, 1, iterations);
      if b.Some? {
        SquareOneRun(sel.candidates, sel.prev, b.value.refs);
      }
    }
  }

  /** The square-two preset may repeat a corner but never jumps towards the corner
      opposite the one it returned before (the first call: opposite the initial
      previous vertex). */
  lemma SquareTwoNeverCrosses(iterations: nat, draws: seq<nat>)
    requires ValidDraws(draws, |Candidates(SquareTwo)|)
    ensures PresetBatch(SquareTwo, iterations, draws).Some? ==>
      var refs := PresetBatch(SquareTwo, iterations, draws).value.refs;
      && (iterations > 0 ==> refs[0] != Opposite(Candidates(SquareTwo)[draws[0]]))
      && forall k :: 0 < k < iterations ==> refs[k] != Opposite(refs[k - 1])
  {
    var s := Setup(SquareTwo, draws);
    if s.Some? {
      var sel := s.value;
      PresetBatchUnfold(SquareTwo, iterations, draws);
      SelectManyAccepted(sel, draws, 1, iterations);
      var b := SelectMany(sel, draws, 1, iterations);
      if b.Some? {
        var refs := b.value.refs;
        var corners := Square(Side).Points();
        SquareTwoRun(sel.candidates, sel.prev, refs);
        assert sel.prev in corners;
        CornerOffMidlines(sel.prev);
        forall k | 0 < k < iterations
          ensures refs[k] != Opposite(refs[k - 1])
        {
          assert refs[k - 1] in corners;
          CornerOffMidlines(refs[k - 1]);
        }
      }
    }
  }

  /** The name `main` recognises for each preset. */
  function Name(p: Preset): (s: string)
    ensures |s| > 0
  {
    match p
    case SierpinskiTriangle => "sierpinski-triangle"
    case SquareOne => "square-one"
    case SquareTwo => "square-two"
    case Vicsek => "vicsek"
  }

  /** `main`'s match on its first argument: no argument selects the Sierpinski
      triangle, a preset's name selects that preset, and anything else is the
      panic message for an unimplemented command. */
  function Dispatch(arg: Option<string>): (r: Result<Preset, string>)
    ensures arg.None? ==> r == Success(SierpinskiTriangle)
    ensures arg.Some? && r.Success? ==> Name(r.value) == arg.value
    ensures r.Failure? <==> arg.Some? && forall p: Preset :: Name(p) != arg.value
    ensures r.Failure? ==> r.error == arg.value + " is not yet implemented"
  {
    match arg
    case None => Success(SierpinskiTriangle)
    case Some(cmd) =>
      if cmd == "sierpinski-triangle" then Success(SierpinskiTriangle)
      else if cmd == "square-one" then Success(SquareOne)
      else if cmd == "square-two" then Success(SquareTwo)
      else if cmd == "vicsek" then Success(Vicsek)
      else Failure(cmd + " is not yet implemented")
  }

  /** Each preset is reached by its own name, so the names are distinct. */
  lemma DispatchName(p: Preset)
    ensures Dispatch(Some(Name(p))) == Success(p)
    ensures forall q: Preset :: Name(q) == Name(p) ==> q == p
  {
  }

  /** The whole binary: dispatch on the argument, then run the selected preset for
      `Iterations` points. */
  function Launch(arg: Option<string>, startDraw: nat, draws: seq<nat>): (r: Result<Option<seq<Point>>, string>)
    requires Dispatch(arg).Success? ==>
      startDraw < |Shape(Dispatch(arg).value).Points()| && ValidDraws(draws, |Candidates(Dispatch(arg).value)|)
    ensures r.Failure? <==> Dispatch(arg).Failure?
    ensures r.Failure? ==> r.error == Dispatch(arg).error
    ensures r.Success? && r.value.Some? ==> |r.value.value| == Iterations
    ensures r.Success? ==> r.value == RunPreset(Dispatch(arg).value, Iterations, startDraw, draws)
    ensures arg.None? ==> r == Success(RunPreset(SierpinskiTriangle, Iterations, startDraw, draws))
  {
    match Dispatch(arg)
    case Failure(e) => Failure(e)
    case Success(p) => Success(RunPreset(p, Iterations, startDraw, draws))
  }
}

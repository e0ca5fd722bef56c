# Chaos game, modelled in Dafny

A model of the `chaos-game` binary of the `rndm_algos` repository
(`src/bin/chaos-game.rs`). The binary plays the chaos game to draw a fractal. It
starts at a medial point of a polygon and repeatedly jumps a fixed fraction of the
way towards a reference vertex, which a closure returns on each call. Every point
is printed before the jump away from it, so the point reached by the last jump is
never printed.

The four presets differ as follows:

- **sierpinski-triangle**: a triangle. The closure picks any vertex. The jump is 0.5.
- **square-one**: a square. The closure redraws until the vertex differs from the
  previous one. The jump is 0.5.
- **square-two**: a square. The closure redraws until the vertex shares x or y
  with the previous one. The jump is 0.5.
- **vicsek**: the square's corners plus its centre. The closure picks any of the
  five. The jump is 0.66666666667.

The modules follow the structure of the source file:

- `Geometry`: `Point`, `midpoint` and `jump_towards`.
- `Polygons`: the `Polygon` capability as one datatype with a triangle and a
  quadrilateral constructor, plus `medial_points`, `new_equilateral` and `square`.
- `Selection`: the four closures as one explicit state machine. Each draw is an
  index into the candidate list. A call consumes draws until its policy accepts one.
- `Engine`: `chaos_game`. `Play` states it as a function and `ChaosGame` is its
  loop, proved equal to `Play`.
- `Presets`: the four preset functions, the `ITERATIONS` constant and `main`'s
  dispatch on its argument.

Randomness enters as data:

- `startDraw` is the index of the medial point that `chaos_game` picks with its
  own `thread_rng()` handle.
- `draws` is the stream of indices that the preset's generator yields.
- For square-one, square-two and vicsek, the first draw of the stream is the
  initial previous vertex, as in the source, where `prev_vertex` is chosen from
  the same generator before the game starts.
- A run whose stream ends before every call has returned yields `None`.

Printing is replaced by returning the sequence of emitted points.

Two details of the code are kept as written:

- `Triangle::new_equilateral` builds the triangle with apex `(length / 2, length)`.
  That triangle is isosceles, not equilateral: its legs have squared length
  `5/4 * length^2` (`NewEquilateralShape`). The fractal construction does not
  depend on the triangle being equilateral, so the model keeps the code's vertices.
- The Vicsek fractal is usually drawn with a jump fraction of 2/3. The code uses
  the decimal literal `0.66666666667`, and the model does too.
  `JumpDistance` states that it lies within 10^-11 above 2/3.

## Model

| member | source | states |
|---|---|---|
| Geometry.Midpoint | src/bin/chaos-game.rs:28-32 | the midpoint is as far from the first point as the second point is from it, in each coordinate |
| Geometry.JumpDisplacement | src/bin/chaos-game.rs:34-38 | the jump moves from `p` by `distance` times the vector from `p` to `q` |
| Geometry.MidpointSymmetric | src/bin/chaos-game.rs:28-32 | the midpoint does not depend on the order of its arguments |
| Geometry.MidpointOfSelf | src/bin/chaos-game.rs:28-32 | the midpoint of a point with itself is that point |
| Geometry.JumpEndpoints | src/bin/chaos-game.rs:34-38 | a jump of fraction 0 stays put; a jump of fraction 1 lands on the target |
| Geometry.HalfJumpIsMidpoint | src/bin/chaos-game.rs:34-38 | a jump of fraction 0.5, from either end, reaches the midpoint |
| Geometry.JumpStaysInSquare | src/bin/chaos-game.rs:34-38 | a jump with a fraction in [0, 1] between two points of a square stays in the square |
| Geometry.MidpointStaysInSquare | src/bin/chaos-game.rs:28-32 | the midpoint of two points of a square is in the square |
| Polygons.Polygon.Points | src/bin/chaos-game.rs:103-133 | a triangle's vertex list is `a`, `b`, `c` and a quadrilateral's is `a`, `b`, `c`, `d`, in that order (the two `points` methods at :103-105 and :131-133) |
| Polygons.MedialPoints | src/bin/chaos-game.rs:45-58 | one medial point per vertex; point i is the midpoint of vertex i and vertex (i + 1) mod n |
| Polygons.MedialPointsWrapAround | src/bin/chaos-game.rs:50-51 | the last medial point joins the last vertex to the first |
| Polygons.MedialPointsStayInSquare | src/bin/chaos-game.rs:45-58 | medial points of vertices inside a square are inside it |
| Polygons.NewEquilateralShape | src/bin/chaos-game.rs:94-99 | the vertices are (0, 0), (length, 0) and an apex at height `length` over the middle of the base; the two legs are equal, with squared length 5/4 length^2 |
| Polygons.SquareCorners | src/bin/chaos-game.rs:121-127 | for a non-zero side the four corners are distinct, and two corners share a coordinate exactly when they are not opposite |
| Polygons.SquareMedialPoints | src/bin/chaos-game.rs:121-127 | the square's medial points are the midpoints of its sides, and none is a corner |
| Selection.Advance | src/bin/chaos-game.rs:170-173 | accepting a vertex keeps the candidate list |
| Selection.AdvanceRemembers | src/bin/chaos-game.rs:170-173 | the square rules remember the accepted vertex as previous, and the Sierpinski and Vicsek rules keep their state unchanged |
| Selection.Select | src/bin/chaos-game.rs:168-174 | a call returns the candidate of the accepted draw, that vertex passes the policy, and the state moves on with it |
| Selection.SelectIsFirstAcceptable | src/bin/chaos-game.rs:168-174 | a call fails exactly when every remaining draw is rejected, and otherwise returns the first accepted draw, every earlier one rejected |
| Selection.SquareOneSelect | src/bin/chaos-game.rs:168-174 | under square-one, the returned vertex differs from the previous one and is the first draw that does |
| Selection.SquareTwoSelect | src/bin/chaos-game.rs:185-191 | under square-two, the returned vertex shares a coordinate with the previous one and is the first draw that does |
| Selection.SquareTwoAllowsRepeat | src/bin/chaos-game.rs:187-189 | square-two accepts a draw of the previous vertex itself |
| Selection.FirstDrawRules | src/bin/chaos-game.rs:204-207 | the Sierpinski and Vicsek closures return the next draw's candidate and keep their state |
| Selection.VicsekIgnoresPrevious | src/bin/chaos-game.rs:203-207 | the Vicsek closure's choice does not depend on its previous vertex |
| Selection.SelectMany | src/bin/chaos-game.rs:73-78 | `n` successive calls return `n` vertices, consume at least `n` draws and keep the candidate list |
| Selection.SelectManySplit | src/bin/chaos-game.rs:73-78 | `k + m` calls are `k` calls followed by `m` calls from where the first `k` stopped |
| Selection.SelectManyCandidates | src/bin/chaos-game.rs:164-173 | every vertex a sequence of calls returns is a candidate |
| Selection.SelectManyAccepted | src/bin/chaos-game.rs:168-174 | every returned vertex is accepted by the state at its call, and the final state is the one those vertices lead to |
| Selection.FirstDrawRulesNeverStall | src/bin/chaos-game.rs:155-157 | rules that never reject succeed exactly when enough draws remain, returning the candidates of consecutive draws |
| Selection.SquareOneRun | src/bin/chaos-game.rs:167-174 | along a square-one run no vertex equals the one before it, the first included, and the state ends holding the last |
| Selection.SquareTwoRun | src/bin/chaos-game.rs:184-191 | along a square-two run each vertex shares a coordinate with the one before it, and the state ends holding the last |
| Engine.Orbit | src/bin/chaos-game.rs:73-78 | one point is emitted per reference: the start first, then each point is the jump from the previous one towards its reference |
| Engine.OrbitExtend | src/bin/chaos-game.rs:73-78 | one more iteration emits the current point and then jumps from it |
| Engine.LastReferenceUnused | src/bin/chaos-game.rs:73-78 | the reference returned by the last call has no effect on the emitted points |
| Engine.OrbitPrefix | src/bin/chaos-game.rs:73-78 | fewer iterations emit a prefix of a longer run |
| Engine.OrbitStaysInSquare | src/bin/chaos-game.rs:73-78 | with a fraction in [0, 1], a start and references inside a square keep every emitted point inside it |
| Engine.Play | src/bin/chaos-game.rs:63-79 | the game emits `iterations` points starting at the chosen medial point, each the jump from the previous towards the closure's reference; it fails exactly when the closure does |
| Engine.PlayStaysInSquare | src/bin/chaos-game.rs:63-79 | with a fraction in [0, 1], a polygon and candidates inside a square keep every emitted point inside it |
| Engine.ChaosGame | src/bin/chaos-game.rs:63-79 | the loop of `chaos_game` produces exactly the points `Play` describes |
| Presets.Shape | src/bin/chaos-game.rs:150-163 | the Sierpinski preset uses a triangle and the others a quadrilateral, all with vertices in [0, 100]^2 |
| Presets.ShapeVertices | src/bin/chaos-game.rs:150-163 | the Sierpinski preset uses the triangle (0, 0), (100, 0), (50, 100) and the others the square (0, 0), (100, 0), (100, 100), (0, 100), in that order |
| Presets.Centre | src/bin/chaos-game.rs:199-200 | the added Vicsek vertex is the centre of the square, also the midpoint of the other diagonal, and no corner |
| Presets.Candidates | src/bin/chaos-game.rs:195-200 | the candidates are the shape's vertices, with the centre (50, 50) appended for Vicsek |
| Presets.JumpDistance | src/bin/chaos-game.rs:151-196 | the fraction is 0.5 for every preset but Vicsek, whose fraction lies within 10^-11 above 2/3 |
| Presets.HalfwayPresets | src/bin/chaos-game.rs:150-191 | for every preset but Vicsek, each step lands on the midpoint between the current point and the reference vertex |
| Presets.Setup | src/bin/chaos-game.rs:166-167 | the closure is created with the preset's rule and candidates, and its previous vertex is the candidate of the first draw |
| Presets.PresetBatch | src/bin/chaos-game.rs:155-157 | a preset's closure returns one candidate per iteration |
| Presets.RunPreset | src/bin/chaos-game.rs:150-158 | a preset run emits `iterations` points from a medial point of its shape, each the jump towards the closure's reference by the preset's fraction |
| Presets.CandidatesInSquare | src/bin/chaos-game.rs:195-200 | every preset's candidates lie in [0, 100]^2 |
| Presets.PresetStaysInSquare | src/bin/chaos-game.rs:150-208 | every point any preset emits lies in [0, 100]^2 |
| Presets.FirstDrawPresets | src/bin/chaos-game.rs:194-208 | the Sierpinski and Vicsek presets fail only for a stream shorter than the setup plus one draw per iteration, and use consecutive draws |
| Presets.SquarePresetsDrawAfterSetup | src/bin/chaos-game.rs:166-191 | the square-one and square-two closures draw only after the draw that set the previous vertex: the first reference is the candidate of a later draw, every draw in between rejected |
| Presets.CornerOffMidlines | src/bin/chaos-game.rs:121-127 | no corner of the square shares a coordinate with its opposite corner |
| Presets.SquarePoliciesOnCorners | src/bin/chaos-game.rs:168-191 | on corners, square-one accepts all but the previous one and square-two all but the opposite one |
| Presets.SquareOneNeverRepeats | src/bin/chaos-game.rs:161-175 | the square-one preset never returns the same corner twice in a row, starting from the initially drawn one |
| Presets.SquareTwoNeverCrosses | src/bin/chaos-game.rs:178-192 | the square-two preset never jumps towards the corner opposite the one before |
| Presets.Dispatch | src/bin/chaos-game.rs:138-147 | no argument selects Sierpinski; a preset's name selects it; anything else fails with "<arg> is not yet implemented" |
| Presets.DispatchName | src/bin/chaos-game.rs:139-144 | each preset is selected by its own name, and the names are distinct |
| Presets.Launch | src/bin/chaos-game.rs:136-147 | the binary fails exactly when dispatch does, with its message, and otherwise runs the selected preset for `ITERATIONS` points |

## Left out

- Printing: each emitted point is returned in a sequence instead of written to
  standard output.
- Random number generation: `rand::thread_rng` and `choose` are replaced by the
  inputs `startDraw` and `draws`, which range over every possible outcome. The
  draws must be valid indices into the list being drawn from. In the source both
  `thread_rng()` handles share one thread-local generator, so the start draw falls
  between the previous-vertex draw and the closure's draws. The model takes it as a
  separate input; since every input value is allowed, every interleaving is covered.
- Termination of the rejection loops: in the source they end with probability 1.
  Here they end with `None` when the finite stream of draws is exhausted.
- Floating point: `f64` arithmetic is modelled with exact reals. Rounding, and the
  binary value of `0.66666666667`, are not modelled.
- `usize` bounds on the iteration count: the count is a natural number.
- `std::env::args`: the first argument is an input `Option<string>`. `panic!` is
  modelled as a `Failure` carrying the panic message.
- The `expect("Shouldn't be empty")` calls: every list drawn from has 3, 4 or 5
  elements, so they cannot fail.
- Selection.Accepts: it has no postcondition. Its meaning is stated by
  `SquareOneSelect`, `SquareTwoSelect`, `FirstDrawRules` and
  `SquarePoliciesOnCorners`.
- Geometry.JumpTowards: it has no postcondition. Its formula is stated by the
  lemmas `JumpDisplacement`, `JumpEndpoints` and `HalfJumpIsMidpoint`, so that
  proofs about whole runs do not carry nonlinear arithmetic at every jump.
- Polygons.NewEquilateral: its contract only says the result is a triangle. The
  vertices are stated by `NewEquilateralShape`.
- Polygons.Square: its contract only says the result is a quadrilateral. The
  corners are stated by `SquareCorners` and `SquareMedialPoints`.

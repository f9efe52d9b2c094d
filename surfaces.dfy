/**
 * The two materials of the scene. Each is a bundle of functions of the
 * surface point in the original; here a two-variant datatype dispatched by
 * match.
 */
module Surfaces {
  import opened Vectors
  import opened Colors

  datatype Surface = CheckerBoard | Shiny

  /** The checkerboard's "odd square" test `(floor z + floor x) % 2 != 0` on the X-Z plane. */
  predicate OddSquare(pos: Vector)
  {
    (pos.Z.Floor + pos.X.Floor) % 2 != 0
  }

  function Diffuse(s: Surface, pos: Vector): (c: Color)
    ensures c == White || c == Black
    ensures s == CheckerBoard ==> (c == White <==> OddSquare(pos))
    ensures s == Shiny ==> c == White
  {
    match s
    case CheckerBoard => if OddSquare(pos) then White else Black
    case Shiny => White
  }

  function Specular(s: Surface, pos: Vector): (c: Color)
    ensures s == CheckerBoard ==> c == White
    ensures s == Shiny ==> c == Grey
  {
    match s
    case CheckerBoard => White
    case Shiny => Grey
  }

  /** Reflectivity: 0.1 on odd checkerboard squares, 0.7 on even ones, 0.6 on Shiny. */
  function Reflect(s: Surface, pos: Vector): (k: real)
    ensures 0.0 <= k <= 1.0
  {
    match s
    case CheckerBoard => if OddSquare(pos) then 0.1 else 0.7
    case Shiny => 0.6
  }

  function Roughness(s: Surface): (p: real)
    ensures p > 0.0
  {
    match s
    case CheckerBoard => 150.0
    case Shiny => 50.0
  }

  /** Moving one unit along X flips the checkerboard's square, its colour and its reflectivity. */
  lemma CheckerBoardAlternates(pos: Vector)
    ensures OddSquare(Vectors.Plus(pos, Vector(1.0, 0.0, 0.0))) <==> !OddSquare(pos)
    ensures Diffuse(CheckerBoard, Vectors.Plus(pos, Vector(1.0, 0.0, 0.0))) != Diffuse(CheckerBoard, pos)
    ensures Reflect(CheckerBoard, Vectors.Plus(pos, Vector(1.0, 0.0, 0.0))) != Reflect(CheckerBoard, pos)
  {
    var next := Vectors.Plus(pos, Vector(1.0, 0.0, 0.0));
    assert next.X.Floor == pos.X.Floor + 1;
    assert next.Z == pos.Z;
  }

  /** White squares are the dull ones (0.1), black squares the mirror-like ones (0.7). */
  lemma CheckerBoardReflectFollowsColor(pos: Vector)
    ensures Reflect(CheckerBoard, pos) == (if Diffuse(CheckerBoard, pos) == White then 0.1 else 0.7)
  {
  }
}

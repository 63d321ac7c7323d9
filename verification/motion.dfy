/**
 * Where the head goes in one tick of `move`, `moveRight` and `moveLeft`,
 * before `moveBody` wraps it. The turns use `cos` and `sin` of the turning
 * angle; these are parameters here (`c`, `s`), so every fact below holds for
 * whatever values the floating-point library returns, and the facts that
 * need `c * c + s * s == 1` say so.
 */
module Motion {
  import opened Geometry

  /** Head position and unit heading (`position`, `vector`). */
  datatype Pose = Pose(pos: Vector2, heading: Vector2)

  /** `move`: advance `speed` along the heading. */
  function Straight(p: Pose, speed: real): (q: Pose)
    ensures q.heading == p.heading
    ensures q.pos.Minus(p.pos) == p.heading.Scale(speed)
  {
    Pose(p.pos.Plus(p.heading.Scale(speed)), p.heading)
  }

  /**
   * A straight step from the playfield, no longer than the playfield and along a
   * heading whose components lie in [-1, 1], is back on the playfield after the wrap.
   */
  lemma StraightStaysInField(p: Pose, speed: real)
    requires InField(p.pos) && 0.0 <= speed <= WIDTH as real && speed <= HEIGHT as real
    requires -1.0 <= p.heading.x <= 1.0 && -1.0 <= p.heading.y <= 1.0
    ensures InField(Wrap(Straight(p, speed).pos))
  {
    ScaledByUnitBound(speed, p.heading.x);
    ScaledByUnitBound(speed, p.heading.y);
    WrapInField(Straight(p, speed).pos);
  }

  /** The heading turned by the angle whose cosine and sine are `c` and `s`. */
  function Rotate(v: Vector2, c: real, s: real): Vector2 {
    Vector2(v.x * c - v.y * s, v.x * s + v.y * c)
  }

  /** The chord the source subtracts (right turn) or adds (left turn), before scaling by the turning radius. */
  function Chord(v: Vector2, c: real, s: real): Vector2 {
    Vector2(v.y - v.x * s - v.y * c, -v.x + v.x * c - v.y * s)
  }

  /** `moveRight` before `moveBody`: `position -= r * Chord(v, cos a, sin a)`, heading turned by `a`. */
  function TurnRight(p: Pose, r: real, c: real, s: real): Pose {
    Pose(p.pos.Minus(Chord(p.heading, c, s).Scale(r)), Rotate(p.heading, c, s))
  }

  /** `moveLeft` before `moveBody`: the same with angle `-a`, i.e. `cos a` and `-sin a`. */
  function TurnLeft(p: Pose, r: real, c: real, s: real): Pose {
    Pose(p.pos.Plus(Chord(p.heading, c, -s).Scale(r)), Rotate(p.heading, c, -s))
  }

  /** The point a right turn circles around: `r` units to the right of the heading (screen y grows downwards). */
  function RightPivot(p: Pose, r: real): Vector2 {
    p.pos.Plus(Vector2(-p.heading.y, p.heading.x).Scale(r))
  }

  /** The point a left turn circles around. */
  function LeftPivot(p: Pose, r: real): Vector2 {
    p.pos.Plus(Vector2(p.heading.y, -p.heading.x).Scale(r))
  }

  /**
   * A right turn keeps its pivot exactly, for any `c` and `s`: successive right
   * turns move the head on one circle about a fixed centre instead of drifting.
   */
  lemma TurnRightKeepsPivot(p: Pose, r: real, c: real, s: real)
    ensures RightPivot(TurnRight(p, r, c, s), r) == RightPivot(p, r)
  {
  }

  lemma TurnLeftKeepsPivot(p: Pose, r: real, c: real, s: real)
    ensures LeftPivot(TurnLeft(p, r, c, s), r) == LeftPivot(p, r)
  {
  }

  /** With a true cosine/sine pair, turning keeps the length of the heading. */
  lemma RotateKeepsLength(v: Vector2, c: real, s: real)
    requires c * c + s * s == 1.0
    ensures Rotate(v, c, s).Norm2() == v.Norm2()
  {
  }

  /** The head stays `r` times the heading's length from the pivot; with a unit heading, at distance `r`. */
  lemma PivotDistance(p: Pose, r: real)
    ensures RightPivot(p, r).Minus(p.pos).Norm2() == r * r * p.heading.Norm2()
    ensures LeftPivot(p, r).Minus(p.pos).Norm2() == r * r * p.heading.Norm2()
  {
  }
}

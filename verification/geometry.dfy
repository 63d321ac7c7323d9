/**
 * Plane geometry of the playfield: vectors, the circle overlap test
 * `intersect` and the toroidal wrap performed by `normilizePosition`.
 * Coordinates are the game's `float`s, modelled as exact reals.
 */
module Geometry {

  /** Playfield size in pixels (`WIDTH`, `HEIGHT`). */
  const WIDTH: int := 800
  const HEIGHT: int := 800

  datatype Vector2 = Vector2(x: real, y: real) {
    function Plus(o: Vector2): Vector2 { Vector2(x + o.x, y + o.y) }
    function Minus(o: Vector2): Vector2 { Vector2(x - o.x, y - o.y) }
    function Scale(k: real): Vector2 { Vector2(k * x, k * y) }
    /** Squared Euclidean length. */
    function Norm2(): real { x * x + y * y }
  }

  /** A circle shape as the game positions it: centre (its origin is set to the middle) and radius. */
  datatype Circle = Circle(center: Vector2, radius: real)

  /**
   * `intersect`: the distance between the centres is at most the sum of the radii.
   * The square root is avoided: `sqrt(d2) <= reach` holds exactly when
   * `0 <= reach && d2 <= reach * reach` (see IntersectByDistance).
   */
  predicate Intersect(a: Circle, b: Circle)
    ensures Intersect(a, b) ==> 0.0 <= a.radius + b.radius
  {
    var d2 := a.center.Minus(b.center).Norm2();
    var reach := a.radius + b.radius;
    0.0 <= reach && d2 <= reach * reach
  }

  /** Any non-negative `dist` whose square is the squared distance is the square root the source takes. */
  lemma IntersectByDistance(a: Circle, b: Circle, dist: real)
    requires 0.0 <= dist && dist * dist == a.center.Minus(b.center).Norm2()
    ensures Intersect(a, b) <==> dist <= a.radius + b.radius
  {
    var reach := a.radius + b.radius;
    if dist <= reach {
      SquareMonotone(dist, reach);
    } else if 0.0 <= reach {
      SquareStrictlyMonotone(reach, dist);
    }
  }

  lemma IntersectSymmetric(a: Circle, b: Circle)
    ensures Intersect(a, b) == Intersect(b, a)
  {
    var d := a.center.Minus(b.center);
    var e := b.center.Minus(a.center);
    assert e.x * e.x == d.x * d.x && e.y * e.y == d.y * d.y;
  }

  /** Circles with the same centre always intersect. */
  lemma IntersectConcentric(a: Circle, b: Circle)
    requires 0.0 <= a.radius && 0.0 <= b.radius && a.center == b.center
    ensures Intersect(a, b)
  {
    var reach := a.radius + b.radius;
    ProductNonNegative(reach, reach);
    var d := a.center.Minus(b.center);
    assert d.Norm2() == 0.0;
    assert d.Norm2() <= reach * reach;
  }

  /** The test is closed: circles that only touch intersect. */
  lemma IntersectTouching(a: Circle, b: Circle)
    requires 0.0 <= a.radius && 0.0 <= b.radius
    requires a.center.y == b.center.y && b.center.x == a.center.x + a.radius + b.radius
    ensures Intersect(a, b)
  {
  }

  /** Circles with non-negative radii further apart than their radii allow do not intersect. */
  lemma IntersectApart(a: Circle, b: Circle)
    requires 0.0 <= a.radius && 0.0 <= b.radius
    requires a.center.y == b.center.y && b.center.x > a.center.x + a.radius + b.radius
    ensures !Intersect(a, b)
  {
    var dx := b.center.x - a.center.x;
    assert a.center.Minus(b.center).Norm2() == dx * dx;
    SquareStrictlyMonotone(a.radius + b.radius, dx);
  }

  /** Number of times the loop of `normilizePosition` subtracts `size` from `y`. */
  function Laps(y: real, size: int): (k: nat)
    requires 0 < size
    ensures y - (k * size) as real < size as real
    ensures 0.0 <= y ==> 0.0 <= y - (k * size) as real
    decreases y.Floor
  {
    if y >= size as real then 1 + Laps(y - size as real, size) else 0
  }

  /** What the subtracting loop leaves of `y`. */
  function Reduced(y: real, size: int): real
    requires 0 < size
  {
    y - (Laps(y, size) * size) as real
  }

  /** One coordinate of `normilizePosition`: add `size` once, then subtract it while the value is at least `size`. */
  function WrapCoord(v: real, size: int): (r: real)
    requires 0 < size
    ensures r < size as real
    ensures 0.0 <= r <==> -(size as real) <= v
  {
    Reduced(v + size as real, size)
  }

  /** On the playfield: `[0, WIDTH) × [0, HEIGHT)`. */
  predicate InField(p: Vector2) {
    0.0 <= p.x < WIDTH as real && 0.0 <= p.y < HEIGHT as real
  }

  /** `normilizePosition`, both coordinates: on the playfield exactly when neither coordinate is more than a playfield below zero. */
  function Wrap(p: Vector2): (w: Vector2)
    ensures w.x < WIDTH as real && w.y < HEIGHT as real
    ensures InField(w) <==> -(WIDTH as real) <= p.x && -(HEIGHT as real) <= p.y
  {
    Vector2(WrapCoord(p.x, WIDTH), WrapCoord(p.y, HEIGHT))
  }

  /** A shift by a whole number of playfield sizes. */
  function Shift(k: int, size: int): real {
    (k * size) as real
  }

  /** The wrap only moves a coordinate by whole playfield sizes. */
  lemma WrapCongruent(v: real, size: int)
    requires 0 < size
    ensures exists k: int {:trigger Shift(k, size)} :: WrapCoord(v, size) == v + Shift(k, size)
  {
    var k: int := Laps(v + size as real, size);
    assert WrapCoord(v, size) == v + Shift(1 - k, size);
  }

  /** Points already on the playfield are left where they are. */
  lemma WrapIdentity(v: real, size: int)
    requires 0 < size && 0.0 <= v < size as real
    ensures WrapCoord(v, size) == v
  {
    assert Laps(v, size) == 0;
    assert Laps(v + size as real, size) == 1 + Laps(v, size);
  }

  /** Two values in `[0, size)` a whole number of sizes apart are equal. */
  lemma CongruentInRange(a: real, b: real, k: int, size: int)
    requires 0 < size && 0.0 <= a < size as real && 0.0 <= b < size as real
    requires a == b + Shift(k, size)
    ensures a == b
  {
  }

  /** For every input at least `-size` the wrap is idempotent. */
  lemma WrapIdempotent(v: real, size: int)
    requires 0 < size && -(size as real) <= v
    ensures WrapCoord(WrapCoord(v, size), size) == WrapCoord(v, size)
  {
    WrapIdentity(WrapCoord(v, size), size);
  }

  /** Below `-size` a single wrap leaves the value negative, so wrapping again moves it. */
  lemma WrapNotIdempotent(v: real, size: int)
    requires 0 < size && v < -(size as real)
    ensures WrapCoord(v, size) == v + size as real < 0.0
    ensures WrapCoord(WrapCoord(v, size), size) != WrapCoord(v, size)
  {
    assert Laps(v + size as real, size) == 0;
    var w := v + size as real;
    assert Laps(w + size as real, size) == 0;
  }

  /** A concrete instance of the above on the 800-pixel playfield. */
  lemma WrapNotIdempotentExample()
    ensures WrapCoord(-1000.0, WIDTH) == -200.0
    ensures WrapCoord(WrapCoord(-1000.0, WIDTH), WIDTH) == 600.0
  {
    WrapNotIdempotent(-1000.0, WIDTH);
    WrapIdentity(600.0, WIDTH);
  }

  /** Moving a wrapped coordinate by `d` and wrapping is the same as wrapping the whole displacement. */
  lemma WrapAbsorbs(v: real, d: real, size: int)
    requires 0 < size
    requires -(size as real) <= v && -(size as real) <= d && -(size as real) <= v + d
    ensures WrapCoord(WrapCoord(v, size) + d, size) == WrapCoord(v + d, size)
  {
    var w := WrapCoord(v, size);
    WrapCongruent(v, size);
    var j :| w == v + Shift(j, size);
    WrapCongruent(w + d, size);
    var k :| WrapCoord(w + d, size) == w + d + Shift(k, size);
    WrapCongruent(v + d, size);
    var m :| WrapCoord(v + d, size) == v + d + Shift(m, size);
    assert Shift(j, size) + Shift(k, size) - Shift(m, size) == Shift(j + k - m, size);
    CongruentInRange(WrapCoord(w + d, size), WrapCoord(v + d, size), j + k - m, size);
  }

  /** Point `p` lands on the playfield when neither coordinate is a whole playfield below zero. */
  lemma WrapInField(p: Vector2)
    requires -(WIDTH as real) <= p.x && -(HEIGHT as real) <= p.y
    ensures InField(Wrap(p))
  {
  }

  /** The coordinate after `n` straight ticks, each adding `d` and wrapping. */
  function Glide(x0: real, d: real, size: int, n: nat): real
    requires 0 < size
  {
    if n == 0 then x0 else WrapCoord(Glide(x0, d, size, n - 1) + d, size)
  }

  /**
   * Going straight `n` ticks from a point on the playfield ends where one wrap of
   * the whole displacement puts it, as long as that displacement never reaches a
   * full playfield below zero (see GlideClosedFormFails for longer runs).
   */
  lemma GlideClosedForm(x0: real, d: real, size: int, n: nat)
    requires 0 < size && 0.0 <= x0 < size as real
    requires -(size as real) <= d && -(size as real) <= x0 + (n as real) * d
    ensures Glide(x0, d, size, n) == WrapCoord(x0 + (n as real) * d, size)
  {
    var t := x0 + (n as real) * d;
    var k := GlideStaysInField(x0, d, size, n);
    WrapCongruent(t, size);
    var m :| WrapCoord(t, size) == t + Shift(m, size);
    assert Shift(k, size) - Shift(m, size) == Shift(k - m, size);
    CongruentInRange(Glide(x0, d, size, n), WrapCoord(t, size), k - m, size);
  }

  /** The displacement of `n` ticks of `d` each, summed tick by tick. */
  function Drift(d: real, n: nat): real {
    if n == 0 then 0.0 else Drift(d, n - 1) + d
  }

  lemma {:induction false} DriftIsProduct(d: real, n: nat)
    ensures Drift(d, n) == (n as real) * d
  {
    if n > 0 {
      DriftIsProduct(d, n - 1);
      OneMoreStep(n, d);
    }
  }

  /** GlideStaysInField with the displacement summed tick by tick. */
  lemma {:induction false} GlideDrift(x0: real, d: real, size: int, n: nat) returns (k: int)
    requires 0 < size && 0.0 <= x0 < size as real && -(size as real) <= d
    ensures 0.0 <= Glide(x0, d, size, n) < size as real
    ensures Glide(x0, d, size, n) == x0 + Drift(d, n) + Shift(k, size)
  {
    if n == 0 {
      k := 0;
    } else {
      var before := GlideDrift(x0, d, size, n - 1);
      k := WrapStepCongruent(Glide(x0, d, size, n - 1), d, x0 + Drift(d, n - 1), before, size);
    }
  }

  /**
   * However long the run, a straight run whose step is at least `-size` stays on
   * the playfield, and sits a whole number `k` of sizes away from `x0 + n * d`.
   */
  lemma GlideStaysInField(x0: real, d: real, size: int, n: nat) returns (k: int)
    requires 0 < size && 0.0 <= x0 < size as real && -(size as real) <= d
    ensures 0.0 <= Glide(x0, d, size, n) < size as real
    ensures Glide(x0, d, size, n) == x0 + (n as real) * d + Shift(k, size)
  {
    k := GlideDrift(x0, d, size, n);
    DriftIsProduct(d, n);
  }

  /** One tick of a straight run: from the playfield, a step of at least `-size` and a wrap stay on it and add only whole sizes. */
  lemma WrapStepCongruent(g: real, d: real, base: real, k: int, size: int) returns (j: int)
    requires 0 < size && 0.0 <= g < size as real && -(size as real) <= d
    requires g == base + Shift(k, size)
    ensures 0.0 <= WrapCoord(g + d, size) < size as real
    ensures WrapCoord(g + d, size) == base + d + Shift(j, size)
  {
    WrapCongruent(g + d, size);
    var m :| WrapCoord(g + d, size) == g + d + Shift(m, size);
    j := k + m;
    assert Shift(k, size) + Shift(m, size) == Shift(j, size);
  }

  /** Past that bound a single wrap of the whole displacement is negative, while the run is still on the playfield. */
  lemma GlideClosedFormFails(x0: real, d: real, size: int, n: nat)
    requires 0 < size && 0.0 <= x0 < size as real && -(size as real) <= d
    requires x0 + (n as real) * d < -(size as real)
    ensures WrapCoord(x0 + (n as real) * d, size) < 0.0 <= Glide(x0, d, size, n)
  {
    var _ := GlideStaysInField(x0, d, size, n);
  }

  /** 801 ticks of -1 from 0 on the 800-pixel field end at 799, where one wrap of -801 gives -1. */
  lemma GlideLongRunExample(n: nat)
    requires n == 801
    ensures Glide(0.0, -1.0, WIDTH, n) == 799.0
    ensures WrapCoord((n as real) * -1.0, WIDTH) == -1.0
  {
    var k := GlideStaysInField(0.0, -1.0, WIDTH, n);
    assert k == 2;
    WrapNotIdempotent(-801.0, WIDTH);
  }

  // Facts of real arithmetic the solver does not find on its own.

  lemma ProductNonNegative(x: real, y: real)
    requires 0.0 <= x && 0.0 <= y
    ensures 0.0 <= x * y
  {
  }

  lemma ProductPositive(x: real, y: real)
    requires 0.0 < x && 0.0 < y
    ensures 0.0 < x * y
  {
  }

  lemma ScaledByUnitBound(s: real, h: real)
    requires 0.0 <= s && -1.0 <= h <= 1.0
    ensures -s <= s * h <= s
  {
    ProductNonNegative(s, h + 1.0);
    ProductNonNegative(s, 1.0 - h);
  }

  lemma OneMoreStep(n: nat, d: real)
    requires 1 <= n
    ensures (n as real) * d == ((n - 1) as real) * d + d
  {
  }

  lemma SquareMonotone(a: real, b: real)
    requires 0.0 <= a <= b
    ensures a * a <= b * b
  {
    ProductNonNegative(b - a, b + a);
    assert (b - a) * (b + a) == b * b - a * a;
  }

  lemma SquareStrictlyMonotone(a: real, b: real)
    requires 0.0 <= a < b
    ensures a * a < b * b
  {
    ProductPositive(b - a, b + a);
    assert (b - a) * (b + a) == b * b - a * a;
  }
}

/**
 * The food item: a circle whose drawn radius pulses between 10 and 15 in
 * steps of 0.1 (`Feed::animate`), while the `radius` field it was built
 * from stays 12.
 */
module FeedEntity {
  import opened Geometry

  const MinRadius: real := 10.0
  const MaxRadius: real := 15.0
  const InitialRadius: real := 12.0
  const InitialDelta: real := 0.1

  /** The animated part of a feed: the shape's radius and the step added each tick. */
  datatype PulseState = PulseState(radius: real, delta: real)

  /** `Feed::animate`: add the step, and reverse it once the radius is at or beyond a bound. */
  function Pulse(p: PulseState): PulseState {
    var radius := p.radius + p.delta;
    PulseState(radius, if MinRadius >= radius || radius >= MaxRadius then -p.delta else p.delta)
  }

  /** A whole number of tenths. */
  predicate OnTenthGrid(r: real) {
    (r * 10.0).Floor as real == r * 10.0
  }

  /**
   * The states `animate` passes through from a fresh feed: the radius is within
   * the bounds, a whole number of tenths, and the step is 0.1 towards the bound
   * not yet reached.
   */
  predicate Pulsing(p: PulseState) {
    && MinRadius <= p.radius <= MaxRadius
    && OnTenthGrid(p.radius)
    && ((p.delta == InitialDelta && p.radius < MaxRadius) || (p.delta == -InitialDelta && MinRadius < p.radius))
  }

  /** Every call moves the radius by exactly the current step and leaves the step's size at 0.1. */
  lemma PulseStep(p: PulseState)
    requires p.delta == InitialDelta || p.delta == -InitialDelta
    ensures Pulse(p).radius == p.radius + p.delta
    ensures Pulse(p).delta == InitialDelta || Pulse(p).delta == -InitialDelta
  {
  }

  /** The step reverses exactly when the new radius reaches a bound. */
  lemma PulseReversesAtBounds(p: PulseState)
    requires Pulsing(p)
    ensures Pulse(p).delta == -p.delta <==> Pulse(p).radius == MinRadius || Pulse(p).radius == MaxRadius
  {
  }

  lemma PulsePreserves(p: PulseState)
    requires Pulsing(p)
    ensures Pulsing(Pulse(p))
  {
    var tenths := (p.radius * 10.0).Floor;
    var next := if p.delta == InitialDelta then tenths + 1 else tenths - 1;
    assert 100 <= tenths <= 150;
    assert (p.radius + p.delta) * 10.0 == next as real;
    assert OnTenthGrid(p.radius + p.delta) by {
      assert (next as real).Floor == next;
    }
  }

  /** The state after `n` ticks from a freshly built feed. */
  function Animated(n: nat): PulseState {
    if n == 0 then PulseState(InitialRadius, InitialDelta) else Pulse(Animated(n - 1))
  }

  /** However long the game runs, the drawn radius of a feed stays within [10, 15]. */
  lemma {:induction false} AnimatedStaysInBounds(n: nat)
    ensures Pulsing(Animated(n))
    ensures MinRadius <= Animated(n).radius <= MaxRadius
  {
    if n == 0 {
      assert OnTenthGrid(InitialRadius) by {
        assert InitialRadius * 10.0 == 120.0;
      }
    } else {
      AnimatedStaysInBounds(n - 1);
      PulsePreserves(Animated(n - 1));
    }
  }

  class Feed {
    /** Where the feed was placed; `animate` does not move it. */
    const position: Vector2
    /** The `radius` field: the shape starts with it and `animate` never changes it. */
    const radius: real := InitialRadius
    /** The shape's current radius. */
    var shapeRadius: real
    var radiusDelta: real

    function State(): PulseState
      reads this
    {
      PulseState(shapeRadius, radiusDelta)
    }

    predicate Valid()
      reads this
    {
      Pulsing(State())
    }

    /** The circle that collision tests see: the animated radius at the fixed position. */
    function Shape(): Circle
      reads this
    {
      Circle(position, shapeRadius)
    }

    constructor (x: int, y: int)
      ensures position == Vector2(x as real, y as real)
      ensures State() == PulseState(InitialRadius, InitialDelta) && State() == Animated(0)
      ensures Valid()
    {
      position := Vector2(x as real, y as real);
      shapeRadius := InitialRadius;
      radiusDelta := InitialDelta;
      new;
      AnimatedStaysInBounds(0);
    }

    /** `getRadius`: the unanimated field truncated to an integer, so 12 in every state. */
    function GetRadius(): (r: int)
      ensures r == 12
    {
      radius.Floor
    }

    method Animate()
      modifies this
      ensures State() == Pulse(old(State()))
      ensures old(Valid()) ==> Valid()
    {
      shapeRadius := shapeRadius + radiusDelta;
      if MinRadius >= shapeRadius || shapeRadius >= MaxRadius {
        radiusDelta := radiusDelta * -1.0;
      }
      if old(Valid()) {
        PulsePreserves(old(State()));
      }
    }
  }
}

/**
 * The four motion parameters that `recalcFeatures` derives from the score.
 * They depend on the score alone, so they are one pure function here.
 */
module Kinematics {

  datatype Features = Features(speed: real, rotateRadius: real, rotateAngle: real, segmentRadius: real)

  /** `std::max` on floats: the second argument only when the first is smaller. */
  function MaxReal(a: real, b: real): (m: real)
    ensures a <= m && b <= m && (m == a || m == b)
  {
    if a < b then b else a
  }

  function MaxInt(a: int, b: int): (m: int)
    ensures a <= m && b <= m && (m == a || m == b)
  {
    if a < b then b else a
  }

  /** The body of `recalcFeatures` without the resizing loop. */
  function Derive(score: int): (f: Features)
    ensures 2.0 <= f.speed && 20.0 <= f.rotateRadius && 10.0 <= f.segmentRadius
    ensures 0.0 < f.rotateAngle && f.rotateAngle * f.rotateRadius == f.speed
  {
    var speed := MaxReal(2.0, score as real / 10.0);
    var rotateRadius := MaxInt(20, score) as real;
    Features(speed, rotateRadius, speed / rotateRadius, MaxReal(10.0, score as real / 3.5))
  }

  /** The parameters at score 0, which `restart` returns to. */
  lemma DeriveBaseline()
    ensures Derive(0) == Features(2.0, 20.0, 0.1, 10.0)
  {
  }

  /** Speed, turning radius and segment radius never shrink as the score grows. */
  lemma DeriveMonotone(lo: int, hi: int)
    requires lo <= hi
    ensures Derive(lo).speed <= Derive(hi).speed
    ensures Derive(lo).rotateRadius <= Derive(hi).rotateRadius
    ensures Derive(lo).segmentRadius <= Derive(hi).segmentRadius
  {
  }

  /**
   * The turning angle per tick is 0.1 radians at every score: below 20 the
   * speed is 2 and the radius 20, from 20 on both are proportional to the score.
   */
  lemma RotateAngleConstant(score: int)
    ensures Derive(score).rotateAngle == 0.1
  {
    var f := Derive(score);
    if score >= 20 {
      var s := score as real;
      assert f.speed == s / 10.0 && f.rotateRadius == s;
      assert (s / 10.0) / s == 0.1 by {
        assert s / 10.0 == 0.1 * s;
      }
    } else {
      assert f.speed == 2.0 && f.rotateRadius == 20.0;
    }
  }

  /** Five meals from score 0 leave the size and the speed at their floors. */
  lemma FiveMealsKeepFloors()
    ensures Derive(5).speed == 2.0 && Derive(5).segmentRadius == 10.0
    ensures Derive(5).rotateRadius == 20.0
  {
  }
}

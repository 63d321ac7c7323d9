/**
 * The snake: a head pose, a list of circular segments that trails the head
 * by one tick per segment, a score and the motion parameters derived from it.
 */
module SnakeEntity {
  import opened Geometry
  import opened Kinematics
  import opened Motion
  import opened FeedEntity

  datatype Color = White | Red

  /** The colour `addSegment` gives the segment at index `i`: White on even indices, Red on odd ones. */
  function SegmentColor(i: nat): Color {
    if i % 2 == 0 then White else Red
  }

  datatype Segment = Segment(pos: Vector2, radius: real, color: Color) {
    function Shape(): Circle { Circle(pos, radius) }
  }

  /** Index of the first segment `checkSelfCollision` compares with the head; 1 to 12 are exempt. */
  const SelfCollisionStart: nat := 13

  function Positions(body: seq<Segment>): (ps: seq<Vector2>)
    ensures |ps| == |body| && forall i :: 0 <= i < |body| ==> ps[i] == body[i].pos
  {
    seq(|body|, i requires 0 <= i < |body| => body[i].pos)
  }

  /**
   * The list `moveBody` leaves: the head segment moved to `head`, every other
   * segment moved to the wrapped position of the one before it. Radius and
   * colour stay with the index.
   */
  function ShiftBody(body: seq<Segment>, head: Vector2): (b: seq<Segment>)
    requires 1 <= |body|
    ensures |b| == |body| && b[0].pos == head
  {
    [body[0].(pos := head)]
      + seq(|body| - 1, i requires 0 <= i < |body| - 1 => body[i + 1].(pos := Wrap(body[i].pos)))
  }

  lemma ShiftBodyAt(body: seq<Segment>, head: Vector2)
    requires 1 <= |body|
    ensures |ShiftBody(body, head)| == |body|
    ensures ShiftBody(body, head)[0].pos == head
    ensures forall i :: 1 <= i < |body| ==> ShiftBody(body, head)[i].pos == Wrap(body[i - 1].pos)
    ensures forall i :: 0 <= i < |body| ==>
      ShiftBody(body, head)[i].radius == body[i].radius && ShiftBody(body, head)[i].color == body[i].color
  {
    var shifted := ShiftBody(body, head);
    assert forall i :: 1 <= i < |body| ==> shifted[i] == body[i].(pos := Wrap(body[i - 1].pos));
  }

  /** A list that agrees with the shift at every index is the shift. */
  lemma ShiftBodyByIndex(body: seq<Segment>, shifted: seq<Segment>, head: Vector2)
    requires 1 <= |body| == |shifted|
    requires shifted[0] == body[0].(pos := head)
    requires forall j :: 1 <= j < |body| ==> shifted[j] == body[j].(pos := Wrap(body[j - 1].pos))
    ensures shifted == ShiftBody(body, head)
  {
  }

  /**
   * On a playfield-bound body the shift is a delay line: the new positions are
   * the new head followed by the old positions, the last one dropped.
   */
  lemma ShiftBodyDelayLine(body: seq<Segment>, head: Vector2)
    requires 1 <= |body|
    requires forall i :: 0 <= i < |body| ==> InField(body[i].pos)
    ensures Positions(ShiftBody(body, head)) == [head] + Positions(body)[..|body| - 1]
  {
    var shifted := Positions(ShiftBody(body, head));
    var expected := [head] + Positions(body)[..|body| - 1];
    forall i | 1 <= i < |body|
      ensures shifted[i] == expected[i]
    {
      var p := body[i - 1].pos;
      WrapIdentity(p.x, WIDTH);
      WrapIdentity(p.y, HEIGHT);
    }
    assert shifted == expected;
  }

  /** A shift keeps every segment on the playfield when the new head is on it. */
  lemma ShiftBodyInField(body: seq<Segment>, head: Vector2)
    requires 1 <= |body| && InField(head)
    requires forall i :: 0 <= i < |body| ==> InField(body[i].pos)
    ensures forall i :: 0 <= i < |body| ==> InField(ShiftBody(body, head)[i].pos)
  {
    ShiftBodyDelayLine(body, head);
  }

  /** Every segment given the radius `r`, as the loop of `recalcFeatures` does. */
  function Resized(body: seq<Segment>, r: real): (b: seq<Segment>)
    ensures |b| == |body|
    ensures forall i :: 0 <= i < |body| ==> b[i] == body[i].(radius := r)
  {
    seq(|body|, i requires 0 <= i < |body| => body[i].(radius := r))
  }

  /** `checkSelfCollision` as a property of the list: the head overlaps a segment at index 13 or later. */
  predicate SelfCollides(body: seq<Segment>)
    ensures SelfCollides(body) ==> SelfCollisionStart < |body|
  {
    exists i :: SelfCollisionStart <= i < |body| && Intersect(body[0].Shape(), body[i].Shape())
  }

  /**
   * The list after a meal: `addPoint` gives every segment the radius `r`, then
   * `addSegment` appends one on the last segment, coloured by its index.
   */
  function Grown(body: seq<Segment>, r: real): (b: seq<Segment>)
    requires 1 <= |body|
    ensures |b| == |body| + 1 && b[|body|].pos == body[|body| - 1].pos
    ensures forall i :: 0 <= i < |b| ==> b[i].radius == r
  {
    Resized(body, r) + [Segment(body[|body| - 1].pos, r, SegmentColor(|body|))]
  }

  /** A snake of at most 13 segments never collides with itself. */
  lemma ShortSnakeNeverCollides(body: seq<Segment>)
    requires |body| <= SelfCollisionStart
    ensures !SelfCollides(body)
  {
  }

  /** Segments 1 to 12 do not take part: changing them never changes the verdict. */
  lemma NeckIsExempt(body: seq<Segment>, other: seq<Segment>)
    requires |body| == |other| && 1 <= |body|
    requires body[0] == other[0]
    requires forall i :: SelfCollisionStart <= i < |body| ==> body[i] == other[i]
    ensures SelfCollides(body) == SelfCollides(other)
  {
  }

  /** The first index that counts: a segment at index 13 lying on the head is a collision. */
  lemma CollisionFromThirteen(body: seq<Segment>)
    requires SelfCollisionStart < |body| && body[SelfCollisionStart].pos == body[0].pos
    requires 0.0 <= body[0].radius && 0.0 <= body[SelfCollisionStart].radius
    ensures SelfCollides(body)
  {
    IntersectConcentric(body[0].Shape(), body[SelfCollisionStart].Shape());
  }

  /** `checkForEating` as a property of the list: the feed's circle overlaps the head's. */
  predicate Eats(food: Circle, body: seq<Segment>)
    requires 1 <= |body|
  {
    Intersect(food, body[0].Shape())
  }

  /** Only the head matters for eating, and a feed whose centre is on the head is always eaten. */
  lemma EatingSeesOnlyTheHead(food: Circle, body: seq<Segment>, other: seq<Segment>)
    requires 1 <= |body| && 1 <= |other| && body[0] == other[0]
    ensures Eats(food, body) == Eats(food, other)
    ensures 0.0 <= food.radius && 0.0 <= body[0].radius && food.center == body[0].pos ==> Eats(food, body)
  {
    if 0.0 <= food.radius && 0.0 <= body[0].radius && food.center == body[0].pos {
      IntersectConcentric(food, body[0].Shape());
    }
  }

  class Snake {
    var position: Vector2
    var vector: Vector2
    var body: seq<Segment>
    var speed: real
    var rotateRadius: real
    var rotateAngle: real
    var segmentRadius: real
    var score: int
    var segmentsCount: int

    function CurrentFeatures(): Features
      reads this
    {
      Features(speed, rotateRadius, rotateAngle, segmentRadius)
    }

    function CurrentPose(): Pose
      reads this
    {
      Pose(position, vector)
    }

    /** `segmentsCount` counts the list and colours alternate by index. */
    predicate Consistent()
      reads this
    {
      && segmentsCount == |body|
      && forall i :: 0 <= i < |body| ==> body[i].color == SegmentColor(i)
    }

    /** Besides, the score is non-negative, the parameters are those of the score and every segment has the current radius. */
    predicate Valid()
      reads this
    {
      && Consistent()
      && 0 <= score
      && CurrentFeatures() == Derive(score)
      && forall i :: 0 <= i < |body| ==> body[i].radius == segmentRadius
    }

    /** The state between ticks: at least one segment, and the head segment sits at `position`. */
    predicate Alive()
      reads this
    {
      Valid() && 1 <= segmentsCount && body[0].pos == position
    }

    /**
     * `Snake(scoreTxt)`: `restart` on the empty snake, then the head at the
     * centre heading up, then the first segment.
     */
    constructor ()
      ensures Alive()
      ensures score == 0 && CurrentFeatures() == Features(2.0, 20.0, 0.1, 10.0)
      ensures position == Vector2((WIDTH / 2) as real, (HEIGHT / 2) as real)
      ensures vector == Vector2(0.0, -1.0)
      ensures segmentsCount == 1 && body == [Segment(position, 10.0, White)]
    {
      position := Vector2(0.0, 0.0);
      vector := Vector2(0.0, 0.0);
      body := [];
      speed, rotateRadius, rotateAngle, segmentRadius := 0.0, 0.0, 0.0, 0.0;
      score := 0;
      segmentsCount := 0;
      new;
      Restart();
      position := Vector2((WIDTH / 2) as real, (HEIGHT / 2) as real);
      vector := Vector2(0.0, -1.0);
      AddSegment();
      DeriveBaseline();
    }

    /** `normilizePosition`, with its two subtracting loops. */
    method NormalizePosition(pos: Vector2) returns (r: Vector2)
      ensures r == Wrap(pos)
    {
      r := pos;
      r := r.(x := r.x + WIDTH as real);
      while r.x >= WIDTH as real
        invariant r.y == pos.y
        invariant Reduced(r.x, WIDTH) == WrapCoord(pos.x, WIDTH)
        decreases r.x.Floor
      {
        r := r.(x := r.x - WIDTH as real);
      }
      r := r.(y := r.y + HEIGHT as real);
      while r.y >= HEIGHT as real
        invariant r.x == WrapCoord(pos.x, WIDTH)
        invariant Reduced(r.y, HEIGHT) == WrapCoord(pos.y, HEIGHT)
        decreases r.y.Floor
      {
        r := r.(y := r.y - HEIGHT as real);
      }
    }

    /** `moveBody`: from the tail down to index 1 each segment takes its predecessor's wrapped position, then the head follows `position`. */
    method MoveBody()
      requires Valid() && 1 <= segmentsCount
      modifies this
      ensures position == Wrap(old(position))
      ensures body == ShiftBody(old(body), position)
      ensures vector == old(vector) && score == old(score) && segmentsCount == old(segmentsCount)
      ensures CurrentFeatures() == old(CurrentFeatures())
      ensures Alive()
    {
      var i := segmentsCount - 1;
      while i >= 1
        invariant 0 <= i < segmentsCount == |body| == |old(body)|
        invariant forall j :: 0 <= j <= i ==> body[j] == old(body)[j]
        invariant forall j :: i < j < |body| ==> body[j] == old(body)[j].(pos := Wrap(old(body)[j - 1].pos))
        invariant position == old(position) && vector == old(vector)
        invariant score == old(score) && segmentsCount == old(segmentsCount)
        invariant CurrentFeatures() == old(CurrentFeatures())
      {
        var p := NormalizePosition(body[i - 1].pos);
        body := body[i := body[i].(pos := p)];
        i := i - 1;
      }
      position := NormalizePosition(position);
      body := body[0 := body[0].(pos := position)];
      ShiftBodyByIndex(old(body), body, position);
    }

    /** `recalcFeatures`: the parameters of the current score, then every segment resized. */
    method RecalcFeatures()
      requires Consistent()
      modifies this
      ensures CurrentFeatures() == Derive(score)
      ensures body == Resized(old(body), segmentRadius)
      ensures position == old(position) && vector == old(vector)
      ensures score == old(score) && segmentsCount == old(segmentsCount)
      ensures Consistent() && (0 <= score ==> Valid())
    {
      var f := Derive(score);
      speed := f.speed;
      rotateRadius := f.rotateRadius;
      rotateAngle := f.rotateAngle;
      segmentRadius := f.segmentRadius;
      var i := 0;
      while i < segmentsCount
        invariant 0 <= i <= segmentsCount == |body| == |old(body)|
        invariant forall j :: 0 <= j < i ==> body[j] == old(body)[j].(radius := segmentRadius)
        invariant forall j :: i <= j < |body| ==> body[j] == old(body)[j]
        invariant position == old(position) && vector == old(vector)
        invariant score == old(score) && segmentsCount == old(segmentsCount)
        invariant CurrentFeatures() == f
      {
        body := body[i := body[i].(radius := segmentRadius)];
        i := i + 1;
      }
    }

    /** `addSegment`: append a segment on the last one (on the head position when there is none). */
    method AddSegment()
      requires Consistent()
      modifies this
      ensures segmentsCount == old(segmentsCount) + 1
      ensures body == old(body) + [Segment(
        if old(segmentsCount) == 0 then position else old(body)[old(segmentsCount) - 1].pos,
        segmentRadius,
        SegmentColor(old(segmentsCount)))]
      ensures position == old(position) && vector == old(vector) && score == old(score)
      ensures CurrentFeatures() == old(CurrentFeatures())
      ensures Consistent()
      ensures old(Valid()) ==> Valid()
      ensures old(Valid()) && (old(segmentsCount) == 0 || old(Alive())) ==> Alive()
    {
      body := body + [Segment(Vector2(0.0, 0.0), segmentRadius, White)];
      if segmentsCount == 0 {
        body := body[segmentsCount := body[segmentsCount].(pos := position)];
      } else {
        body := body[segmentsCount := body[segmentsCount].(pos := body[segmentsCount - 1].pos)];
      }
      if segmentsCount % 2 == 0 {
        body := body[segmentsCount := body[segmentsCount].(color := White)];
      } else {
        body := body[segmentsCount := body[segmentsCount].(color := Red)];
      }
      segmentsCount := segmentsCount + 1;
    }

    /** `addPoint`: one more point and the parameters recomputed (the score display is not modelled). */
    method AddPoint()
      requires Consistent() && -1 <= score
      modifies this
      ensures score == old(score) + 1
      ensures CurrentFeatures() == Derive(score)
      ensures body == Resized(old(body), segmentRadius)
      ensures position == old(position) && vector == old(vector) && segmentsCount == old(segmentsCount)
      ensures Valid()
      ensures old(Alive()) ==> Alive()
    {
      score := score + 1;
      RecalcFeatures();
    }

    /** `checkForEating`: the feed's current circle overlaps the head segment. */
    function CheckForEating(ball: Feed): (eats: bool)
      requires 1 <= |body|
      reads this, ball
      ensures eats <==> Intersect(body[0].Shape(), ball.Shape())
    {
      IntersectSymmetric(ball.Shape(), body[0].Shape());
      Eats(ball.Shape(), body)
    }

    /** `checkSelfCollision`: the loop over indices 13 and up, stopping at the first overlap. */
    method CheckSelfCollision() returns (collides: bool)
      requires Consistent()
      ensures collides == SelfCollides(body)
    {
      var i := SelfCollisionStart;
      while i < segmentsCount
        invariant SelfCollisionStart <= i
        invariant forall j :: SelfCollisionStart <= j < i && j < |body| ==> !Intersect(body[0].Shape(), body[j].Shape())
      {
        if Intersect(body[0].Shape(), body[i].Shape()) {
          return true;
        }
        i := i + 1;
      }
      return false;
    }

    /** `restart`: score back to 0 through `addPoint` from -1, parameters recomputed, then segments popped until one is left. */
    method Restart()
      requires Consistent()
      modifies this
      ensures score == 0 && CurrentFeatures() == Derive(0)
      ensures segmentsCount == if old(segmentsCount) == 0 then 0 else 1
      ensures body == Resized(old(body), segmentRadius)[..segmentsCount]
      ensures position == old(position) && vector == old(vector)
      ensures Valid()
      ensures old(Alive()) ==> Alive()
    {
      score := -1;
      AddPoint();
      RecalcFeatures();
      ghost var resized := body;
      while segmentsCount > 1
        invariant 0 <= segmentsCount <= |resized|
        invariant old(segmentsCount) >= 1 ==> segmentsCount >= 1
        invariant body == resized[..segmentsCount]
        invariant Valid() && score == 0
        invariant position == old(position) && vector == old(vector)
        invariant resized == Resized(old(body), segmentRadius)
      {
        body := body[..|body| - 1];
        segmentsCount := segmentsCount - 1;
      }
    }

    /** `move`: a step of `speed` along the heading, then `moveBody`. */
    method Move()
      requires Alive()
      modifies this
      ensures CurrentPose() == Pose(Wrap(Straight(old(CurrentPose()), speed).pos), old(vector))
      ensures (old(InField(position)) && speed <= WIDTH as real && speed <= HEIGHT as real
        && -1.0 <= vector.x <= 1.0 && -1.0 <= vector.y <= 1.0) ==> InField(position)
      ensures body == ShiftBody(old(body), position)
      ensures score == old(score) && segmentsCount == old(segmentsCount)
      ensures CurrentFeatures() == old(CurrentFeatures())
      ensures Alive()
    {
      if InField(position) && speed <= WIDTH as real && speed <= HEIGHT as real
        && -1.0 <= vector.x <= 1.0 && -1.0 <= vector.y <= 1.0 {
        StraightStaysInField(CurrentPose(), speed);
      }
      position := position.Plus(vector.Scale(speed));
      MoveBody();
    }

    /** `moveRight`, with `cosA`, `sinA` the values of `cos(rotateAngle)`, `sin(rotateAngle)`. */
    method MoveRight(cosA: real, sinA: real)
      requires Alive()
      modifies this
      ensures var next := TurnRight(old(CurrentPose()), rotateRadius, cosA, sinA);
        CurrentPose() == Pose(Wrap(next.pos), next.heading)
      ensures body == ShiftBody(old(body), position)
      ensures score == old(score) && segmentsCount == old(segmentsCount)
      ensures CurrentFeatures() == old(CurrentFeatures())
      ensures Alive()
    {
      var next := TurnRight(CurrentPose(), rotateRadius, cosA, sinA);
      position := next.pos;
      vector := next.heading;
      MoveBody();
    }

    /** `moveLeft`: `moveRight` with the angle negated (`cos` unchanged, `sin` negated). */
    method MoveLeft(cosA: real, sinA: real)
      requires Alive()
      modifies this
      ensures var next := TurnLeft(old(CurrentPose()), rotateRadius, cosA, sinA);
        CurrentPose() == Pose(Wrap(next.pos), next.heading)
      ensures body == ShiftBody(old(body), position)
      ensures score == old(score) && segmentsCount == old(segmentsCount)
      ensures CurrentFeatures() == old(CurrentFeatures())
      ensures Alive()
    {
      var next := TurnLeft(CurrentPose(), rotateRadius, cosA, sinA);
      position := next.pos;
      vector := next.heading;
      MoveBody();
    }
  }

  /**
   * The bound on the speed matters: at score 10000 the speed is 1000, and a
   * straight step left from the left edge leaves the head off the playfield.
   */
  lemma FastSnakeLeavesField()
    ensures Derive(10000).speed == 1000.0
    ensures !InField(Wrap(Straight(Pose(Vector2(0.0, 0.0), Vector2(-1.0, 0.0)), Derive(10000).speed).pos))
  {
    WrapNotIdempotent(-1000.0, WIDTH);
  }
}

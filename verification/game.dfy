/**
 * One iteration of the main loop without its event polling and drawing:
 * choose a move from the held keys, move, eat, check for a self-collision,
 * animate the feed. The held keys, the `cos`/`sin` values and the two
 * `rand()` draws are parameters.
 */
module GameLoop {
  import opened Geometry
  import opened Kinematics
  import opened Motion
  import opened FeedEntity
  import opened SnakeEntity

  /** Distance a respawned feed keeps from every edge. */
  const Margin: int := 20

  datatype Choice = GoStraight | GoLeft | GoRight

  /** `if (left) ... else if (right) ... else ...`: Left is tested first, so it wins when both are held. */
  function ChooseMove(left: bool, right: bool): (c: Choice)
    ensures c == GoLeft <==> left
    ensures c == GoRight <==> !left && right
    ensures c == GoStraight <==> !left && !right
  {
    if left then GoLeft else if right then GoRight else GoStraight
  }

  /** The head pose the chosen move computes before `moveBody` wraps it. */
  function Advance(choice: Choice, p: Pose, f: Features, cosA: real, sinA: real): Pose {
    match choice
    case GoLeft => TurnLeft(p, f.rotateRadius, cosA, sinA)
    case GoRight => TurnRight(p, f.rotateRadius, cosA, sinA)
    case GoStraight => Straight(p, f.speed)
  }

  /** `20 + rand() % (size - 40)` for a non-negative draw: a coordinate at least 20 from both edges. */
  function RespawnCoord(draw: nat, size: int): (c: int)
    requires 2 * Margin < size
    ensures Margin <= c <= size - Margin - 1
  {
    Margin + draw % (size - 2 * Margin)
  }

  /** Lines 203-208 of the loop: one of the three moves, chosen from the held keys. */
  method Steer(snake: Snake, left: bool, right: bool, cosA: real, sinA: real)
    requires snake.Alive()
    modifies snake
    ensures snake.Alive()
    ensures var moved := Advance(ChooseMove(left, right), old(snake.CurrentPose()), old(snake.CurrentFeatures()), cosA, sinA);
      snake.CurrentPose() == Pose(Wrap(moved.pos), moved.heading)
    ensures snake.body == ShiftBody(old(snake.body), snake.position)
    ensures snake.score == old(snake.score) && snake.segmentsCount == old(snake.segmentsCount)
    ensures snake.CurrentFeatures() == old(snake.CurrentFeatures())
  {
    if left {
      snake.MoveLeft(cosA, sinA);
    } else if right {
      snake.MoveRight(cosA, sinA);
    } else {
      snake.Move();
    }
  }

  /** Lines 210-214: on eating, a new feed at a random spot, then `addPoint` before `addSegment`. */
  method EatIfPossible(snake: Snake, ball: Feed, drawX: nat, drawY: nat) returns (next: Feed, ate: bool)
    requires snake.Alive()
    modifies snake
    ensures snake.Alive()
    ensures ate == Intersect(Circle(snake.position, old(snake.segmentRadius)), ball.Shape())
    ensures ate ==> fresh(next) && next.Valid() && next.State() == Animated(0)
    ensures ate ==> next.position == Vector2(RespawnCoord(drawX, WIDTH) as real, RespawnCoord(drawY, HEIGHT) as real)
    ensures !ate ==> next == ball
    ensures snake.score == old(snake.score) + (if ate then 1 else 0)
    ensures snake.segmentsCount == old(snake.segmentsCount) + (if ate then 1 else 0)
    ensures ate ==> snake.body[snake.segmentsCount - 1].radius == Derive(snake.score).segmentRadius
    ensures ate ==> snake.body == Grown(old(snake.body), snake.segmentRadius)
    ensures !ate ==> snake.body == old(snake.body)
    ensures snake.CurrentPose() == old(snake.CurrentPose())
  {
    ate := snake.CheckForEating(ball);
    next := ball;
    if ate {
      next := new Feed(RespawnCoord(drawX, WIDTH), RespawnCoord(drawY, HEIGHT));
      snake.AddPoint();
      snake.AddSegment();
    }
  }

  /** Lines 215-217: a self-collision restarts the snake. */
  method RestartOnCollision(snake: Snake) returns (died: bool)
    requires snake.Alive()
    modifies snake
    ensures snake.Alive()
    ensures died == old(SelfCollides(snake.body))
    ensures !died ==> snake.body == old(snake.body) && snake.score == old(snake.score)
    ensures !died ==> snake.segmentsCount == old(snake.segmentsCount)
    ensures died ==> SelfCollisionStart < old(snake.segmentsCount)
    ensures died ==> snake.score == 0 && snake.segmentsCount == 1
    ensures died ==> snake.body == [Segment(snake.position, 10.0, White)]
    ensures snake.CurrentPose() == old(snake.CurrentPose())
  {
    died := snake.CheckSelfCollision();
    if died {
      snake.Restart();
      DeriveBaseline();
    }
  }

  /** Lines 203-214: the chosen move, then the meal if the moved head reaches the feed. */
  method MoveAndEat(snake: Snake, ball: Feed, left: bool, right: bool, cosA: real, sinA: real, drawX: nat, drawY: nat)
    returns (next: Feed, ate: bool)
    requires snake.Alive() && ball.Valid()
    modifies snake
    ensures snake.Alive() && next.Valid()
    ensures var moved := Advance(ChooseMove(left, right), old(snake.CurrentPose()), old(snake.CurrentFeatures()), cosA, sinA);
      snake.CurrentPose() == Pose(Wrap(moved.pos), moved.heading)
    ensures ate == Intersect(Circle(snake.position, old(snake.segmentRadius)), ball.Shape())
    ensures ate ==> fresh(next) && next.State() == Animated(0)
    ensures ate ==> next.position == Vector2(RespawnCoord(drawX, WIDTH) as real, RespawnCoord(drawY, HEIGHT) as real)
    ensures !ate ==> next == ball
    ensures snake.score == old(snake.score) + (if ate then 1 else 0)
    ensures snake.segmentsCount == old(snake.segmentsCount) + (if ate then 1 else 0)
    ensures ate ==> snake.body[snake.segmentsCount - 1].radius == Derive(snake.score).segmentRadius
    ensures var shifted := ShiftBody(old(snake.body), snake.position);
      snake.body == if ate then Grown(shifted, snake.segmentRadius) else shifted
  {
    Steer(snake, left, right, cosA, sinA);
    next, ate := EatIfPossible(snake, ball, drawX, drawY);
  }

  /** Lines 203-217: move, eat, and restart on a self-collision. */
  method MoveEatAndCheck(snake: Snake, ball: Feed, left: bool, right: bool, cosA: real, sinA: real, drawX: nat, drawY: nat)
    returns (next: Feed, ate: bool, died: bool)
    requires snake.Alive() && ball.Valid()
    modifies snake
    ensures snake.Alive() && next.Valid()
    ensures var moved := Advance(ChooseMove(left, right), old(snake.CurrentPose()), old(snake.CurrentFeatures()), cosA, sinA);
      snake.CurrentPose() == Pose(Wrap(moved.pos), moved.heading)
    ensures ate == Intersect(Circle(snake.position, old(snake.segmentRadius)), ball.Shape())
    ensures ate ==> fresh(next) && next.State() == Animated(0)
    ensures ate ==> next.position == Vector2(RespawnCoord(drawX, WIDTH) as real, RespawnCoord(drawY, HEIGHT) as real)
    ensures !ate ==> next == ball
    ensures !died ==> !SelfCollides(snake.body)
    ensures !died ==> snake.score == old(snake.score) + (if ate then 1 else 0)
    ensures !died ==> snake.segmentsCount == old(snake.segmentsCount) + (if ate then 1 else 0)
    ensures var shifted := ShiftBody(old(snake.body), snake.position);
      !died ==> snake.body == if ate then Grown(shifted, snake.segmentRadius) else shifted
    ensures died ==> SelfCollisionStart < old(snake.segmentsCount) + (if ate then 1 else 0)
    ensures died ==> snake.score == 0 && snake.segmentsCount == 1
    ensures died ==> snake.body == [Segment(snake.position, 10.0, White)]
    ensures var shifted := ShiftBody(old(snake.body), snake.position);
      died == SelfCollides(if ate then Grown(shifted, Derive(old(snake.score) + 1).segmentRadius) else shifted)
  {
    next, ate := MoveAndEat(snake, ball, left, right, cosA, sinA, drawX, drawY);
    ghost var eaten := snake.body;
    ghost var pos := snake.position;
    died := RestartOnCollision(snake);
    assert snake.position == pos;
  }

  /**
   * One pass of the main loop's logic (lines 203-219), drawing left out: after
   * the snake's part, the feed on the field, old or new, animates once.
   */
  method Tick(snake: Snake, ball: Feed, left: bool, right: bool, cosA: real, sinA: real, drawX: nat, drawY: nat)
    returns (next: Feed, ate: bool, died: bool)
    requires snake.Alive() && ball.Valid()
    modifies snake, ball
    ensures snake.Alive() && next.Valid()
    ensures var moved := Advance(ChooseMove(left, right), old(snake.CurrentPose()), old(snake.CurrentFeatures()), cosA, sinA);
      snake.CurrentPose() == Pose(Wrap(moved.pos), moved.heading)
    ensures ate == Intersect(Circle(snake.position, old(snake.segmentRadius)), old(ball.Shape()))
    ensures ate ==> fresh(next) && next.State() == Animated(1)
    ensures ate ==> next.position == Vector2(RespawnCoord(drawX, WIDTH) as real, RespawnCoord(drawY, HEIGHT) as real)
    ensures !ate ==> next == ball && next.State() == Pulse(old(ball.State()))
    ensures !died ==> !SelfCollides(snake.body)
    ensures !died ==> snake.score == old(snake.score) + (if ate then 1 else 0)
    ensures !died ==> snake.segmentsCount == old(snake.segmentsCount) + (if ate then 1 else 0)
    ensures var shifted := ShiftBody(old(snake.body), snake.position);
      !died ==> snake.body == if ate then Grown(shifted, snake.segmentRadius) else shifted
    ensures died ==> SelfCollisionStart < old(snake.segmentsCount) + (if ate then 1 else 0)
    ensures died ==> snake.score == 0 && snake.segmentsCount == 1
    ensures died ==> snake.body == [Segment(snake.position, 10.0, White)]
    ensures var shifted := ShiftBody(old(snake.body), snake.position);
      died == SelfCollides(if ate then Grown(shifted, Derive(old(snake.score) + 1).segmentRadius) else shifted)
  {
    next, ate, died := MoveEatAndCheck(snake, ball, left, right, cosA, sinA, drawX, drawY);
    ghost var pose := snake.CurrentPose();
    ghost var body := snake.body;
    ghost var score := snake.score;
    ghost var count := snake.segmentsCount;
    assert snake.Alive();
    next.Animate();
    assert snake.CurrentPose() == pose && snake.body == body && snake.score == score && snake.segmentsCount == count;
  }

  /** Eating five times from a fresh snake: score 5, six segments, and size and speed still at their floors. */
  method FiveMeals() returns (snake: Snake)
    ensures snake.Alive()
    ensures snake.score == 5 && snake.segmentsCount == 6
    ensures snake.segmentRadius == 10.0 && snake.speed == 2.0
  {
    snake := new Snake();
    var meals := 0;
    while meals < 5
      invariant 0 <= meals <= 5
      invariant snake.Alive() && snake.score == meals && snake.segmentsCount == meals + 1
    {
      snake.AddPoint();
      snake.AddSegment();
      meals := meals + 1;
    }
    FiveMealsKeepFloors();
  }
}

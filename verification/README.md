# Snake: a verified model of the game logic

The game is a single C++ file built on SFML, `Snake/Snake/main.cpp`. A snake made of
circular segments moves across an 800×800 playfield whose edges wrap around.
Holding Left or Right turns it on a circular arc. A pulsing food item, the
feed, reappears at a random spot each time the head overlaps it. Every meal
adds a point and a segment, and the score sets the speed, the turning radius
and the segment size. If the head overlaps a segment at index 13 or later, the
snake collapses back to one segment and score 0.

The model is organised in six modules:

- `Geometry` (`geometry.dfy`): vectors and the closed circle test `intersect`.
  It also holds the playfield wrap of `normilizePosition`, as the function
  `WrapCoord` and its properties: range, congruence, identity on the field,
  where it fails to be idempotent, and the closed form of a straight run.
- `Kinematics` (`kinematics.dfy`): the formulas of `recalcFeatures`, as a pure
  function of the score.
- `Motion` (`motion.dfy`): the head pose after `move`, `moveRight` and `moveLeft`,
  before wrapping. The turns take `cos`/`sin` of the turning angle as
  parameters. They keep their turning centre exactly, whatever those values are.
- `FeedEntity` (`feed.dfy`): the feed as a class with its animated shape radius
  and step. Also the pulse as a state function, and its invariant: the radius
  stays in [10, 15], on a grid of tenths, with a step of ±0.1.
- `SnakeEntity` (`snake.dfy`): the snake as a class whose `body` field is the
  list of segments. It also holds the list-level definitions the methods are
  proved against: the shift of `moveBody`, the resize of `recalcFeatures`, and
  the self-collision and eating tests. The class keeps three nested invariants:
  - `Consistent`: the count matches the list, and colours alternate by index.
  - `Valid`: additionally, the parameters are those of the score and every
    segment has the current radius.
  - `Alive`: additionally, there is at least one segment and it sits at the
    head position.
- `GameLoop` (`game.dfy`): one pass of the main loop. It chooses a move from
  the held keys, moves, eats (respawning the feed), restarts on a
  self-collision, and animates the feed.

Floating-point values are modelled as exact reals. `intersect` compares
`sqrt(d²)` with the sum of the radii. The model states this without the
square root, as `0 <= ra + rb && d² <= (ra + rb)²`, and
`Geometry.IntersectByDistance` proves that this agrees with the distance test
for any square root.

Behaviours of the code worth knowing:

- **Both keys held.** The loop tests `left` first (`main.cpp:203-208`), so Left
  wins when both keys are held.
- **Wrapping far-off points.** `normilizePosition` adds the playfield size once
  and then only subtracts, so a coordinate more than a whole playfield below zero
  stays negative (`Geometry.WrapNotIdempotent`). A straight step can produce
  such a coordinate only at a speed above 800, i.e. a score above 8000
  (`SnakeEntity.FastSnakeLeavesField`); below that the head stays on the
  playfield (`SnakeEntity.Snake.Move`).
- **Long straight runs.** Wrapping after every tick keeps a run on the playfield
  however long it is (`Geometry.GlideStaysInField`). One wrap of the whole
  displacement agrees with it only while the end coordinate `x0 + n*d` stays at
  least minus one playfield (`Geometry.GlideClosedForm`, `Geometry.GlideClosedFormFails`).
- **`getRadius`.** It returns the unanimated field, so it is 12 whatever the
  animation state is.
- **Radius bounds.** The feed's radius bound holds in exact arithmetic. This
  model does not cover `float` rounding.

## Model

| member | source | states |
|---|---|---|
| Geometry.Intersect | Snake/Snake/main.cpp:6-9 | the closed overlap test without the square root: the squared centre distance is at most the square of a non-negative sum of radii; it can only hold when that sum is non-negative |
| Geometry.IntersectByDistance | Snake/Snake/main.cpp:6-9 | for any non-negative square root `dist` of the squared centre distance, the overlap test holds exactly when `dist <= ra + rb`, i.e. the square-root-free form is the source's test |
| Geometry.IntersectSymmetric | Snake/Snake/main.cpp:6-9 | `intersect(a, b) == intersect(b, a)` |
| Geometry.IntersectConcentric | Snake/Snake/main.cpp:6-9 | two circles with non-negative radii and the same centre always intersect |
| Geometry.IntersectTouching | Snake/Snake/main.cpp:6-9 | the test is closed: two circles with non-negative radii whose centres lie on a horizontal line exactly the sum of the radii apart intersect |
| Geometry.IntersectApart | Snake/Snake/main.cpp:6-9 | two circles with non-negative radii whose centres lie on a horizontal line further apart than the sum of the radii do not intersect (for any pair, IntersectByDistance gives both directions) |
| Geometry.Laps | Snake/Snake/main.cpp:54 | the number of subtractions the `while` loop performs leaves the value below `size`, and non-negative when it started non-negative |
| Geometry.WrapCoord | Snake/Snake/main.cpp:52-58 | one wrapped coordinate is below the playfield size, and is non-negative exactly when the input is at least `-size` |
| Geometry.WrapCongruent | Snake/Snake/main.cpp:52-58 | the wrap moves a coordinate by a whole number of playfield sizes |
| Geometry.WrapIdentity | Snake/Snake/main.cpp:52-58 | a coordinate already in `[0, size)` is left unchanged |
| Geometry.WrapIdempotent | Snake/Snake/main.cpp:52-58 | wrapping twice equals wrapping once for every input at least `-size` |
| Geometry.WrapNotIdempotent | Snake/Snake/main.cpp:52-58 | below `-size` one wrap only adds `size`, leaves the value negative, and a second wrap changes it |
| Geometry.WrapNotIdempotentExample | Snake/Snake/main.cpp:52-58 | on the 800-pixel field, -1000 wraps to -200 and then to 600 |
| Geometry.WrapAbsorbs | Snake/Snake/main.cpp:52-58 | when `v`, `d` and `v + d` are all at least `-size`, moving the wrapped `v` by `d` and wrapping gives the wrap of `v + d` |
| Geometry.Wrap | Snake/Snake/main.cpp:52-58 | both coordinates of a wrapped point lie below the playfield size, and the point is on the playfield exactly when neither input coordinate is below minus the playfield size |
| Geometry.WrapInField | Snake/Snake/main.cpp:52-58 | a point with both coordinates at least minus the playfield size lands on the playfield |
| Geometry.GlideStaysInField | Snake/Snake/main.cpp:128-131 | for every `n`, `n` straight ticks of step `d >= -size` from the playfield, each followed by the wrap, stay on the playfield and end a whole number of sizes from `x0 + n*d` |
| Geometry.GlideClosedForm | Snake/Snake/main.cpp:128-131 | while `x0 + n*d` stays at least `-size`, the run ends exactly at one wrap of `x0 + n*d` |
| Geometry.GlideClosedFormFails | Snake/Snake/main.cpp:128-131 | once `x0 + n*d` is below `-size`, one wrap of it is negative while the run is on the playfield, so the single-wrap closed form is wrong there |
| Geometry.GlideLongRunExample | Snake/Snake/main.cpp:128-131 | 801 ticks of -1 from 0 on the 800-pixel field end at 799, where one wrap of -801 gives -1 |
| Kinematics.Derive | Snake/Snake/main.cpp:67-70 | the derived speed is at least 2, the turning radius at least 20, the segment radius at least 10, and angle × radius = speed with a positive angle |
| Kinematics.DeriveBaseline | Snake/Snake/main.cpp:119-122 | at score 0 the parameters are speed 2, turning radius 20, angle 0.1, segment radius 10 |
| Kinematics.DeriveMonotone | Snake/Snake/main.cpp:67-70 | speed, turning radius and segment radius are non-decreasing in the score |
| Kinematics.RotateAngleConstant | Snake/Snake/main.cpp:67-69 | the turning angle is 0.1 at every score |
| Kinematics.FiveMealsKeepFloors | Snake/Snake/main.cpp:67-70 | at score 5 speed, turning radius and segment radius are still at their floors 2, 20 and 10 |
| Motion.Straight | Snake/Snake/main.cpp:128-131 | a straight step keeps the heading and displaces the head by exactly `speed` times the heading |
| Motion.TurnRight | Snake/Snake/main.cpp:133-140 | the right turn before the wrap: the head moves by minus `r` times the chord and the heading is rotated by the angle whose cosine and sine are given; its properties are the lemmas below |
| Motion.TurnLeft | Snake/Snake/main.cpp:144-151 | the left turn before the wrap: the same with `cos(-a) = cos a` and `sin(-a) = -sin a`, the chord added |
| Motion.StraightStaysInField | Snake/Snake/main.cpp:128-131 | a straight step from the playfield, no longer than the playfield, along a heading with components in [-1, 1], is back on the playfield after the wrap |
| Motion.TurnRightKeepsPivot | Snake/Snake/main.cpp:132-142 | a right turn leaves the point `r` to the right of the heading fixed, for any `cos`/`sin` values, so repeated turns circle one centre |
| Motion.TurnLeftKeepsPivot | Snake/Snake/main.cpp:143-153 | the same for a left turn and the point to the left |
| Motion.RotateKeepsLength | Snake/Snake/main.cpp:137-140 | when `cos² + sin² = 1` the new heading has the old heading's length |
| Motion.PivotDistance | Snake/Snake/main.cpp:133-136 | the head is `r` times the heading's length from either turning centre |
| FeedEntity.Pulse | Snake/Snake/main.cpp:34-39 | one `animate` on values: the step is added to the radius, and negated when the new radius is at most 10 or at least 15 |
| FeedEntity.PulseStep | Snake/Snake/main.cpp:34-39 | with a step of ±0.1, `animate` changes the radius by exactly the step and the step stays ±0.1 |
| FeedEntity.PulseReversesAtBounds | Snake/Snake/main.cpp:37-38 | the step is negated exactly when the new radius reaches 10 or 15 |
| FeedEntity.PulsePreserves | Snake/Snake/main.cpp:34-39 | the pulse invariant (radius in [10, 15] on a tenth grid, step 0.1 towards the bound not yet reached) is preserved by `animate` |
| FeedEntity.AnimatedStaysInBounds | Snake/Snake/main.cpp:14-16 | after any number of ticks from radius 12 and step 0.1 the radius lies in [10, 15] |
| FeedEntity.Feed.constructor | Snake/Snake/main.cpp:18-24 | a new feed sits at `(x, y)` with radius 12 and step 0.1, satisfying the pulse invariant |
| FeedEntity.Feed.GetRadius | Snake/Snake/main.cpp:31-33 | `getRadius` returns 12 in every state |
| FeedEntity.Feed.Animate | Snake/Snake/main.cpp:34-39 | the new shape radius and step are one pulse of the old ones, and the pulse invariant is kept |
| SnakeEntity.ShiftBody | Snake/Snake/main.cpp:59-65 | the list `moveBody` leaves, of the same length with the head segment at the new head position (indexwise facts in ShiftBodyAt) |
| SnakeEntity.ShiftBodyAt | Snake/Snake/main.cpp:59-65 | the shifted list has the same length, its head at the new head position, segment `i >= 1` at the wrap of old segment `i-1`, and every radius and colour unchanged |
| SnakeEntity.ShiftBodyDelayLine | Snake/Snake/main.cpp:59-65 | on a body lying on the playfield, the new positions are the new head followed by the old positions without the last one |
| SnakeEntity.ShiftBodyInField | Snake/Snake/main.cpp:59-65 | a shift keeps every segment on the playfield when the new head is on it |
| SnakeEntity.Resized | Snake/Snake/main.cpp:71-74 | every segment given radius `r`, positions and colours kept, length kept |
| SnakeEntity.Grown | Snake/Snake/main.cpp:105-109 | the list after a meal: one segment longer, every radius the new one, the new segment on the previous last one |
| SnakeEntity.SelfCollides | Snake/Snake/main.cpp:113-118 | the head overlaps some segment at index 13 or later; so it can only hold with more than 13 segments |
| SnakeEntity.ShortSnakeNeverCollides | Snake/Snake/main.cpp:113-118 | a snake of at most 13 segments never collides with itself |
| SnakeEntity.NeckIsExempt | Snake/Snake/main.cpp:113-118 | changing segments 1 to 12 never changes the self-collision verdict |
| SnakeEntity.CollisionFromThirteen | Snake/Snake/main.cpp:114 | a segment at index 13 lying on the head is a collision |
| SnakeEntity.EatingSeesOnlyTheHead | Snake/Snake/main.cpp:110-112 | eating depends on the head segment alone, and a feed centred on the head is always eaten |
| SnakeEntity.Snake.constructor | Snake/Snake/main.cpp:78-87 | a new snake has score 0, the baseline parameters, head at (400, 400) heading (0, -1), and one white segment of radius 10 at the head |
| SnakeEntity.Snake.NormalizePosition | Snake/Snake/main.cpp:52-58 | the two subtracting loops compute `Wrap` of the input |
| SnakeEntity.Snake.MoveBody | Snake/Snake/main.cpp:59-65 | the head position is wrapped, the list becomes the shift of the old list by the downward loop, everything else is unchanged and the snake stays alive |
| SnakeEntity.Snake.RecalcFeatures | Snake/Snake/main.cpp:66-75 | the four parameters become those of the score and every segment gets the new segment radius, nothing else changes |
| SnakeEntity.Snake.AddSegment | Snake/Snake/main.cpp:88-104 | exactly one segment is appended, at the head position on an empty list and on the last segment otherwise, with the current radius and the colour of its index's parity; the count follows the list |
| SnakeEntity.Snake.AddPoint | Snake/Snake/main.cpp:105-109 | the score rises by exactly one and the parameters and radii are recomputed from it |
| SnakeEntity.Snake.CheckForEating | Snake/Snake/main.cpp:110-112 | the result is whether the head segment and the feed's current circle intersect |
| SnakeEntity.Snake.CheckSelfCollision | Snake/Snake/main.cpp:113-118 | the result is true exactly when the head intersects some segment at index 13 or later |
| SnakeEntity.Snake.Restart | Snake/Snake/main.cpp:119-127 | score 0, baseline parameters, one resized segment left (none if there were none), head pose unchanged |
| SnakeEntity.Snake.Move | Snake/Snake/main.cpp:128-131 | the head advances by `speed` along the heading and is wrapped, and the body shifts after it; a head on the playfield stays on it when the speed is at most 800 and the heading's components lie in [-1, 1] |
| SnakeEntity.FastSnakeLeavesField | Snake/Snake/main.cpp:128-131 | at score 10000 the speed is 1000, and a straight step left from the left edge leaves the head off the playfield after the wrap |
| SnakeEntity.Snake.MoveRight | Snake/Snake/main.cpp:132-142 | the pose becomes the wrapped right turn and the body shifts after it |
| SnakeEntity.Snake.MoveLeft | Snake/Snake/main.cpp:143-153 | the pose becomes the wrapped left turn and the body shifts after it |
| GameLoop.ChooseMove | Snake/Snake/main.cpp:203-208 | Left is chosen exactly when Left is held, Right exactly when only Right is held, straight exactly when neither is |
| GameLoop.Advance | Snake/Snake/main.cpp:203-208 | the head pose each choice computes before the wrap: the left turn, the right turn or the straight step |
| GameLoop.RespawnCoord | Snake/Snake/main.cpp:211 | for any non-negative random draw the respawn coordinate lies in `[20, size - 21]` |
| GameLoop.Steer | Snake/Snake/main.cpp:203-208 | the snake performs exactly the move `ChooseMove` picks |
| GameLoop.EatIfPossible | Snake/Snake/main.cpp:210-214 | on eating, a new feed at the respawn coordinates, score and count each rise by one and the list becomes the old list resized plus a segment on its last one (`Grown`), with the radius of the new score; otherwise the feed and the list are kept |
| GameLoop.RestartOnCollision | Snake/Snake/main.cpp:215-217 | the snake restarts exactly when it collides with itself, which needs more than 13 segments, leaving one white segment of radius 10 at the head; it is untouched otherwise |
| GameLoop.MoveAndEat | Snake/Snake/main.cpp:203-214 | the chosen move then the meal: the list is the shift of the old one, grown when the moved head reaches the feed |
| GameLoop.MoveEatAndCheck | Snake/Snake/main.cpp:203-217 | the snake's part of a pass: it restarts exactly when the body after the move and the meal (the shift of the old list, grown at the new score's radius after a meal) collides with itself; the outcome of MoveAndEat when it survives, the restarted one-segment snake when it collides |
| GameLoop.Tick | Snake/Snake/main.cpp:203-219 | one pass moves by the chosen move, eats and respawns, restarts exactly when the shifted (and, after a meal, grown) body collides with itself, and animates the feed; a surviving snake does not collide with itself and its list is the shift of the old one, grown after a meal; a restarted one is a single white segment of radius 10 at the head |
| GameLoop.FiveMeals | Snake/Snake/main.cpp:210-213 | five meals from a new snake give score 5 and six segments at radius 10 and speed 2 |

## Left out

- Drawing, windowing, fonts and the frame-rate limit (`update`, `setOrigin`, `setPointCount`, `main.cpp:161-176`, `main.cpp:221-227`): SFML calls with no game logic. Of these only the segment colour is kept, as an enumeration.
- Keyboard event polling (`main.cpp:183-200`): the held state of Left and Right is a parameter of `GameLoop.Tick`.
- `srand`/`rand`: the two random draws are non-negative parameters of `GameLoop.Tick`.
- The score display `scoreText->setString(...)` in `addPoint`: only `score` is modelled.
- `Feed::getPosition` and `Feed::getShape` are the `position` constant and the `Shape()` function of `FeedEntity.Feed`.
- The C++ assignment `ball = Feed(...)` overwrites the existing feed object; the model returns a freshly built feed instead.
- `sin` and `cos`: their values are parameters of the turning moves. Only `Motion.RotateKeepsLength` assumes they form a unit pair.
- `float` rounding throughout: every coordinate, radius and parameter is an exact real. So `FeedEntity.AnimatedStaysInBounds` does not model the drift that repeatedly adding `0.1f` can cause.
- SnakeEntity.Alive: it does not include the head being on the playfield, because the code breaks that once the speed exceeds 800 (score above 8000) while heading left or up (`SnakeEntity.FastSnakeLeavesField`). `SnakeEntity.Snake.Move` proves it below that speed; `MoveRight` and `MoveLeft` do not, because `cos` and `sin` are parameters.
- The playfield size is fixed at 800×800, as in the source.

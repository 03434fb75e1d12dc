/** Placing the balls at the start of a simulation. */
module Placement {
  import opened Results
  import opened Vectors
  import opened Collisions
  import opened Draws
  import opened Simulation
  import opened Topology

  const MAX_SPAWN_ATTEMPTS: nat := 1000
  const SPAWN_DISTANCE: real := 2.1 * BALL_RADIUS

  // ----- Placing balls one by one, whatever makes a ball and a position acceptable

  /**
   `clear` says whether the position given by two fractions is clear of the placed balls; `build`
   makes the ball with a given number from those fractions and a third one.
   */
  datatype Kit = Kit(clear: (seq<Ball>, real, real) -> bool, build: (nat, real, real, real) -> Ball) {
    predicate Clear(balls: seq<Ball>, u: real, v: real) {
      clear(balls, u, v)
    }

    function Build(index: nat, u: real, v: real, turn: real): Ball {
      build(index, u, v, turn)
    }
  }

  /** The next two fractions drawn from `random` give a position clear of the placed balls. */
  predicate Succeeds<S>(kit: Kit, source: Source<S>, random: S, balls: seq<Ball>) {
    kit.Clear(balls, Fraction(source, random), Fraction(source, Advance(source, random)))
  }

  /** The state from which the attempt numbered `k` draws; each attempt takes two draws. */
  function AttemptFrom<S>(source: Source<S>, random: S, k: nat): S {
    if k == 0 then random else AttemptFrom(source, Advance(source, Advance(source, random)), k - 1)
  }

  /** The state from which the first successful one of a number of attempts draws. */
  function SuccessFrom<S>(kit: Kit, source: Source<S>, attempts: nat, random: S, balls: seq<Ball>): (r: Option<S>)
    ensures r.Some? ==> Succeeds(kit, source, r.value, balls)
    decreases attempts
  {
    if attempts == 0 then None
    else if Succeeds(kit, source, random, balls) then Some(random)
    else SuccessFrom(kit, source, attempts - 1, Advance(source, Advance(source, random)), balls)
  }

  /** Every one of a number of attempts fails. */
  ghost predicate AllFail<S>(kit: Kit, source: Source<S>, attempts: nat, random: S, balls: seq<Ball>) {
    forall k: nat :: k < attempts ==> !Succeeds(kit, source, AttemptFrom(source, random, k), balls)
  }

  lemma {:induction false} AllFailUnfold<S>(kit: Kit, source: Source<S>, attempts: nat, random: S, balls: seq<Ball>)
    requires attempts > 0
    ensures AllFail(kit, source, attempts, random, balls) <==>
            !Succeeds(kit, source, random, balls) &&
            AllFail(kit, source, attempts - 1, Advance(source, Advance(source, random)), balls)
  {
    var later := Advance(source, Advance(source, random));
    assert AttemptFrom(source, random, 0) == random;
    if AllFail(kit, source, attempts, random, balls) {
      forall k: nat | k < attempts - 1
        ensures !Succeeds(kit, source, AttemptFrom(source, later, k), balls)
      {
        assert AttemptFrom(source, random, k + 1) == AttemptFrom(source, later, k);
      }
    }
    if !Succeeds(kit, source, random, balls) && AllFail(kit, source, attempts - 1, later, balls) {
      forall k: nat | k < attempts
        ensures !Succeeds(kit, source, AttemptFrom(source, random, k), balls)
      {
        assert k > 0 ==> AttemptFrom(source, random, k) == AttemptFrom(source, later, k - 1);
      }
    }
  }

  /** The search fails exactly when every one of the attempts does. */
  lemma {:induction false} SuccessFromIsExact<S>(kit: Kit, source: Source<S>, attempts: nat, random: S,
                                                 balls: seq<Ball>)
    ensures SuccessFrom(kit, source, attempts, random, balls).None? <==> AllFail(kit, source, attempts, random, balls)
    decreases attempts
  {
    if attempts != 0 {
      AllFailUnfold(kit, source, attempts, random, balls);
      SuccessFromIsExact(kit, source, attempts - 1, Advance(source, Advance(source, random)), balls);
    }
  }

  /** The ball numbered `index` made from the next three fractions. */
  function BallFrom<S>(kit: Kit, source: Source<S>, random: S, index: nat): Ball {
    var second := Advance(source, random);
    kit.Build(index, Fraction(source, random), Fraction(source, second), Fraction(source, Advance(source, second)))
  }

  /** The next ball and the state once it is placed, if some permitted attempt succeeds. */
  function NextBall<S>(kit: Kit, source: Source<S>, attempts: nat, random: S, balls: seq<Ball>): Option<(Ball, S)> {
    match SuccessFrom(kit, source, attempts, random, balls)
    case None => None
    case Some(found) =>
      Some((BallFrom(kit, source, found, |balls|), Advance(source, Advance(source, Advance(source, found)))))
  }

  lemma {:induction false} AttemptDraws<S>(source: Source<S>, random: S, k: nat)
    ensures AttemptFrom(source, random, k) == AfterDraws(source, random, 2 * k)
  {
    if k > 0 {
      var later := Advance(source, Advance(source, random));
      AttemptDraws(source, later, k - 1);
      DrawsFromNext(source, Advance(source, random), 2 * k - 2);
      DrawsFromNext(source, random, 2 * k - 1);
    }
  }

  lemma {:induction false} FirstSuccess<S>(kit: Kit, source: Source<S>, attempts: nat, random: S, balls: seq<Ball>)
    returns (k: nat)
    requires SuccessFrom(kit, source, attempts, random, balls).Some?
    ensures k < attempts && AllFail(kit, source, k, random, balls)
    ensures SuccessFrom(kit, source, attempts, random, balls) == Some(AttemptFrom(source, random, k))
    decreases attempts
  {
    if Succeeds(kit, source, random, balls) {
      k := 0;
    } else {
      var earlier := FirstSuccess(kit, source, attempts - 1, Advance(source, Advance(source, random)), balls);
      k := earlier + 1;
      AllFailUnfold(kit, source, k, random, balls);
    }
  }

  /** A ball is made from the first two draws that give a clear position, each attempt taking two, and the next one. */
  lemma {:induction false} NextBallDraws<S>(kit: Kit, source: Source<S>, attempts: nat, random: S, balls: seq<Ball>)
    returns (k: nat)
    requires NextBall(kit, source, attempts, random, balls).Some?
    ensures k < attempts && kit.Clear(balls, Draw(source, random, 2 * k), Draw(source, random, 2 * k + 1))
    ensures forall m: nat :: m < k ==> !kit.Clear(balls, Draw(source, random, 2 * m), Draw(source, random, 2 * m + 1))
    ensures NextBall(kit, source, attempts, random, balls) ==
            Some((kit.Build(|balls|, Draw(source, random, 2 * k), Draw(source, random, 2 * k + 1),
                    Draw(source, random, 2 * k + 2)), AfterDraws(source, random, 2 * k + 3)))
  {
    k := FirstSuccess(kit, source, attempts, random, balls);
    AttemptDraws(source, random, k);
    forall m: nat | m < k
      ensures !kit.Clear(balls, Draw(source, random, 2 * m), Draw(source, random, 2 * m + 1))
    {
      AttemptDraws(source, random, m);
      assert !Succeeds(kit, source, AttemptFrom(source, random, m), balls);
    }
  }

  /** The balls after placing those numbered `|balls|` up to `count`, with the final state. */
  function Placed<S>(kit: Kit, source: Source<S>, attempts: nat, random: S, count: nat,
                     balls: seq<Ball>): (r: Option<(seq<Ball>, S)>)
    requires |balls| <= count
    ensures r.Some? ==> |r.value.0| == count
    decreases count - |balls|
  {
    if |balls| == count then Some((balls, random))
    else
      match NextBall(kit, source, attempts, random, balls)
      case None => None
      case Some((ball, later)) => Placed(kit, source, attempts, later, count, balls + [ball])
  }

  /** A clear ball added to good balls leaves them good. */
  ghost predicate Extends(kit: Kit, good: seq<Ball> -> bool) {
    forall balls: seq<Ball>, u: real, v: real, turn: real ::
      good(balls) && 0.0 <= u <= 1.0 && 0.0 <= v <= 1.0 && kit.Clear(balls, u, v) ==>
        good(balls + [kit.Build(|balls|, u, v, turn)])
  }

  lemma {:induction false} NextBallIsGood<S(!new)>(kit: Kit, source: Source<S>, attempts: nat, random: S,
                                                   balls: seq<Ball>, good: seq<Ball> -> bool)
    requires Extends(kit, good) && GivesFractions(source) && good(balls)
    requires NextBall(kit, source, attempts, random, balls).Some?
    ensures good(balls + [NextBall(kit, source, attempts, random, balls).value.0])
  {
    var found := SuccessFrom(kit, source, attempts, random, balls).value;
    var u, v := Fraction(source, found), Fraction(source, Advance(source, found));
    assert kit.Clear(balls, u, v);
  }

  /** What every added ball keeps holds of the placed balls. */
  lemma {:induction false} PlacementKeeps<S(!new)>(kit: Kit, source: Source<S>, attempts: nat, random: S, count: nat,
                                                   balls: seq<Ball>, good: seq<Ball> -> bool)
    requires Extends(kit, good) && GivesFractions(source) && |balls| <= count && good(balls)
    requires Placed(kit, source, attempts, random, count, balls).Some?
    ensures good(Placed(kit, source, attempts, random, count, balls).value.0)
    decreases count - |balls|
  {
    if |balls| < count {
      NextBallIsGood(kit, source, attempts, random, balls, good);
      var (ball, later) := NextBall(kit, source, attempts, random, balls).value;
      PlacementKeeps(kit, source, attempts, later, count, balls + [ball], good);
    }
  }

  /**
   The run has placed `placed`, which extend `balls`, are fewer than `count`, and leave every attempt
   from `at` unclear.
   */
  ghost predicate StuckAt<S>(kit: Kit, source: Source<S>, attempts: nat, random: S, count: nat, balls: seq<Ball>,
                             placed: seq<Ball>, at: S)
  {
    && balls <= placed && |placed| < count
    && Placed(kit, source, attempts, random, |placed|, balls) == Some((placed, at))
    && AllFail(kit, source, attempts, at, placed)
  }

  /** A run that fails gets stuck after placing good balls: from there every permitted attempt is unclear. */
  lemma {:induction false} PlacementFailsWhenStuck<S(!new)>(kit: Kit, source: Source<S>, attempts: nat, random: S,
                                                            count: nat,
                                                            balls: seq<Ball>, good: seq<Ball> -> bool)
    returns (placed: seq<Ball>, at: S)
    requires Extends(kit, good) && GivesFractions(source) && |balls| <= count && good(balls)
    requires Placed(kit, source, attempts, random, count, balls).None?
    ensures StuckAt(kit, source, attempts, random, count, balls, placed, at) && good(placed)
    decreases count - |balls|
  {
    if NextBall(kit, source, attempts, random, balls).None? {
      placed, at := balls, random;
      SuccessFromIsExact(kit, source, attempts, random, balls);
    } else {
      NextBallIsGood(kit, source, attempts, random, balls, good);
      var (ball, later) := NextBall(kit, source, attempts, random, balls).value;
      placed, at := PlacementFailsWhenStuck(kit, source, attempts, later, count, balls + [ball], good);
    }
  }

  /** Conversely a run that gets stuck fails. */
  lemma {:induction false} StuckPlacementFails<S>(kit: Kit, source: Source<S>, attempts: nat, random: S, count: nat,
                                                  balls: seq<Ball>, placed: seq<Ball>, at: S)
    requires |balls| <= count && StuckAt(kit, source, attempts, random, count, balls, placed, at)
    ensures Placed(kit, source, attempts, random, count, balls).None?
    decreases count - |balls|
  {
    if |balls| == |placed| {
      SuccessFromIsExact(kit, source, attempts, random, balls);
    } else {
      var (ball, later) := NextBall(kit, source, attempts, random, balls).value;
      PlacedExtends(kit, source, attempts, later, |placed|, balls + [ball]);
      StuckPlacementFails(kit, source, attempts, later, count, balls + [ball], placed, at);
    }
  }

  lemma {:induction false} PlacedExtends<S>(kit: Kit, source: Source<S>, attempts: nat, random: S, count: nat,
                                            balls: seq<Ball>)
    requires |balls| <= count && Placed(kit, source, attempts, random, count, balls).Some?
    ensures balls <= Placed(kit, source, attempts, random, count, balls).value.0
    decreases count - |balls|
  {
    if |balls| < count {
      var (ball, later) := NextBall(kit, source, attempts, random, balls).value;
      PlacedExtends(kit, source, attempts, later, count, balls + [ball]);
    }
  }

  // ----- The balls of the simulation

  /** The position given by two fractions. */
  function PositionOf(u: real, v: real): Vector {
    Vector(BALL_RADIUS + u * (WORLD_WIDTH - 2.0 * BALL_RADIUS), BALL_RADIUS + v * (WORLD_HEIGHT - 2.0 * BALL_RADIUS))
  }

  /** Two fractions give exactly the positions inside the walls. */
  lemma {:induction false} PositionsFillWorld(p: Vector)
    ensures InsideWalls(p) <==> exists u, v :: 0.0 <= u <= 1.0 && 0.0 <= v <= 1.0 && PositionOf(u, v) == p
  {
    if InsideWalls(p) {
      var u, v := (p.x - BALL_RADIUS) / (WORLD_WIDTH - 2.0 * BALL_RADIUS),
        (p.y - BALL_RADIUS) / (WORLD_HEIGHT - 2.0 * BALL_RADIUS);
      assert PositionOf(u, v) == p;
    }
  }

  predicate FarFrom(ball: Ball, position: Vector) {
    ball.position.Subtract(position).LengthSquared() >= SPAWN_DISTANCE * SPAWN_DISTANCE
  }

  predicate ClearOf(balls: seq<Ball>, position: Vector) {
    forall i :: 0 <= i < |balls| ==> FarFrom(balls[i], position)
  }

  /** The hue of the ball numbered `index` of `count`, which are converted to 32 bits where they fit. */
  function Hue(index: nat, count: nat): real {
    var number := if index <= U32_MAX then index else 0;
    var of := if count <= U32_MAX then count else 1;
    if of == 0 then 0.0 else number as real / of as real
  }

  /** The hues of the balls divide the circle evenly. */
  lemma {:induction false} HuesAreEven(index: nat, count: nat)
    requires index < count <= U32_MAX
    ensures Hue(index, count) * count as real == index as real && 0.0 <= Hue(index, count) < 1.0
  {
    Quotient(index as real, count as real);
  }

  lemma {:induction false} Quotient(a: real, b: real)
    requires 0.0 <= a < b
    ensures a / b * b == a && 0.0 <= a / b < 1.0
  {
  }

  function SpawnKit(direction: real -> Vector, count: nat): Kit {
    Kit((balls: seq<Ball>, u: real, v: real) => ClearOf(balls, PositionOf(u, v)),
        (index: nat, u: real, v: real, turn: real) =>
          Ball(PositionOf(u, v), direction(turn).Scale(BALL_SPEED), Hue(index, count)))
  }

  ghost predicate WellSpawned(ball: Ball) {
    InsideWalls(ball.position) && SpeedSquared(ball) == BALL_SPEED * BALL_SPEED
  }

  ghost predicate WellPlaced(balls: seq<Ball>, count: nat) {
    && (forall i :: 0 <= i < |balls| ==> WellSpawned(balls[i]) && balls[i].hue == Hue(i, count))
    && (forall i, j :: 0 <= i < j < |balls| ==> FarFrom(balls[i], balls[j].position))
  }

  lemma {:induction false} BallIsWellSpawned(direction: real -> Vector, u: real, v: real, turn: real, hue: real)
    requires GivesUnits(direction) && 0.0 <= u <= 1.0 && 0.0 <= v <= 1.0
    ensures WellSpawned(Ball(PositionOf(u, v), direction(turn).Scale(BALL_SPEED), hue))
  {
    var ball := Ball(PositionOf(u, v), direction(turn).Scale(BALL_SPEED), hue);
    KickedSpeed(direction, ball, turn);
    assert Kicked(direction, ball, turn) == ball;
  }

  lemma {:induction false} PlaceOne(balls: seq<Ball>, ball: Ball, count: nat)
    requires WellPlaced(balls, count) && WellSpawned(ball) && ball.hue == Hue(|balls|, count)
    requires ClearOf(balls, ball.position)
    ensures WellPlaced(balls + [ball], count)
  {
  }

  lemma {:induction false} SpawnKitExtends(direction: real -> Vector, count: nat)
    requires GivesUnits(direction)
    ensures Extends(SpawnKit(direction, count), balls => WellPlaced(balls, count))
  {
    var kit := SpawnKit(direction, count);
    forall balls: seq<Ball>, u: real, v: real, turn: real
      | WellPlaced(balls, count) && 0.0 <= u <= 1.0 && 0.0 <= v <= 1.0 && kit.Clear(balls, u, v)
      ensures WellPlaced(balls + [kit.Build(|balls|, u, v, turn)], count)
    {
      BallIsWellSpawned(direction, u, v, turn, Hue(|balls|, count));
      PlaceOne(balls, kit.Build(|balls|, u, v, turn), count);
    }
  }

  /** The initial balls of a world and the state after placing them, or nothing when they do not fit. */
  function Spawned<S>(direction: real -> Vector, source: Source<S>, attempts: nat, random: S,
                      count: nat): Option<(seq<Ball>, S)> {
    Placed(SpawnKit(direction, count), source, attempts, random, count, [])
  }

  /**
   Placement either fails or gives exactly the requested number of balls, all inside the walls, at
   the nominal speed, evenly spread in hue, and pairwise at least 2.1 radii apart.
   */
  lemma {:induction false} SpawnedBallsAreSound<S(!new)>(direction: real -> Vector, source: Source<S>, attempts: nat,
                                                         random: S, count: nat)
    requires GivesUnits(direction) && GivesFractions(source)
    ensures var spawned := Spawned(direction, source, attempts, random, count);
            spawned.Some? ==> |spawned.value.0| == count && WellPlaced(spawned.value.0, count)
  {
    SpawnKitExtends(direction, count);
    if Spawned(direction, source, attempts, random, count).Some? {
      PlacementKeeps(SpawnKit(direction, count), source, attempts, random, count, [],
        balls => WellPlaced(balls, count));
    }
  }

  /**
   A world cannot be filled exactly when some number of soundly placed balls leaves every permitted
   attempt unclear.
   */
  lemma {:induction false} SpawningFailsExactly<S(!new)>(direction: real -> Vector, source: Source<S>, attempts: nat,
                                                         random: S, count: nat)
    requires GivesUnits(direction) && GivesFractions(source)
    ensures Spawned(direction, source, attempts, random, count).None? <==>
            exists placed, at ::
              StuckAt(SpawnKit(direction, count), source, attempts, random, count, [], placed, at) &&
                WellPlaced(placed, count)
  {
    var kit := SpawnKit(direction, count);
    if Spawned(direction, source, attempts, random, count).None? {
      SpawnKitExtends(direction, count);
      var placed, at := PlacementFailsWhenStuck(kit, source, attempts, random, count, [],
        balls => WellPlaced(balls, count));
      assert StuckAt(kit, source, attempts, random, count, [], placed, at) && WellPlaced(placed, count);
    }
    if placed, at :| StuckAt(kit, source, attempts, random, count, [], placed, at) && WellPlaced(placed, count) {
      StuckPlacementFails(kit, source, attempts, random, count, [], placed, at);
    }
  }
}

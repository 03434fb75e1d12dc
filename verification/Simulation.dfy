/** The bouncing-ball world: one physics step, key presses that kick balls, and the initial placement. */
module Simulation {
  import opened Draws
  import opened Vectors
  import opened Collisions

  const BALL_SPEED: real := 3.2

  datatype KeySample = KeySample(name: string, x: nat, y: nat) {
    function Position(): Vector {
      Vector(x as real * 0.5 + 0.25, y as real * 0.5 + 0.5)
    }
  }

  // ----- Conserved quantities

  function Energy(balls: seq<Ball>): real {
    if balls == [] then 0.0 else SpeedSquared(balls[0]) + Energy(balls[1..])
  }

  function Momentum(balls: seq<Ball>): Vector {
    if balls == [] then Vector(0.0, 0.0) else balls[0].velocity.Add(Momentum(balls[1..]))
  }

  lemma {:induction false} EnergyOfUpdate(balls: seq<Ball>, i: nat, ball: Ball)
    requires i < |balls|
    ensures Energy(balls[i := ball]) == Energy(balls) - SpeedSquared(balls[i]) + SpeedSquared(ball)
  {
    var updated := balls[i := ball];
    if i == 0 {
      assert updated[1..] == balls[1..];
    } else {
      assert updated[1..] == balls[1..][i - 1 := ball];
      EnergyOfUpdate(balls[1..], i - 1, ball);
    }
  }

  lemma {:induction false} MomentumOfUpdate(balls: seq<Ball>, i: nat, ball: Ball)
    requires i < |balls|
    ensures Momentum(balls[i := ball]) == Momentum(balls).Subtract(balls[i].velocity).Add(ball.velocity)
  {
    var updated := balls[i := ball];
    if i == 0 {
      assert updated[1..] == balls[1..];
    } else {
      assert updated[1..] == balls[1..][i - 1 := ball];
      MomentumOfUpdate(balls[1..], i - 1, ball);
    }
  }

  lemma {:induction false} EnergyOfSameSpeeds(balls: seq<Ball>, others: seq<Ball>)
    requires |balls| == |others|
    requires forall i :: 0 <= i < |balls| ==> SpeedSquared(balls[i]) == SpeedSquared(others[i])
    ensures Energy(balls) == Energy(others)
  {
    if balls != [] {
      EnergyOfSameSpeeds(balls[1..], others[1..]);
    }
  }

  // ----- Specification of one step

  function Drifted(ball: Ball, seconds: real): Ball {
    ball.(position := ball.position.Add(ball.velocity.Scale(seconds)))
  }

  function AfterWalls(balls: seq<Ball>, seconds: real): (r: seq<Ball>)
    ensures |r| == |balls|
  {
    seq(|balls|, i requires 0 <= i < |balls| => CollideWithWalls(Drifted(balls[i], seconds)))
  }

  /** How two balls collide. */
  function Meet(sqrt: real -> real): (Ball, Ball) -> (Ball, Ball) {
    (first: Ball, second: Ball) => CollideBalls(sqrt, first, second)
  }

  /** The balls at positions `i < j` meet each other. */
  function AfterPair(meet: (Ball, Ball) -> (Ball, Ball), balls: seq<Ball>, i: nat, j: nat): (r: seq<Ball>)
    requires i < j < |balls|
    ensures |r| == |balls|
  {
    var after := meet(balls[i], balls[j]);
    balls[i := after.0][j := after.1]
  }

  /** Every remaining pair meets: first those of `i` from `j` on, then those of each later ball. */
  function AfterPairs(meet: (Ball, Ball) -> (Ball, Ball), balls: seq<Ball>, i: nat, j: nat): (r: seq<Ball>)
    requires i < j
    ensures |r| == |balls|
    decreases |balls| - i, |balls| - j
  {
    if i >= |balls| then balls
    else if j >= |balls| then AfterPairs(meet, balls, i + 1, i + 2)
    else AfterPairs(meet, AfterPair(meet, balls, i, j), i, j + 1)
  }

  function AfterFinger(sqrt: real -> real, balls: seq<Ball>, centre: Vector): (r: seq<Ball>)
    ensures |r| == |balls|
  {
    seq(|balls|, i requires 0 <= i < |balls| => CollideWithFinger(sqrt, balls[i], centre))
  }

  /** The first `upTo` keys act in order of their index; those not pressed do nothing. */
  function AfterFingers(sqrt: real -> real, balls: seq<Ball>, keys: seq<KeySample>, pressed: set<nat>,
                        upTo: nat): (r: seq<Ball>)
    requires upTo <= |keys|
    ensures |r| == |balls|
  {
    if upTo == 0 then balls
    else
      var before := AfterFingers(sqrt, balls, keys, pressed, upTo - 1);
      if upTo - 1 in pressed then AfterFinger(sqrt, before, keys[upTo - 1].Position()) else before
  }

  function Stepped(sqrt: real -> real, balls: seq<Ball>, keys: seq<KeySample>, pressed: set<nat>,
                   seconds: real): (r: seq<Ball>)
    ensures |r| == |balls|
  {
    AfterFingers(sqrt, AfterPairs(Meet(sqrt), AfterWalls(balls, seconds), 0, 1), keys, pressed, |keys|)
  }

  // ----- What a step keeps

  lemma {:induction false} WallsKeepEnergy(balls: seq<Ball>, seconds: real)
    ensures Energy(AfterWalls(balls, seconds)) == Energy(balls)
    ensures forall b :: b in AfterWalls(balls, seconds) ==> InsideWalls(b.position)
  {
    forall i | 0 <= i < |balls|
      ensures SpeedSquared(AfterWalls(balls, seconds)[i]) == SpeedSquared(balls[i])
      ensures InsideWalls(AfterWalls(balls, seconds)[i].position)
    {
      WallCollision(Drifted(balls[i], seconds));
    }
    EnergyOfSameSpeeds(AfterWalls(balls, seconds), balls);
  }

  lemma {:induction false} PairKeepsEnergy(sqrt: real -> real, balls: seq<Ball>, i: nat, j: nat)
    requires IsSquareRoot(sqrt) && i < j < |balls|
    ensures Energy(AfterPair(Meet(sqrt), balls, i, j)) == Energy(balls)
  {
    var after := CollideBalls(sqrt, balls[i], balls[j]);
    BallsKeepEnergy(sqrt, balls[i], balls[j]);
    EnergyOfUpdate(balls, i, after.0);
    EnergyOfUpdate(balls[i := after.0], j, after.1);
  }

  lemma {:induction false} PairKeepsMomentum(sqrt: real -> real, balls: seq<Ball>, i: nat, j: nat)
    requires i < j < |balls|
    ensures Momentum(AfterPair(Meet(sqrt), balls, i, j)) == Momentum(balls)
  {
    var after := CollideBalls(sqrt, balls[i], balls[j]);
    BallsKeepMomentum(sqrt, balls[i], balls[j]);
    MomentumOfUpdate(balls, i, after.0);
    MomentumOfUpdate(balls[i := after.0], j, after.1);
    Regroup(Momentum(balls), balls[i].velocity, balls[j].velocity, after.0.velocity, after.1.velocity);
  }

  lemma {:induction false} Regroup(total: Vector, a: Vector, b: Vector, c: Vector, d: Vector)
    requires a.Add(b) == c.Add(d)
    ensures total.Subtract(a).Add(c).Subtract(b).Add(d) == total
  {
  }

  lemma {:induction false} PairsKeepEnergyAndMomentum(sqrt: real -> real, balls: seq<Ball>, i: nat, j: nat)
    requires IsSquareRoot(sqrt) && i < j
    ensures Energy(AfterPairs(Meet(sqrt), balls, i, j)) == Energy(balls)
    ensures Momentum(AfterPairs(Meet(sqrt), balls, i, j)) == Momentum(balls)
    decreases |balls| - i, |balls| - j
  {
    if i < |balls| && j < |balls| {
      PairKeepsEnergy(sqrt, balls, i, j);
      PairKeepsMomentum(sqrt, balls, i, j);
      PairsKeepEnergyAndMomentum(sqrt, AfterPair(Meet(sqrt), balls, i, j), i, j + 1);
    } else if i < |balls| {
      PairsKeepEnergyAndMomentum(sqrt, balls, i + 1, i + 2);
    }
  }

  lemma {:induction false} FingerKeepsEnergy(sqrt: real -> real, balls: seq<Ball>, centre: Vector)
    requires IsSquareRoot(sqrt)
    ensures Energy(AfterFinger(sqrt, balls, centre)) == Energy(balls)
    ensures forall b :: b in AfterFinger(sqrt, balls, centre) ==> !UnderFinger(b, centre)
  {
    forall i | 0 <= i < |balls|
      ensures SpeedSquared(AfterFinger(sqrt, balls, centre)[i]) == SpeedSquared(balls[i])
      ensures !UnderFinger(AfterFinger(sqrt, balls, centre)[i], centre)
    {
      FingerCollision(sqrt, balls[i], centre);
    }
    EnergyOfSameSpeeds(AfterFinger(sqrt, balls, centre), balls);
  }

  lemma {:induction false} FingersKeepEnergy(sqrt: real -> real, balls: seq<Ball>, keys: seq<KeySample>,
                                             pressed: set<nat>, upTo: nat)
    requires IsSquareRoot(sqrt) && upTo <= |keys|
    ensures Energy(AfterFingers(sqrt, balls, keys, pressed, upTo)) == Energy(balls)
  {
    if upTo != 0 {
      FingersKeepEnergy(sqrt, balls, keys, pressed, upTo - 1);
      var before := AfterFingers(sqrt, balls, keys, pressed, upTo - 1);
      FingerKeepsEnergy(sqrt, before, keys[upTo - 1].Position());
    }
  }

  /** A step keeps the sum of squared speeds, whatever the balls, the pressed keys and the time step. */
  lemma {:induction false} StepKeepsEnergy(sqrt: real -> real, balls: seq<Ball>, keys: seq<KeySample>,
                                           pressed: set<nat>, seconds: real)
    requires IsSquareRoot(sqrt)
    ensures Energy(Stepped(sqrt, balls, keys, pressed, seconds)) == Energy(balls)
  {
    WallsKeepEnergy(balls, seconds);
    PairsKeepEnergyAndMomentum(sqrt, AfterWalls(balls, seconds), 0, 1);
    FingersKeepEnergy(sqrt, AfterPairs(Meet(sqrt), AfterWalls(balls, seconds), 0, 1), keys, pressed, |keys|);
  }

  // ----- Key presses

  /** `direction` gives the unit vector at a fraction of a full turn. */
  ghost predicate GivesUnits(direction: real -> Vector) {
    forall turn :: IsUnit(direction(turn))
  }

  predicate WithinReach(ball: Ball, centre: Vector) {
    ball.position.Subtract(centre).LengthSquared() <= REACH * REACH
  }

  function Near(centre: Vector): Ball -> bool {
    (ball: Ball) => WithinReach(ball, centre)
  }

  predicate IsNear(near: Ball -> bool, ball: Ball) {
    near(ball)
  }

  function KickWith(kick: (Ball, real) -> Ball, ball: Ball, turn: real): Ball {
    kick(ball, turn)
  }

  function NumberNear(near: Ball -> bool, balls: seq<Ball>): nat {
    if balls == [] then 0 else (if IsNear(near, balls[0]) then 1 else 0) + NumberNear(near, balls[1..])
  }

  function Kicked(direction: real -> Vector, ball: Ball, turn: real): Ball {
    ball.(velocity := direction(turn).Scale(BALL_SPEED))
  }

  function Kick(direction: real -> Vector): (Ball, real) -> Ball {
    (ball: Ball, turn: real) => Kicked(direction, ball, turn)
  }

  /** Each ball that is near is kicked with the next fraction drawn, in order. */
  function AfterKicks<S>(near: Ball -> bool, kick: (Ball, real) -> Ball, source: Source<S>, random: S,
                         balls: seq<Ball>): (r: (seq<Ball>, S))
    ensures |r.0| == |balls|
    decreases |balls|
  {
    if balls == [] then ([], random)
    else if IsNear(near, balls[0]) then
      var rest := AfterKicks(near, kick, source, Advance(source, random), balls[1..]);
      ([KickWith(kick, balls[0], Fraction(source, random))] + rest.0, rest.1)
    else
      var rest := AfterKicks(near, kick, source, random, balls[1..]);
      ([balls[0]] + rest.0, rest.1)
  }

  /** The ball a kick or its absence makes of the first ball, and the state in which the rest are kicked. */
  function KickFirst<S>(near: Ball -> bool, kick: (Ball, real) -> Ball, source: Source<S>, random: S,
                        ball: Ball): (Ball, S) {
    if IsNear(near, ball) then (KickWith(kick, ball, Fraction(source, random)), Advance(source, random))
      else (ball, random)
  }

  lemma {:induction false} AfterKicksFrom<S>(near: Ball -> bool, kick: (Ball, real) -> Ball, source: Source<S>,
                                             random: S, balls: seq<Ball>, i: nat)
    requires i < |balls|
    ensures var first := KickFirst(near, kick, source, random, balls[i]);
            var rest := AfterKicks(near, kick, source, first.1, balls[i + 1..]);
            && AfterKicks(near, kick, source, random, balls[i..]).0 == [first.0] + rest.0
            && AfterKicks(near, kick, source, random, balls[i..]).1 == rest.1
  {
    assert balls[i..][0] == balls[i] && balls[i..][1..] == balls[i + 1..];
  }

  lemma {:induction false} KickedSpeed(direction: real -> Vector, ball: Ball, turn: real)
    requires GivesUnits(direction)
    ensures SpeedSquared(Kicked(direction, ball, turn)) == BALL_SPEED * BALL_SPEED
  {
    assert IsUnit(direction(turn));
    ScaleSquared(direction(turn), BALL_SPEED);
  }

  lemma {:induction false} SpeedSquaredIsNotNegative(ball: Ball)
    ensures SpeedSquared(ball) >= 0.0
  {
    SquareIsNotNegative(ball.velocity.x);
    SquareIsNotNegative(ball.velocity.y);
  }

  lemma {:induction false} KickedOrNot<S>(near: Ball -> bool, kick: (Ball, real) -> Ball, source: Source<S>, random: S,
                                          balls: seq<Ball>, i: nat) returns (turn: real)
    requires i < |balls|
    ensures AfterKicks(near, kick, source, random, balls).0[i] ==
            if IsNear(near, balls[i]) then KickWith(kick, balls[i], turn) else balls[i]
    decreases |balls|
  {
    turn := Fraction(source, random);
    if i > 0 {
      turn := KickedOrNot(near, kick, source, if IsNear(near, balls[0]) then Advance(source, random)
        else random, balls[1..], i - 1);
    }
  }

  /** A press moves no ball, gives those in reach the nominal speed, and leaves the others alone. */
  lemma {:induction false} KicksAreLocal<S>(direction: real -> Vector, source: Source<S>, random: S, balls: seq<Ball>,
                                            centre: Vector, i: nat)
    requires GivesUnits(direction) && i < |balls|
    ensures var after := AfterKicks(Near(centre), Kick(direction), source, random, balls).0[i];
            && after.position == balls[i].position && after.hue == balls[i].hue
            && (WithinReach(balls[i], centre) ==> SpeedSquared(after) == BALL_SPEED * BALL_SPEED)
            && (!WithinReach(balls[i], centre) ==> after == balls[i])
  {
    var turn := KickedOrNot(Near(centre), Kick(direction), source, random, balls, i);
    KickedSpeed(direction, balls[i], turn);
  }

  /** The balls in reach take the draws in order, and the generator ends that many draws later. */
  lemma {:induction false} KicksDrawInOrder<S>(near: Ball -> bool, kick: (Ball, real) -> Ball, source: Source<S>,
                                               random: S, balls: seq<Ball>)
    ensures AfterKicks(near, kick, source, random, balls).1 == AfterDraws(source, random, NumberNear(near, balls))
    ensures forall i :: 0 <= i < |balls| ==>
              AfterKicks(near, kick, source, random, balls).0[i] ==
              if IsNear(near, balls[i])
              then KickWith(kick, balls[i], Draw(source, random, NumberNear(near, balls[..i]))) else balls[i]
    decreases |balls|
  {
    if balls != [] {
      var first := KickFirst(near, kick, source, random, balls[0]);
      var rest := balls[1..];
      KicksDrawInOrder(near, kick, source, first.1, rest);
      NextDraws(near, kick, source, random, balls[0], NumberNear(near, rest));
      forall i | 1 <= i < |balls|
        ensures AfterKicks(near, kick, source, random, balls).0[i] ==
                if IsNear(near, balls[i])
                then KickWith(kick, balls[i], Draw(source, random, NumberNear(near, balls[..i]))) else balls[i]
      {
        assert balls[..i][0] == balls[0] && balls[..i][1..] == rest[..i - 1];
        NextDraws(near, kick, source, random, balls[0], NumberNear(near, rest[..i - 1]));
      }
    }
  }

  lemma {:induction false} NextDraws<S>(near: Ball -> bool, kick: (Ball, real) -> Ball, source: Source<S>, random: S,
                                        ball: Ball, n: nat)
    ensures AfterDraws(source, KickFirst(near, kick, source, random, ball).1, n) ==
            AfterDraws(source, random, (if IsNear(near, ball) then 1 else 0) + n)
  {
    DrawsFromNext(source, random, n);
  }

  lemma {:induction false} KicksBoundEnergy<S>(direction: real -> Vector, source: Source<S>, random: S,
                                               balls: seq<Ball>,
                                               centre: Vector)
    requires GivesUnits(direction)
    ensures var after := AfterKicks(Near(centre), Kick(direction), source, random, balls);
            && Energy(after.0) <= Energy(balls) + NumberNear(Near(centre), balls) as real * (BALL_SPEED * BALL_SPEED)
            && (NumberNear(Near(centre), balls) == 0 ==> after.0 == balls && after.1 == random)
    decreases |balls|
  {
    if balls != [] {
      var later := if IsNear(Near(centre), balls[0]) then Advance(source, random) else random;
      var after := AfterKicks(Near(centre), Kick(direction), source, random, balls).0;
      KicksBoundEnergy(direction, source, later, balls[1..], centre);
      KicksAreLocal(direction, source, random, balls, centre, 0);
      SpeedSquaredIsNotNegative(balls[0]);
      assert after[1..] == AfterKicks(Near(centre), Kick(direction), source, later, balls[1..]).0;
      assert balls == [balls[0]] + balls[1..];
    }
  }

  // ----- Whole runs

  /** The balls, the keys held as obstacles, and the state of the random generator. */
  datatype State<!S> = State(balls: seq<Ball>, pressed: set<nat>, random: S)

  datatype Event = Tick(seconds: real) | Press(key: nat) | Release(key: nat)

  /** The setting of a run, which no event changes. */
  datatype Setting<!S> = Setting(sqrt: real -> real, direction: real -> Vector, source: Source<S>, keys: seq<KeySample>)

  ghost predicate Exact<S>(setting: Setting<S>) {
    IsSquareRoot(setting.sqrt) && GivesUnits(setting.direction)
  }

  /** Setting the key at `index`: a key already down is left alone, a newly pressed one kicks the balls in reach. */
  function KeySet<S>(direction: real -> Vector, source: Source<S>, world: State<S>, index: nat, key: KeySample,
                     down: bool): State<S> {
    if !down then world.(pressed := world.pressed - {index})
    else if index in world.pressed then world
    else
      var after := AfterKicks(Near(key.Position()), Kick(direction), source, world.random, world.balls);
      State(after.0, world.pressed + {index}, after.1)
  }

  /**
   A press of a key that was not down sends each ball in reach off at the nominal speed in a freshly
   drawn direction and leaves the others alone; any other press changes nothing, and a release only
   lets go of the key.
   */
  lemma {:induction false} KeySetExactly<S>(direction: real -> Vector, source: Source<S>, world: State<S>, index: nat,
                                            key: KeySample)
    ensures KeySet(direction, source, world, index, key, false) ==
            State(world.balls, world.pressed - {index}, world.random)
    ensures index in world.pressed ==> KeySet(direction, source, world, index, key, true) == world
    ensures index !in world.pressed ==>
              var after := KeySet(direction, source, world, index, key, true);
              var near := Near(key.Position());
              && after.pressed == world.pressed + {index} && |after.balls| == |world.balls|
              && after.random == AfterDraws(source, world.random, NumberNear(near, world.balls))
              && forall i :: 0 <= i < |world.balls| ==>
                   var ball, turn := world.balls[i], Draw(source, world.random, NumberNear(near, world.balls[..i]));
                   after.balls[i] ==
                   if WithinReach(ball, key.Position())
                   then Ball(ball.position, direction(turn).Scale(BALL_SPEED), ball.hue) else ball
  {
    KicksDrawInOrder(Near(key.Position()), Kick(direction), source, world.random, world.balls);
  }

  function Happens<S>(setting: Setting<S>, world: State<S>, event: Event): State<S> {
    match event
    case Tick(seconds) => world.(balls := Stepped(setting.sqrt, world.balls, setting.keys, world.pressed, seconds))
    case Press(key) =>
      if key < |setting.keys| then KeySet(setting.direction, setting.source, world, key, setting.keys[key], true)
        else world
    case Release(key) =>
      if key < |setting.keys| then KeySet(setting.direction, setting.source, world, key, setting.keys[key], false)
        else world
  }

  /** The number of balls an event kicks: none unless it presses a key that was not down. */
  function Kicks<S>(setting: Setting<S>, world: State<S>, event: Event): nat {
    if event.Press? && event.key < |setting.keys| && event.key !in world.pressed
    then NumberNear(Near(setting.keys[event.key].Position()), world.balls)
    else 0
  }

  function AfterRun<S>(setting: Setting<S>, world: State<S>, events: seq<Event>): State<S> {
    if events == [] then world
    else Happens(setting, AfterRun(setting, world, events[..|events| - 1]), events[|events| - 1])
  }

  function RunKicks<S>(setting: Setting<S>, world: State<S>, events: seq<Event>): nat {
    if events == [] then 0
    else
      var init := events[..|events| - 1];
      RunKicks(setting, world, init) + Kicks(setting, AfterRun(setting, world, init), events[|events| - 1])
  }

  /**
   Over every run the sum of squared speeds changes only when balls are kicked, and grows by at most
   the nominal squared speed for each kick.
   */
  lemma {:induction false} RunKeepsEnergy<S>(setting: Setting<S>, world: State<S>, events: seq<Event>)
    requires Exact(setting)
    ensures var after := AfterRun(setting, world, events);
            var kicks := RunKicks(setting, world, events);
            && |after.balls| == |world.balls|
            && Energy(after.balls) <= Energy(world.balls) + kicks as real * (BALL_SPEED * BALL_SPEED)
            && (kicks == 0 ==> Energy(after.balls) == Energy(world.balls))
  {
    if events != [] {
      var init, last := events[..|events| - 1], events[|events| - 1];
      RunKeepsEnergy(setting, world, init);
      EventKeepsEnergy(setting, AfterRun(setting, world, init), last);
    }
  }

  lemma {:induction false} EventKeepsEnergy<S>(setting: Setting<S>, world: State<S>, event: Event)
    requires Exact(setting)
    ensures var after := Happens(setting, world, event);
            var kicks := Kicks(setting, world, event);
            && |after.balls| == |world.balls|
            && Energy(after.balls) <= Energy(world.balls) + kicks as real * (BALL_SPEED * BALL_SPEED)
            && (kicks == 0 ==> Energy(after.balls) == Energy(world.balls))
  {
    match event
    case Tick(seconds) => StepKeepsEnergy(setting.sqrt, world.balls, setting.keys, world.pressed, seconds);
    case Release(_) =>
    case Press(key) =>
      if key < |setting.keys| {
        KicksBoundEnergy(setting.direction, setting.source, world.random, world.balls, setting.keys[key].Position());
      }
  }
}

/** The world object: its balls, the keys held as obstacles, and its random generator. */
module BallWorld {
  import opened Results
  import opened Sequences
  import opened Vectors
  import opened Collisions
  import opened Draws
  import opened Xorshift
  import opened Simulation
  import opened Placement

  class World<S> {
    const sqrt: real -> real
    const direction: real -> Vector
    const source: Source<S>
    var balls: seq<Ball>
    var pressed: set<nat>
    var random: S

    ghost function View(): State<S>
      reads this
    {
      State(balls, pressed, random)
    }

    constructor (sqrt: real -> real, direction: real -> Vector, source: Source<S>, balls: seq<Ball>, random: S)
      ensures this.sqrt == sqrt && this.direction == direction && this.source == source
      ensures View() == State(balls, {}, random)
    {
      this.sqrt, this.direction, this.source := sqrt, direction, source;
      this.balls, this.pressed, this.random := balls, {}, random;
    }

    method SetKey(index: nat, key: KeySample, down: bool)
      modifies this
      ensures View() == KeySet(direction, source, old(View()), index, key, down)
    {
      if !down {
        pressed := pressed - {index};
        return;
      }
      if index in pressed {
        return;
      }
      pressed := pressed + {index};
      balls, random := KickNear(Near(key.Position()), Kick(direction), source, balls, random);
    }

    method Step(keys: seq<KeySample>, seconds: real)
      modifies this`balls
      ensures balls == Stepped(sqrt, old(balls), keys, pressed, seconds)
    {
      DriftAndBounce(seconds);
      CollidePairs();
      for k := 0 to |keys|
        invariant balls ==
                  AfterFingers(sqrt, AfterPairs(Meet(sqrt), AfterWalls(old(balls), seconds), 0, 1), keys, pressed, k)
      {
        // Pressed keys are visited in ascending order; those beyond the list of keys are ignored.
        if k in pressed {
          PushAway(keys[k].Position());
        }
      }
    }

    method DriftAndBounce(seconds: real)
      modifies this`balls
      ensures balls == AfterWalls(old(balls), seconds)
    {
      for i := 0 to |balls|
        invariant |balls| == |old(balls)|
        invariant forall k :: 0 <= k < i ==> balls[k] == AfterWalls(old(balls), seconds)[k]
        invariant forall k :: i <= k < |balls| ==> balls[k] == old(balls)[k]
      {
        balls := balls[i := CollideWithWalls(Drifted(balls[i], seconds))];
      }
    }

    method CollidePairs()
      modifies this`balls
      ensures balls == AfterPairs(Meet(sqrt), old(balls), 0, 1)
    {
      for i := 0 to |balls|
        invariant |balls| == |old(balls)|
        invariant AfterPairs(Meet(sqrt), balls, i, i + 1) == AfterPairs(Meet(sqrt), old(balls), 0, 1)
      {
        for j := i + 1 to |balls|
          invariant |balls| == |old(balls)|
          invariant AfterPairs(Meet(sqrt), balls, i, j) == AfterPairs(Meet(sqrt), old(balls), 0, 1)
        {
          var after := CollideBalls(sqrt, balls[i], balls[j]);
          balls := balls[i := after.0][j := after.1];
        }
      }
    }

    method PushAway(centre: Vector)
      modifies this`balls
      ensures balls == AfterFinger(sqrt, old(balls), centre)
    {
      for i := 0 to |balls|
        invariant |balls| == |old(balls)|
        invariant forall k :: 0 <= k < i ==> balls[k] == AfterFinger(sqrt, old(balls), centre)[k]
        invariant forall k :: i <= k < |balls| ==> balls[k] == old(balls)[k]
      {
        balls := balls[i := CollideWithFinger(sqrt, balls[i], centre)];
      }
    }
  }

  /** Kicks the balls that are near, drawing a new direction for each. */
  method KickNear<S>(near: Ball -> bool, kick: (Ball, real) -> Ball, source: Source<S>, start: seq<Ball>, seed: S)
    returns (balls: seq<Ball>, random: S)
    ensures balls == AfterKicks(near, kick, source, seed, start).0
    ensures random == AfterKicks(near, kick, source, seed, start).1
  {
    balls, random := [], seed;
    ghost var (all, end) := AfterKicks(near, kick, source, seed, start);
    assert start[0..] == start;
    for i := 0 to |start|
      invariant balls + AfterKicks(near, kick, source, random, start[i..]).0 == all
      invariant AfterKicks(near, kick, source, random, start[i..]).1 == end
    {
      AfterKicksFrom(near, kick, source, random, start, i);
      ghost var first := KickFirst(near, kick, source, random, start[i]);
      ghost var rest := AfterKicks(near, kick, source, first.1, start[i + 1..]).0;
      AppendAssociates(balls, [first.0], rest);
      if IsNear(near, start[i]) {
        balls := balls + [KickWith(kick, start[i], Fraction(source, random))];
        random := Advance(source, random);
      } else {
        balls := balls + [start[i]];
      }
    }
  }

  /** The ball of the first attempt, within the permitted number, that is clear of the placed ones. */
  method PlaceNextBall<S>(kit: Kit, source: Source<S>, attempts: nat, seed: S, balls: seq<Ball>)
    returns (r: Option<Ball>, random: S)
    ensures var next := NextBall(kit, source, attempts, seed, balls);
            && (next.None? ==> r == None)
            && (next.Some? ==> r == Some(next.value.0) && random == next.value.1)
  {
    random := seed;
    for attempt := 0 to attempts
      invariant SuccessFrom(kit, source, attempts - attempt, random, balls) ==
                SuccessFrom(kit, source, attempts, seed, balls)
    {
      var u := Fraction(source, random);
      random := Advance(source, random);
      var v := Fraction(source, random);
      random := Advance(source, random);
      if kit.Clear(balls, u, v) {
        var turn := Fraction(source, random);
        random := Advance(source, random);
        return Some(kit.Build(|balls|, u, v, turn)), random;
      }
    }
    return None, random;
  }

  /** The balls placed one after another, or nothing when they cannot all be placed. */
  method PlaceBalls<S>(kit: Kit, source: Source<S>, attempts: nat, seed: S, count: nat)
    returns (r: Option<(seq<Ball>, S)>)
    ensures r == Placed(kit, source, attempts, seed, count, [])
  {
    var balls: seq<Ball>, random := [], seed;
    for index := 0 to count
      invariant |balls| == index
      invariant Placed(kit, source, attempts, random, count, balls) == Placed(kit, source, attempts, seed, count, [])
    {
      var ball, later := PlaceNextBall(kit, source, attempts, random, balls);
      if ball.None? {
        return None;
      }
      balls, random := balls + [ball.value], later;
    }
    return Some((balls, random));
  }

  /** From every state, the balls that the generator places are sound. */
  lemma {:induction false} SpawnsSoundly(direction: real -> Vector, random: bv64, count: nat)
    ensures var spawned := Spawned(direction, XorshiftSource(), MAX_SPAWN_ATTEMPTS, random, count);
            GivesUnits(direction) && spawned.Some? ==> |spawned.value.0| == count && WellPlaced(spawned.value.0, count)
  {
    if GivesUnits(direction) {
      XorshiftGivesFractions();
      SpawnedBallsAreSound(direction, XorshiftSource(), MAX_SPAWN_ATTEMPTS, random, count);
    }
  }

  /** A world of `count` balls from `seed`, or nothing when the balls cannot all be placed. */
  method NewWorld(sqrt: real -> real, direction: real -> Vector, count: nat, seed: bv64)
    returns (r: Option<World<bv64>>)
    ensures var spawned := Spawned(direction, XorshiftSource(), MAX_SPAWN_ATTEMPTS, Seeded(seed), count);
            && (spawned.None? <==> r.None?)
            && (r.Some? ==>
                  && fresh(r.value)
                  && r.value.sqrt == sqrt && r.value.direction == direction && r.value.source == XorshiftSource()
                  && r.value.View() == State(spawned.value.0, {}, spawned.value.1)
                  && (GivesUnits(direction) ==> |r.value.balls| == count && WellPlaced(r.value.balls, count)))
  {
    var placed := PlaceBalls(SpawnKit(direction, count), XorshiftSource(), MAX_SPAWN_ATTEMPTS, Seeded(seed), count);
    if placed.None? {
      return None;
    }
    SpawnsSoundly(direction, Seeded(seed), count);
    var world := new World(sqrt, direction, XorshiftSource(), placed.value.0, placed.value.1);
    return Some(world);
  }
}

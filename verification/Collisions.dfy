/** Elastic collisions of a ball with the walls, with another ball and with a pressed key. */
module Collisions {
  import opened Reals
  import opened Vectors

  const WORLD_WIDTH: real := 16.0
  const WORLD_HEIGHT: real := 6.0
  const BALL_RADIUS: real := 0.42
  const FINGER_RADIUS: real := 0.34
  const CONTACT: real := 2.0 * BALL_RADIUS
  const REACH: real := BALL_RADIUS + FINGER_RADIUS

  /** A ball's colour is a function of its hue, which no collision changes. */
  datatype Ball = Ball(position: Vector, velocity: Vector, hue: real)

  function SpeedSquared(ball: Ball): real {
    ball.velocity.LengthSquared()
  }

  // ----- Walls

  predicate InsideWalls(p: Vector) {
    && BALL_RADIUS <= p.x <= WORLD_WIDTH - BALL_RADIUS
    && BALL_RADIUS <= p.y <= WORLD_HEIGHT - BALL_RADIUS
  }

  /** The coordinate and speed along one axis after meeting the walls at `low` and `high`. */
  function Bounce(position: real, speed: real, low: real, high: real): (real, real) {
    if position < low then (low, Abs(speed))
    else if position > high then (high, -Abs(speed))
    else (position, speed)
  }

  function CollideWithWalls(ball: Ball): Ball {
    var (x, vx) := Bounce(ball.position.x, ball.velocity.x, BALL_RADIUS, WORLD_WIDTH - BALL_RADIUS);
    var (y, vy) := Bounce(ball.position.y, ball.velocity.y, BALL_RADIUS, WORLD_HEIGHT - BALL_RADIUS);
    Ball(Vector(x, y), Vector(vx, vy), ball.hue)
  }

  /**
   The ball ends at the nearest place inside the walls, at unchanged speed along each axis. A ball
   that was inside is untouched, and a ball put back against a wall is not moving into it.
   */
  lemma WallCollision(ball: Ball)
    ensures var after := CollideWithWalls(ball);
            && InsideWalls(after.position) && SpeedSquared(after) == SpeedSquared(ball)
            && Abs(after.velocity.x) == Abs(ball.velocity.x) && Abs(after.velocity.y) == Abs(ball.velocity.y)
            && after.hue == ball.hue
            && (forall p :: InsideWalls(p) ==>
                  && Abs(after.position.x - ball.position.x) <= Abs(p.x - ball.position.x)
                  && Abs(after.position.y - ball.position.y) <= Abs(p.y - ball.position.y))
            && (InsideWalls(ball.position) <==> after.position == ball.position)
            && (InsideWalls(ball.position) ==> after == ball)
            && (ball.position.x < BALL_RADIUS ==> after.velocity.x >= 0.0)
            && (ball.position.x > WORLD_WIDTH - BALL_RADIUS ==> after.velocity.x <= 0.0)
            && (ball.position.y < BALL_RADIUS ==> after.velocity.y >= 0.0)
            && (ball.position.y > WORLD_HEIGHT - BALL_RADIUS ==> after.velocity.y <= 0.0)
  {
    AbsSquared(ball.velocity.x);
    AbsSquared(ball.velocity.y);
  }

  lemma AbsSquared(r: real)
    ensures Abs(r) >= 0.0 && Abs(r) * Abs(r) == r * r && -Abs(r) * -Abs(r) == r * r
  {
  }

  // ----- Two balls

  predicate Overlapping(first: Ball, second: Ball) {
    second.position.Subtract(first.position).LengthSquared() < CONTACT * CONTACT
  }

  /** From the first ball to the second. */
  function Displacement(first: Ball, second: Ball): Vector {
    second.position.Subtract(first.position)
  }

  /** The direction along which two balls collide. */
  function Normal(sqrt: real -> real, first: Ball, second: Ball): Vector {
    NormalizedOr(sqrt, Displacement(first, second), EAST)
  }

  /** The velocities after a collision along `normal`: balls that approach exchange their speeds along it. */
  function Exchange(first: Vector, second: Vector, normal: Vector): (Vector, Vector) {
    var relativeSpeed := second.Subtract(first).Dot(normal);
    if relativeSpeed < 0.0
    then (first.Add(normal.Scale(relativeSpeed)), second.Subtract(normal.Scale(relativeSpeed)))
    else (first, second)
  }

  function CollideBalls(sqrt: real -> real, first: Ball, second: Ball): (Ball, Ball) {
    if !Overlapping(first, second) then (first, second)
    else
      var normal := Normal(sqrt, first, second);
      var correction := normal.Scale((CONTACT - Length(sqrt, Displacement(first, second))) / 2.0);
      var velocities := Exchange(first.velocity, second.velocity, normal);
      (Ball(first.position.Subtract(correction), velocities.0, first.hue),
       Ball(second.position.Add(correction), velocities.1, second.hue))
  }

  lemma ExchangeKeepsEnergy(first: Vector, second: Vector, normal: Vector)
    requires IsUnit(normal)
    ensures var after := Exchange(first, second, normal);
            && after.0.LengthSquared() + after.1.LengthSquared() == first.LengthSquared() + second.LengthSquared()
            && after.0.Add(after.1) == first.Add(second)
            && after.1.Subtract(after.0).Dot(normal) >= 0.0
  {
    ExchangeKeepsSquares(first, second, normal);
    ExchangeReverses(first, second, normal);
  }

  lemma NormalIsUnit(sqrt: real -> real, first: Ball, second: Ball)
    requires IsSquareRoot(sqrt)
    ensures IsUnit(Normal(sqrt, first, second))
  {
    NormalizedIsUnit(sqrt, Displacement(first, second), EAST);
  }

  /** Any collision of two balls keeps the sum of their squared speeds. */
  lemma BallsKeepEnergy(sqrt: real -> real, first: Ball, second: Ball)
    requires IsSquareRoot(sqrt)
    ensures var after := CollideBalls(sqrt, first, second);
            SpeedSquared(after.0) + SpeedSquared(after.1) == SpeedSquared(first) + SpeedSquared(second)
  {
    NormalIsUnit(sqrt, first, second);
    ExchangeKeepsEnergy(first.velocity, second.velocity, Normal(sqrt, first, second));
  }

  /** Any collision of two balls keeps their total momentum and their midpoint. */
  lemma BallsKeepMomentum(sqrt: real -> real, first: Ball, second: Ball)
    ensures var after := CollideBalls(sqrt, first, second);
            && after.0.velocity.Add(after.1.velocity) == first.velocity.Add(second.velocity)
            && after.0.position.Add(after.1.position) == first.position.Add(second.position)
            && after.0.hue == first.hue && after.1.hue == second.hue
  {
  }

  /** How fast two balls part along the line between them, times the length of that line; negative if they approach. */
  function Parting(first: Ball, second: Ball): real {
    second.velocity.Subtract(first.velocity).Dot(Displacement(first, second))
  }

  /** After a collision overlapping balls do not approach along the direction in which they collided. */
  lemma BallsPartAlongNormal(sqrt: real -> real, first: Ball, second: Ball)
    requires IsSquareRoot(sqrt) && Overlapping(first, second)
    ensures var after := CollideBalls(sqrt, first, second);
            after.1.velocity.Subtract(after.0.velocity).Dot(Normal(sqrt, first, second)) >= 0.0
  {
    NormalIsUnit(sqrt, first, second);
    ExchangeKeepsEnergy(first.velocity, second.velocity, Normal(sqrt, first, second));
  }

  /**
   After a collision overlapping balls do not approach, when their centres were more than EPSILON
   apart. Otherwise they were pushed apart along the fallback direction, and whether they approach
   depends on how much of their velocity across it is left.
   */
  lemma BallsDoNotApproach(sqrt: real -> real, first: Ball, second: Ball)
    requires IsSquareRoot(sqrt) && Overlapping(first, second)
    ensures var after := CollideBalls(sqrt, first, second);
            var displacement, velocity := Displacement(first, second), second.velocity.Subtract(first.velocity);
            var length := Length(sqrt, displacement);
            Parting(after.0, after.1) >= 0.0 <==>
            || length > EPSILON
            || Abs(velocity.x) * (displacement.x + CONTACT - length) + velocity.y * displacement.y >= 0.0
  {
    var after := CollideBalls(sqrt, first, second);
    var d, normal := Displacement(first, second), Normal(sqrt, first, second);
    var length := Length(sqrt, d);
    PositionsAfter(sqrt, first, second);
    if length > EPSILON {
      BallsPartAlongNormal(sqrt, first, second);
      NormalizedIsUnit(sqrt, d, EAST);
      StretchedTo(d, normal, length);
      DotOfScaled(after.1.velocity.Subtract(after.0.velocity), normal, CONTACT);
    } else {
      NearNormal(sqrt, d);
      ExchangeEast(first.velocity, second.velocity);
      assert Displacement(after.0, after.1) == Vector(d.x + CONTACT - length, d.y);
    }
  }

  lemma StretchedTo(d: Vector, normal: Vector, length: real)
    requires d == normal.Scale(length)
    ensures d.Add(normal.Scale(CONTACT - length)) == normal.Scale(CONTACT)
  {
  }

  lemma ExchangeEast(first: Vector, second: Vector)
    ensures var after := Exchange(first, second, EAST);
            after.1.Subtract(after.0) == Vector(Abs(second.x - first.x), second.y - first.y)
  {
  }

  /**
   Balls whose centres nearly coincide, the second slightly above and moving down, are still approaching
   afterwards.
   */
  lemma NearlyCoincidentBallsCanApproach(sqrt: real -> real)
    requires IsSquareRoot(sqrt)
    ensures var first, second := Ball(Vector(1.0, 1.0), Vector(0.0, 0.0), 0.0),
            Ball(Vector(1.0, 1.0 + EPSILON), Vector(0.0, -1.0), 0.0);
            var after := CollideBalls(sqrt, first, second);
            Overlapping(first, second) && Parting(after.0, after.1) < 0.0
  {
    var first, second := Ball(Vector(1.0, 1.0), Vector(0.0, 0.0), 0.0),
      Ball(Vector(1.0, 1.0 + EPSILON), Vector(0.0, -1.0), 0.0);
    assert Displacement(first, second) == Vector(0.0, EPSILON);
    LengthIs(sqrt, Displacement(first, second), EPSILON);
    BallsDoNotApproach(sqrt, first, second);
  }

  lemma LengthIs(sqrt: real -> real, v: Vector, length: real)
    requires IsSquareRoot(sqrt) && length > 0.0 && v.LengthSquared() == length * length
    ensures Length(sqrt, v) == length
  {
    LengthOf(sqrt, v);
    EqualSquares(Length(sqrt, v), length);
  }

  lemma EqualSquares(a: real, b: real)
    requires a >= 0.0 && b > 0.0 && a * a == b * b
    ensures a == b
  {
    CancelFactor(a + b, a, b);
  }

  /**
   Overlapping balls end exactly two radii apart when their centres were more than EPSILON apart.
   Otherwise the fallback direction is used, and they end exactly two radii apart only when that
   happens to be the direction from the first to the second.
   */
  lemma BallsSeparate(sqrt: real -> real, first: Ball, second: Ball)
    requires IsSquareRoot(sqrt) && Overlapping(first, second)
    ensures var after := CollideBalls(sqrt, first, second);
            var displacement := Displacement(first, second);
            Displacement(after.0, after.1).LengthSquared() == CONTACT * CONTACT <==>
            Length(sqrt, displacement) > EPSILON || (displacement.y == 0.0 && displacement.x >= 0.0)
  {
    PositionsAfter(sqrt, first, second);
    Separation(sqrt, Displacement(first, second));
  }

  /** Balls whose centres nearly coincide, the second slightly to the left, do not end two radii apart. */
  lemma NearlyCoincidentBallsMissContact(sqrt: real -> real)
    requires IsSquareRoot(sqrt)
    ensures var first, second := Ball(Vector(1.0, 1.0), Vector(0.0, 0.0), 0.0),
            Ball(Vector(1.0 - EPSILON, 1.0), Vector(0.0, 0.0), 0.0);
            var after := CollideBalls(sqrt, first, second);
            Overlapping(first, second) && Displacement(after.0, after.1).LengthSquared() != CONTACT * CONTACT
  {
    var first, second := Ball(Vector(1.0, 1.0), Vector(0.0, 0.0), 0.0),
      Ball(Vector(1.0 - EPSILON, 1.0), Vector(0.0, 0.0), 0.0);
    assert Displacement(first, second) == Vector(-EPSILON, 0.0);
    LengthIs(sqrt, Displacement(first, second), EPSILON);
    BallsSeparate(sqrt, first, second);
  }

  lemma PositionsAfter(sqrt: real -> real, first: Ball, second: Ball)
    requires Overlapping(first, second)
    ensures var after := CollideBalls(sqrt, first, second);
            var displacement := Displacement(first, second);
            Displacement(after.0, after.1) ==
            displacement.Add(Normal(sqrt, first, second).Scale(CONTACT - Length(sqrt, displacement)))
  {
    SeparatedDisplacement(first.position, second.position, Normal(sqrt, first, second),
                          CONTACT - Length(sqrt, Displacement(first, second)));
  }

  lemma Separation(sqrt: real -> real, d: Vector)
    requires IsSquareRoot(sqrt)
    ensures d.Add(NormalizedOr(sqrt, d, EAST).Scale(CONTACT - Length(sqrt, d))).LengthSquared() ==
            CONTACT * CONTACT <==>
            Length(sqrt, d) > EPSILON || (d.y == 0.0 && d.x >= 0.0)
  {
    if Length(sqrt, d) > EPSILON {
      NormalizedIsUnit(sqrt, d, EAST);
      SeparationFar(d, NormalizedOr(sqrt, d, EAST), Length(sqrt, d));
    } else {
      NearNormal(sqrt, d);
      SeparationNear(d, Length(sqrt, d));
    }
  }

  lemma NearNormal(sqrt: real -> real, d: Vector)
    requires IsSquareRoot(sqrt) && Length(sqrt, d) <= EPSILON
    ensures NormalizedOr(sqrt, d, EAST) == EAST
    ensures 0.0 <= Length(sqrt, d) < CONTACT && Length(sqrt, d) * Length(sqrt, d) == d.LengthSquared()
  {
    LengthOf(sqrt, d);
  }

  lemma SeparatedDisplacement(first: Vector, second: Vector, normal: Vector, k: real)
    ensures second.Add(normal.Scale(k / 2.0)).Subtract(first.Subtract(normal.Scale(k / 2.0))) ==
            second.Subtract(first).Add(normal.Scale(k))
  {
  }

  lemma SeparationFar(d: Vector, normal: Vector, length: real)
    requires IsUnit(normal) && d == normal.Scale(length)
    ensures d.Add(normal.Scale(CONTACT - length)).LengthSquared() == CONTACT * CONTACT
  {
    assert d.Add(normal.Scale(CONTACT - length)) == normal.Scale(CONTACT);
    ScaleSquared(normal, CONTACT);
  }

  lemma SeparationNear(d: Vector, length: real)
    requires 0.0 <= length < CONTACT && length * length == d.LengthSquared()
    ensures d.Add(EAST.Scale(CONTACT - length)).LengthSquared() == CONTACT * CONTACT <==> d.y == 0.0 && d.x >= 0.0
  {
    var k := CONTACT - length;
    assert d.Add(EAST.Scale(k)) == Vector(d.x + k, d.y);
    NearScalars(d.x, d.y, length, k);
    PointsEast(d.x, d.y, length);
  }

  lemma NearScalars(x: real, y: real, length: real, k: real)
    requires k != 0.0 && length * length == x * x + y * y
    ensures (x + k) * (x + k) + y * y == (length + k) * (length + k) <==> x == length
  {
    SquareOfSum(x, k);
    SquareOfSum(length, k);
    CancelFactor(2.0 * k, x, length);
  }

  lemma SquareOfSum(a: real, b: real)
    ensures (a + b) * (a + b) == a * a + 2.0 * b * a + b * b
  {
  }

  lemma CancelFactor(k: real, a: real, b: real)
    requires k != 0.0
    ensures k * a == k * b <==> a == b
  {
    assert k * a - k * b == k * (a - b);
  }

  lemma SameSign(a: real, b: real, product: real)
    requires product == a * b
    requires (a > 0.0 && b > 0.0) || (a < 0.0 && b < 0.0)
    ensures product > 0.0
  {
  }

  lemma PointsEast(x: real, y: real, length: real)
    requires 0.0 <= length && length * length == x * x + y * y
    ensures x == length <==> y == 0.0 && x >= 0.0
  {
    var xx, yy, ll := x * x, y * y, length * length;
    if y != 0.0 {
      SameSign(y, y, yy);
      assert ll > xx;
    } else {
      var difference := (length - x) * (length + x);
      assert difference == ll - xx;
      if 0.0 <= x < length { SameSign(length - x, length + x, difference); }
      if length < x { SameSign(x - length, length + x, -difference); }
    }
  }

  /** `w` points along `v` and is `length` long. */
  ghost predicate SameDirection(sqrt: real -> real, v: Vector, w: Vector, length: real) {
    w.Scale(Length(sqrt, v)) == v.Scale(length)
  }

  lemma PushedOut(sqrt: real -> real, v: Vector, normal: Vector, length: real)
    requires IsSquareRoot(sqrt)
    ensures Length(sqrt, v) > EPSILON && normal == v.Scale(1.0 / Length(sqrt, v)) ==>
              SameDirection(sqrt, v, normal.Scale(length), length)
  {
    var size := Length(sqrt, v);
    if size > EPSILON {
      Rescaled(v.x, size, length);
      Rescaled(v.y, size, length);
    }
  }

  lemma Rescaled(a: real, size: real, length: real)
    requires size > 0.0
    ensures a * (1.0 / size) * length * size == a * length
  {
    assert 1.0 / size * size == 1.0;
    assert a * (1.0 / size) * length * size == a * length * (1.0 / size * size);
  }

  function Cross(v: Vector, w: Vector): real {
    v.x * w.y - v.y * w.x
  }

  /**
   Velocities that approach along `line` have exchanged their components along it and kept those
   across it; other velocities are unchanged.
   */
  ghost predicate Exchanged(first: Vector, second: Vector, after: (Vector, Vector), line: Vector) {
    && (second.Subtract(first).Dot(line) >= 0.0 ==> after == (first, second))
    && (second.Subtract(first).Dot(line) < 0.0 ==>
          after.0.Dot(line) == second.Dot(line) && after.1.Dot(line) == first.Dot(line))
    && Cross(after.0, line) == Cross(first, line) && Cross(after.1, line) == Cross(second, line)
  }

  /**
   Overlapping balls with centres more than EPSILON apart are pushed apart along the line between
   them. If they approach they exchange their speeds along that line; their speeds across it stay.
   */
  lemma BallsExchangeSpeeds(sqrt: real -> real, first: Ball, second: Ball)
    requires IsSquareRoot(sqrt) && Overlapping(first, second)
    requires Length(sqrt, Displacement(first, second)) > EPSILON
    ensures var after, line := CollideBalls(sqrt, first, second), Displacement(first, second);
            && SameDirection(sqrt, line, Displacement(after.0, after.1), CONTACT)
            && Exchanged(first.velocity, second.velocity, (after.0.velocity, after.1.velocity), line)
  {
    BallsPushedApart(sqrt, first, second);
    NormalizedIsUnit(sqrt, Displacement(first, second), EAST);
    ExchangeAlong(first.velocity, second.velocity, Normal(sqrt, first, second),
      Length(sqrt, Displacement(first, second)), Displacement(first, second));
    VelocitiesAfter(sqrt, first, second);
  }

  lemma VelocitiesAfter(sqrt: real -> real, first: Ball, second: Ball)
    requires Overlapping(first, second)
    ensures var after := CollideBalls(sqrt, first, second);
            (after.0.velocity, after.1.velocity) ==
            Exchange(first.velocity, second.velocity, Normal(sqrt, first, second))
  {
  }

  lemma BallsPushedApart(sqrt: real -> real, first: Ball, second: Ball)
    requires IsSquareRoot(sqrt) && Overlapping(first, second)
    requires Length(sqrt, Displacement(first, second)) > EPSILON
    ensures var after := CollideBalls(sqrt, first, second);
            SameDirection(sqrt, Displacement(first, second), Displacement(after.0, after.1), CONTACT)
  {
    var line, normal := Displacement(first, second), Normal(sqrt, first, second);
    NormalizedIsUnit(sqrt, line, EAST);
    PositionsAfter(sqrt, first, second);
    StretchedTo(line, normal, Length(sqrt, line));
    PushedOut(sqrt, line, normal, CONTACT);
  }

  lemma ExchangeAlong(first: Vector, second: Vector, normal: Vector, length: real, line: Vector)
    requires IsUnit(normal) && length > 0.0 && line == normal.Scale(length)
    ensures Exchanged(first, second, Exchange(first, second, normal), line)
  {
    var speed := second.Subtract(first).Dot(normal);
    DotOfScaled(second.Subtract(first), normal, length);
    SameSignAsFactor(speed, length);
    SpeedsSwap(first, second, normal, speed, length);
  }

  lemma SpeedsSwap(first: Vector, second: Vector, normal: Vector, speed: real, length: real)
    requires IsUnit(normal) && speed == second.Subtract(first).Dot(normal)
    ensures var left, right := first.Add(normal.Scale(speed)), second.Subtract(normal.Scale(speed));
            var line := normal.Scale(length);
            && left.Dot(line) == second.Dot(line) && right.Dot(line) == first.Dot(line)
            && Cross(left, line) == Cross(first, line) && Cross(right, line) == Cross(second, line)
  {
    DotDifference(first, second, normal);
    MovedAlong(first, normal, speed, length);
    MovedAlong(second, normal, -speed, length);
    assert second.Subtract(normal.Scale(speed)) == second.Add(normal.Scale(-speed));
    DotOfScaled(first, normal, length);
    DotOfScaled(second, normal, length);
  }

  /** Adding to a velocity along a direction changes its speed along it, and not across it. */
  lemma MovedAlong(v: Vector, normal: Vector, k: real, length: real)
    requires IsUnit(normal)
    ensures var moved, line := v.Add(normal.Scale(k)), normal.Scale(length);
            moved.Dot(line) == length * (v.Dot(normal) + k) && Cross(moved, line) == Cross(v, line)
  {
    AddAlong(v, normal, k);
    DotOfScaled(v.Add(normal.Scale(k)), normal, length);
    CrossAlong(v, normal, k, length);
  }

  lemma DotDifference(first: Vector, second: Vector, normal: Vector)
    ensures second.Subtract(first).Dot(normal) == second.Dot(normal) - first.Dot(normal)
  {
  }

  lemma SameSignAsFactor(a: real, factor: real)
    requires factor > 0.0
    ensures factor * a < 0.0 <==> a < 0.0
  {
  }

  lemma CrossAlong(v: Vector, normal: Vector, k: real, length: real)
    ensures Cross(v.Add(normal.Scale(k)), normal.Scale(length)) == Cross(v, normal.Scale(length))
  {
  }

  // ----- A ball and a finger

  predicate UnderFinger(ball: Ball, centre: Vector) {
    ball.position.Subtract(centre).LengthSquared() < REACH * REACH
  }

  function FingerNormal(sqrt: real -> real, ball: Ball, centre: Vector): Vector {
    NormalizedOr(sqrt, ball.position.Subtract(centre), NormalizedOr(sqrt, ball.velocity.Scale(-1.0), EAST))
  }

  /** The velocity after meeting an obstacle along `normal`: an inward component is reversed. */
  function Reflect(velocity: Vector, normal: Vector): Vector {
    var inwardSpeed := velocity.Dot(normal);
    if inwardSpeed < 0.0 then velocity.Subtract(normal.Scale(2.0 * inwardSpeed)) else velocity
  }

  function CollideWithFinger(sqrt: real -> real, ball: Ball, centre: Vector): Ball {
    if !UnderFinger(ball, centre) then ball
    else
      var normal := FingerNormal(sqrt, ball, centre);
      Ball(centre.Add(normal.Scale(REACH)), Reflect(ball.velocity, normal), ball.hue)
  }

  lemma FingerNormalIsUnit(sqrt: real -> real, ball: Ball, centre: Vector)
    requires IsSquareRoot(sqrt)
    ensures IsUnit(FingerNormal(sqrt, ball, centre))
  {
    NormalizedIsUnit(sqrt, ball.velocity.Scale(-1.0), EAST);
    NormalizedIsUnit(sqrt, ball.position.Subtract(centre), NormalizedOr(sqrt, ball.velocity.Scale(-1.0), EAST));
  }

  lemma ReflectKeepsSpeed(velocity: Vector, normal: Vector)
    requires IsUnit(normal)
    ensures Reflect(velocity, normal).LengthSquared() == velocity.LengthSquared()
    ensures Reflect(velocity, normal).Dot(normal) >= 0.0
  {
    ReflectAlong(velocity, normal);
  }

  lemma AtReach(centre: Vector, normal: Vector, velocity: Vector)
    requires IsUnit(normal) && velocity.Dot(normal) >= 0.0
    ensures centre.Add(normal.Scale(REACH)).Subtract(centre) == normal.Scale(REACH)
    ensures normal.Scale(REACH).LengthSquared() == REACH * REACH
    ensures velocity.Dot(normal.Scale(REACH)) >= 0.0
  {
    ScaleSquared(normal, REACH);
    DotOfScaled(velocity, normal, REACH);
  }

  /**
   A ball under a finger ends exactly at contact distance, not moving inward, at unchanged speed; it is
   pushed out along the line from the finger through its centre when that is longer than EPSILON.
   */
  lemma FingerCollision(sqrt: real -> real, ball: Ball, centre: Vector)
    requires IsSquareRoot(sqrt)
    ensures var after := CollideWithFinger(sqrt, ball, centre);
            && SpeedSquared(after) == SpeedSquared(ball) && after.hue == ball.hue
            && !UnderFinger(after, centre)
            && (UnderFinger(ball, centre) ==>
                  && after.position.Subtract(centre).LengthSquared() == REACH * REACH
                  && after.velocity.Dot(after.position.Subtract(centre)) >= 0.0
                  && (Length(sqrt, ball.position.Subtract(centre)) > EPSILON ==>
                        SameDirection(sqrt, ball.position.Subtract(centre), after.position.Subtract(centre), REACH)))
            && (!UnderFinger(ball, centre) ==> after == ball)
  {
    if UnderFinger(ball, centre) {
      PushedOut(sqrt, ball.position.Subtract(centre), FingerNormal(sqrt, ball, centre), REACH);
      var normal := FingerNormal(sqrt, ball, centre);
      FingerNormalIsUnit(sqrt, ball, centre);
      ReflectKeepsSpeed(ball.velocity, normal);
      AtReach(centre, normal, Reflect(ball.velocity, normal));
    }
  }
}

/** What one step does to the positions of the balls. */
module StepEffects {
  import opened Vectors
  import opened Collisions
  import opened Simulation

  // ----- Every pair collides once, in order

  datatype Pair = Pair(first: nat, second: nat)

  ghost predicate PairsFit(pairs: seq<Pair>, n: nat) {
    forall k :: 0 <= k < |pairs| ==> pairs[k].first < pairs[k].second < n
  }

  /** The pairs of a ball with each later one. */
  function Row(i: nat, n: nat): (pairs: seq<Pair>)
    requires i < n
    ensures PairsFit(pairs, n)
  {
    seq(n - i - 1, k requires 0 <= k < n - i - 1 => Pair(i, i + 1 + k))
  }

  /** The pairs of the first `i` balls with later ones. */
  function Rows(i: nat, n: nat): (pairs: seq<Pair>)
    requires i <= n
    ensures PairsFit(pairs, n)
  {
    if i == 0 then [] else Rows(i - 1, n) + Row(i - 1, n)
  }

  function AllPairs(n: nat): (pairs: seq<Pair>)
    ensures PairsFit(pairs, n)
  {
    Rows(n, n)
  }

  predicate Before(p: Pair, q: Pair) {
    p.first < q.first || (p.first == q.first && p.second < q.second)
  }

  ghost predicate InOrder(pairs: seq<Pair>) {
    forall k, l :: 0 <= k < l < |pairs| ==> Before(pairs[k], pairs[l])
  }

  lemma {:induction false} InRow(i: nat, n: nat, p: Pair)
    requires i < n
    ensures p in Row(i, n) <==> p.first == i && p.first < p.second < n
  {
    if p.first == i && p.first < p.second < n {
      assert Row(i, n)[p.second - i - 1] == p;
    }
  }

  lemma {:induction false} InRows(i: nat, n: nat, p: Pair)
    requires i <= n
    ensures p in Rows(i, n) <==> p.first < i && p.first < p.second < n
  {
    if i > 0 {
      InRows(i - 1, n, p);
      InRow(i - 1, n, p);
    }
  }

  lemma {:induction false} RowsInOrder(i: nat, n: nat)
    requires i <= n
    ensures InOrder(Rows(i, n))
  {
    if i > 0 {
      RowsInOrder(i - 1, n);
      RowsBefore(i - 1, n);
    }
  }

  lemma {:induction false} RowsBefore(i: nat, n: nat)
    requires i < n
    ensures forall k :: 0 <= k < |Rows(i, n)| ==> Rows(i, n)[k].first < i
  {
    forall k | 0 <= k < |Rows(i, n)|
      ensures Rows(i, n)[k].first < i
    {
      InRows(i, n, Rows(i, n)[k]);
    }
  }

  /** All pairs of distinct balls are listed, each once, by their first ball and then by their second. */
  lemma {:induction false} AllPairsExactly(n: nat)
    ensures forall p: Pair :: p in AllPairs(n) <==> p.first < p.second < n
    ensures InOrder(AllPairs(n))
  {
    forall p: Pair
      ensures p in AllPairs(n) <==> p.first < p.second < n
    {
      InRows(n, n, p);
    }
    RowsInOrder(n, n);
  }

  /** The balls after the listed pairs collided one after the other. */
  function Collided(meet: (Ball, Ball) -> (Ball, Ball), balls: seq<Ball>, pairs: seq<Pair>): (r: seq<Ball>)
    requires PairsFit(pairs, |balls|)
    ensures |r| == |balls|
  {
    if pairs == [] then balls
    else
      var last := pairs[|pairs| - 1];
      AfterPair(meet, Collided(meet, balls, pairs[..|pairs| - 1]), last.first, last.second)
  }

  lemma {:induction false} CollidedOneMore(meet: (Ball, Ball) -> (Ball, Ball), balls: seq<Ball>, pairs: seq<Pair>,
                                           p: Pair)
    requires PairsFit(pairs, |balls|) && p.first < p.second < |balls|
    ensures PairsFit(pairs + [p], |balls|)
    ensures Collided(meet, balls, pairs + [p]) == AfterPair(meet, Collided(meet, balls, pairs), p.first, p.second)
  {
    assert (pairs + [p])[..|pairs|] == pairs;
  }

  /** The pairs `done` followed by those that have their turn from `Pair(i, j)` on. */
  function Continued(done: seq<Pair>, i: nat, j: nat, n: nat): (pairs: seq<Pair>)
    requires i < j && PairsFit(done, n)
    ensures PairsFit(pairs, n)
    decreases n - i, n - j
  {
    if i >= n then done
    else if j >= n then Continued(done, i + 1, i + 2, n)
    else Continued(done + [Pair(i, j)], i, j + 1, n)
  }

  lemma {:induction false} ContinuedByRow(done: seq<Pair>, i: nat, j: nat, n: nat)
    requires i < j <= n && PairsFit(done, n)
    ensures Continued(done, i, j, n) == Continued(done + Row(i, n)[j - i - 1..], i + 1, i + 2, n)
    decreases n - j
  {
    var rest := Row(i, n)[j - i - 1..];
    if j < n {
      ContinuedByRow(done + [Pair(i, j)], i, j + 1, n);
      assert done + rest == done + [Pair(i, j)] + Row(i, n)[j - i..];
    } else {
      assert done + rest == done;
    }
  }

  lemma {:induction false} ContinuedToAll(i: nat, n: nat)
    requires i <= n
    ensures Continued(Rows(i, n), i, i + 1, n) == AllPairs(n)
    decreases n - i
  {
    if i < n {
      ContinuedByRow(Rows(i, n), i, i + 1, n);
      assert Row(i, n)[0..] == Row(i, n);
      ContinuedToAll(i + 1, n);
    }
  }

  lemma {:induction false} PairsCollideFrom(meet: (Ball, Ball) -> (Ball, Ball), balls: seq<Ball>, done: seq<Pair>,
                                            i: nat, j: nat)
    requires i < j && PairsFit(done, |balls|)
    ensures AfterPairs(meet, Collided(meet, balls, done), i, j) ==
            Collided(meet, balls, Continued(done, i, j, |balls|))
    decreases |balls| - i, |balls| - j
  {
    if i < |balls| {
      if j >= |balls| {
        PairsCollideFrom(meet, balls, done, i + 1, i + 2);
      } else {
        CollidedOneMore(meet, balls, done, Pair(i, j));
        PairsCollideFrom(meet, balls, done + [Pair(i, j)], i, j + 1);
      }
    }
  }

  lemma {:induction false} PairsCollide(meet: (Ball, Ball) -> (Ball, Ball), balls: seq<Ball>)
    ensures AfterPairs(meet, balls, 0, 1) == Collided(meet, balls, AllPairs(|balls|))
  {
    PairsCollideFrom(meet, balls, [], 0, 1);
    ContinuedToAll(0, |balls|);
  }

  // ----- The last pair

  ghost predicate NonePressed(keys: seq<KeySample>, pressed: set<nat>, from: nat) {
    forall k: nat :: from <= k < |keys| ==> k !in pressed
  }

  lemma {:induction false} NoFingers(sqrt: real -> real, balls: seq<Ball>, keys: seq<KeySample>, pressed: set<nat>,
                                     from: nat, upTo: nat)
    requires from <= upTo <= |keys| && NonePressed(keys, pressed, from)
    ensures AfterFingers(sqrt, balls, keys, pressed, upTo) == AfterFingers(sqrt, balls, keys, pressed, from)
    decreases upTo
  {
    if from < upTo {
      NoFingers(sqrt, balls, keys, pressed, from, upTo - 1);
      assert upTo - 1 !in pressed;
    }
  }

  /** With no key pressed, a step moves the balls, puts them back inside the walls, and lets each pair collide. */
  lemma {:induction false} StepWithoutKeys(sqrt: real -> real, balls: seq<Ball>, keys: seq<KeySample>,
                                           pressed: set<nat>, seconds: real)
    requires NonePressed(keys, pressed, 0)
    ensures Stepped(sqrt, balls, keys, pressed, seconds) == AfterPairs(Meet(sqrt), AfterWalls(balls, seconds), 0, 1)
  {
    NoFingers(sqrt, AfterPairs(Meet(sqrt), AfterWalls(balls, seconds), 0, 1), keys, pressed, 0, |keys|);
  }

  /** The balls of a step without keys just before the last two of them collide. */
  function BeforeLastPair(sqrt: real -> real, balls: seq<Ball>, seconds: real): (r: seq<Ball>)
    requires |balls| >= 2
    ensures |r| == |balls|
  {
    Collided(Meet(sqrt), AfterWalls(balls, seconds), Rows(|balls| - 2, |balls|))
  }

  lemma {:induction false} LastPair(n: nat)
    requires n >= 2
    ensures AllPairs(n) == Rows(n - 2, n) + [Pair(n - 2, n - 1)]
  {
    assert Row(n - 1, n) == [];
    assert Row(n - 2, n) == [Pair(n - 2, n - 1)];
    assert Rows(n - 1, n) == Rows(n - 2, n) + Row(n - 2, n);
  }

  lemma {:induction false} LastPairComesLast(meet: (Ball, Ball) -> (Ball, Ball), balls: seq<Ball>)
    requires |balls| >= 2
    ensures AfterPairs(meet, balls, 0, 1) ==
            AfterPair(meet, Collided(meet, balls, Rows(|balls| - 2, |balls|)), |balls| - 2, |balls| - 1)
  {
    PairsCollide(meet, balls);
    LastPair(|balls|);
    CollidedOneMore(meet, balls, Rows(|balls| - 2, |balls|), Pair(|balls| - 2, |balls| - 1));
  }

  ghost predicate CentresApart(sqrt: real -> real, first: Ball, second: Ball) {
    Length(sqrt, Displacement(first, second)) > EPSILON
  }

  /**
   With no key pressed, the last two balls do not overlap after a step if their centres were more
   than EPSILON apart when they collided; if they overlapped then, they end exactly two radii apart.
   */
  lemma {:induction false} LastPairSeparates(sqrt: real -> real, balls: seq<Ball>, keys: seq<KeySample>,
                                             pressed: set<nat>, seconds: real)
    requires IsSquareRoot(sqrt) && |balls| >= 2 && NonePressed(keys, pressed, 0)
    requires var before := BeforeLastPair(sqrt, balls, seconds);
             CentresApart(sqrt, before[|balls| - 2], before[|balls| - 1])
    ensures var before, after := BeforeLastPair(sqrt, balls, seconds), Stepped(sqrt, balls, keys, pressed, seconds);
            var first, second := after[|balls| - 2], after[|balls| - 1];
            && !Overlapping(first, second)
            && (Overlapping(before[|balls| - 2], before[|balls| - 1]) ==>
                  Displacement(first, second).LengthSquared() == CONTACT * CONTACT)
  {
    StepWithoutKeys(sqrt, balls, keys, pressed, seconds);
    LastPairComesLast(Meet(sqrt), AfterWalls(balls, seconds));
    PairSeparates(sqrt, BeforeLastPair(sqrt, balls, seconds), |balls| - 2, |balls| - 1);
  }

  lemma {:induction false} PairSeparates(sqrt: real -> real, before: seq<Ball>, i: nat, j: nat)
    requires IsSquareRoot(sqrt) && i < j < |before| && CentresApart(sqrt, before[i], before[j])
    ensures var after := AfterPair(Meet(sqrt), before, i, j);
            && !Overlapping(after[i], after[j])
            && (Overlapping(before[i], before[j]) ==>
                  Displacement(after[i], after[j]).LengthSquared() == CONTACT * CONTACT)
  {
    if Overlapping(before[i], before[j]) {
      BallsSeparate(sqrt, before[i], before[j]);
    }
  }

  /** Where a ball is once it moved on for `seconds` and was put back inside the walls. */
  function Moved(ball: Ball, seconds: real): Ball {
    CollideWithWalls(Drifted(ball, seconds))
  }

  /** Two balls that overlap once moved, with centres more than EPSILON apart, end exactly two radii apart. */
  lemma {:induction false} TwoBallsSeparate(sqrt: real -> real, balls: seq<Ball>, keys: seq<KeySample>,
                                            pressed: set<nat>, seconds: real)
    requires IsSquareRoot(sqrt) && |balls| == 2 && NonePressed(keys, pressed, 0)
    requires Overlapping(Moved(balls[0], seconds), Moved(balls[1], seconds))
    requires CentresApart(sqrt, Moved(balls[0], seconds), Moved(balls[1], seconds))
    ensures var after := Stepped(sqrt, balls, keys, pressed, seconds);
            Displacement(after[0], after[1]).LengthSquared() == CONTACT * CONTACT
  {
    assert BeforeLastPair(sqrt, balls, seconds) == AfterWalls(balls, seconds);
    LastPairSeparates(sqrt, balls, keys, pressed, seconds);
  }

  // ----- A ball that meets nothing

  /** Whenever a pair of the ball numbered `i` has its turn, the two do not overlap. */
  ghost predicate MeetsNoBall(sqrt: real -> real, balls: seq<Ball>, pairs: seq<Pair>, i: nat)
    requires PairsFit(pairs, |balls|)
  {
    forall k :: 0 <= k < |pairs| && (pairs[k].first == i || pairs[k].second == i) ==>
      var before := Collided(Meet(sqrt), balls, pairs[..k]);
      !Overlapping(before[pairs[k].first], before[pairs[k].second])
  }

  lemma {:induction false} UntouchedByBalls(sqrt: real -> real, balls: seq<Ball>, pairs: seq<Pair>, i: nat)
    requires PairsFit(pairs, |balls|) && i < |balls| && MeetsNoBall(sqrt, balls, pairs, i)
    ensures Collided(Meet(sqrt), balls, pairs)[i] == balls[i]
    decreases |pairs|
  {
    if pairs != [] {
      var init, last := pairs[..|pairs| - 1], pairs[|pairs| - 1];
      assert forall k :: 0 <= k < |init| ==> init[..k] == pairs[..k];
      UntouchedByBalls(sqrt, balls, init, i);
    }
  }

  /** The ball is under no pressed key from `from` up to, but not including, `upTo`. */
  ghost predicate MeetsNoKey(ball: Ball, keys: seq<KeySample>, pressed: set<nat>, from: nat, upTo: nat) {
    forall k: nat :: from <= k < upTo && k < |keys| && k in pressed ==> !UnderFinger(ball, keys[k].Position())
  }

  lemma {:induction false} UntouchedByKeys(sqrt: real -> real, balls: seq<Ball>, keys: seq<KeySample>,
                                           pressed: set<nat>, from: nat, upTo: nat, i: nat, ball: Ball)
    requires from <= upTo <= |keys| && i < |balls| && MeetsNoKey(ball, keys, pressed, from, upTo)
    requires AfterFingers(sqrt, balls, keys, pressed, from)[i] == ball
    ensures AfterFingers(sqrt, balls, keys, pressed, upTo)[i] == ball
    decreases upTo
  {
    if from < upTo {
      UntouchedByKeys(sqrt, balls, keys, pressed, from, upTo - 1, i, ball);
    }
  }

  /**
   A ball that meets no other ball and no pressed key ends where its own motion takes it: at its
   position plus its velocity times the time, or at the nearest place inside the walls.
   */
  lemma {:induction false} FreeBallMovesOn(sqrt: real -> real, balls: seq<Ball>, keys: seq<KeySample>,
                                           pressed: set<nat>, seconds: real, i: nat)
    requires i < |balls| && MeetsNoBall(sqrt, AfterWalls(balls, seconds), AllPairs(|balls|), i)
    requires MeetsNoKey(Moved(balls[i], seconds), keys, pressed, 0, |keys|)
    ensures var ball, after := balls[i], Stepped(sqrt, balls, keys, pressed, seconds)[i];
            var free := ball.position.Add(ball.velocity.Scale(seconds));
            && (InsideWalls(free) ==> after == Ball(free, ball.velocity, ball.hue))
            && (!InsideWalls(free) ==> after == CollideWithWalls(Ball(free, ball.velocity, ball.hue)))
  {
    var moved := AfterWalls(balls, seconds);
    PairsCollide(Meet(sqrt), moved);
    UntouchedByBalls(sqrt, moved, AllPairs(|balls|), i);
    UntouchedByKeys(sqrt, AfterPairs(Meet(sqrt), moved, 0, 1), keys, pressed, 0, |keys|, i, moved[i]);
    WallCollision(Drifted(balls[i], seconds));
  }

  // ----- Pressed keys

  /** No ball is left under the last of the pressed keys. */
  lemma {:induction false} LastKeyIsClear(sqrt: real -> real, balls: seq<Ball>, keys: seq<KeySample>,
                                          pressed: set<nat>, seconds: real, k: nat)
    requires IsSquareRoot(sqrt) && k < |keys| && k in pressed && NonePressed(keys, pressed, k + 1)
    ensures forall b :: b in Stepped(sqrt, balls, keys, pressed, seconds) ==> !UnderFinger(b, keys[k].Position())
  {
    var collided := AfterPairs(Meet(sqrt), AfterWalls(balls, seconds), 0, 1);
    NoFingers(sqrt, collided, keys, pressed, k + 1, |keys|);
    FingerKeepsEnergy(sqrt, AfterFingers(sqrt, collided, keys, pressed, k), keys[k].Position());
  }

  /** A ball that one pressed key alone gets in the way of is pushed off by that key. */
  lemma {:induction false} KeyPushesBall(sqrt: real -> real, balls: seq<Ball>, keys: seq<KeySample>,
                                         pressed: set<nat>, seconds: real, k: nat, i: nat)
    requires k < |keys| && k in pressed && i < |balls|
    requires MeetsNoKey(Stepped(sqrt, balls, keys, {}, seconds)[i], keys, pressed, 0, k)
    requires MeetsNoKey(CollideWithFinger(sqrt, Stepped(sqrt, balls, keys, {}, seconds)[i], keys[k].Position()), keys,
               pressed, k + 1, |keys|)
    ensures Stepped(sqrt, balls, keys, pressed, seconds)[i] ==
            CollideWithFinger(sqrt, Stepped(sqrt, balls, keys, {}, seconds)[i], keys[k].Position())
  {
    StepWithoutKeys(sqrt, balls, keys, {}, seconds);
    OneFinger(sqrt, Stepped(sqrt, balls, keys, {}, seconds), keys, pressed, k, i,
      CollideWithFinger(sqrt, Stepped(sqrt, balls, keys, {}, seconds)[i], keys[k].Position()));
  }

  lemma {:induction false} OneFinger(sqrt: real -> real, balls: seq<Ball>, keys: seq<KeySample>, pressed: set<nat>,
                                     k: nat, i: nat, pushed: Ball)
    requires k < |keys| && k in pressed && i < |balls|
    requires pushed == CollideWithFinger(sqrt, balls[i], keys[k].Position())
    requires MeetsNoKey(balls[i], keys, pressed, 0, k) && MeetsNoKey(pushed, keys, pressed, k + 1, |keys|)
    ensures AfterFingers(sqrt, balls, keys, pressed, |keys|)[i] == pushed
  {
    UntouchedByKeys(sqrt, balls, keys, pressed, 0, k, i, balls[i]);
    assert AfterFingers(sqrt, balls, keys, pressed, k + 1)[i] == pushed;
    UntouchedByKeys(sqrt, balls, keys, pressed, k + 1, |keys|, i, pushed);
  }

  /** Keys lie half a unit apart, and the 32 by 11 grid of them is centred in the world. */
  lemma {:induction false} KeysAreCentred(key: KeySample, other: KeySample)
    ensures other.Position().Subtract(key.Position()) ==
            Vector((other.x - key.x) as real / 2.0, (other.y - key.y) as real / 2.0)
    ensures key.x + other.x == 31 && key.y + other.y == 10 ==>
              key.Position().Add(other.Position()) == Vector(WORLD_WIDTH, WORLD_HEIGHT)
  {
  }
}

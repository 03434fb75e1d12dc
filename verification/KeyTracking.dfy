/** Following keyboard events: which keys are held, and which of them are obstacles in the world. */
module KeyTracking {
  import opened Results
  import opened Vectors
  import opened Draws
  import opened Simulation
  import opened BallWorld

  type KeyCode = nat

  const KEY_ESC: KeyCode := 1

  /** An event value of 0 is a release, 1 a press, and anything else an automatic repeat. */
  datatype KeyEvent = KeyEvent(code: KeyCode, value: int)

  /** What does not change while events are handled; `keyName` names the keys the keyboard map knows. */
  datatype Keyboard<!S> = Keyboard(
    direction: real -> Vector,
    source: Source<S>,
    keys: seq<KeySample>,
    keyName: KeyCode -> Option<string>)

  datatype Session<!S> = Session(held: set<KeyCode>, world: State<S>, exitPending: bool)

  function Position(keys: seq<KeySample>, name: string, from: nat): (r: Option<nat>)
    requires from <= |keys|
    ensures r.Some? ==> from <= r.value < |keys| && keys[r.value].name == name
    ensures r.Some? ==> forall i :: from <= i < r.value ==> keys[i].name != name
    ensures r.None? ==> forall i :: from <= i < |keys| ==> keys[i].name != name
    decreases |keys| - from
  {
    if from == |keys| then None else if keys[from].name == name then Some(from) else Position(keys, name, from + 1)
  }

  /** The obstacle a key stands for: none for Escape, for unnamed keys and for keys not on the surface. */
  function Obstacle<S>(keyboard: Keyboard<S>, code: KeyCode): (r: Option<nat>)
    ensures r.Some? ==> r.value < |keyboard.keys|
  {
    if code == KEY_ESC then None
    else
      match keyboard.keyName(code)
      case None => None
      case Some(name) => Position(keyboard.keys, name, 0)
  }

  function HeldAfter(held: set<KeyCode>, event: KeyEvent): set<KeyCode> {
    if event.value == 0 then held - {event.code} else if event.value == 1 then held + {event.code} else held
  }

  function WorldAfter<S>(keyboard: Keyboard<S>, world: State<S>, event: KeyEvent, exitPending: bool): State<S> {
    match Obstacle(keyboard, event.code)
    case None => world
    case Some(index) =>
      if event.value == 0 then KeySet(keyboard.direction, keyboard.source, world, index, keyboard.keys[index], false)
      else if event.value == 1 && !exitPending then
        KeySet(keyboard.direction, keyboard.source, world, index, keyboard.keys[index], true)
      else world
  }

  function Handled<S>(keyboard: Keyboard<S>, session: Session<S>, event: KeyEvent): Session<S> {
    var exitPending := session.exitPending || (event.code == KEY_ESC && event.value == 1);
    Session(HeldAfter(session.held, event), WorldAfter(keyboard, session.world, event, exitPending), exitPending)
  }

  function AfterTrace<S>(keyboard: Keyboard<S>, session: Session<S>, events: seq<KeyEvent>): Session<S> {
    if events == [] then session
    else Handled(keyboard, AfterTrace(keyboard, session, events[..|events| - 1]), events[|events| - 1])
  }

  /** Every obstacle belongs to a key that is held. */
  ghost predicate ObstaclesAreHeld<S>(keyboard: Keyboard<S>, session: Session<S>) {
    forall i :: i in session.world.pressed ==>
      exists code :: code in session.held && Obstacle(keyboard, code) == Some(i)
  }

  lemma {:induction false} HandlingKeepsObstaclesHeld<S>(keyboard: Keyboard<S>, session: Session<S>, event: KeyEvent)
    requires ObstaclesAreHeld(keyboard, session)
    ensures ObstaclesAreHeld(keyboard, Handled(keyboard, session, event))
  {
    var after := Handled(keyboard, session, event);
    forall i | i in after.world.pressed
      ensures exists code :: code in after.held && Obstacle(keyboard, code) == Some(i)
    {
      if i in session.world.pressed {
        var code :| code in session.held && Obstacle(keyboard, code) == Some(i);
        assert code in after.held;
      } else {
        assert event.code in after.held;
      }
    }
  }

  /** Over every trace that starts without obstacles, each obstacle belongs to a key that is held. */
  lemma {:induction false} TraceKeepsObstaclesHeld<S>(keyboard: Keyboard<S>, session: Session<S>, events: seq<KeyEvent>)
    requires session.world.pressed == {}
    ensures ObstaclesAreHeld(keyboard, AfterTrace(keyboard, session, events))
  {
    if events != [] {
      TraceKeepsObstaclesHeld(keyboard, session, events[..|events| - 1]);
      HandlingKeepsObstaclesHeld(keyboard, AfterTrace(keyboard, session, events[..|events| - 1]), events[|events| - 1]);
    }
  }

  function WithoutRepeats(events: seq<KeyEvent>): seq<KeyEvent> {
    if events == [] then []
    else
      var last := events[|events| - 1];
      WithoutRepeats(events[..|events| - 1]) + if last.value == 0 || last.value == 1 then [last] else []
  }

  /** Automatic repeats change nothing: a trace leads where it would have led without them. */
  lemma {:induction false} RepeatsChangeNothing<S>(keyboard: Keyboard<S>, session: Session<S>, events: seq<KeyEvent>)
    ensures AfterTrace(keyboard, session, WithoutRepeats(events)) == AfterTrace(keyboard, session, events)
  {
    if events != [] {
      var init, last := events[..|events| - 1], events[|events| - 1];
      RepeatsChangeNothing(keyboard, session, init);
      var kept := WithoutRepeats(init);
      assert (kept + [last])[..|kept|] == kept;
      assert kept + [] == kept;
    }
  }

  /** Once leaving is pending it stays pending, obstacles only disappear, and no ball is kicked. */
  lemma {:induction false} ExitOnlyReleases<S>(keyboard: Keyboard<S>, session: Session<S>, events: seq<KeyEvent>)
    requires session.exitPending
    ensures var after := AfterTrace(keyboard, session, events);
            && after.exitPending && after.world.pressed <= session.world.pressed
            && after.world.balls == session.world.balls && after.world.random == session.world.random
  {
    if events != [] {
      ExitOnlyReleases(keyboard, session, events[..|events| - 1]);
    }
  }

  predicate IsPress(event: KeyEvent) {
    event.value == 1
  }

  predicate IsRelease(event: KeyEvent) {
    event.value == 0
  }

  /** The key is an obstacle if it is not Escape and has the name of a key of the surface, of which it is the first. */
  lemma {:induction false} ObstacleExactly<S>(keyboard: Keyboard<S>, code: KeyCode, i: nat)
    ensures Obstacle(keyboard, code) == Some(i) <==>
            && code != KEY_ESC && i < |keyboard.keys| && keyboard.keyName(code) == Some(keyboard.keys[i].name)
            && forall j :: 0 <= j < i ==> keyboard.keys[j].name != keyboard.keys[i].name
  {
  }

  /** The key was let go of at none of the events from `from` on. */
  ghost predicate NotReleased(events: seq<KeyEvent>, code: KeyCode, from: nat) {
    forall k :: from <= k < |events| && events[k].code == code ==> !IsRelease(events[k])
  }

  ghost predicate HeldSince(events: seq<KeyEvent>, code: KeyCode, k: nat) {
    k < |events| && events[k].code == code && IsPress(events[k]) && NotReleased(events, code, k + 1)
  }

  /** The key was pressed, or held at the start, and not released since. */
  ghost predicate Holding(held: set<KeyCode>, events: seq<KeyEvent>, code: KeyCode) {
    (code in held && NotReleased(events, code, 0)) || exists k: nat :: HeldSince(events, code, k)
  }

  lemma {:induction false} NotReleasedNext(init: seq<KeyEvent>, last: KeyEvent, code: KeyCode, from: nat)
    requires from <= |init|
    ensures NotReleased(init + [last], code, from) <==>
            NotReleased(init, code, from) && !(last.code == code && IsRelease(last))
  {
    var events := init + [last];
    assert events[|init|] == last && forall k :: 0 <= k < |init| ==> events[k] == init[k];
  }

  lemma {:induction false} HoldingNext(held: set<KeyCode>, init: seq<KeyEvent>, last: KeyEvent, code: KeyCode)
    ensures Holding(held, init + [last], code) <==>
            if last.code == code && IsRelease(last) then false
            else (last.code == code && IsPress(last)) || Holding(held, init, code)
  {
    var events := init + [last];
    NotReleasedNext(init, last, code, 0);
    if k: nat :| HeldSince(events, code, k) {
      if k < |init| {
        NotReleasedNext(init, last, code, k + 1);
        assert HeldSince(init, code, k);
      }
    }
    if last.code == code && IsPress(last) {
      assert HeldSince(events, code, |init|);
    } else if !(last.code == code && IsRelease(last)) {
      if k: nat :| HeldSince(init, code, k) {
        NotReleasedNext(init, last, code, k + 1);
        assert HeldSince(events, code, k);
      }
    }
  }

  function HeldAfterAll(held: set<KeyCode>, events: seq<KeyEvent>): set<KeyCode> {
    if events == [] then held else HeldAfter(HeldAfterAll(held, events[..|events| - 1]), events[|events| - 1])
  }

  lemma {:induction false} HeldAfterTrace<S>(keyboard: Keyboard<S>, session: Session<S>, events: seq<KeyEvent>)
    ensures AfterTrace(keyboard, session, events).held == HeldAfterAll(session.held, events)
  {
    if events != [] {
      HeldAfterTrace(keyboard, session, events[..|events| - 1]);
    }
  }

  lemma {:induction false} HeldAfterAllExactly(held: set<KeyCode>, events: seq<KeyEvent>, code: KeyCode)
    ensures code in HeldAfterAll(held, events) <==> Holding(held, events, code)
  {
    if events != [] {
      var init, last := events[..|events| - 1], events[|events| - 1];
      HeldAfterAllExactly(held, init, code);
      HoldingNext(held, init, last, code);
      assert events == init + [last];
    }
  }

  /** Over every trace, a key is held exactly if it was pressed, or held at the start, and not released since. */
  lemma {:induction false} HeldExactly<S>(keyboard: Keyboard<S>, session: Session<S>, events: seq<KeyEvent>,
                                          code: KeyCode)
    ensures code in AfterTrace(keyboard, session, events).held <==> Holding(session.held, events, code)
  {
    HeldAfterTrace(keyboard, session, events);
    HeldAfterAllExactly(session.held, events, code);
  }

  /** Leaving was pending at the start, or has been asked for since. */
  ghost predicate Leaving(pending: bool, events: seq<KeyEvent>) {
    pending || exists k :: 0 <= k < |events| && events[k].code == KEY_ESC && IsPress(events[k])
  }

  lemma {:induction false} LeavingExactly<S>(keyboard: Keyboard<S>, session: Session<S>, events: seq<KeyEvent>)
    ensures AfterTrace(keyboard, session, events).exitPending <==> Leaving(session.exitPending, events)
  {
    if events != [] {
      var init, last := events[..|events| - 1], events[|events| - 1];
      LeavingExactly(keyboard, session, init);
      assert events == init + [last];
      if last.code == KEY_ESC && IsPress(last) {
        assert events[|events| - 1].code == KEY_ESC && IsPress(events[|events| - 1]);
      }
    }
  }

  predicate Concerns<S>(keyboard: Keyboard<S>, event: KeyEvent, obstacle: nat) {
    Obstacle(keyboard, event.code) == Some(obstacle)
  }

  /** Event `k` pressed the obstacle before leaving was pending, and no later event released it. */
  ghost predicate PressedAt<S>(keyboard: Keyboard<S>, pending: bool, events: seq<KeyEvent>, obstacle: nat, k: nat) {
    && k < |events| && IsPress(events[k]) && Concerns(keyboard, events[k], obstacle) && !Leaving(pending, events[..k])
    && forall j :: k < j < |events| ==> !(IsRelease(events[j]) && Concerns(keyboard, events[j], obstacle))
  }

  ghost predicate Tracked<S>(keyboard: Keyboard<S>, pending: bool, events: seq<KeyEvent>, obstacle: nat) {
    exists k :: PressedAt(keyboard, pending, events, obstacle, k)
  }

  lemma {:induction false} TrackedNext<S>(keyboard: Keyboard<S>, pending: bool, init: seq<KeyEvent>, last: KeyEvent,
                                          obstacle: nat)
    ensures Tracked(keyboard, pending, init + [last], obstacle) <==>
            if Concerns(keyboard, last, obstacle) && IsRelease(last) then false
            else if Concerns(keyboard, last, obstacle) && IsPress(last) && !Leaving(pending, init) then true
            else Tracked(keyboard, pending, init, obstacle)
  {
    var events := init + [last];
    forall k: nat | k <= |init|
      ensures events[..k] == init[..k]
    {
    }
    assert init[..|init|] == init;
    if k: nat :| PressedAt(keyboard, pending, events, obstacle, k) {
      assert k < |init| ==> PressedAt(keyboard, pending, init, obstacle, k);
      assert events[|init|] == last;
    }
    if Concerns(keyboard, last, obstacle) && IsPress(last) && !Leaving(pending, init) {
      assert PressedAt(keyboard, pending, events, obstacle, |init|);
    } else if !(Concerns(keyboard, last, obstacle) && IsRelease(last)) {
      if k: nat :| PressedAt(keyboard, pending, init, obstacle, k) {
        assert PressedAt(keyboard, pending, events, obstacle, k);
      }
    }
  }

  /**
   Over every trace, on every keyboard, the obstacles are exactly those pressed before leaving was
   pending and not released since.
   */
  lemma {:induction false} TraceTracksExactly<S>(keyboard: Keyboard<S>, session: Session<S>, events: seq<KeyEvent>,
                                                 obstacle: nat)
    requires session.world.pressed == {}
    ensures obstacle in AfterTrace(keyboard, session, events).world.pressed <==>
            Tracked(keyboard, session.exitPending, events, obstacle)
  {
    if events != [] {
      var init, last := events[..|events| - 1], events[|events| - 1];
      TraceTracksExactly(keyboard, session, init, obstacle);
      LeavingExactly(keyboard, session, init);
      TrackedNext(keyboard, session.exitPending, init, last, obstacle);
      assert events == init + [last];
    }
  }

  /** Different keys are different obstacles. */
  ghost predicate DistinctObstacles<S>(keyboard: Keyboard<S>) {
    forall a, b :: Obstacle(keyboard, a).Some? && Obstacle(keyboard, a) == Obstacle(keyboard, b) ==> a == b
  }

  /** The keys held from the start of a trace that have been neither pressed nor released in it. */
  function Silent(held: set<KeyCode>, events: seq<KeyEvent>): set<KeyCode> {
    if events == [] then held
    else
      var last := events[|events| - 1];
      Silent(held, events[..|events| - 1]) - if IsPress(last) || IsRelease(last) then {last.code} else {}
  }

  /**
   Where different keys are different obstacles, and until leaving is asked for, a key is an obstacle
   exactly while it is held, apart from keys held from the start that have not been touched since.
   */
  lemma {:induction false} HeldKeysAreObstacles<S>(keyboard: Keyboard<S>, session: Session<S>, events: seq<KeyEvent>,
                                                   code: KeyCode)
    requires DistinctObstacles(keyboard) && session.world.pressed == {} && Obstacle(keyboard, code).Some?
    requires !AfterTrace(keyboard, session, events).exitPending
    ensures var after := AfterTrace(keyboard, session, events);
            Obstacle(keyboard, code).value in after.world.pressed <==>
              code in after.held && code !in Silent(session.held, events)
  {
    if events != [] {
      HeldKeysAreObstacles(keyboard, session, events[..|events| - 1], code);
    }
  }

  class KeyboardSession<S> {
    const keyName: KeyCode -> Option<string>
    const keys: seq<KeySample>
    const world: World<S>
    var held: set<KeyCode>
    var exitPending: bool

    ghost function Board(): Keyboard<S> {
      Keyboard(world.direction, world.source, keys, keyName)
    }

    ghost function View(): Session<S>
      reads this, world
    {
      Session(held, world.View(), exitPending)
    }

    constructor (keyName: KeyCode -> Option<string>, keys: seq<KeySample>, world: World<S>, held: set<KeyCode>)
      ensures this.keyName == keyName && this.keys == keys && this.world == world
      ensures View() == Session(held, world.View(), false)
    {
      this.keyName, this.keys, this.world := keyName, keys, world;
      this.held, this.exitPending := held, false;
    }

    method UpdatePressedKeys(event: KeyEvent)
      modifies this`held
      ensures held == HeldAfter(old(held), event)
    {
      if event.value == 0 {
        held := held - {event.code};
      } else if event.value == 1 {
        held := held + {event.code};
      }
    }

    method UpdateWorldKey(event: KeyEvent)
      modifies world
      ensures world.View() == WorldAfter(Board(), old(world.View()), event, exitPending)
    {
      if event.code == KEY_ESC {
        return;
      }
      var name := keyName(event.code);
      if name.None? {
        return;
      }
      var index := Position(keys, name.value, 0);
      if index.None? {
        return;
      }
      if event.value == 0 {
        world.SetKey(index.value, keys[index.value], false);
      } else if event.value == 1 && !exitPending {
        world.SetKey(index.value, keys[index.value], true);
      }
    }

    method HandleKey(event: KeyEvent)
      modifies this, world
      ensures View() == Handled(Board(), old(View()), event)
    {
      UpdatePressedKeys(event);
      if event.code == KEY_ESC && event.value == 1 {
        exitPending := true;
      }
      UpdateWorldKey(event);
    }
  }
}

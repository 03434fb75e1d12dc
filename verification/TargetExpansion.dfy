/**
 Expanding selected targets to the ones that will actually be driven.

 A selection is walked downwards: a device to its surfaces, a surface without frame upload to its
 elements, a group to its members. The deepest targets that can render are kept.
 */
module TargetExpansion {
  import opened Results
  import opened Sequences
  import opened Graphs
  import opened Topology
  import opened StaticColours

  datatype ExpandError =
    | DeviceNotFound(target: TargetId)
    | SurfaceNotFound(target: TargetId)
    | GroupNotFound(target: TargetId)
    | GroupCycle(target: TargetId)

  // ----- The topology as a graph

  function TargetCapabilities(devices: seq<Device>, target: TargetId): Option<CapabilitySet> {
    match FindDevice(devices, target.device)
    case None => None
    case Some(device) =>
      match target
      case DeviceTarget(_) => Some(device.capabilities)
      case SurfaceTarget(_, surface) =>
        (match FindSurface(device, surface)
         case None => None
         case Some(s) => Some(s.capabilities))
      case ElementTarget(_, surface, element) =>
        (match FindSurface(device, surface)
         case None => None
         case Some(s) =>
           match FindElement(s, element)
           case None => None
           case Some(e) => Some(e.capabilities))
      case GroupTarget(_, group) =>
        (match FindGroup(device, group)
         case None => None
         case Some(g) => Some(g.capabilities))
  }

  /** Frame upload counts only on surfaces, which are the targets that have element positions. */
  predicate CanRender(devices: seq<Device>, target: TargetId) {
    match TargetCapabilities(devices, target)
    case None => false
    case Some(capabilities) =>
      (capabilities.frameUpload && target.SurfaceTarget?) || StaticModelOf(capabilities.colour).Some?
  }

  function MemberTarget(device: Id, member: GroupMember): TargetId {
    match member
    case SurfaceMember(surface) => SurfaceTarget(device, surface)
    case ElementMember(surface, element) => ElementTarget(device, surface, element)
    case NestedGroup(group) => GroupTarget(device, group)
  }

  function SurfaceTargets(device: Device): (r: seq<TargetId>)
    ensures |r| == |device.surfaces|
  {
    seq(|device.surfaces|, i requires 0 <= i < |device.surfaces| => SurfaceTarget(device.id, device.surfaces[i].id))
  }

  function ElementTargets(device: Device, surface: Surface): (r: seq<TargetId>)
    ensures |r| == |surface.elements|
  {
    seq(|surface.elements|, i requires 0 <= i < |surface.elements| =>
      ElementTarget(device.id, surface.id, surface.elements[i].id))
  }

  function MemberTargets(device: Device, group: Group): (r: seq<TargetId>)
    ensures |r| == |group.members|
  {
    seq(|group.members|, i requires 0 <= i < |group.members| => MemberTarget(device.id, group.members[i]))
  }

  /** Why a target cannot be walked at all, if it cannot. A missing element is not an error. */
  function Missing(devices: seq<Device>, target: TargetId): Option<ExpandError> {
    match FindDevice(devices, target.device)
    case None => Some(DeviceNotFound(target))
    case Some(device) =>
      if target.SurfaceTarget? && FindSurface(device, target.surface).None? then Some(SurfaceNotFound(target))
      else if target.GroupTarget? && FindGroup(device, target.group).None? then Some(GroupNotFound(target))
      else None
  }

  /** The targets one level below, in the order they are visited. */
  function Children(devices: seq<Device>, target: TargetId): seq<TargetId> {
    if Missing(devices, target).Some? then []
    else
      var device := FindDevice(devices, target.device).value;
      match target
      case DeviceTarget(_) => SurfaceTargets(device)
      case SurfaceTarget(_, s) =>
        var surface := FindSurface(device, s).value;
        if surface.capabilities.frameUpload then [] else ElementTargets(device, surface)
      case ElementTarget(_, _, _) => []
      case GroupTarget(_, g) => MemberTargets(device, FindGroup(device, g).value)
  }

  /** The graph walked, as a successor function. */
  ghost function Below(devices: seq<Device>): TargetId -> seq<TargetId> {
    t => Children(devices, t)
  }

  /** Can render, and nothing strictly below it can. */
  ghost predicate OnFrontier(devices: seq<Device>, target: TargetId) {
    CanRender(devices, target) &&
    forall d :: Descends(Below(devices), target, d) ==> !CanRender(devices, d)
  }

  // ----- Specification of the walk, without accumulators

  function Level(target: TargetId): nat {
    match target
    case ElementTarget(_, _, _) => 1
    case SurfaceTarget(_, _) => 2
    case DeviceTarget(_) => 3
    case GroupTarget(_, _) => 3
  }

  /** A bound on the level of the children of `target`. */
  function LevelBelow(target: TargetId): nat {
    if target.GroupTarget? then 3 else Level(target) - 1
  }

  ghost predicate AtMost(targets: seq<TargetId>, level: nat) {
    forall i :: 0 <= i < |targets| ==> Level(targets[i]) <= level
  }

  lemma {:induction false} ChildrenLevel(devices: seq<Device>, target: TargetId)
    ensures AtMost(Children(devices, target), LevelBelow(target))
  {
  }

  ghost function GroupTargets(devices: seq<Device>): set<TargetId> {
    set d, g | d in devices && g in d.groups :: GroupTarget(d.id, g.id)
  }

  lemma {:induction false} PresentGroupIsListed(devices: seq<Device>, target: TargetId)
    requires target.GroupTarget? && Missing(devices, target).None?
    ensures target in GroupTargets(devices)
  {
    var device := FindDevice(devices, target.device).value;
    var group := FindGroup(device, target.group).value;
    assert GroupTarget(device.id, group.id) == target;
  }

  /** The groups on the path once `target` has been entered. */
  function Entered(target: TargetId, path: set<TargetId>): set<TargetId> {
    if target.GroupTarget? then path + {target} else path
  }

  /** Why `target` stops the walk before anything below it is visited. The cycle test precedes the group lookup. */
  function EntryError(devices: seq<Device>, target: TargetId, path: set<TargetId>): Option<ExpandError> {
    if FindDevice(devices, target.device).None? then Some(DeviceNotFound(target))
    else if target.GroupTarget? && target in path then Some(GroupCycle(target))
    else Missing(devices, target)
  }

  lemma {:induction false} EnteringDecreases(devices: seq<Device>, target: TargetId, path: set<TargetId>)
    requires EntryError(devices, target, path).None?
    ensures target.GroupTarget? ==> GroupTargets(devices) - Entered(target, path) < GroupTargets(devices) - path
  {
    if target.GroupTarget? {
      PresentGroupIsListed(devices, target);
      assert target in GroupTargets(devices) - path;
      assert target !in GroupTargets(devices) - Entered(target, path);
    }
  }

  /** The rendering frontier below `target`, in visiting order and with repeats. */
  ghost function Walk(devices: seq<Device>, target: TargetId, path: set<TargetId>): Result<seq<TargetId>, ExpandError>
    decreases GroupTargets(devices) - path, Level(target), 0
  {
    match EntryError(devices, target, path)
    case Some(error) => Err(error)
    case None =>
      ChildrenLevel(devices, target);
      EnteringDecreases(devices, target, path);
      match WalkAll(devices, Children(devices, target), Entered(target, path), LevelBelow(target))
      case Err(error) => Err(error)
      case Ok(found) => Ok(if found == [] && CanRender(devices, target) then [target] else found)
  }

  ghost function WalkAll(devices: seq<Device>, targets: seq<TargetId>, path: set<TargetId>, level: nat)
    : Result<seq<TargetId>, ExpandError>
    requires AtMost(targets, level)
    decreases GroupTargets(devices) - path, level, |targets|
  {
    if targets == [] then Ok([])
    else
      match WalkAll(devices, targets[..|targets| - 1], path, level)
      case Err(error) => Err(error)
      case Ok(found) =>
        match Walk(devices, targets[|targets| - 1], path)
        case Err(error) => Err(error)
        case Ok(more) => Ok(found + more)
  }

  /** The walk of the children of a target that can be entered. */
  ghost function WalkBelow(devices: seq<Device>, target: TargetId, path: set<TargetId>)
    : Result<seq<TargetId>, ExpandError>
    requires EntryError(devices, target, path).None?
  {
    ChildrenLevel(devices, target);
    WalkAll(devices, Children(devices, target), Entered(target, path), LevelBelow(target))
  }

  // ----- What the walk computes, in terms of reachability

  ghost predicate ReachedFrom(devices: seq<Device>, sources: seq<TargetId>, goal: TargetId) {
    exists s :: s in sources && Reaches(Below(devices), s, goal)
  }

  /** A target at which a walk whose current path is `path` must stop with an error. */
  ghost predicate Blocked(devices: seq<Device>, path: set<TargetId>, target: TargetId) {
    Missing(devices, target).Some? || target in path || OnCycle(Below(devices), target)
  }

  /** The error names a target that really is blocked, and for the reason it gives. */
  ghost predicate Justified(devices: seq<Device>, path: set<TargetId>, error: ExpandError) {
    if error.GroupCycle? then error.target in path || OnCycle(Below(devices), error.target)
    else Missing(devices, error.target) == Some(error)
  }

  /** The specification of walking `sources`, by reachability alone. */
  ghost predicate IsFrontierOf(devices: seq<Device>, sources: seq<TargetId>, path: set<TargetId>,
                               r: Result<seq<TargetId>, ExpandError>)
  {
    match r
    case Err(error) => ReachedFrom(devices, sources, error.target) && Justified(devices, path, error)
    case Ok(found) =>
      && (forall u :: ReachedFrom(devices, sources, u) ==> !Blocked(devices, path, u))
      && (forall u :: u in found <==> ReachedFrom(devices, sources, u) && OnFrontier(devices, u))
      && (found == [] ==> forall u :: ReachedFrom(devices, sources, u) ==> !CanRender(devices, u))
  }

  lemma {:induction false} ReachedFromOne(devices: seq<Device>, target: TargetId, goal: TargetId)
    ensures ReachedFrom(devices, [target], goal) <==> Reaches(Below(devices), target, goal)
    ensures ReachedFrom(devices, [target], goal) <==>
            goal == target || ReachedFrom(devices, Children(devices, target), goal)
    ensures ReachedFrom(devices, Children(devices, target), goal) <==> Descends(Below(devices), target, goal)
  {
    ReachesUnfold(Below(devices), target, goal);
    assert target in [target];
  }

  lemma {:induction false} ChildNeverClimbs(devices: seq<Device>, source: TargetId, child: TargetId)
    requires !source.GroupTarget? && child in Children(devices, source)
    ensures !child.GroupTarget? && Level(child) < Level(source)
  {
  }

  /** Only groups can be members of themselves. */
  lemma {:induction false} OnlyGroupsCycle(devices: seq<Device>, target: TargetId)
    requires OnCycle(Below(devices), target)
    ensures target.GroupTarget?
  {
    if !target.GroupTarget? {
      var next := Below(devices);
      var lower := (t: TargetId) => !t.GroupTarget? && Level(t) < Level(target);
      var via :| via in next(target) && Reaches(next, via, target);
      ChildNeverClimbs(devices, target, via);
      forall x, y | lower(x) && y in next(x)
        ensures lower(y)
      {
        ChildNeverClimbs(devices, x, y);
      }
      ReachesInherits(next, lower, via, target);
    }
  }

  lemma {:induction false} BlockedSelf(devices: seq<Device>, target: TargetId, path: set<TargetId>)
    requires forall p :: p in path ==> p.GroupTarget?
    requires EntryError(devices, target, path).None?
    requires target.GroupTarget? ==> !ReachedFrom(devices, Children(devices, target), target)
    ensures !Blocked(devices, path, target)
  {
    ReachedFromOne(devices, target, target);
    if OnCycle(Below(devices), target) {
      OnlyGroupsCycle(devices, target);
    }
  }

  lemma {:induction false} EnterTarget(devices: seq<Device>, target: TargetId, path: set<TargetId>,
                                       found: seq<TargetId>)
    requires forall p :: p in path ==> p.GroupTarget?
    requires EntryError(devices, target, path).None?
    requires IsFrontierOf(devices, Children(devices, target), Entered(target, path), Ok(found))
    ensures IsFrontierOf(devices, [target], path,
                         Ok(if found == [] && CanRender(devices, target) then [target] else found))
  {
    var below := Children(devices, target);
    forall u
      ensures ReachedFrom(devices, [target], u) <==> u == target || ReachedFrom(devices, below, u)
      ensures ReachedFrom(devices, below, u) <==> Descends(Below(devices), target, u)
    {
      ReachedFromOne(devices, target, u);
    }
    if ReachedFrom(devices, below, target) && target.GroupTarget? {
      assert Blocked(devices, Entered(target, path), target);
    }
    BlockedSelf(devices, target, path);
    if found != [] {
      assert found[0] in found;
      assert !OnFrontier(devices, target);
    }
  }

  lemma {:induction false} EnterTargetFails(devices: seq<Device>, target: TargetId, path: set<TargetId>,
                                            error: ExpandError)
    requires EntryError(devices, target, path).None?
    requires IsFrontierOf(devices, Children(devices, target), Entered(target, path), Err(error))
    ensures IsFrontierOf(devices, [target], path, Err(error))
  {
    ReachedFromOne(devices, target, error.target);
  }

  lemma {:induction false} ReachedFromSplit(devices: seq<Device>, init: seq<TargetId>, last: TargetId, goal: TargetId)
    ensures ReachedFrom(devices, init + [last], goal) <==>
            ReachedFrom(devices, init, goal) || ReachedFrom(devices, [last], goal)
  {
    assert forall s :: s in init + [last] <==> s in init || s in [last];
  }

  lemma {:induction false} AppendTarget(devices: seq<Device>, init: seq<TargetId>, last: TargetId, path: set<TargetId>,
                     found: seq<TargetId>, more: Result<seq<TargetId>, ExpandError>)
    requires IsFrontierOf(devices, init, path, Ok(found))
    requires IsFrontierOf(devices, [last], path, more)
    ensures IsFrontierOf(devices, init + [last], path, if more.Ok? then Ok(found + more.value) else more)
  {
    forall u
      ensures ReachedFrom(devices, init + [last], u) <==>
              ReachedFrom(devices, init, u) || ReachedFrom(devices, [last], u)
    {
      ReachedFromSplit(devices, init, last, u);
    }
  }

  /** The walk returns exactly the frontier below its target, or an error justified by a target below it. */
  lemma {:induction false} WalkIsFrontier(devices: seq<Device>, target: TargetId, path: set<TargetId>)
    requires forall p :: p in path ==> p.GroupTarget?
    ensures IsFrontierOf(devices, [target], path, Walk(devices, target, path))
    decreases GroupTargets(devices) - path, Level(target), 0
  {
    ReachedFromOne(devices, target, target);
    if EntryError(devices, target, path).None? {
      ChildrenLevel(devices, target);
      EnteringDecreases(devices, target, path);
      WalkAllIsFrontier(devices, Children(devices, target), Entered(target, path), LevelBelow(target));
      match WalkAll(devices, Children(devices, target), Entered(target, path), LevelBelow(target))
      case Err(error) => EnterTargetFails(devices, target, path, error);
      case Ok(found) => EnterTarget(devices, target, path, found);
    }
  }

  lemma {:induction false} WalkAllIsFrontier(devices: seq<Device>, targets: seq<TargetId>, path: set<TargetId>,
                                             level: nat)
    requires AtMost(targets, level)
    requires forall p :: p in path ==> p.GroupTarget?
    ensures IsFrontierOf(devices, targets, path, WalkAll(devices, targets, path, level))
    decreases GroupTargets(devices) - path, level, |targets|
  {
    if targets != [] {
      var init, last := targets[..|targets| - 1], targets[|targets| - 1];
      assert targets == init + [last];
      WalkAllIsFrontier(devices, init, path, level);
      match WalkAll(devices, init, path, level)
      case Err(error) => ReachedFromSplit(devices, init, last, error.target);
      case Ok(found) =>
        WalkIsFrontier(devices, last, path);
        AppendTarget(devices, init, last, path, found, Walk(devices, last, path));
    }
  }

  // ----- The expansion of a whole selection

  /** Every selected target is walked from an empty path; repeats are dropped after their first occurrence. */
  ghost function Expansion(devices: seq<Device>, targets: seq<TargetId>): Result<seq<TargetId>, ExpandError> {
    match WalkAll(devices, targets, {}, 3)
    case Err(error) => Err(error)
    case Ok(found) => Ok(AppendNew([], found))
  }

  /**
   A successful expansion lists, without repeats, exactly the reachable targets that can render and
   have nothing rendering strictly below them.
   */
  lemma {:induction false} ExpansionIsFrontier(devices: seq<Device>, targets: seq<TargetId>)
    requires Expansion(devices, targets).Ok?
    ensures var expanded := Expansion(devices, targets).value;
            && NoDuplicates(expanded)
            && forall u :: u in expanded <==> ReachedFrom(devices, targets, u) && OnFrontier(devices, u)
  {
    WalkAllIsFrontier(devices, targets, {}, 3);
    AppendNewMembers([], WalkAll(devices, targets, {}, 3).value);
  }

  /** Expansion fails exactly when a missing device, surface or group, or a group cycle, is reachable. */
  lemma {:induction false} ExpansionFailsExactly(devices: seq<Device>, targets: seq<TargetId>)
    ensures Expansion(devices, targets).Err? <==>
            exists u :: ReachedFrom(devices, targets, u) &&
                        (Missing(devices, u).Some? || OnCycle(Below(devices), u))
    ensures Expansion(devices, targets).Err? ==>
              && ReachedFrom(devices, targets, Expansion(devices, targets).error.target)
              && Justified(devices, {}, Expansion(devices, targets).error)
  {
    WalkAllIsFrontier(devices, targets, {}, 3);
    if u :| ReachedFrom(devices, targets, u) && (Missing(devices, u).Some? || OnCycle(Below(devices), u)) {
      assert Blocked(devices, {}, u);
    }
  }

  lemma {:induction false} ReachedFromTransitive(devices: seq<Device>, sources: seq<TargetId>, via: TargetId,
                                                 goal: TargetId)
    requires ReachedFrom(devices, sources, via) && Reaches(Below(devices), via, goal)
    ensures ReachedFrom(devices, sources, goal)
  {
    var s :| s in sources && Reaches(Below(devices), s, via);
    ReachesTransitive(Below(devices), s, via, goal);
  }

  /** Nothing that could render is lost: it, or something below it, is in the expansion. */
  lemma {:induction false} ExpansionCovers(devices: seq<Device>, targets: seq<TargetId>, target: TargetId)
    requires Expansion(devices, targets).Ok?
    requires ReachedFrom(devices, targets, target) && CanRender(devices, target)
    ensures exists u :: u in Expansion(devices, targets).value && Reaches(Below(devices), target, u)
  {
    ExpansionIsFrontier(devices, targets);
    WalkIsFrontier(devices, target, {});
    ReachedFromOne(devices, target, target);
    match Walk(devices, target, {})
    case Err(error) =>
      ReachedFromOne(devices, target, error.target);
      ReachedFromTransitive(devices, targets, target, error.target);
      ExpansionFailsExactly(devices, targets);
      assert false;
    case Ok(found) =>
      var u := found[0];
      assert u in found;
      ReachedFromOne(devices, target, u);
      ReachedFromTransitive(devices, targets, target, u);
  }

  /** No expanded target lies strictly below another. */
  lemma {:induction false} ExpansionIsAntichain(devices: seq<Device>, targets: seq<TargetId>, upper: TargetId,
                                                lower: TargetId)
    requires Expansion(devices, targets).Ok?
    requires upper in Expansion(devices, targets).value && lower in Expansion(devices, targets).value
    ensures !Descends(Below(devices), upper, lower)
  {
    ExpansionIsFrontier(devices, targets);
    assert OnFrontier(devices, upper) && OnFrontier(devices, lower);
  }

  /** The order and repetition of the selection affect neither success nor which targets are expanded. */
  lemma {:induction false} SelectionOrderIsIrrelevant(devices: seq<Device>, targets: seq<TargetId>,
                                                      others: seq<TargetId>)
    requires forall t :: t in targets <==> t in others
    ensures Expansion(devices, targets).Ok? <==> Expansion(devices, others).Ok?
    ensures Expansion(devices, targets).Ok? ==>
              multiset(Expansion(devices, targets).value) == multiset(Expansion(devices, others).value)
  {
    forall u
      ensures ReachedFrom(devices, targets, u) <==> ReachedFrom(devices, others, u)
    {
    }
    ExpansionFailsExactly(devices, targets);
    ExpansionFailsExactly(devices, others);
    if Expansion(devices, targets).Ok? {
      ExpansionIsFrontier(devices, targets);
      ExpansionIsFrontier(devices, others);
      SameMembersSameMultiset(Expansion(devices, targets).value, Expansion(devices, others).value);
    }
  }

  /** A target on the frontier expands to itself. */
  lemma {:induction false} FrontierWalksToItself(devices: seq<Device>, targets: seq<TargetId>, target: TargetId)
    requires Expansion(devices, targets).Ok? && target in Expansion(devices, targets).value
    ensures Walk(devices, target, {}) == Ok([target])
  {
    ExpansionIsFrontier(devices, targets);
    ExpansionFailsExactly(devices, targets);
    WalkIsFrontier(devices, target, {});
    if Walk(devices, target, {}).Err? {
      var culprit := Walk(devices, target, {}).error.target;
      ReachedFromOne(devices, target, culprit);
      ReachedFromTransitive(devices, targets, target, culprit);
      assert false;
    }
    var below := Children(devices, target);
    ChildrenLevel(devices, target);
    WalkAllIsFrontier(devices, below, Entered(target, {}), LevelBelow(target));
    var found := WalkAll(devices, below, Entered(target, {}), LevelBelow(target)).value;
    if found != [] {
      assert found[0] in found;
      ReachedFromOne(devices, target, found[0]);
      assert false;
    }
  }

  lemma {:induction false} FrontierWalksToItselfAll(devices: seq<Device>, targets: seq<TargetId>, some: seq<TargetId>)
    requires Expansion(devices, targets).Ok?
    requires forall t :: t in some ==> t in Expansion(devices, targets).value
    ensures WalkAll(devices, some, {}, 3) == Ok(some)
  {
    if some != [] {
      var init, last := some[..|some| - 1], some[|some| - 1];
      assert some == init + [last];
      FrontierWalksToItselfAll(devices, targets, init);
      FrontierWalksToItself(devices, targets, last);
    }
  }

  /** Expanding an expansion succeeds and returns the same list in the same order. */
  lemma {:induction false} ExpansionIsIdempotent(devices: seq<Device>, targets: seq<TargetId>)
    requires Expansion(devices, targets).Ok?
    ensures Expansion(devices, Expansion(devices, targets).value) == Expansion(devices, targets)
  {
    var expanded := Expansion(devices, targets).value;
    ExpansionIsFrontier(devices, targets);
    FrontierWalksToItselfAll(devices, targets, expanded);
    AppendNewFresh(expanded);
  }

  // ----- The traversal itself, with its shared accumulators

  lemma {:induction false} WalkAllStopsAtFirstError(devices: seq<Device>, targets: seq<TargetId>, path: set<TargetId>,
                                                    level: nat, upTo: nat)
    requires AtMost(targets, level) && upTo <= |targets|
    requires WalkAll(devices, targets[..upTo], path, level).Err?
    ensures WalkAll(devices, targets, path, level) == WalkAll(devices, targets[..upTo], path, level)
    decreases |targets|
  {
    if upTo == |targets| {
      assert targets[..upTo] == targets;
    } else {
      var init := targets[..|targets| - 1];
      assert init[..upTo] == targets[..upTo];
      WalkAllStopsAtFirstError(devices, init, path, level, upTo);
    }
  }

  /** Walking one more target extends the walk of the earlier ones, or ends it with that target's error. */
  lemma {:induction false} WalkNext(devices: seq<Device>, targets: seq<TargetId>, path: set<TargetId>, level: nat,
                                    done: nat)
    requires done < |targets| && AtMost(targets, level) && WalkAll(devices, targets[..done], path, level).Ok?
    ensures
      var step := Walk(devices, targets[done], path);
      && (step.Err? ==> WalkAll(devices, targets, path, level) == step)
      && (step.Ok? ==>
            WalkAll(devices, targets[..done + 1], path, level) ==
              Ok(WalkAll(devices, targets[..done], path, level).value + step.value))
  {
    assert targets[..done + 1][..done] == targets[..done];
    if Walk(devices, targets[done], path).Err? {
      WalkAllStopsAtFirstError(devices, targets, path, level, done + 1);
    }
  }

  /** The same for the children of a target, with what the traversal has then appended to `start`. */
  lemma {:induction false} WalkNextChild(devices: seq<Device>, target: TargetId, path: set<TargetId>,
                                         start: seq<TargetId>, done: nat)
    requires EntryError(devices, target, path).None?
    requires done < |Children(devices, target)| && AtMost(Children(devices, target), LevelBelow(target))
    requires WalkAll(devices, Children(devices, target)[..done], Entered(target, path), LevelBelow(target)).Ok?
    ensures
      var below := Children(devices, target);
      var walked := WalkAll(devices, below[..done], Entered(target, path), LevelBelow(target)).value;
      var step := Walk(devices, below[done], Entered(target, path));
      && (step.Err? ==> Walk(devices, target, path) == step)
      && (step.Ok? ==>
            && WalkAll(devices, below[..done + 1], Entered(target, path), LevelBelow(target)) == Ok(walked + step.value)
            && AppendNew(start, walked + step.value) == AppendNew(AppendNew(start, walked), step.value))
  {
    var below, inner, level := Children(devices, target), Entered(target, path), LevelBelow(target);
    WalkNext(devices, below, inner, level, done);
    var step := Walk(devices, below[done], inner);
    if step.Ok? {
      AppendNewConcat(start, WalkAll(devices, below[..done], inner, level).value, step.value);
    }
  }

  class Expander {
    const devices: seq<Device>
    var visitingGroups: set<TargetId>
    var seen: set<TargetId>
    var expanded: seq<TargetId>

    ghost predicate Valid()
      reads this
    {
      seen == (set t | t in expanded)
    }

    constructor (devices: seq<Device>)
      ensures this.devices == devices && Valid()
      ensures visitingGroups == {} && expanded == []
    {
      this.devices := devices;
      visitingGroups, seen, expanded := {}, {}, [];
    }

    /** The first `done` children of `target` have been walked, starting from `start`. */
    ghost predicate Progress(target: TargetId, path: set<TargetId>, start: seq<TargetId>, done: nat, rendered: bool)
      reads this
    {
      && Valid()
      && visitingGroups == Entered(target, path)
      && done <= |Children(devices, target)|
      && AtMost(Children(devices, target), LevelBelow(target))
      && var walked := WalkAll(devices, Children(devices, target)[..done], Entered(target, path), LevelBelow(target));
         && walked.Ok?
         && rendered == (walked.value != [])
         && expanded == AppendNew(start, walked.value)
    }

    method ExpandSurfaces(target: TargetId, device: Device) returns (r: Result<bool, ExpandError>)
      requires Valid() && target.DeviceTarget? && EntryError(devices, target, visitingGroups).None?
      requires Children(devices, target) == SurfaceTargets(device)
      modifies this
      ensures Valid()
      ensures var below := WalkBelow(devices, target, old(visitingGroups));
              && (below.Err? ==> r == Err(below.error))
              && (below.Ok? ==>
                    && r == Ok(below.value != [])
                    && visitingGroups == old(visitingGroups)
                    && expanded == AppendNew(old(expanded), below.value))
      decreases GroupTargets(devices) - visitingGroups, Level(target), 0
    {
      ghost var path, start := visitingGroups, expanded;
      ChildrenLevel(devices, target);
      var rendered := false;
      for i := 0 to |device.surfaces|
        invariant Progress(target, path, start, i, rendered)
      {
        var below := ExpandTarget(SurfaceTarget(device.id, device.surfaces[i].id));
        WalkNextChild(devices, target, path, start, i);
        if below.Err? {
          return below;
        }
        rendered := rendered || below.value;
      }
      assert Children(devices, target)[..|Children(devices, target)|] == Children(devices, target);
      return Ok(rendered);
    }

    method ExpandElements(target: TargetId, device: Device, surface: Surface) returns (r: Result<bool, ExpandError>)
      requires Valid() && target.SurfaceTarget? && EntryError(devices, target, visitingGroups).None?
      requires Children(devices, target) == ElementTargets(device, surface)
      modifies this
      ensures Valid()
      ensures var below := WalkBelow(devices, target, old(visitingGroups));
              && (below.Err? ==> r == Err(below.error))
              && (below.Ok? ==>
                    && r == Ok(below.value != [])
                    && visitingGroups == old(visitingGroups)
                    && expanded == AppendNew(old(expanded), below.value))
      decreases GroupTargets(devices) - visitingGroups, Level(target), 0
    {
      ghost var path, start := visitingGroups, expanded;
      ChildrenLevel(devices, target);
      var rendered := false;
      for i := 0 to |surface.elements|
        invariant Progress(target, path, start, i, rendered)
      {
        var below := ExpandTarget(ElementTarget(device.id, surface.id, surface.elements[i].id));
        WalkNextChild(devices, target, path, start, i);
        if below.Err? {
          return below;
        }
        rendered := rendered || below.value;
      }
      assert Children(devices, target)[..|Children(devices, target)|] == Children(devices, target);
      return Ok(rendered);
    }

    method ExpandMembers(target: TargetId, device: Device, group: Group) returns (r: Result<bool, ExpandError>)
      requires Valid() && target.GroupTarget? && EntryError(devices, target, visitingGroups).None?
      requires Children(devices, target) == MemberTargets(device, group)
      modifies this
      ensures Valid()
      ensures var below := WalkBelow(devices, target, old(visitingGroups));
              && (below.Err? ==> r == Err(below.error))
              && (below.Ok? ==>
                    && r == Ok(below.value != [])
                    && visitingGroups == old(visitingGroups)
                    && expanded == AppendNew(old(expanded), below.value))
      decreases GroupTargets(devices) - visitingGroups, Level(target), 0
    {
      ghost var path, start := visitingGroups, expanded;
      ChildrenLevel(devices, target);
      EnteringDecreases(devices, target, path);
      visitingGroups := visitingGroups + {target};
      var rendered := false;
      for i := 0 to |group.members|
        invariant Progress(target, path, start, i, rendered)
      {
        var below := ExpandTarget(MemberTarget(device.id, group.members[i]));
        WalkNextChild(devices, target, path, start, i);
        if below.Err? {
          return below;
        }
        rendered := rendered || below.value;
      }
      visitingGroups := visitingGroups - {target};
      assert Children(devices, target)[..|Children(devices, target)|] == Children(devices, target);
      return Ok(rendered);
    }

    method ExpandTarget(target: TargetId) returns (r: Result<bool, ExpandError>)
      requires Valid()
      modifies this
      ensures Valid()
      ensures var walk := Walk(devices, target, old(visitingGroups));
              && (walk.Err? ==> r == Err(walk.error))
              && (walk.Ok? ==>
                    && r == Ok(walk.value != [])
                    && visitingGroups == old(visitingGroups)
                    && expanded == AppendNew(old(expanded), walk.value))
      decreases GroupTargets(devices) - visitingGroups, Level(target), 1
    {
      var device := FindDevice(devices, target.device);
      if device.None? {
        return Err(DeviceNotFound(target));
      }
      var below: Result<bool, ExpandError> := Ok(false);
      match target {
        case DeviceTarget(_) =>
          below := ExpandSurfaces(target, device.value);
        case SurfaceTarget(_, id) =>
          var surface := FindSurface(device.value, id);
          if surface.None? {
            return Err(SurfaceNotFound(target));
          }
          if !surface.value.capabilities.frameUpload {
            below := ExpandElements(target, device.value, surface.value);
          }
        case ElementTarget(_, _, _) =>
        case GroupTarget(_, id) =>
          if target in visitingGroups {
            return Err(GroupCycle(target));
          }
          var group := FindGroup(device.value, id);
          if group.None? {
            visitingGroups := visitingGroups + {target};
            return Err(GroupNotFound(target));
          }
          below := ExpandMembers(target, device.value, group.value);
      }
      if below.Err? {
        return below;
      }

      var targetRenders := !below.value && CanRender(devices, target);
      if targetRenders && target !in seen {
        seen := seen + {target};
        expanded := expanded + [target];
      }
      return Ok(below.value || targetRenders);
    }
  }

  method ExpandTargets(devices: seq<Device>, targets: seq<TargetId>) returns (r: Result<seq<TargetId>, ExpandError>)
    ensures r == Expansion(devices, targets)
  {
    var expander := new Expander(devices);
    for i := 0 to |targets|
      invariant expander.Valid() && expander.devices == devices
      invariant WalkAll(devices, targets[..i], {}, 3).Ok?
      invariant expander.expanded == AppendNew([], WalkAll(devices, targets[..i], {}, 3).value)
    {
      assert targets[..i + 1][..i] == targets[..i];
      expander.visitingGroups := {};
      var below := expander.ExpandTarget(targets[i]);
      if below.Err? {
        WalkAllStopsAtFirstError(devices, targets, {}, 3, i + 1);
        return Err(below.error);
      }
      AppendNewConcat([], WalkAll(devices, targets[..i], {}, 3).value, Walk(devices, targets[i], {}).value);
    }
    assert targets[..|targets|] == targets;
    return Ok(expander.expanded);
  }
}

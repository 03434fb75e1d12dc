/** Turning off every drivable part of a device with as few, non-overlapping targets as possible. */
module AllOff {
  import opened Results
  import opened Sequences
  import opened Topology

  predicate CanTurnOff(capabilities: CapabilitySet) {
    capabilities.colour != [] || (capabilities.hardwareEffects.Some? && "off" in capabilities.hardwareEffects.value)
  }

  predicate WearLimited(capabilities: CapabilitySet) {
    !capabilities.offIsWearSafe && !capabilities.persistence.NoPersistence? &&
      capabilities.persistence.requirement.Required?
  }

  // ----- The topology tree

  /** A place in the tree of a device: the device, one of its surfaces, or an element of one. */
  datatype Node = DeviceNode | SurfaceNode(surface: nat) | ElementNode(surface: nat, element: nat)

  predicate IsNode(device: Device, n: Node) {
    match n
    case DeviceNode => true
    case SurfaceNode(s) => s < |device.surfaces|
    case ElementNode(s, e) => s < |device.surfaces| && e < |device.surfaces[s].elements|
  }

  function CapabilitiesAt(device: Device, n: Node): CapabilitySet
    requires IsNode(device, n)
  {
    match n
    case DeviceNode => device.capabilities
    case SurfaceNode(s) => device.surfaces[s].capabilities
    case ElementNode(s, e) => device.surfaces[s].elements[e].capabilities
  }

  function TargetAt(device: Device, n: Node): TargetId
    requires IsNode(device, n)
  {
    match n
    case DeviceNode => DeviceTarget(device.id)
    case SurfaceNode(s) => SurfaceTarget(device.id, device.surfaces[s].id)
    case ElementNode(s, e) => ElementTarget(device.id, device.surfaces[s].id, device.surfaces[s].elements[e].id)
  }

  /** `a` is strictly above `n`. */
  predicate Above(a: Node, n: Node) {
    match a
    case DeviceNode => !n.DeviceNode?
    case SurfaceNode(s) => n.ElementNode? && n.surface == s
    case ElementNode(_, _) => false
  }

  predicate OffCapable(device: Device, n: Node) {
    IsNode(device, n) && CanTurnOff(CapabilitiesAt(device, n))
  }

  /** Can be turned off, while nothing above it can. */
  ghost predicate Maximal(device: Device, n: Node) {
    OffCapable(device, n) && forall a :: Above(a, n) ==> !OffCapable(device, a)
  }

  // ----- The planned nodes, in the order they are found

  function PlannedElements(device: Device, s: nat, upTo: nat): seq<Node>
    requires s < |device.surfaces| && upTo <= |device.surfaces[s].elements|
  {
    if upTo == 0 then []
    else
      PlannedElements(device, s, upTo - 1) +
      if OffCapable(device, ElementNode(s, upTo - 1)) then [ElementNode(s, upTo - 1)] else []
  }

  function PlannedAt(device: Device, s: nat): seq<Node>
    requires s < |device.surfaces|
  {
    if OffCapable(device, SurfaceNode(s)) then [SurfaceNode(s)]
    else PlannedElements(device, s, |device.surfaces[s].elements|)
  }

  function PlannedBelow(device: Device, upTo: nat): seq<Node>
    requires upTo <= |device.surfaces|
  {
    if upTo == 0 then [] else PlannedBelow(device, upTo - 1) + PlannedAt(device, upTo - 1)
  }

  function Planned(device: Device): seq<Node> {
    if OffCapable(device, DeviceNode) then [DeviceNode] else PlannedBelow(device, |device.surfaces|)
  }

  lemma {:induction false} PlannedElementsMembers(device: Device, s: nat, upTo: nat)
    requires s < |device.surfaces| && upTo <= |device.surfaces[s].elements|
    ensures forall n :: n in PlannedElements(device, s, upTo) <==>
                        n.ElementNode? && n.surface == s && n.element < upTo && OffCapable(device, n)
    ensures NoDuplicates(PlannedElements(device, s, upTo))
  {
    if upTo != 0 {
      PlannedElementsMembers(device, s, upTo - 1);
    }
  }

  /** Below the device, can be turned off, and the surface it is on, if any, cannot. */
  ghost predicate FoundBelow(device: Device, n: Node) {
    !n.DeviceNode? && OffCapable(device, n) && (n.ElementNode? ==> !OffCapable(device, SurfaceNode(n.surface)))
  }

  lemma {:induction false} PlannedAtMember(device: Device, s: nat, n: Node)
    requires s < |device.surfaces|
    ensures n in PlannedAt(device, s) <==> FoundBelow(device, n) && n.surface == s
  {
    PlannedElementsMembers(device, s, |device.surfaces[s].elements|);
  }

  lemma {:induction false} PlannedAtDistinct(device: Device, s: nat)
    requires s < |device.surfaces|
    ensures NoDuplicates(PlannedAt(device, s))
  {
    PlannedElementsMembers(device, s, |device.surfaces[s].elements|);
  }

  lemma {:induction false} PlannedBelowMember(device: Device, upTo: nat, n: Node)
    requires upTo <= |device.surfaces|
    ensures n in PlannedBelow(device, upTo) <==> FoundBelow(device, n) && n.surface < upTo
  {
    if upTo != 0 {
      PlannedBelowMember(device, upTo - 1, n);
      PlannedAtMember(device, upTo - 1, n);
      ConcatMember(PlannedBelow(device, upTo - 1), PlannedAt(device, upTo - 1), n);
    }
  }

  lemma {:induction false} ConcatMember(first: seq<Node>, second: seq<Node>, n: Node)
    ensures n in first + second <==> n in first || n in second
  {
  }

  lemma {:induction false} LaterSurfaceIsNew(device: Device, s: nat)
    requires s < |device.surfaces|
    ensures forall n :: n in PlannedBelow(device, s) ==> n !in PlannedAt(device, s)
  {
    forall n | n in PlannedBelow(device, s)
      ensures n !in PlannedAt(device, s)
    {
      PlannedBelowMember(device, s, n);
      PlannedAtMember(device, s, n);
    }
  }

  lemma {:induction false} PlannedBelowDistinct(device: Device, upTo: nat)
    requires upTo <= |device.surfaces|
    ensures NoDuplicates(PlannedBelow(device, upTo))
  {
    if upTo != 0 {
      PlannedBelowDistinct(device, upTo - 1);
      PlannedAtDistinct(device, upTo - 1);
      LaterSurfaceIsNew(device, upTo - 1);
      NoDuplicatesConcat(PlannedBelow(device, upTo - 1), PlannedAt(device, upTo - 1));
    }
  }

  /** The planned nodes are exactly the maximal ones, each once. */
  lemma {:induction false} PlannedAreMaximal(device: Device)
    ensures forall n :: n in Planned(device) <==> Maximal(device, n)
    ensures NoDuplicates(Planned(device))
  {
    PlannedBelowDistinct(device, |device.surfaces|);
    forall n
      ensures n in Planned(device) <==> Maximal(device, n)
    {
      PlannedBelowMember(device, |device.surfaces|, n);
      MaximalUnfold(device, n);
    }
  }

  lemma {:induction false} MaximalUnfold(device: Device, n: Node)
    ensures Maximal(device, n) <==>
            && OffCapable(device, n)
            && (!n.DeviceNode? ==> !OffCapable(device, DeviceNode))
            && (n.ElementNode? ==> !OffCapable(device, SurfaceNode(n.surface)))
  {
    assert !n.DeviceNode? ==> Above(DeviceNode, n);
    assert n.ElementNode? ==> Above(SurfaceNode(n.surface), n);
  }

  ghost predicate Covers(a: Node, n: Node) {
    a == n || Above(a, n)
  }

  /** Every part that can be turned off is covered by exactly one planned node. */
  lemma {:induction false} PlanIsExactCover(device: Device, n: Node)
    requires OffCapable(device, n)
    ensures exists a :: a in Planned(device) && Covers(a, n)
    ensures forall a, b :: a in Planned(device) && b in Planned(device) && Covers(a, n) && Covers(b, n) ==> a == b
  {
    PlannedAreMaximal(device);
    var top := if OffCapable(device, DeviceNode) then DeviceNode
               else if n.ElementNode? && OffCapable(device, SurfaceNode(n.surface)) then SurfaceNode(n.surface)
               else n;
    MaximalUnfold(device, top);
    assert top in Planned(device) && Covers(top, n);
    forall a, b | a in Planned(device) && b in Planned(device) && Covers(a, n) && Covers(b, n)
      ensures a == b
    {
      assert a == b || Above(a, b) || Above(b, a);
    }
  }

  // ----- The plan as targets

  datatype AllOffPlan = AllOffPlan(targets: seq<TargetId>, skipped: seq<TargetId>)

  const EMPTY_PLAN := AllOffPlan([], [])

  function Added(plan: AllOffPlan, target: TargetId, capabilities: CapabilitySet): AllOffPlan {
    if WearLimited(capabilities) then plan.(skipped := plan.skipped + [target])
    else plan.(targets := plan.targets + [target])
  }

  /** The targets of those planned nodes that are, or are not, wear-limited. */
  function TargetsOf(device: Device, nodes: seq<Node>, wear: bool): seq<TargetId>
    requires forall n :: n in nodes ==> IsNode(device, n)
  {
    if nodes == [] then []
    else
      var init, last := nodes[..|nodes| - 1], nodes[|nodes| - 1];
      TargetsOf(device, init, wear) +
      if WearLimited(CapabilitiesAt(device, last)) == wear then [TargetAt(device, last)] else []
  }

  lemma {:induction false} TargetsOfConcat(device: Device, first: seq<Node>, second: seq<Node>, wear: bool)
    requires forall n :: n in first + second ==> IsNode(device, n)
    ensures (forall n :: n in first ==> n in first + second) && (forall n :: n in second ==> n in first + second)
    ensures TargetsOf(device, first + second, wear) == TargetsOf(device, first, wear) + TargetsOf(device, second, wear)
  {
    if second == [] {
      assert first + second == first;
    } else {
      var init := second[..|second| - 1];
      assert (first + second)[..|first + second| - 1] == first + init;
      assert forall n :: n in first + init ==> n in first + second;
      TargetsOfConcat(device, first, init, wear);
    }
  }

  function PlanFor(device: Device, nodes: seq<Node>): AllOffPlan
    requires forall n :: n in nodes ==> IsNode(device, n)
  {
    AllOffPlan(TargetsOf(device, nodes, false), TargetsOf(device, nodes, true))
  }

  lemma {:induction false} PlanForOneMore(device: Device, nodes: seq<Node>, n: Node)
    requires IsNode(device, n) && forall m :: m in nodes ==> IsNode(device, m)
    ensures forall m :: m in nodes + [n] ==> IsNode(device, m)
    ensures PlanFor(device, nodes + [n]) ==
            Added(PlanFor(device, nodes), TargetAt(device, n), CapabilitiesAt(device, n))
  {
    assert (nodes + [n])[..|nodes + [n]| - 1] == nodes;
  }

  function PlanOf(device: Device): AllOffPlan {
    PlannedNodesExist(device);
    PlanFor(device, Planned(device))
  }

  lemma {:induction false} PlannedNodesExist(device: Device)
    ensures forall n :: n in Planned(device) ==> IsNode(device, n)
  {
    PlannedAreMaximal(device);
  }

  /** Surfaces have distinct identifiers, and so have the elements of each surface. */
  ghost predicate UniqueIds(device: Device) {
    && (forall i, j :: 0 <= i < j < |device.surfaces| ==> device.surfaces[i].id != device.surfaces[j].id)
    && (forall s, i, j :: 0 <= s < |device.surfaces| && 0 <= i < j < |device.surfaces[s].elements| ==>
          device.surfaces[s].elements[i].id != device.surfaces[s].elements[j].id)
  }

  ghost predicate DistinctTargets(device: Device) {
    forall a, b :: IsNode(device, a) && IsNode(device, b) && TargetAt(device, a) == TargetAt(device, b) ==> a == b
  }

  /** Targets identify parts of a device exactly when its identifiers are unique. */
  lemma {:induction false} DistinctTargetsExactly(device: Device)
    ensures DistinctTargets(device) <==> UniqueIds(device)
  {
    if DistinctTargets(device) {
      forall i, j | 0 <= i < j < |device.surfaces|
        ensures device.surfaces[i].id != device.surfaces[j].id
      {
        assert SurfaceNode(i) != SurfaceNode(j);
        assert TargetAt(device, SurfaceNode(i)) != TargetAt(device, SurfaceNode(j));
      }
      forall s, i, j | 0 <= s < |device.surfaces| && 0 <= i < j < |device.surfaces[s].elements|
        ensures device.surfaces[s].elements[i].id != device.surfaces[s].elements[j].id
      {
        assert ElementNode(s, i) != ElementNode(s, j);
        assert TargetAt(device, ElementNode(s, i)) != TargetAt(device, ElementNode(s, j));
      }
    }
  }

  lemma {:induction false} TargetsOfMembers(device: Device, nodes: seq<Node>, wear: bool)
    requires forall n :: n in nodes ==> IsNode(device, n)
    ensures forall t :: t in TargetsOf(device, nodes, wear) <==>
                        exists n :: n in nodes && TargetAt(device, n) == t &&
                          WearLimited(CapabilitiesAt(device, n)) == wear
  {
    if nodes != [] {
      var init, last := nodes[..|nodes| - 1], nodes[|nodes| - 1];
      assert nodes == init + [last];
      TargetsOfMembers(device, init, wear);
      assert last in nodes;
    }
  }

  lemma {:induction false} TargetsOfDistinct(device: Device, nodes: seq<Node>, wear: bool)
    requires forall n :: n in nodes ==> IsNode(device, n)
    requires DistinctTargets(device) && NoDuplicates(nodes)
    ensures NoDuplicates(TargetsOf(device, nodes, wear))
  {
    if nodes != [] {
      var init, last := nodes[..|nodes| - 1], nodes[|nodes| - 1];
      assert nodes == init + [last];
      TargetsOfDistinct(device, init, wear);
      TargetsOfMembers(device, init, wear);
      assert last in nodes && last !in init;
      assert TargetAt(device, last) !in TargetsOf(device, init, wear);
    }
  }

  /**
   The plan in terms of targets: executable targets are those of the maximal parts whose off operation
   is wear-safe, skipped ones those of the wear-limited maximal parts. With unique identifiers no
   target is listed twice and none is in both lists.
   */
  lemma {:induction false} PlanIsSound(device: Device)
    ensures var plan := PlanOf(device);
            && (forall t :: t in plan.targets <==>
                  exists n :: Maximal(device, n) && TargetAt(device, n) == t && !WearLimited(CapabilitiesAt(device, n)))
            && (forall t :: t in plan.skipped <==>
                  exists n :: Maximal(device, n) && TargetAt(device, n) == t && WearLimited(CapabilitiesAt(device, n)))
            && (UniqueIds(device) ==>
                  && NoDuplicates(plan.targets) && NoDuplicates(plan.skipped)
                  && forall t :: !(t in plan.targets && t in plan.skipped))
  {
    PlannedAreMaximal(device);
    PlannedNodesExist(device);
    DistinctTargetsExactly(device);
    TargetsOfMembers(device, Planned(device), false);
    TargetsOfMembers(device, Planned(device), true);
    if UniqueIds(device) {
      TargetsOfDistinct(device, Planned(device), false);
      TargetsOfDistinct(device, Planned(device), true);
    }
  }

  /** The target `a` contains the target `b`. */
  predicate Contains(a: TargetId, b: TargetId) {
    match a
    case DeviceTarget(d) => b.device == d && !b.DeviceTarget?
    case SurfaceTarget(d, s) => b.ElementTarget? && b.device == d && b.surface == s
    case _ => false
  }

  /** All targets of a plan: those to be turned off, then the skipped ones. */
  function Entries(plan: AllOffPlan): seq<TargetId> {
    plan.targets + plan.skipped
  }

  /** No two entries of a list coincide, and none contains another. */
  ghost predicate NonOverlapping(entries: seq<TargetId>) {
    forall i, j :: 0 <= i < |entries| && 0 <= j < |entries| && i != j ==>
      entries[i] != entries[j] && !Contains(entries[i], entries[j])
  }

  /** The nodes whose targets `TargetsOf` lists. */
  ghost function Selected(device: Device, nodes: seq<Node>, wear: bool): seq<Node>
    requires forall n :: n in nodes ==> IsNode(device, n)
  {
    if nodes == [] then []
    else
      var init, last := nodes[..|nodes| - 1], nodes[|nodes| - 1];
      Selected(device, init, wear) + if WearLimited(CapabilitiesAt(device, last)) == wear then [last] else []
  }

  lemma {:induction false} SelectedTargets(device: Device, nodes: seq<Node>, wear: bool)
    requires forall n :: n in nodes ==> IsNode(device, n)
    ensures |Selected(device, nodes, wear)| == |TargetsOf(device, nodes, wear)|
    ensures forall i :: 0 <= i < |Selected(device, nodes, wear)| ==>
              && IsNode(device, Selected(device, nodes, wear)[i])
              && TargetsOf(device, nodes, wear)[i] == TargetAt(device, Selected(device, nodes, wear)[i])
  {
    if nodes != [] {
      SelectedTargets(device, nodes[..|nodes| - 1], wear);
    }
  }

  lemma {:induction false} SelectedMembers(device: Device, nodes: seq<Node>, wear: bool)
    requires forall n :: n in nodes ==> IsNode(device, n)
    ensures forall n :: n in Selected(device, nodes, wear) <==>
            n in nodes && WearLimited(CapabilitiesAt(device, n)) == wear
    ensures NoDuplicates(nodes) ==> NoDuplicates(Selected(device, nodes, wear))
  {
    if nodes != [] {
      var init, last := nodes[..|nodes| - 1], nodes[|nodes| - 1];
      assert nodes == init + [last];
      SelectedMembers(device, init, wear);
      assert NoDuplicates(nodes) ==> last !in init;
    }
  }

  /** The entries of the plan are the targets of the maximal parts, one for each. */
  lemma {:induction false} EntriesArePlanned(device: Device) returns (parts: seq<Node>)
    ensures NoDuplicates(parts) && forall n :: n in parts <==> Maximal(device, n)
    ensures |Entries(PlanOf(device))| == |parts|
    ensures forall i :: 0 <= i < |parts| ==>
            IsNode(device, parts[i]) && Entries(PlanOf(device))[i] == TargetAt(device, parts[i])
  {
    var nodes := Planned(device);
    PlannedAreMaximal(device);
    PlannedNodesExist(device);
    SelectedTargets(device, nodes, false);
    SelectedTargets(device, nodes, true);
    SelectedMembers(device, nodes, false);
    SelectedMembers(device, nodes, true);
    NoDuplicatesConcat(Selected(device, nodes, false), Selected(device, nodes, true));
    parts := Selected(device, nodes, false) + Selected(device, nodes, true);
  }

  /** The targets of different maximal parts neither coincide nor contain each other. */
  ghost predicate PartsApart(device: Device) {
    forall n, m :: Maximal(device, n) && Maximal(device, m) && n != m ==>
      TargetAt(device, n) != TargetAt(device, m) && !Contains(TargetAt(device, n), TargetAt(device, m))
  }

  lemma {:induction false} EntriesApart(device: Device)
    ensures NonOverlapping(Entries(PlanOf(device))) <==> PartsApart(device)
  {
    var entries := Entries(PlanOf(device));
    var parts := EntriesArePlanned(device);
    if NonOverlapping(entries) {
      forall n, m | Maximal(device, n) && Maximal(device, m) && n != m
        ensures TargetAt(device, n) != TargetAt(device, m) && !Contains(TargetAt(device, n), TargetAt(device, m))
      {
        assert n in parts && m in parts;
        var i :| 0 <= i < |parts| && parts[i] == n;
        var j :| 0 <= j < |parts| && parts[j] == m;
        assert entries[i] == TargetAt(device, n) && entries[j] == TargetAt(device, m);
      }
    }
    if PartsApart(device) {
      forall i, j | 0 <= i < |entries| && 0 <= j < |entries| && i != j
        ensures entries[i] != entries[j] && !Contains(entries[i], entries[j])
      {
        assert parts[i] in parts && parts[j] in parts;
        assert parts[i] != parts[j];
      }
    }
  }

  predicate SurfaceOff(device: Device, s: nat) {
    s < |device.surfaces| && CanTurnOff(device.surfaces[s].capabilities)
  }

  predicate ElementOff(device: Device, s: nat, e: nat) {
    s < |device.surfaces| && e < |device.surfaces[s].elements| &&
      CanTurnOff(device.surfaces[s].elements[e].capabilities)
  }

  /**
   A surface that can be turned off shares its identifier only with surfaces that cannot, and have no
   element that can.
   */
  ghost predicate SurfacesApart(device: Device) {
    forall s: nat, t: nat ::
      SurfaceOff(device, s) && t < |device.surfaces| && s != t && device.surfaces[s].id == device.surfaces[t].id ==>
      !SurfaceOff(device, t) && forall e: nat :: !ElementOff(device, t, e)
  }

  /**
   Two elements that can be turned off, on surfaces that cannot, never share both the surface's
   identifier and their own.
   */
  ghost predicate ElementsApart(device: Device) {
    forall s: nat, e: nat, t: nat, f: nat ::
      ElementOff(device, s, e) && ElementOff(device, t, f) && !SurfaceOff(device, s) && !SurfaceOff(device, t) &&
        (s, e) != (t, f) ==>
        device.surfaces[s].id != device.surfaces[t].id ||
          device.surfaces[s].elements[e].id != device.surfaces[t].elements[f].id
  }

  /**
   The entries of the plan do not overlap exactly when the device as a whole can be turned off, or
   identifiers are not repeated among the parts that can.
   */
  lemma {:induction false} NonOverlappingExactly(device: Device)
    ensures NonOverlapping(Entries(PlanOf(device))) <==>
            CanTurnOff(device.capabilities) || (SurfacesApart(device) && ElementsApart(device))
  {
    EntriesApart(device);
    if CanTurnOff(device.capabilities) {
      WholeDeviceIsAlone(device);
    } else {
      if PartsApart(device) {
        ApartHasApartIds(device);
      }
      if SurfacesApart(device) && ElementsApart(device) {
        ApartIdsAreApart(device);
      }
    }
  }

  lemma {:induction false} WholeDeviceIsAlone(device: Device)
    requires CanTurnOff(device.capabilities)
    ensures PartsApart(device)
  {
    forall n | Maximal(device, n)
      ensures n == DeviceNode
    {
      MaximalUnfold(device, n);
    }
  }

  lemma {:induction false} MaximalBelow(device: Device, n: Node)
    requires !CanTurnOff(device.capabilities)
    ensures Maximal(device, n) <==>
            match n
            case DeviceNode => false
            case SurfaceNode(s) => SurfaceOff(device, s)
            case ElementNode(s, e) => ElementOff(device, s, e) && !SurfaceOff(device, s)
  {
    MaximalUnfold(device, n);
  }

  lemma {:induction false} ApartHasApartIds(device: Device)
    requires !CanTurnOff(device.capabilities) && PartsApart(device)
    ensures SurfacesApart(device) && ElementsApart(device)
  {
    forall s: nat, t: nat | SurfaceOff(device, s) && t < |device.surfaces| && s != t &&
      device.surfaces[s].id == device.surfaces[t].id
      ensures !SurfaceOff(device, t) && forall e: nat :: !ElementOff(device, t, e)
    {
      MaximalBelow(device, SurfaceNode(s));
      MaximalBelow(device, SurfaceNode(t));
      forall e: nat
        ensures !ElementOff(device, t, e)
      {
        MaximalBelow(device, ElementNode(t, e));
      }
    }
    forall s: nat, e: nat, t: nat, f: nat
      | ElementOff(device, s, e) && ElementOff(device, t, f) && !SurfaceOff(device, s) && !SurfaceOff(device, t) &&
        (s, e) != (t, f)
      ensures device.surfaces[s].id != device.surfaces[t].id ||
              device.surfaces[s].elements[e].id != device.surfaces[t].elements[f].id
    {
      MaximalBelow(device, ElementNode(s, e));
      MaximalBelow(device, ElementNode(t, f));
    }
  }

  lemma {:induction false} ApartIdsAreApart(device: Device)
    requires !CanTurnOff(device.capabilities) && SurfacesApart(device) && ElementsApart(device)
    ensures PartsApart(device)
  {
    forall n, m | Maximal(device, n) && Maximal(device, m) && n != m
      ensures TargetAt(device, n) != TargetAt(device, m) && !Contains(TargetAt(device, n), TargetAt(device, m))
    {
      MaximalBelow(device, n);
      MaximalBelow(device, m);
    }
  }

  /** Without unique identifiers the plan can name the same target twice. */
  lemma {:induction false} RepeatedIdsOverlap()
    ensures var drivable := CapabilitySet([Monochrome(8)], false, None, NoPersistence, false);
            var dark := CapabilitySet([], false, None, NoPersistence, false);
            var device := Device("d", [Surface("s", [], drivable), Surface("s", [], drivable)], [], dark);
            !UniqueIds(device) && PlanOf(device).targets == [SurfaceTarget("d", "s"), SurfaceTarget("d", "s")]
  {
    var drivable := CapabilitySet([Monochrome(8)], false, None, NoPersistence, false);
    var dark := CapabilitySet([], false, None, NoPersistence, false);
    var device := Device("d", [Surface("s", [], drivable), Surface("s", [], drivable)], [], dark);
    assert device.surfaces[0].id == device.surfaces[1].id;
    PlanOfTwoSurfaces(device);
  }

  lemma {:induction false} PlanOfTwoSurfaces(device: Device)
    requires |device.surfaces| == 2 && !CanTurnOff(device.capabilities)
    requires forall s :: 0 <= s < 2 ==>
             CanTurnOff(device.surfaces[s].capabilities) && !WearLimited(device.surfaces[s].capabilities)
    ensures PlanOf(device).targets ==
            [SurfaceTarget(device.id, device.surfaces[0].id), SurfaceTarget(device.id, device.surfaces[1].id)]
  {
    var first, second := SurfaceNode(0), SurfaceNode(1);
    PlannedNodesExist(device);
    assert PlannedAt(device, 0) == [first] && PlannedAt(device, 1) == [second];
    assert PlannedBelow(device, 1) == [] + [first];
    assert PlannedBelow(device, 2) == PlannedBelow(device, 1) + [second];
    PlanForOneMore(device, [], first);
    PlanForOneMore(device, [] + [first], second);
  }

  method MakePlan(device: Device) returns (plan: AllOffPlan)
    ensures plan == PlanOf(device)
  {
    plan := EMPTY_PLAN;
    if CanTurnOff(device.capabilities) {
      PlanForOneMore(device, [], DeviceNode);
      assert [] + [DeviceNode] == Planned(device);
      plan := Added(plan, DeviceTarget(device.id), device.capabilities);
      return;
    }
    ghost var done: seq<Node> := [];
    for s := 0 to |device.surfaces|
      invariant done == PlannedBelow(device, s)
      invariant forall n :: n in done ==> IsNode(device, n)
      invariant plan == PlanFor(device, done)
    {
      plan := AddSurface(device, s, plan, done);
      done := done + PlannedAt(device, s);
    }
    PlannedNodesExist(device);
  }

  method AddSurface(device: Device, s: nat, start: AllOffPlan, ghost before: seq<Node>) returns (plan: AllOffPlan)
    requires s < |device.surfaces| && (forall n :: n in before ==> IsNode(device, n)) &&
             start == PlanFor(device, before)
    ensures forall n :: n in before + PlannedAt(device, s) ==> IsNode(device, n)
    ensures plan == PlanFor(device, before + PlannedAt(device, s))
  {
    var surface := device.surfaces[s];
    if CanTurnOff(surface.capabilities) {
      PlanForOneMore(device, before, SurfaceNode(s));
      plan := Added(start, SurfaceTarget(device.id, surface.id), surface.capabilities);
    } else {
      plan := AddElements(device, s, start, before);
    }
  }

  method AddElements(device: Device, s: nat, start: AllOffPlan, ghost before: seq<Node>) returns (plan: AllOffPlan)
    requires s < |device.surfaces| && (forall n :: n in before ==> IsNode(device, n)) &&
             start == PlanFor(device, before)
    ensures forall n :: n in before + PlannedElements(device, s, |device.surfaces[s].elements|) ==> IsNode(device, n)
    ensures plan == PlanFor(device, before + PlannedElements(device, s, |device.surfaces[s].elements|))
  {
    var surface := device.surfaces[s];
    plan := start;
    ghost var done := before;
    for e := 0 to |surface.elements|
      invariant done == before + PlannedElements(device, s, e)
      invariant forall n :: n in done ==> IsNode(device, n)
      invariant plan == PlanFor(device, done)
    {
      if CanTurnOff(surface.elements[e].capabilities) {
        PlanForOneMore(device, done, ElementNode(s, e));
        AppendAssociates(before, PlannedElements(device, s, e), [ElementNode(s, e)]);
        plan := Added(plan, ElementTarget(device.id, surface.id, surface.elements[e].id),
          surface.elements[e].capabilities);
        done := done + [ElementNode(s, e)];
      }
    }
  }

  // ----- Running the plans of several devices

  /** The targets of a device that may be turned off. */
  function Executable(device: Device): seq<TargetId> {
    PlanOf(device).targets
  }

  /** Every target attempted, in order; it does not depend on how the attempts turn out. */
  function Attempts(devices: seq<Device>): seq<TargetId> {
    FlatMap(devices, Executable)
  }

  /** One of the attempts at `targets`, numbered from `first` on, fails. */
  predicate SomeFails(targets: seq<TargetId>, succeeds: (nat, TargetId) -> bool, first: nat) {
    exists k :: 0 <= k < |targets| && !succeeds(first + k, targets[k])
  }

  /** Nothing in the device can be turned off, or one of its attempts fails. */
  predicate DeviceFails(device: Device, succeeds: (nat, TargetId) -> bool, first: nat) {
    PlanOf(device) == EMPTY_PLAN || SomeFails(Executable(device), succeeds, first)
  }

  predicate FailsAt(devices: seq<Device>, succeeds: (nat, TargetId) -> bool, d: nat) {
    d < |devices| && DeviceFails(devices[d], succeeds, |Attempts(devices[..d])|)
  }

  function Fails(devices: seq<Device>, succeeds: (nat, TargetId) -> bool): nat -> bool {
    (d: nat) => FailsAt(devices, succeeds, d)
  }

  /** How many of the numbers below `n` fail. */
  function Count(n: nat, fails: nat -> bool): (c: nat)
    ensures c <= n
  {
    if n == 0 then 0 else Count(n - 1, fails) + if fails(n - 1) then 1 else 0
  }

  function Failures(devices: seq<Device>, succeeds: (nat, TargetId) -> bool): nat {
    Count(|devices|, Fails(devices, succeeds))
  }

  ghost predicate DistinctDevices(devices: seq<Device>) {
    && (forall i, j :: 0 <= i < j < |devices| ==> devices[i].id != devices[j].id)
    && (forall i :: 0 <= i < |devices| ==> UniqueIds(devices[i]))
  }

  lemma {:induction false} PlanStaysInDevice(device: Device, target: TargetId)
    requires target in Executable(device) || target in PlanOf(device).skipped
    ensures target.device == device.id
  {
    PlanIsSound(device);
  }

  lemma {:induction false} ExecutableAreDistinct(device: Device)
    requires UniqueIds(device)
    ensures NoDuplicates(Executable(device))
    ensures forall t :: t in PlanOf(device).skipped ==> t !in Executable(device)
  {
    PlanIsSound(device);
  }

  /**
   Whatever the outcomes, exactly the executable targets of the devices are attempted. With distinct
   identifiers each is attempted once, and no skipped target ever is.
   */
  lemma {:induction false} AttemptsAreExact(devices: seq<Device>)
    ensures forall t :: t in Attempts(devices) <==> exists i :: 0 <= i < |devices| && t in Executable(devices[i])
    ensures DistinctDevices(devices) ==>
              && NoDuplicates(Attempts(devices))
              && forall i, t :: 0 <= i < |devices| && t in PlanOf(devices[i]).skipped ==> t !in Attempts(devices)
  {
    FlatMapMembers(devices, Executable);
    if DistinctDevices(devices) {
      forall i | 0 <= i < |devices|
        ensures NoDuplicates(Executable(devices[i]))
      {
        ExecutableAreDistinct(devices[i]);
      }
      forall i, j, t | 0 <= i < j < |devices| && t in Executable(devices[i])
        ensures t !in Executable(devices[j])
      {
        DifferentDevices(devices[i], devices[j], t);
      }
      FlatMapDistinct(devices, Executable);
      forall i, t | 0 <= i < |devices| && t in PlanOf(devices[i]).skipped
        ensures t !in Attempts(devices)
      {
        SkippedIsNotAttempted(devices, i, t);
      }
    }
  }

  lemma {:induction false} DifferentDevices(device: Device, other: Device, target: TargetId)
    requires device.id != other.id
    requires target in Executable(device) || target in PlanOf(device).skipped
    ensures target !in Executable(other)
  {
    PlanStaysInDevice(device, target);
    if target in Executable(other) {
      PlanStaysInDevice(other, target);
    }
  }

  lemma {:induction false} SkippedIsNotAttempted(devices: seq<Device>, i: nat, target: TargetId)
    requires DistinctDevices(devices) && i < |devices| && target in PlanOf(devices[i]).skipped
    ensures target !in Attempts(devices)
  {
    FlatMapMembers(devices, Executable);
    forall j | 0 <= j < |devices|
      ensures target !in Executable(devices[j])
    {
      if j == i {
        ExecutableAreDistinct(devices[i]);
      } else {
        DifferentDevices(devices[i], devices[j], target);
      }
    }
  }

  /** Attempts every target, whatever came of the earlier ones; `before` lists the attempts made so far. */
  method RunPlan(targets: seq<TargetId>, succeeds: (nat, TargetId) -> bool, before: seq<TargetId>)
    returns (attempts: seq<TargetId>, errors: nat)
    ensures attempts == before + targets
    ensures errors > 0 <==> SomeFails(targets, succeeds, |before|)
  {
    attempts, errors := before, 0;
    for k := 0 to |targets|
      invariant attempts == before + targets[..k]
      invariant errors > 0 <==> exists j :: 0 <= j < k && !succeeds(|before| + j, targets[j])
    {
      if !succeeds(|attempts|, targets[k]) {
        errors := errors + 1;
      }
      attempts := attempts + [targets[k]];
    }
    assert targets[..|targets|] == targets;
  }

  method RunDevice(device: Device, succeeds: (nat, TargetId) -> bool, before: seq<TargetId>)
    returns (attempts: seq<TargetId>, failed: bool)
    ensures attempts == before + Executable(device)
    ensures failed == DeviceFails(device, succeeds, |before|)
  {
    var plan := MakePlan(device);
    var errors: nat;
    attempts, errors := RunPlan(plan.targets, succeeds, before);
    if plan.targets == [] && plan.skipped == [] {
      failed := true;
    } else {
      failed := errors > 0;
    }
  }

  lemma {:induction false} OneMoreDevice(devices: seq<Device>, succeeds: (nat, TargetId) -> bool, d: nat)
    requires d < |devices|
    ensures Attempts(devices[..d + 1]) == Attempts(devices[..d]) + Executable(devices[d])
    ensures Fails(devices, succeeds)(d) == DeviceFails(devices[d], succeeds, |Attempts(devices[..d])|)
  {
    assert devices[..d + 1][..d] == devices[..d];
  }

  /**
   The all-off command: `succeeds` gives the outcome of each attempt. Every target of every plan is
   attempted whatever came before, and the exit code is nonzero exactly when some device failed.
   */
  method RunAllOff(devices: seq<Device>, succeeds: (nat, TargetId) -> bool)
    returns (attempts: seq<TargetId>, failures: nat, processed: nat, exitCode: int)
    ensures attempts == Attempts(devices)
    ensures failures == Failures(devices, succeeds)
    ensures processed + failures == |devices|
    ensures exitCode == (if failures > 0 then 1 else 0)
  {
    attempts, failures := [], 0;
    for d := 0 to |devices|
      invariant attempts == Attempts(devices[..d])
      invariant failures == Count(d, Fails(devices, succeeds))
    {
      var failed: bool;
      attempts, failed := RunDevice(devices[d], succeeds, attempts);
      OneMoreDevice(devices, succeeds, d);
      if failed {
        failures := failures + 1;
      }
    }
    assert devices[..|devices|] == devices;
    processed := |devices| - failures;
    exitCode := if failures > 0 then 1 else 0;
  }
}

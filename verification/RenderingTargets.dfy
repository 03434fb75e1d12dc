/** Whose capabilities decide that a target renders, and what lies below it, in terms of the listed devices. */
module RenderingTargets {
  import opened Results
  import opened Sequences
  import opened Graphs
  import opened Topology
  import opened StaticColours
  import opened TargetExpansion

  // ----- Identifiers address the first item that has them

  ghost predicate IsDevice(devices: seq<Device>, d: Device) {
    exists i :: 0 <= i < |devices| && devices[i] == d && forall k :: 0 <= k < i ==> devices[k].id != d.id
  }

  ghost predicate IsSurface(device: Device, s: Surface) {
    exists i :: 0 <= i < |device.surfaces| && device.surfaces[i] == s &&
                forall k :: 0 <= k < i ==> device.surfaces[k].id != s.id
  }

  ghost predicate IsElement(surface: Surface, e: Element) {
    exists i :: 0 <= i < |surface.elements| && surface.elements[i] == e &&
                forall k :: 0 <= k < i ==> surface.elements[k].id != e.id
  }

  ghost predicate IsGroup(device: Device, g: Group) {
    exists i :: 0 <= i < |device.groups| && device.groups[i] == g &&
                forall k :: 0 <= k < i ==> device.groups[k].id != g.id
  }

  lemma {:induction false} FindFirst<T>(items: seq<T>, matches: T -> bool, i: nat)
    requires i < |items| && matches(items[i]) && forall k :: 0 <= k < i ==> !matches(items[k])
    ensures Find(items, matches) == Some(items[i])
  {
    if i > 0 {
      FindFirst(items[1..], matches, i - 1);
    }
  }

  lemma {:induction false} DeviceIsFound(devices: seq<Device>, d: Device)
    requires IsDevice(devices, d)
    ensures FindDevice(devices, d.id) == Some(d)
  {
    var i :| 0 <= i < |devices| && devices[i] == d && forall k :: 0 <= k < i ==> devices[k].id != d.id;
    FindFirst(devices, (x: Device) => x.id == d.id, i);
  }

  lemma {:induction false} SurfaceIsFound(device: Device, s: Surface)
    requires IsSurface(device, s)
    ensures FindSurface(device, s.id) == Some(s)
  {
    var i :| 0 <= i < |device.surfaces| && device.surfaces[i] == s &&
             forall k :: 0 <= k < i ==> device.surfaces[k].id != s.id;
    FindFirst(device.surfaces, (x: Surface) => x.id == s.id, i);
  }

  lemma {:induction false} ElementIsFound(surface: Surface, e: Element)
    requires IsElement(surface, e)
    ensures FindElement(surface, e.id) == Some(e)
  {
    var i :| 0 <= i < |surface.elements| && surface.elements[i] == e &&
             forall k :: 0 <= k < i ==> surface.elements[k].id != e.id;
    FindFirst(surface.elements, (x: Element) => x.id == e.id, i);
  }

  lemma {:induction false} GroupIsFound(device: Device, g: Group)
    requires IsGroup(device, g)
    ensures FindGroup(device, g.id) == Some(g)
  {
    var i :| 0 <= i < |device.groups| && device.groups[i] == g &&
             forall k :: 0 <= k < i ==> device.groups[k].id != g.id;
    FindFirst(device.groups, (x: Group) => x.id == g.id, i);
  }

  // ----- What renders

  /** The emitters that make an additive capability useful. */
  const EMITTERS := {Red, Green, Blue, White, WarmWhite, CoolWhite}

  ghost predicate Drivable(capability: ColourCapability) {
    || capability.Hsv? || capability.Hsl? || capability.Monochrome?
    || (capability.Additive? && exists c :: c in capability.channels && c.channel in EMITTERS)
  }

  /** Colour temperature alone, or emitters of other kinds alone, cannot be driven. */
  lemma {:induction false} DrivableExactly(colour: seq<ColourCapability>)
    ensures StaticModelOf(colour).Some? <==> exists c :: c in colour && Drivable(c)
  {
    forall i | 0 <= i < |colour|
      ensures ModelFor(colour[i]).Some? <==> Drivable(colour[i])
    {
      ModelForExactly(colour[i]);
    }
    if c :| c in colour && Drivable(c) {
      var i :| 0 <= i < |colour| && colour[i] == c;
      assert ModelFor(colour[i]).Some?;
    }
    if StaticModelOf(colour).Some? {
      var i :| 0 <= i < |colour| && ModelFor(colour[i]).Some?;
      assert colour[i] in colour && Drivable(colour[i]);
    }
  }

  lemma {:induction false} ModelForExactly(capability: ColourCapability)
    ensures ModelFor(capability).Some? <==> Drivable(capability)
  {
    if capability.Additive? {
      var useful := UsefulChannels(capability.channels);
      if useful != [] {
        assert useful[0] in useful;
      }
      if c :| c in capability.channels && c.channel in EMITTERS {
        assert c in useful;
      }
    }
  }

  ghost predicate CanBeDriven(capabilities: CapabilitySet) {
    exists c :: c in capabilities.colour && Drivable(c)
  }

  /** An element is driven exactly when its own colours can be; nothing lies below it. */
  lemma {:induction false} ElementOnFrontier(devices: seq<Device>, d: Device, s: Surface, e: Element)
    requires IsDevice(devices, d) && IsSurface(d, s) && IsElement(s, e)
    ensures OnFrontier(devices, ElementTarget(d.id, s.id, e.id)) <==> CanBeDriven(e.capabilities)
    ensures CanRender(devices, ElementTarget(d.id, s.id, e.id)) <==> CanBeDriven(e.capabilities)
  {
    DeviceIsFound(devices, d);
    SurfaceIsFound(d, s);
    ElementIsFound(s, e);
    DrivableExactly(e.capabilities.colour);
  }

  /** A surface renders by frame upload or by its own colours; one with frame upload is always on the frontier. */
  lemma {:induction false} SurfaceOnFrontier(devices: seq<Device>, d: Device, s: Surface)
    requires IsDevice(devices, d) && IsSurface(d, s)
    ensures CanRender(devices, SurfaceTarget(d.id, s.id)) <==> s.capabilities.frameUpload || CanBeDriven(s.capabilities)
    ensures s.capabilities.frameUpload ==> OnFrontier(devices, SurfaceTarget(d.id, s.id))
    ensures !s.capabilities.frameUpload ==>
              (OnFrontier(devices, SurfaceTarget(d.id, s.id)) <==>
               CanBeDriven(s.capabilities) && forall e :: IsElement(s, e) ==> !CanBeDriven(e.capabilities))
  {
    var target := SurfaceTarget(d.id, s.id);
    DeviceIsFound(devices, d);
    SurfaceIsFound(d, s);
    DrivableExactly(s.capabilities.colour);
    if !s.capabilities.frameUpload {
      ElementsBelow(devices, d, s);
    }
  }

  /** Of the elements of a surface without frame upload, one renders exactly if the colours of one can be driven. */
  lemma {:induction false} ElementsBelow(devices: seq<Device>, d: Device, s: Surface)
    requires IsDevice(devices, d) && IsSurface(d, s) && !s.capabilities.frameUpload
    ensures (exists t :: Descends(Below(devices), SurfaceTarget(d.id, s.id), t) && CanRender(devices, t)) <==>
            exists e :: IsElement(s, e) && CanBeDriven(e.capabilities)
  {
    var target := SurfaceTarget(d.id, s.id);
    DeviceIsFound(devices, d);
    SurfaceIsFound(d, s);
    if t :| Descends(Below(devices), target, t) && CanRender(devices, t) {
      OnlyElementsBelow(devices, d, s, t);
      var e := FirstElement(s, t.element);
      ElementOnFrontier(devices, d, s, e);
    }
    if e :| IsElement(s, e) && CanBeDriven(e.capabilities) {
      var i :| 0 <= i < |s.elements| && s.elements[i] == e;
      var t := ElementTarget(d.id, s.id, e.id);
      assert ElementTargets(d, s)[i] == t;
      assert t in Below(devices)(target);
      ReachesUnfold(Below(devices), t, t);
      ElementOnFrontier(devices, d, s, e);
    }
  }

  lemma {:induction false} OnlyElementsBelow(devices: seq<Device>, d: Device, s: Surface, t: TargetId)
    requires FindDevice(devices, d.id) == Some(d) && FindSurface(d, s.id) == Some(s) && !s.capabilities.frameUpload
    requires Descends(Below(devices), SurfaceTarget(d.id, s.id), t)
    ensures t.ElementTarget? && t.device == d.id && t.surface == s.id
    ensures exists e :: e in s.elements && e.id == t.element
  {
    var via :| via in Below(devices)(SurfaceTarget(d.id, s.id)) && Reaches(Below(devices), via, t);
    var i :| 0 <= i < |ElementTargets(d, s)| && ElementTargets(d, s)[i] == via;
    assert s.elements[i] in s.elements && s.elements[i].id == via.element;
    assert Below(devices)(via) == [];
    ReachesUnfold(Below(devices), via, t);
  }

  lemma {:induction false} FirstElement(s: Surface, id: Id) returns (e: Element)
    requires exists e :: e in s.elements && e.id == id
    ensures IsElement(s, e) && e.id == id
  {
    e := FindElement(s, id).value;
    var matches := (x: Element) => x.id == id;
    var i :| 0 <= i < |s.elements| && s.elements[i] == Find(s.elements, matches).value && matches(s.elements[i]) &&
             forall j :: 0 <= j < i ==> !matches(s.elements[j]);
  }

  /** Devices and groups render by their own colours; frame upload on them does not count. */
  lemma {:induction false} DeviceAndGroupRender(devices: seq<Device>, d: Device, g: Group)
    requires IsDevice(devices, d)
    ensures CanRender(devices, DeviceTarget(d.id)) <==> CanBeDriven(d.capabilities)
    ensures IsGroup(d, g) ==> (CanRender(devices, GroupTarget(d.id, g.id)) <==> CanBeDriven(g.capabilities))
  {
    DeviceIsFound(devices, d);
    DrivableExactly(d.capabilities.colour);
    if IsGroup(d, g) {
      GroupIsFound(d, g);
      DrivableExactly(g.capabilities.colour);
    }
  }

  /** A surface with frame upload is in every successful expansion that reaches it. */
  lemma {:induction false} FrameSurfaceIsExpanded(devices: seq<Device>, targets: seq<TargetId>, d: Device, s: Surface)
    requires Expansion(devices, targets).Ok? && IsDevice(devices, d) && IsSurface(d, s) && s.capabilities.frameUpload
    ensures SurfaceTarget(d.id, s.id) in Expansion(devices, targets).value <==>
            ReachedFrom(devices, targets, SurfaceTarget(d.id, s.id))
  {
    SurfaceOnFrontier(devices, d, s);
    ExpansionIsFrontier(devices, targets);
  }

  // ----- What lies one level below

  ghost predicate IsMember(device: Device, member: GroupMember, t: TargetId) {
    && t.device == device.id
    && (member.SurfaceMember? ==> t.SurfaceTarget? && t.surface == member.surface)
    && (member.ElementMember? ==> t.ElementTarget? && t.surface == member.surface && t.element == member.element)
    && (member.NestedGroup? ==> t.GroupTarget? && t.group == member.group)
  }

  /** The targets below a device are its surfaces, below a surface its elements, below a group its members. */
  lemma {:induction false} BelowExactly(devices: seq<Device>, d: Device, s: Surface, g: Group, t: TargetId)
    requires IsDevice(devices, d)
    ensures t in Below(devices)(DeviceTarget(d.id)) <==>
            t.SurfaceTarget? && t.device == d.id && exists x :: x in d.surfaces && x.id == t.surface
    ensures IsSurface(d, s) ==>
              (t in Below(devices)(SurfaceTarget(d.id, s.id)) <==>
               && !s.capabilities.frameUpload && t.ElementTarget? && t.device == d.id && t.surface == s.id
               && exists x :: x in s.elements && x.id == t.element)
    ensures IsGroup(d, g) ==>
              (t in Below(devices)(GroupTarget(d.id, g.id)) <==> exists m :: m in g.members && IsMember(d, m, t))
  {
    DeviceIsFound(devices, d);
    SurfacesBelow(d, t);
    if IsSurface(d, s) {
      SurfaceIsFound(d, s);
      ElementsOf(d, s, t);
    }
    if IsGroup(d, g) {
      GroupIsFound(d, g);
      MembersOf(d, g, t);
    }
  }

  lemma {:induction false} SurfacesBelow(d: Device, t: TargetId)
    ensures t in SurfaceTargets(d) <==>
            t.SurfaceTarget? && t.device == d.id && exists x :: x in d.surfaces && x.id == t.surface
  {
    if t.SurfaceTarget? && t.device == d.id {
      if x :| x in d.surfaces && x.id == t.surface {
        var i :| 0 <= i < |d.surfaces| && d.surfaces[i] == x;
        assert SurfaceTargets(d)[i] == t;
      }
    }
  }

  lemma {:induction false} ElementsOf(d: Device, s: Surface, t: TargetId)
    ensures t in ElementTargets(d, s) <==>
            && t.ElementTarget? && t.device == d.id && t.surface == s.id
            && exists x :: x in s.elements && x.id == t.element
  {
    if t.ElementTarget? && t.device == d.id && t.surface == s.id {
      if x :| x in s.elements && x.id == t.element {
        var i :| 0 <= i < |s.elements| && s.elements[i] == x;
        assert ElementTargets(d, s)[i] == t;
      }
    }
  }

  lemma {:induction false} MembersOf(d: Device, g: Group, t: TargetId)
    ensures t in MemberTargets(d, g) <==> exists m :: m in g.members && IsMember(d, m, t)
  {
    if m :| m in g.members && IsMember(d, m, t) {
      var i :| 0 <= i < |g.members| && g.members[i] == m;
      assert MemberTargets(d, g)[i] == t;
    }
    if t in MemberTargets(d, g) {
      var i :| 0 <= i < |g.members| && MemberTargets(d, g)[i] == t;
      assert g.members[i] in g.members && IsMember(d, g.members[i], t);
    }
  }
}

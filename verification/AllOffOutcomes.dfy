/** When turning a device off fails, in terms of its capabilities and of the outcomes of the attempts. */
module AllOffOutcomes {
  import opened Results
  import opened Topology
  import opened AllOff

  /** A part can be turned off if it has a colour, or a hardware effect of that name. */
  ghost predicate HasColourOrOff(capabilities: CapabilitySet) {
    || |capabilities.colour| > 0
    || exists effects, i :: capabilities.hardwareEffects == Some(effects) && 0 <= i < |effects| && effects[i] == "off"
  }

  /** Turning the part off must be stored and would wear the storage out. */
  ghost predicate StoresUnsafely(capabilities: CapabilitySet) {
    && capabilities.offIsWearSafe == false
    && (capabilities.persistence == CurrentState(Required) || capabilities.persistence == Profiles(Required))
  }

  lemma {:induction false} OffCapableExactly(capabilities: CapabilitySet)
    ensures CanTurnOff(capabilities) <==> HasColourOrOff(capabilities)
    ensures WearLimited(capabilities) <==> StoresUnsafely(capabilities)
  {
    if capabilities.hardwareEffects.Some? && "off" in capabilities.hardwareEffects.value {
      var effects := capabilities.hardwareEffects.value;
      var i :| 0 <= i < |effects| && effects[i] == "off";
    }
  }

  /** The plan is empty exactly when no part of the device can be turned off. */
  lemma {:induction false} EmptyPlanExactly(device: Device)
    ensures PlanOf(device) == EMPTY_PLAN <==> forall n :: !OffCapable(device, n)
  {
    var parts := EntriesArePlanned(device);
    if n :| OffCapable(device, n) {
      PlanIsExactCover(device, n);
      PlannedAreMaximal(device);
      var a :| a in Planned(device) && Covers(a, n);
      assert a in parts;
    }
    if parts != [] {
      assert Maximal(device, parts[0]);
    }
  }

  /**
   A device fails exactly when none of its parts has a colour or an off effect, or when one of the
   attempts at its executable targets fails. Parts whose off state would wear out storage are skipped,
   which is no failure.
   */
  lemma {:induction false} DeviceFailsExactly(device: Device, succeeds: (nat, TargetId) -> bool, first: nat)
    ensures DeviceFails(device, succeeds, first) <==>
            || (forall n :: IsNode(device, n) ==> !HasColourOrOff(CapabilitiesAt(device, n)))
            || exists k :: 0 <= k < |Executable(device)| && !succeeds(first + k, Executable(device)[k])
    ensures forall t :: t in Executable(device) <==>
              exists n :: Maximal(device, n) && TargetAt(device, n) == t && !StoresUnsafely(CapabilitiesAt(device, n))
    ensures forall t :: t in PlanOf(device).skipped <==>
              exists n :: Maximal(device, n) && TargetAt(device, n) == t && StoresUnsafely(CapabilitiesAt(device, n))
  {
    EmptyPlanExactly(device);
    PlanIsSound(device);
    forall n | IsNode(device, n)
      ensures OffCapable(device, n) <==> HasColourOrOff(CapabilitiesAt(device, n))
      ensures WearLimited(CapabilitiesAt(device, n)) <==> StoresUnsafely(CapabilitiesAt(device, n))
    {
      OffCapableExactly(CapabilitiesAt(device, n));
    }
  }

  // ----- Counting the failures

  ghost function Below(n: nat, fails: nat -> bool): set<nat> {
    set d: nat | d < n && fails(d)
  }

  lemma {:induction false} CountIsSize(n: nat, fails: nat -> bool)
    ensures Count(n, fails) == |Below(n, fails)|
  {
    if n == 0 {
      assert Below(0, fails) == {};
    } else {
      CountIsSize(n - 1, fails);
      assert Below(n, fails) == Below(n - 1, fails) + if fails(n - 1) then {n - 1} else {};
    }
  }

  lemma {:induction false} CountIsPositive(n: nat, fails: nat -> bool)
    ensures Count(n, fails) > 0 <==> exists d: nat :: d < n && fails(d)
  {
    if n > 0 {
      CountIsPositive(n - 1, fails);
    }
  }

  /** The failures are the number of devices that fail, so there are some exactly when one does. */
  lemma {:induction false} FailuresAreCounted(devices: seq<Device>, succeeds: (nat, TargetId) -> bool)
    ensures Failures(devices, succeeds) == |Below(|devices|, Fails(devices, succeeds))|
    ensures Failures(devices, succeeds) > 0 <==> exists d: nat :: d < |devices| && Fails(devices, succeeds)(d)
  {
    CountIsSize(|devices|, Fails(devices, succeeds));
    CountIsPositive(|devices|, Fails(devices, succeeds));
  }
}

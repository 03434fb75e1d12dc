/** Editing the stored daemon preferences, whose per-device list serves as a map. */
module Preferences {
  import opened Results
  import opened Sequences

  datatype UnsupportedPolicy = Skip | Reject

  datatype ReconciliationPolicy = Restore | Adopt | Leave

  datatype CctEmulation = Auto | Disabled

  datatype DeviceEntry = DeviceEntry(device: string, policy: ReconciliationPolicy)

  datatype DaemonPreferences = DaemonPreferences(
    unsupported: Option<UnsupportedPolicy>,
    reconciliation: Option<ReconciliationPolicy>,
    devices: seq<DeviceEntry>,
    cct: Option<CctEmulation>,
    preferShm: Option<bool>,
    preferClientShm: Option<bool>)

  datatype Preference =
    | DefaultUnsupportedPolicy
    | DefaultReconciliation
    | DeviceReconciliation
    | Cct
    | PreferShm
    | PreferClientShm

  datatype Command =
    | Set(preference: Preference, device: Option<string>, value: string)
    | Clear(preference: Preference, device: Option<string>)

  datatype PreferenceError = IrrelevantDevice | DeviceRequired | InvalidValue

  // ----- Values

  function ParseUnsupported(value: string): Option<UnsupportedPolicy> {
    if value == "skip" then Some(Skip) else if value == "reject" then Some(Reject) else None
  }

  function ParseReconciliation(value: string): Option<ReconciliationPolicy> {
    if value == "restore" then Some(Restore) else if value == "adopt" then Some(Adopt)
    else if value == "leave" then Some(Leave) else None
  }

  function ParseCct(value: string): Option<CctEmulation> {
    if value == "auto" then Some(Auto) else if value == "disabled" then Some(Disabled) else None
  }

  function ParseBoolean(value: string): Option<bool> {
    if value == "true" then Some(true) else if value == "false" then Some(false) else None
  }

  // ----- What the commands mean: a record whose device preferences form a map

  datatype Settings = Settings(
    unsupported: Option<UnsupportedPolicy>,
    reconciliation: Option<ReconciliationPolicy>,
    devices: map<string, ReconciliationPolicy>,
    cct: Option<CctEmulation>,
    preferShm: Option<bool>,
    preferClientShm: Option<bool>)

  function Updated<T>(parsed: Option<T>, settings: T -> Settings): Result<Settings, PreferenceError> {
    match parsed
    case None => Err(InvalidValue)
    case Some(value) => Ok(settings(value))
  }

  /** The effect of a command on the settings, or why it is refused. The device is checked before the value. */
  function Meaning(settings: Settings, command: Command): Result<Settings, PreferenceError> {
    if command.device.Some? && !command.preference.DeviceReconciliation? then Err(IrrelevantDevice)
    else if command.preference.DeviceReconciliation? && command.device.None? then Err(DeviceRequired)
    else
      match command
      case Set(DefaultUnsupportedPolicy, _, value) => Updated(ParseUnsupported(value),
        v => settings.(unsupported := Some(v)))
      case Set(DefaultReconciliation, _, value) => Updated(ParseReconciliation(value),
        v => settings.(reconciliation := Some(v)))
      case Set(DeviceReconciliation, device, value) =>
        Updated(ParseReconciliation(value), v => settings.(devices := settings.devices[device.value := v]))
      case Set(Cct, _, value) => Updated(ParseCct(value), v => settings.(cct := Some(v)))
      case Set(PreferShm, _, value) => Updated(ParseBoolean(value), v => settings.(preferShm := Some(v)))
      case Set(PreferClientShm, _, value) => Updated(ParseBoolean(value), v => settings.(preferClientShm := Some(v)))
      case Clear(DefaultUnsupportedPolicy, _) => Ok(settings.(unsupported := None))
      case Clear(DefaultReconciliation, _) => Ok(settings.(reconciliation := None))
      case Clear(DeviceReconciliation, device) => Ok(settings.(devices := settings.devices - {device.value}))
      case Clear(Cct, _) => Ok(settings.(cct := None))
      case Clear(PreferShm, _) => Ok(settings.(preferShm := None))
      case Clear(PreferClientShm, _) => Ok(settings.(preferClientShm := None))
  }

  /** The list read as a map, in which the first entry of a device counts. */
  function AsMap(entries: seq<DeviceEntry>): map<string, ReconciliationPolicy> {
    if entries == [] then map[] else AsMap(entries[1..])[entries[0].device := entries[0].policy]
  }

  function SettingsOf(preferences: DaemonPreferences): Settings {
    Settings(preferences.unsupported, preferences.reconciliation, AsMap(preferences.devices),
             preferences.cct, preferences.preferShm, preferences.preferClientShm)
  }

  ghost predicate UniqueDevices(entries: seq<DeviceEntry>) {
    entries != [] ==> entries[0].device !in AsMap(entries[1..]) && UniqueDevices(entries[1..])
  }

  /** The map holds exactly the devices of the list, each with the policy of its first entry. */
  lemma {:induction false} FirstEntryCounts(entries: seq<DeviceEntry>, device: string)
    ensures device in AsMap(entries) <==> exists i :: 0 <= i < |entries| && entries[i].device == device
    ensures forall i :: 0 <= i < |entries| && entries[i].device == device && device !in Devices(entries[..i]) ==>
              device in AsMap(entries) && AsMap(entries)[device] == entries[i].policy
  {
    if entries != [] {
      FirstEntryCounts(entries[1..], device);
      forall i | 0 <= i < |entries| && entries[i].device == device && device !in Devices(entries[..i])
        ensures device in AsMap(entries) && AsMap(entries)[device] == entries[i].policy
      {
        if i > 0 {
          assert entries[..i][0] == entries[0] && entries[..i][1..] == entries[1..][..i - 1];
          assert entries[1..][i - 1] == entries[i];
        }
      }
      assert forall i :: 1 <= i < |entries| ==> entries[i] == entries[1..][i - 1];
    }
  }

  /** The devices of the list. */
  function Devices(entries: seq<DeviceEntry>): set<string> {
    if entries == [] then {} else {entries[0].device} + Devices(entries[1..])
  }

  /** Unique means that no two entries are for the same device. */
  lemma {:induction false} UniqueExactly(entries: seq<DeviceEntry>)
    ensures UniqueDevices(entries) <==> forall i, j :: 0 <= i < j < |entries| ==> entries[i].device != entries[j].device
  {
    if entries != [] {
      UniqueExactly(entries[1..]);
      FirstEntryCounts(entries[1..], entries[0].device);
      assert forall i :: 1 <= i < |entries| ==> entries[i] == entries[1..][i - 1];
      assert forall i :: 0 <= i < |entries| - 1 ==> entries[1..][i] == entries[i + 1];
    }
  }

  // ----- Editing the list

  /** The list with the first entry of `device` given `policy`, or with a new entry at the end. */
  function Put(entries: seq<DeviceEntry>, device: string, policy: ReconciliationPolicy): seq<DeviceEntry> {
    if entries == [] then [DeviceEntry(device, policy)]
    else if entries[0].device == device then [DeviceEntry(device, policy)] + entries[1..]
    else [entries[0]] + Put(entries[1..], device, policy)
  }

  /** The list without the entries of `device`, otherwise in the same order. */
  function Without(entries: seq<DeviceEntry>, device: string): seq<DeviceEntry> {
    if entries == [] then []
    else if entries[0].device == device then Without(entries[1..], device)
    else [entries[0]] + Without(entries[1..], device)
  }

  /** Setting an entry of the list updates the map, and keeps device entries unique. */
  lemma {:induction false} PutUpdatesMap(entries: seq<DeviceEntry>, device: string, policy: ReconciliationPolicy)
    ensures AsMap(Put(entries, device, policy)) == AsMap(entries)[device := policy]
    ensures UniqueDevices(entries) ==> UniqueDevices(Put(entries, device, policy))
  {
    if entries != [] {
      PutUpdatesMap(entries[1..], device, policy);
      var put := Put(entries, device, policy);
      assert put[1..] == if entries[0].device == device then entries[1..] else Put(entries[1..], device, policy);
    }
  }

  /** Clearing a device removes its key from the map, whether or not its entries were unique. */
  lemma {:induction false} WithoutRemovesFromMap(entries: seq<DeviceEntry>, device: string)
    ensures AsMap(Without(entries, device)) == AsMap(entries) - {device}
    ensures UniqueDevices(entries) ==> UniqueDevices(Without(entries, device))
  {
    if entries != [] {
      WithoutRemovesFromMap(entries[1..], device);
      if entries[0].device != device {
        assert Without(entries, device)[1..] == Without(entries[1..], device);
      }
    }
  }

  method PutEntry(start: seq<DeviceEntry>, device: string, policy: ReconciliationPolicy)
    returns (entries: seq<DeviceEntry>)
    ensures entries == Put(start, device, policy)
  {
    entries := start;
    for i := 0 to |entries|
      invariant entries == start
      invariant forall k :: 0 <= k < i ==> start[k].device != device
    {
      if entries[i].device == device {
        PutAt(start, device, policy, i);
        entries := entries[i := entries[i].(policy := policy)];
        return;
      }
    }
    PutAt(start, device, policy, |start|);
    entries := entries + [DeviceEntry(device, policy)];
  }

  lemma {:induction false} PutAt(entries: seq<DeviceEntry>, device: string, policy: ReconciliationPolicy, i: nat)
    requires i <= |entries| && forall k :: 0 <= k < i ==> entries[k].device != device
    requires i < |entries| ==> entries[i].device == device
    ensures Put(entries, device, policy) ==
            if i < |entries| then entries[i := DeviceEntry(device, policy)] else entries + [DeviceEntry(device, policy)]
  {
    if i > 0 {
      PutAt(entries[1..], device, policy, i - 1);
      assert entries == [entries[0]] + entries[1..];
    }
  }

  method RetainOthers(start: seq<DeviceEntry>, device: string) returns (entries: seq<DeviceEntry>)
    ensures entries == Without(start, device)
  {
    entries := [];
    assert start[0..] == start;
    for i := 0 to |start|
      invariant entries + Without(start[i..], device) == Without(start, device)
    {
      assert start[i..][0] == start[i] && start[i..][1..] == start[i + 1..];
      if start[i].device != device {
        AppendAssociates(entries, [start[i]], Without(start[i + 1..], device));
        entries := entries + [start[i]];
      }
    }
  }

  // ----- Commands

  method SetPreference(start: DaemonPreferences, preference: Preference, device: Option<string>, value: string)
    returns (r: Result<DaemonPreferences, PreferenceError>)
    ensures r == Applied(start, Set(preference, device, value))
  {
    if device.Some? && !preference.DeviceReconciliation? {
      return Err(IrrelevantDevice);
    }
    var preferences := start;
    match preference {
      case DefaultUnsupportedPolicy =>
        var parsed := ParseUnsupported(value);
        if parsed.None? { return Err(InvalidValue); }
        preferences := preferences.(unsupported := parsed);
      case DefaultReconciliation =>
        var parsed := ParseReconciliation(value);
        if parsed.None? { return Err(InvalidValue); }
        preferences := preferences.(reconciliation := parsed);
      case DeviceReconciliation =>
        if device.None? { return Err(DeviceRequired); }
        var parsed := ParseReconciliation(value);
        if parsed.None? { return Err(InvalidValue); }
        var entries := PutEntry(preferences.devices, device.value, parsed.value);
        preferences := preferences.(devices := entries);
      case Cct =>
        var parsed := ParseCct(value);
        if parsed.None? { return Err(InvalidValue); }
        preferences := preferences.(cct := parsed);
      case PreferShm =>
        var parsed := ParseBoolean(value);
        if parsed.None? { return Err(InvalidValue); }
        preferences := preferences.(preferShm := parsed);
      case PreferClientShm =>
        var parsed := ParseBoolean(value);
        if parsed.None? { return Err(InvalidValue); }
        preferences := preferences.(preferClientShm := parsed);
    }
    return Ok(preferences);
  }

  method ClearPreference(start: DaemonPreferences, preference: Preference, device: Option<string>)
    returns (r: Result<DaemonPreferences, PreferenceError>)
    ensures r == Applied(start, Clear(preference, device))
  {
    if device.Some? && !preference.DeviceReconciliation? {
      return Err(IrrelevantDevice);
    }
    var preferences := start;
    match preference {
      case DefaultUnsupportedPolicy => preferences := preferences.(unsupported := None);
      case DefaultReconciliation => preferences := preferences.(reconciliation := None);
      case DeviceReconciliation =>
        if device.None? { return Err(DeviceRequired); }
        var entries := RetainOthers(preferences.devices, device.value);
        preferences := preferences.(devices := entries);
      case Cct => preferences := preferences.(cct := None);
      case PreferShm => preferences := preferences.(preferShm := None);
      case PreferClientShm => preferences := preferences.(preferClientShm := None);
    }
    return Ok(preferences);
  }

  function Edited<T>(parsed: Option<T>, edit: T -> DaemonPreferences): Result<DaemonPreferences, PreferenceError> {
    match parsed
    case None => Err(InvalidValue)
    case Some(value) => Ok(edit(value))
  }

  function AppliedSet(preferences: DaemonPreferences, preference: Preference, device: Option<string>, value: string)
    : Result<DaemonPreferences, PreferenceError>
  {
    match preference
    case DefaultUnsupportedPolicy => Edited(ParseUnsupported(value), v => preferences.(unsupported := Some(v)))
    case DefaultReconciliation => Edited(ParseReconciliation(value), v => preferences.(reconciliation := Some(v)))
    case DeviceReconciliation =>
      if device.None? then Err(DeviceRequired)
      else Edited(ParseReconciliation(value), v => preferences.(devices := Put(preferences.devices, device.value, v)))
    case Cct => Edited(ParseCct(value), v => preferences.(cct := Some(v)))
    case PreferShm => Edited(ParseBoolean(value), v => preferences.(preferShm := Some(v)))
    case PreferClientShm => Edited(ParseBoolean(value), v => preferences.(preferClientShm := Some(v)))
  }

  function AppliedClear(preferences: DaemonPreferences, preference: Preference, device: Option<string>)
    : Result<DaemonPreferences, PreferenceError>
  {
    match preference
    case DefaultUnsupportedPolicy => Ok(preferences.(unsupported := None))
    case DefaultReconciliation => Ok(preferences.(reconciliation := None))
    case DeviceReconciliation =>
      if device.None? then Err(DeviceRequired)
      else Ok(preferences.(devices := Without(preferences.devices, device.value)))
    case Cct => Ok(preferences.(cct := None))
    case PreferShm => Ok(preferences.(preferShm := None))
    case PreferClientShm => Ok(preferences.(preferClientShm := None))
  }

  /** The effect of a command on the stored preferences, or why it is refused. */
  function Applied(preferences: DaemonPreferences, command: Command): Result<DaemonPreferences, PreferenceError> {
    if command.device.Some? && !command.preference.DeviceReconciliation? then Err(IrrelevantDevice)
    else
      match command
      case Set(preference, device, value) => AppliedSet(preferences, preference, device, value)
      case Clear(preference, device) => AppliedClear(preferences, preference, device)
  }

  /** A command on the list does what it means on the map, is refused for the same reason, and keeps entries unique. */
  lemma {:induction false} CommandRefinesMap(preferences: DaemonPreferences, command: Command)
    ensures var applied := Applied(preferences, command);
            var meaning := Meaning(SettingsOf(preferences), command);
            && (applied.Err? <==> meaning.Err?)
            && (applied.Err? ==> applied.error == meaning.error)
            && (applied.Ok? ==> SettingsOf(applied.value) == meaning.value)
            && (applied.Ok? && UniqueDevices(preferences.devices) ==> UniqueDevices(applied.value.devices))
  {
    if command.preference.DeviceReconciliation? && command.device.Some? {
      match command
      case Set(_, device, value) =>
        if ParseReconciliation(value).Some? {
          PutUpdatesMap(preferences.devices, device.value, ParseReconciliation(value).value);
        }
      case Clear(_, device) => WithoutRemovesFromMap(preferences.devices, device.value);
    }
  }

  function AppliedAll(preferences: DaemonPreferences,
                      commands: seq<Command>): Result<DaemonPreferences, PreferenceError> {
    if commands == [] then Ok(preferences)
    else
      match AppliedAll(preferences, commands[..|commands| - 1])
      case Err(error) => Err(error)
      case Ok(edited) => Applied(edited, commands[|commands| - 1])
  }

  function MeaningOfAll(settings: Settings, commands: seq<Command>): Result<Settings, PreferenceError> {
    if commands == [] then Ok(settings)
    else
      match MeaningOfAll(settings, commands[..|commands| - 1])
      case Err(error) => Err(error)
      case Ok(edited) => Meaning(edited, commands[|commands| - 1])
  }

  /** Every sequence of commands on the list does what it means on the map, and keeps entries unique. */
  lemma {:induction false} CommandsRefineMap(preferences: DaemonPreferences, commands: seq<Command>)
    ensures var applied := AppliedAll(preferences, commands);
            var meaning := MeaningOfAll(SettingsOf(preferences), commands);
            && (applied.Err? <==> meaning.Err?)
            && (applied.Err? ==> applied.error == meaning.error)
            && (applied.Ok? ==> SettingsOf(applied.value) == meaning.value)
            && (applied.Ok? && UniqueDevices(preferences.devices) ==> UniqueDevices(applied.value.devices))
  {
    if commands != [] {
      var init := commands[..|commands| - 1];
      CommandsRefineMap(preferences, init);
      if AppliedAll(preferences, init).Ok? {
        CommandRefinesMap(AppliedAll(preferences, init).value, commands[|commands| - 1]);
      }
    }
  }

  /** The part of the preferences that a command names. */
  datatype Part = Whole(preference: Preference) | OfDevice(device: string)

  predicate Names(command: Command, part: Part) {
    match part
    case Whole(preference) => command.preference == preference && !preference.DeviceReconciliation?
    case OfDevice(device) => command.preference.DeviceReconciliation? && command.device == Some(device)
  }

  /** Whether the settings agree on a part. */
  ghost predicate Agree(before: Settings, after: Settings, part: Part) {
    match part
    case OfDevice(d) => (d in before.devices <==> d in after.devices) &&
      (d in before.devices ==> before.devices[d] == after.devices[d])
    case Whole(DefaultUnsupportedPolicy) => before.unsupported == after.unsupported
    case Whole(DefaultReconciliation) => before.reconciliation == after.reconciliation
    case Whole(Cct) => before.cct == after.cct
    case Whole(PreferShm) => before.preferShm == after.preferShm
    case Whole(PreferClientShm) => before.preferClientShm == after.preferClientShm
    case Whole(DeviceReconciliation) => true
  }

  lemma {:induction false} MeaningKeepsUnnamed(settings: Settings, command: Command, part: Part)
    requires !Names(command, part) && Meaning(settings, command).Ok?
    ensures Agree(settings, Meaning(settings, command).value, part)
  {
  }

  /** Commands leave every part they do not name unchanged. */
  lemma {:induction false} UnnamedPartsAreKept(preferences: DaemonPreferences, commands: seq<Command>, part: Part)
    requires forall i :: 0 <= i < |commands| ==> !Names(commands[i], part)
    requires AppliedAll(preferences, commands).Ok?
    ensures Agree(SettingsOf(preferences), SettingsOf(AppliedAll(preferences, commands).value), part)
  {
    CommandsRefineMap(preferences, commands);
    MeaningOfAllKeepsUnnamed(SettingsOf(preferences), commands, part);
  }

  lemma {:induction false} MeaningOfAllKeepsUnnamed(settings: Settings, commands: seq<Command>, part: Part)
    requires forall i :: 0 <= i < |commands| ==> !Names(commands[i], part)
    requires MeaningOfAll(settings, commands).Ok?
    ensures Agree(settings, MeaningOfAll(settings, commands).value, part)
  {
    if commands != [] {
      var init, last := commands[..|commands| - 1], commands[|commands| - 1];
      MeaningOfAllKeepsUnnamed(settings, init, part);
      assert !Names(last, part);
      MeaningKeepsUnnamed(MeaningOfAll(settings, init).value, last, part);
    }
  }

  // ----- What the last command on a part leaves

  function UnsupportedName(policy: UnsupportedPolicy): string {
    match policy
    case Skip => "skip"
    case Reject => "reject"
  }

  function ReconciliationName(policy: ReconciliationPolicy): string {
    match policy
    case Restore => "restore"
    case Adopt => "adopt"
    case Leave => "leave"
  }

  function CctName(emulation: CctEmulation): string {
    match emulation
    case Auto => "auto"
    case Disabled => "disabled"
  }

  function BooleanName(value: bool): string {
    if value then "true" else "false"
  }

  /** Each value is read from its own name and from no other text. */
  lemma {:induction false} NamesReadBack(text: string, unsupported: UnsupportedPolicy,
                                         reconciliation: ReconciliationPolicy, cct: CctEmulation, value: bool)
    ensures ParseUnsupported(text) == Some(unsupported) <==> text == UnsupportedName(unsupported)
    ensures ParseReconciliation(text) == Some(reconciliation) <==> text == ReconciliationName(reconciliation)
    ensures ParseCct(text) == Some(cct) <==> text == CctName(cct)
    ensures ParseBoolean(text) == Some(value) <==> text == BooleanName(value)
  {
    assert |"skip"| != |"reject"| && |"restore"| != |"adopt"| && "adopt"[0] != "leave"[0];
    assert |"auto"| != |"disabled"| && |"true"| != |"false"|;
  }

  /** What is stored is the value a set command names, or nothing after a clear command. */
  ghost predicate StoredAs<T>(stored: Option<T>, command: Command, name: T -> string) {
    if command.Set? then stored.Some? && name(stored.value) == command.value else stored.None?
  }

  /** The settings are as the command left the part it names. */
  ghost predicate InForce(settings: Settings, command: Command) {
    match command.preference
    case DefaultUnsupportedPolicy => StoredAs(settings.unsupported, command, UnsupportedName)
    case DefaultReconciliation => StoredAs(settings.reconciliation, command, ReconciliationName)
    case Cct => StoredAs(settings.cct, command, CctName)
    case PreferShm => StoredAs(settings.preferShm, command, BooleanName)
    case PreferClientShm => StoredAs(settings.preferClientShm, command, BooleanName)
    case DeviceReconciliation =>
      command.device.Some? && StoredAs(
        if command.device.value in settings.devices then Some(settings.devices[command.device.value]) else None,
        command, ReconciliationName)
  }

  lemma {:induction false} CommandIsInForce(settings: Settings, command: Command)
    requires Meaning(settings, command).Ok?
    ensures InForce(Meaning(settings, command).value, command)
  {
  }

  lemma {:induction false} StaysInForce(before: Settings, after: Settings, command: Command, part: Part)
    requires InForce(before, command) && Names(command, part) && Agree(before, after, part)
    ensures InForce(after, command)
  {
  }

  /** After any successful run of commands, each part is as the last command that names it left it. */
  lemma {:induction false} LastCommandDecides(preferences: DaemonPreferences, commands: seq<Command>, i: nat,
                                              part: Part)
    requires i < |commands| && Names(commands[i], part)
    requires forall k :: i < k < |commands| ==> !Names(commands[k], part)
    requires AppliedAll(preferences, commands).Ok?
    ensures InForce(SettingsOf(AppliedAll(preferences, commands).value), commands[i])
  {
    CommandsRefineMap(preferences, commands);
    LastMeaningDecides(SettingsOf(preferences), commands, i, part);
  }

  lemma {:induction false} LastMeaningDecides(settings: Settings, commands: seq<Command>, i: nat, part: Part)
    requires i < |commands| && Names(commands[i], part)
    requires forall k :: i < k < |commands| ==> !Names(commands[k], part)
    requires MeaningOfAll(settings, commands).Ok?
    ensures InForce(MeaningOfAll(settings, commands).value, commands[i])
    decreases |commands|
  {
    var init, last := commands[..|commands| - 1], commands[|commands| - 1];
    var before := MeaningOfAll(settings, init).value;
    if i == |commands| - 1 {
      CommandIsInForce(before, last);
    } else {
      LastMeaningDecides(settings, init, i, part);
      assert !Names(last, part);
      MeaningKeepsUnnamed(before, last, part);
      StaysInForce(before, MeaningOfAll(settings, commands).value, commands[i], part);
    }
  }
}

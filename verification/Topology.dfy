/** Devices, their surfaces, elements and groups, and the identifiers that address them. */
module Topology {
  import opened Results
  import opened Sequences

  type Id = string

  /** An unsigned byte. */
  type Byte = n: int | 0 <= n < 256

  /** The largest 32-bit unsigned integer. */
  const U32_MAX := 0xFFFF_FFFF

  /** An 8-bit colour. */
  datatype Rgb = Rgb(r: Byte, g: Byte, b: Byte)

  datatype ColourChannel =
    | Red | Green | Blue | White | WarmWhite | CoolWhite | Amber | Ultraviolet
    | Hue | Saturation | Value | Lightness | Temperature | Intensity

  datatype ChannelCapability = ChannelCapability(channel: ColourChannel, bits: Byte)

  datatype ColourCapability =
    | Additive(channels: seq<ChannelCapability>)
    | Hsv(hueBits: Byte, saturationBits: Byte, valueBits: Byte)
    | Hsl(hueBits: Byte, saturationBits: Byte, lightnessBits: Byte)
    | Cct(bits: Byte)
    | Monochrome(bits: Byte)

  datatype PersistenceRequirement = Optional | Required

  datatype Persistence =
    | NoPersistence
    | CurrentState(requirement: PersistenceRequirement)
    | Profiles(requirement: PersistenceRequirement)

  /** `frameUpload` records only whether frame streaming is advertised; `hardwareEffects` lists effect identifiers. */
  datatype CapabilitySet = CapabilitySet(
    colour: seq<ColourCapability>,
    frameUpload: bool,
    hardwareEffects: Option<seq<Id>>,
    persistence: Persistence,
    offIsWearSafe: bool)

  datatype Element = Element(id: Id, capabilities: CapabilitySet)

  datatype Surface = Surface(id: Id, elements: seq<Element>, capabilities: CapabilitySet)

  datatype GroupMember =
    | SurfaceMember(surface: Id)
    | ElementMember(surface: Id, element: Id)
    | NestedGroup(group: Id)

  datatype Group = Group(id: Id, members: seq<GroupMember>, capabilities: CapabilitySet)

  datatype Device = Device(id: Id, surfaces: seq<Surface>, groups: seq<Group>, capabilities: CapabilitySet)

  datatype TargetId =
    | DeviceTarget(device: Id)
    | SurfaceTarget(device: Id, surface: Id)
    | ElementTarget(device: Id, surface: Id, element: Id)
    | GroupTarget(device: Id, group: Id)

  function FindDevice(devices: seq<Device>, id: Id): (r: Option<Device>)
    ensures r.Some? ==> r.value in devices && r.value.id == id
    ensures r.None? ==> forall d :: d in devices ==> d.id != id
  {
    Find(devices, (d: Device) => d.id == id)
  }

  function FindSurface(device: Device, id: Id): (r: Option<Surface>)
    ensures r.Some? ==> r.value in device.surfaces && r.value.id == id
    ensures r.None? ==> forall s :: s in device.surfaces ==> s.id != id
  {
    Find(device.surfaces, (s: Surface) => s.id == id)
  }

  function FindElement(surface: Surface, id: Id): (r: Option<Element>)
    ensures r.Some? ==> r.value in surface.elements && r.value.id == id
    ensures r.None? ==> forall e :: e in surface.elements ==> e.id != id
  {
    Find(surface.elements, (e: Element) => e.id == id)
  }

  function FindGroup(device: Device, id: Id): (r: Option<Group>)
    ensures r.Some? ==> r.value in device.groups && r.value.id == id
    ensures r.None? ==> forall g :: g in device.groups ==> g.id != id
  {
    Find(device.groups, (g: Group) => g.id == id)
  }
}

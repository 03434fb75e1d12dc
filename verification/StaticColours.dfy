/** Choosing the colour model in which a target is driven. */
module StaticColours {
  import opened Results
  import opened Topology

  datatype StaticModel =
    | AdditiveModel(channels: seq<ChannelCapability>)
    | HsvModel(hueBits: Byte, saturationBits: Byte, valueBits: Byte)
    | HslModel(hueBits: Byte, saturationBits: Byte, lightnessBits: Byte)
    | MonochromeModel(bits: Byte)

  /** The emitters the visualizer knows how to drive. */
  predicate IsUseful(channel: ColourChannel) {
    channel.Red? || channel.Green? || channel.Blue? || channel.White? || channel.WarmWhite? || channel.CoolWhite?
  }

  function UsefulChannels(channels: seq<ChannelCapability>): (r: seq<ChannelCapability>)
    ensures forall c :: c in r <==> c in channels && IsUseful(c.channel)
  {
    if channels == [] then []
    else if IsUseful(channels[0].channel) then [channels[0]] + UsefulChannels(channels[1..])
    else UsefulChannels(channels[1..])
  }

  function ModelFor(capability: ColourCapability): Option<StaticModel> {
    match capability
    case Additive(channels) =>
      var useful := UsefulChannels(channels);
      if useful == [] then None else Some(AdditiveModel(useful))
    case Hsv(h, s, v) => Some(HsvModel(h, s, v))
    case Hsl(h, s, l) => Some(HslModel(h, s, l))
    case Monochrome(bits) => Some(MonochromeModel(bits))
    case Cct(_) => None
  }

  /** The model of the first colour capability that has one. */
  function StaticModelOf(colour: seq<ColourCapability>): (r: Option<StaticModel>)
    ensures r.None? <==> forall i :: 0 <= i < |colour| ==> ModelFor(colour[i]).None?
    ensures r.Some? ==> exists i :: 0 <= i < |colour| && ModelFor(colour[i]) == r && forall j :: 0 <= j < i ==>
            ModelFor(colour[j]).None?
  {
    if colour == [] then None
    else if ModelFor(colour[0]).Some? then ModelFor(colour[0])
    else
      var rest := colour[1..];
      assert forall i :: 1 <= i < |colour| ==> colour[i] == rest[i - 1];
      assert forall i :: 0 <= i < |rest| ==> rest[i] == colour[i + 1];
      StaticModelOf(rest)
  }
}

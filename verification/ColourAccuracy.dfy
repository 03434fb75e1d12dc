/** How near a converted colour is to the exact one, and which advertised capability its model comes from. */
module ColourAccuracy {
  import opened Reals
  import opened Floats
  import opened Results
  import opened Topology
  import opened HueSaturation
  import opened SinglePrecision
  import opened StaticColours
  import opened ColourConversion

  // ----- Components in 32-bit floats

  /** Within one and a half steps and a five-thousandth of the range of the exact place of `unit`. */
  predicate InPlace(level: nat, unit: real, bits: Byte) {
    Abs(level as real - Place(unit, Maximum(bits) as real)) <= 1.5 + Maximum(bits) as real / 5000.0
  }

  lemma {:induction false} PlacesAreNear(a: real, b: real, max: real)
    requires Near(a, b) && max >= 0.0
    ensures Abs(Place(a, max) - Place(b, max)) <= max / 5000.0
  {
    NotNegative(1.0 / 5000.0 - (a - b), max);
    NotNegative(1.0 / 5000.0 + (a - b), max);
  }

  lemma {:induction false} UnitInPlace(value: real, exact: real, bits: Byte)
    requires IsFloat(value) && Near(value, exact) && 0.0 <= exact <= 1.0
    ensures InPlace(ScaleUnit(value, bits), exact, bits)
  {
    ScaleUnitIsNear(value, bits);
    assert Near(Clamp(value), exact);
    PlacesAreNear(Clamp(value), exact, Maximum(bits) as real);
  }

  lemma {:induction false} LightnessInRange(rgb: Rgb)
    ensures 0.0 <= LightnessOf(LightOf(rgb)) <= 1.0
  {
    ExtremesOfBytes(rgb);
  }

  // ----- Emitters

  /** The whole steps in `input` of 255 parts of the range, where the product is held to 32 bits. */
  predicate StepsOf(level: nat, input: Byte, bits: Byte) {
    255 * level <= SaturatingProduct(input, Maximum(bits)) < 255 * (level + 1)
  }

  /** What drives an emitter: its own primary, or the weighted brightness for a white one. */
  predicate Drives(input: Byte, channel: ColourChannel, rgb: Rgb) {
    match channel
    case Red => input == rgb.r
    case Green => input == rgb.g
    case Blue => input == rgb.b
    case White | WarmWhite | CoolWhite => IsBrightness(input, rgb)
    case _ => input == 0
  }

  predicate IsBrightness(input: Byte, rgb: Rgb) {
    256 * input <= 54 * rgb.r + 183 * rgb.g + 19 * rgb.b < 256 * (input + 1)
  }

  lemma {:induction false} ChannelSteps(input: Byte, bits: Byte)
    ensures StepsOf(ScaleChannel(input, bits), input, bits)
    ensures bits <= 24 ==> SaturatingProduct(input, Maximum(bits)) == input * Maximum(bits)
  {
    WidthLimit(bits);
    ProductsGrow(input, 255, Maximum(bits));
  }

  /** Every component of a converted colour is near its exact place in the range of its own bits. */
  ghost predicate IsAccurate(model: StaticModel, rgb: Rgb, colour: Colour) {
    var exact := RgbToHsx(rgb);
    match model
    case AdditiveModel(channels) =>
      && colour.AdditiveColour? && |colour.values| == |channels|
      && forall i :: 0 <= i < |channels| ==>
           && colour.values[i].channel == channels[i].channel
           && exists input: Byte :: Drives(input, channels[i].channel, rgb) &&
                StepsOf(colour.values[i].value, input, channels[i].bits)
    case HsvModel(hue, saturation, value) =>
      && colour.HsvColour? && InPlace(colour.hue, exact.hue, hue)
      && InPlace(colour.saturation, exact.valueSaturation, saturation) && InPlace(colour.value, exact.value, value)
    case HslModel(hue, saturation, lightness) =>
      && colour.HslColour? && InPlace(colour.hue, exact.hue, hue)
      && InPlace(colour.saturation, exact.lightnessSaturation, saturation)
      && InPlace(colour.lightness, LightnessOf(LightOf(rgb)), lightness)
    case MonochromeModel(bits) =>
      && colour.MonochromeColour?
      && exists input: Byte :: IsBrightness(input, rgb) && StepsOf(colour.intensity, input, bits)
  }

  lemma {:induction false} StaticColourIsAccurate(model: StaticModel, rgb: Rgb)
    requires StaticColour(model, rgb).Ok?
    ensures IsAccurate(model, rgb, StaticColour(model, rgb).value)
  {
    match model
    case AdditiveModel(channels) => EmittersAreAccurate(channels, rgb);
    case MonochromeModel(bits) =>
      ChannelSteps(Luminance(rgb), bits);
      assert IsBrightness(Luminance(rgb), rgb);
    case HsvModel(hue, saturation, value) => HsvIsAccurate(hue, saturation, value, rgb);
    case HslModel(hue, saturation, lightness) => HslIsAccurate(hue, saturation, lightness, rgb);
  }

  lemma {:induction false} EmittersAreAccurate(channels: seq<ChannelCapability>, rgb: Rgb)
    requires StaticColour(AdditiveModel(channels), rgb).Ok?
    ensures IsAccurate(AdditiveModel(channels), rgb, StaticColour(AdditiveModel(channels), rgb).value)
  {
    forall i | 0 <= i < |channels|
      ensures exists input: Byte :: Drives(input, channels[i].channel, rgb) &&
                StepsOf(ChannelValues(channels, rgb)[i].value, input, channels[i].bits)
    {
      var input := ChannelInput(channels[i].channel, rgb);
      ChannelSteps(input, channels[i].bits);
      assert Drives(input, channels[i].channel, rgb);
    }
  }

  lemma {:induction false} HsvIsAccurate(hue: Byte, saturation: Byte, value: Byte, rgb: Rgb)
    ensures IsAccurate(HsvModel(hue, saturation, value), rgb, StaticColour(HsvModel(hue, saturation, value), rgb).value)
  {
    var float, exact := FloatHsx(rgb), RgbToHsx(rgb);
    ComponentsAreFloats(rgb);
    FloatHsxIsNear(rgb);
    HsxInRange(LightOf(rgb));
    UnitInPlace(float.hue, exact.hue, hue);
    UnitInPlace(float.valueSaturation, exact.valueSaturation, saturation);
    UnitInPlace(float.value, exact.value, value);
  }

  lemma {:induction false} HslIsAccurate(hue: Byte, saturation: Byte, lightness: Byte, rgb: Rgb)
    ensures var model := HslModel(hue, saturation, lightness); IsAccurate(model, rgb, StaticColour(model, rgb).value)
  {
    var float, exact, light := FloatHsx(rgb), RgbToHsx(rgb), FloatLight(rgb);
    ComponentsAreFloats(rgb);
    FloatHsxIsNear(rgb);
    HsxInRange(LightOf(rgb));
    FloatExtremes(rgb);
    LightnessIsNear(rgb);
    LightnessInRange(rgb);
    UnitInPlace(float.hue, exact.hue, hue);
    UnitInPlace(float.lightnessSaturation, exact.lightnessSaturation, saturation);
    UnitInPlace(FloatLightness(Largest(light), Smallest(light)), LightnessOf(LightOf(rgb)), lightness);
  }

  // ----- The model and the capability behind it

  /** The model is the capability as advertised, of which an additive one keeps each useful channel as often. */
  ghost predicate Advertises(capability: ColourCapability, model: StaticModel) {
    match model
    case AdditiveModel(channels) =>
      && capability.Additive?
      && forall c :: multiset(channels)[c] == if IsUseful(c.channel) then multiset(capability.channels)[c] else 0
    case HsvModel(hue, saturation, value) => capability == Hsv(hue, saturation, value)
    case HslModel(hue, saturation, lightness) => capability == Hsl(hue, saturation, lightness)
    case MonochromeModel(bits) => capability == Monochrome(bits)
  }

  lemma {:induction false} UsefulKeepMultiplicity(channels: seq<ChannelCapability>, c: ChannelCapability)
    ensures multiset(UsefulChannels(channels))[c] == if IsUseful(c.channel) then multiset(channels)[c] else 0
  {
    if channels != [] {
      UsefulKeepMultiplicity(channels[1..], c);
      assert channels == [channels[0]] + channels[1..];
    }
  }

  /** A model comes from an advertised capability before which none can be driven. */
  lemma {:induction false} ModelIsAdvertised(colour: seq<ColourCapability>) returns (i: nat)
    requires StaticModelOf(colour).Some?
    ensures i < |colour| && Advertises(colour[i], StaticModelOf(colour).value)
    ensures forall j :: 0 <= j < i ==> StaticModelOf([colour[j]]).None?
  {
    i :| 0 <= i < |colour| && ModelFor(colour[i]) == StaticModelOf(colour) &&
         forall j :: 0 <= j < i ==> ModelFor(colour[j]).None?;
    if colour[i].Additive? {
      forall c
        ensures multiset(UsefulChannels(colour[i].channels))[c] ==
                if IsUseful(c.channel) then multiset(colour[i].channels)[c] else 0
      {
        UsefulKeepMultiplicity(colour[i].channels, c);
      }
    }
  }
}

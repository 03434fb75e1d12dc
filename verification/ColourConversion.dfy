/** Converting 8-bit RGB into the colour model of a target. */
module ColourConversion {
  import opened Floats
  import opened Reals
  import opened Results
  import opened Topology
  import opened HueSaturation
  import opened SinglePrecision
  import opened StaticColours

  datatype ChannelValue = ChannelValue(channel: ColourChannel, value: nat)

  datatype Colour =
    | AdditiveColour(values: seq<ChannelValue>)
    | HsvColour(hue: nat, saturation: nat, value: nat)
    | HslColour(hue: nat, saturation: nat, lightness: nat)
    | MonochromeColour(intensity: nat)

  datatype ColourError =
    | EmptyAdditive
    | DuplicateAdditiveChannel(channel: ColourChannel)
    | NonAdditiveChannel(channel: ColourChannel)

  // ----- Scaling

  function PowerOfTwo(n: nat): (r: nat)
    ensures r > n
  {
    if n == 0 then 1 else 2 * PowerOfTwo(n - 1)
  }

  /** The largest value of a channel of this many bits, in 32 bits. */
  function Maximum(bits: Byte): (r: nat) {
    if bits == 0 then 0 else if bits <= 31 then PowerOfTwo(bits) - 1 else U32_MAX
  }

  function SaturatingProduct(a: nat, b: nat): nat {
    if a * b <= U32_MAX then a * b else U32_MAX
  }

  function ScaleChannel(value: Byte, bits: Byte): nat {
    SaturatingProduct(value, Maximum(bits)) / 255
  }

  lemma {:induction false} PowersGrow(m: nat, n: nat)
    requires m <= n
    ensures PowerOfTwo(m) <= PowerOfTwo(n)
  {
    if m < n {
      PowersGrow(m, n - 1);
    }
  }

  /** A channel of more than 24 bits can exceed what the product can hold, one of fewer cannot. */
  lemma {:induction false} WidthLimit(bits: Byte)
    ensures Maximum(bits) <= U32_MAX
    ensures bits <= 24 <==> 255 * Maximum(bits) <= U32_MAX
  {
    var narrow, wide, most := 24, 25, 31;
    assert PowerOfTwo(8) == 256;
    assert PowerOfTwo(16) == 65536;
    assert PowerOfTwo(24) == 0x100_0000;
    if bits <= 24 {
      PowersGrow(bits, narrow);
    } else if bits <= 31 {
      PowersGrow(wide, bits);
      PowersGrow(bits, most);
    }
  }

  lemma {:induction false} ProductsGrow(a: nat, b: nat, factor: nat)
    requires a <= b
    ensures a * factor <= b * factor
  {
    assert b * factor == a * factor + (b - a) * factor;
  }

  lemma {:induction false} SaturatingProductsGrow(a: nat, b: nat, factor: nat)
    requires a <= b
    ensures SaturatingProduct(a, factor) <= SaturatingProduct(b, factor) <= b * factor
  {
    ProductsGrow(a, b, factor);
  }

  /** A scaled channel is within its range, whether or not the product saturates. */
  lemma {:induction false} ScaleInRange(value: Byte, bits: Byte)
    ensures ScaleChannel(value, bits) <= Maximum(bits)
  {
    var full: nat := 255;
    SaturatingProductsGrow(value, full, Maximum(bits));
  }

  /** More light gives no smaller a channel. */
  lemma {:induction false} ScaleIsMonotone(value: Byte, more: Byte, bits: Byte)
    requires value <= more
    ensures ScaleChannel(value, bits) <= ScaleChannel(more, bits)
  {
    SaturatingProductsGrow(value, more, Maximum(bits));
  }

  /** Full scale reaches full scale exactly for widths up to 24 bits. */
  lemma {:induction false} FullScaleExactly(bits: Byte)
    ensures ScaleChannel(255, bits) == Maximum(bits) <==> bits <= 24
  {
    WidthLimit(bits);
  }

  /** At 25 bits, full scale comes out at about half the range. */
  lemma {:induction false} WideChannelFallsShort()
    ensures ScaleChannel(255, 25) == 16843009 && Maximum(25) == 33554431
  {
    assert PowerOfTwo(8) == 256;
    assert PowerOfTwo(16) == 65536;
    assert PowerOfTwo(25) == 33554432;
  }

  // ----- Scaling units, in 32-bit floats

  /** The place of a unit in a range. */
  function Place(unit: real, max: real): real {
    unit * max
  }

  function FloatMaximum(bits: Byte): real {
    Float(Maximum(bits) as real)
  }

  /** The nearest integer, saturated at 32 bits. */
  function RoundSaturated(scaled: real): nat
    requires scaled >= 0.0
  {
    if Round(scaled) <= U32_MAX then Round(scaled) else U32_MAX
  }

  function ScaleUnit(value: real, bits: Byte): nat {
    ScaleClamped(Clamp(value), bits)
  }

  function ScaleClamped(unit: real, bits: Byte): nat
    requires 0.0 <= unit
  {
    FloatIsNotNegative(Maximum(bits) as real);
    ScaleTo(unit, FloatMaximum(bits))
  }

  function ScaleTo(unit: real, max: real): nat
    requires 0.0 <= unit && 0.0 <= max
  {
    NotNegative(unit, max);
    FloatIsNotNegative(Place(unit, max));
    RoundSaturated(Float(Place(unit, max)))
  }

  /** Wide enough for the float conversion to round the largest value up, yet not so wide that 32 bits saturate. */
  predicate Wide(bits: Byte) {
    25 <= bits <= 31
  }

  lemma {:induction false} FloatIsNotNegative(x: real)
    requires x >= 0.0
    ensures Float(x) >= 0.0
  {
    MagnitudesAreFloats(x);
  }

  lemma {:induction false} PowerIsScaled(x: real, n: nat)
    ensures Scaled(x, n) == x * PowerOfTwo(n) as real
  {
    if n > 0 {
      PowerIsScaled(x, n - 1);
      assert PowerOfTwo(n) as real == 2.0 * PowerOfTwo(n - 1) as real;
    }
  }

  lemma {:induction false} PowerTwentyFour(n: nat)
    ensures PowerOfTwo(24 + n) as real == Scaled(16777216.0, n)
  {
    if n == 0 {
      assert PowerOfTwo(8) == 256;
      assert PowerOfTwo(16) == 65536;
      assert PowerOfTwo(24) == 0x100_0000;
    } else {
      PowerTwentyFour(n - 1);
    }
  }

  /** What becomes one when doubled `n` times. */
  function Halved(n: nat): (r: real)
    ensures 0.0 < r && (n > 0 ==> r <= 0.5) && Scaled(r, n) == 1.0
  {
    if n == 0 then 1.0
    else
      HalvedDoubles(Halved(n - 1), n - 1);
      Halved(n - 1) / 2.0
  }

  lemma {:induction false} HalvedDoubles(r: real, n: nat)
    ensures Scaled(r / 2.0, n + 1) == Scaled(r, n)
  {
    if n > 0 {
      HalvedDoubles(r, n - 1);
    }
  }

  lemma {:induction false} ScaledDifference(a: real, b: real, n: nat)
    ensures Scaled(a - b, n) == Scaled(a, n) - Scaled(b, n)
  {
    if n > 0 {
      ScaledDifference(a, b, n - 1);
    }
  }

  /** One below a power of two of more than 24 bits rounds up to it. */
  lemma {:induction false} BelowPower(n: nat)
    requires n > 0
    ensures Float(Scaled(16777216.0, n) - 1.0) == Scaled(16777216.0, n)
  {
    var r := Halved(n);
    ScaledDifference(16777216.0, r, n);
    FloatScales(16777216.0 - r, n);
    assert (16777216.0 - r).Floor == 0xFF_FFFF;
  }

  lemma {:induction false} FloatMaximumExactly(bits: Byte)
    ensures FloatMaximum(bits) == Maximum(bits) as real + if bits <= 24 then 0.0 else 1.0
    ensures bits <= 24 ==> Maximum(bits) < LIMIT
    ensures Wide(bits) ==> FloatMaximum(bits) == PowerOfTwo(bits) as real && 0x200_0000 <= PowerOfTwo(bits) <= U32_MAX
  {
    if bits <= 24 {
      var most := 24;
      PowersGrow(bits, most);
      PowerTwentyFour(0);
      IntegersAreFloats(Maximum(bits));
    } else {
      var n := if bits <= 31 then bits - 24 else 8;
      PowerTwentyFour(n);
      BelowPower(n);
      assert bits > 31 ==> PowerOfTwo(24 + n) == U32_MAX + 1 by {
        PowerThirtyTwo();
      }
      if Wide(bits) {
        WidePower(bits);
      }
    }
  }

  lemma {:induction false} PowerThirtyTwo()
    ensures PowerOfTwo(32) == U32_MAX + 1
  {
    PowerTwentyFour(0);
    assert PowerOfTwo(28) == 16 * PowerOfTwo(24);
    assert PowerOfTwo(32) == 16 * PowerOfTwo(28);
  }

  lemma {:induction false} WidePower(bits: Byte)
    requires Wide(bits)
    ensures 0x200_0000 <= PowerOfTwo(bits) <= U32_MAX
  {
    var least, most := 25, 31;
    PowerTwentyFour(0);
    PowerThirtyTwo();
    assert PowerOfTwo(25) == 2 * PowerOfTwo(24);
    assert PowerOfTwo(32) == 2 * PowerOfTwo(31);
    PowersGrow(least, bits);
    PowersGrow(bits, most);
  }

  lemma {:induction false} UnitOf(unit: real, max: real, scaled: real)
    requires 0.0 <= unit <= 1.0 && max >= 0.0 && scaled == Place(unit, max)
    ensures 0.0 <= scaled <= max && (unit == 1.0 ==> scaled == max)
  {
    NotNegative(unit, max);
    NotNegative(1.0 - unit, max);
  }

  lemma {:induction false} ClampedFloat(value: real)
    requires IsFloat(value)
    ensures IsFloat(Clamp(value)) && 0.0 <= Clamp(value) <= 1.0
    ensures if value >= 1.0 then Clamp(value) == 1.0 else Clamp(value) <= 1.0 - ULP
  {
    IntegersAreFloats(0);
    IntegersAreFloats(1);
    if value < 1.0 {
      FloatsBelowOne(value);
    }
  }

  lemma {:induction false} RoundIsNear(scaled: real, max: nat)
    requires 0.0 <= scaled <= max as real
    ensures 0 <= Round(scaled) <= max && Abs(Round(scaled) as real - scaled) <= 0.5
  {
    var rounded := (scaled + 0.5).Floor;
    assert rounded as real <= scaled + 0.5 < rounded as real + 1.0;
  }

  /** Up to 24 bits, the rounded product stays in range and near. */
  lemma {:induction false} NarrowScale(unit: real, max: nat)
    requires 0.0 <= unit <= 1.0 && max < LIMIT
    ensures ScaleTo(unit, max as real) <= max &&
            Abs(ScaleTo(unit, max as real) as real - Place(unit, max as real)) <= 1.0
  {
    UnitOf(unit, max as real, Place(unit, max as real));
    NarrowRound(Place(unit, max as real), max);
  }

  lemma {:induction false} NarrowRound(scaled: real, max: nat)
    requires 0.0 <= scaled <= max as real && max < LIMIT
    ensures Float(scaled) >= 0.0
    ensures RoundSaturated(Float(scaled)) <= max && Abs(RoundSaturated(Float(scaled)) as real - scaled) <= 1.0
  {
    FloatStaysBelow(scaled, max);
    FloatIsNear(scaled);
    RoundIsNear(Float(scaled), max);
  }

  /** Beyond, the product of a float with a power of two is exact. */
  lemma {:induction false} WideScale(unit: real, n: nat)
    requires 0.0 <= unit <= 1.0 && IsFloat(unit)
    ensures Float(Place(unit, PowerOfTwo(n) as real)) == Place(unit, PowerOfTwo(n) as real)
  {
    PowerIsScaled(unit, n);
    FloatScales(unit, n);
  }

  lemma {:induction false} RoundsBelow(unit: real, max: nat)
    requires unit == 1.0 || 0.0 <= unit <= 1.0 - ULP
    requires 0x200_0000 <= max <= U32_MAX && Float(Place(unit, max as real)) == Place(unit, max as real)
    ensures ScaleTo(unit, max as real) <= max && (ScaleTo(unit, max as real) < max <==> unit != 1.0)
  {
    var scaled := Place(unit, max as real);
    UnitOf(unit, max as real, scaled);
    RoundIsNear(scaled, max);
    if unit != 1.0 {
      BelowByUlps(unit, max as real, scaled);
    }
  }

  lemma {:induction false} BelowByUlps(unit: real, max: real, scaled: real)
    requires unit <= 1.0 - ULP && max >= 33554432.0 && scaled == Place(unit, max)
    ensures scaled <= max - 2.0
  {
    NotNegative(1.0 - ULP - unit, max);
  }

  lemma {:induction false} RoundsNear(unit: real, max: nat)
    requires 0.0 <= unit <= 1.0 && max <= U32_MAX &&
             Float(Place(unit, (max + 1) as real)) == Place(unit, (max + 1) as real)
    ensures Abs(ScaleTo(unit, (max + 1) as real) as real - Place(unit, max as real)) <= 1.5
  {
    var scaled, exact := Place(unit, (max + 1) as real), Place(unit, max as real);
    UnitOf(unit, max as real, exact);
    UnitOf(unit, (max + 1) as real, scaled);
    assert scaled == exact + unit;
    RoundIsNear(scaled, max + 1);
  }

  lemma {:induction false} ClampedIs(unit: real, bits: Byte)
    requires IsFloat(unit) && 0.0 <= unit <= 1.0
    ensures bits <= 24 ==> Maximum(bits) < LIMIT && ScaleClamped(unit, bits) == ScaleTo(unit, Maximum(bits) as real)
    ensures bits > 24 ==>
              var max := (Maximum(bits) + 1) as real;
              ScaleClamped(unit, bits) == ScaleTo(unit, max) && Float(Place(unit, max)) == Place(unit, max)
  {
    FloatMaximumExactly(bits);
    if bits > 24 {
      PowerThirtyTwo();
      WideScale(unit, if Wide(bits) then bits else 32);
    }
  }

  lemma {:induction false} ClampedInRange(unit: real, bits: Byte)
    requires IsFloat(unit) && (unit == 1.0 || 0.0 <= unit <= 1.0 - ULP)
    ensures ScaleClamped(unit, bits) <= Maximum(bits) + 1
    ensures ScaleClamped(unit, bits) <= Maximum(bits) <==> !(Wide(bits) && unit == 1.0)
  {
    ClampedIs(unit, bits);
    if bits <= 24 {
      NarrowScale(unit, Maximum(bits));
    } else if Wide(bits) {
      WidePower(bits);
      RoundsBelow(unit, Maximum(bits) + 1);
    }
  }

  lemma {:induction false} ClampedIsNear(unit: real, bits: Byte)
    requires IsFloat(unit) && 0.0 <= unit <= 1.0
    ensures Abs(ScaleClamped(unit, bits) as real - Place(unit, Maximum(bits) as real)) <=
            if bits <= 24 then 1.0 else 1.5
  {
    ClampedIs(unit, bits);
    if bits <= 24 {
      NarrowScale(unit, Maximum(bits));
    } else {
      WidthLimit(bits);
      RoundsNear(unit, Maximum(bits));
    }
  }

  /** A scaled float is in range exactly unless its width is 25 to 31 bits and it is at least one. */
  lemma {:induction false} ScaleUnitInRange(value: real, bits: Byte)
    requires IsFloat(value)
    ensures ScaleUnit(value, bits) <= Maximum(bits) + 1
    ensures ScaleUnit(value, bits) <= Maximum(bits) <==> !(Wide(bits) && value >= 1.0)
  {
    ClampedFloat(value);
    ClampedInRange(Clamp(value), bits);
  }

  /** It is within one step of its exact place in the range, or one and a half where the largest value is rounded. */
  lemma {:induction false} ScaleUnitIsNear(value: real, bits: Byte)
    requires IsFloat(value)
    ensures Abs(ScaleUnit(value, bits) as real - Place(Clamp(value), Maximum(bits) as real)) <=
            if bits <= 24 then 1.0 else 1.5
  {
    ClampedFloat(value);
    ClampedIsNear(Clamp(value), bits);
  }

  // ----- Luminance

  function Luminance(rgb: Rgb): Byte {
    (54 * rgb.r + 183 * rgb.g + 19 * rgb.b) / 256
  }

  predicate NoBrighter(a: Rgb, b: Rgb) {
    a.r <= b.r && a.g <= b.g && a.b <= b.b
  }

  /** Luminance keeps grey, and grows with the channels. */
  lemma {:induction false} LuminanceOfGrey(rgb: Rgb, grey: Byte)
    ensures NoBrighter(rgb, Rgb(grey, grey, grey)) ==> Luminance(rgb) <= grey
    ensures NoBrighter(Rgb(grey, grey, grey), rgb) ==> grey <= Luminance(rgb)
    ensures Luminance(Rgb(grey, grey, grey)) == grey
  {
  }

  // ----- Additive colours

  predicate IsAdditive(channel: ColourChannel) {
    IsUseful(channel) || channel.Amber? || channel.Ultraviolet?
  }

  /** The first reason to refuse the values, after those of the channels already seen. */
  function Fault(values: seq<ChannelValue>, seen: set<ColourChannel>): Option<ColourError> {
    if values == [] then None
    else if !IsAdditive(values[0].channel) then Some(NonAdditiveChannel(values[0].channel))
    else if values[0].channel in seen then Some(DuplicateAdditiveChannel(values[0].channel))
    else Fault(values[1..], seen + {values[0].channel})
  }

  function Additive(values: seq<ChannelValue>): Result<Colour, ColourError> {
    if values == [] then Err(EmptyAdditive)
    else
      match Fault(values, {})
      case Some(error) => Err(error)
      case None => Ok(AdditiveColour(values))
  }

  method ValidateAdditive(values: seq<ChannelValue>) returns (r: Result<(), ColourError>)
    ensures r.Ok? <==> Additive(values).Ok?
    ensures r.Err? ==> Additive(values) == Err(r.error)
  {
    if values == [] {
      return Err(EmptyAdditive);
    }
    var seen := {};
    assert values[0..] == values;
    for i := 0 to |values|
      invariant Fault(values, {}) == Fault(values[i..], seen)
    {
      assert values[i..][0] == values[i] && values[i..][1..] == values[i + 1..];
      if !IsAdditive(values[i].channel) {
        return Err(NonAdditiveChannel(values[i].channel));
      }
      if values[i].channel in seen {
        return Err(DuplicateAdditiveChannel(values[i].channel));
      }
      seen := seen + {values[i].channel};
    }
    return Ok(());
  }

  /** The channel of value `i` is among `seen`, or that of an earlier value. */
  ghost predicate SeenBefore(values: seq<ChannelValue>, seen: set<ColourChannel>, i: nat)
    requires i < |values|
  {
    values[i].channel in seen || exists j :: 0 <= j < i && values[j].channel == values[i].channel
  }

  ghost predicate Faulty(values: seq<ChannelValue>, seen: set<ColourChannel>, i: nat)
    requires i < |values|
  {
    !IsAdditive(values[i].channel) || SeenBefore(values, seen, i)
  }

  ghost predicate FaultyFirst(values: seq<ChannelValue>, seen: set<ColourChannel>, i: nat) {
    i < |values| && Faulty(values, seen, i) && forall j :: 0 <= j < i ==> !Faulty(values, seen, j)
  }

  /**
   Values are refused exactly if one is not of an emitter or repeats one, and the error is that of the
   first such value.
   */
  lemma {:induction false} FaultExactly(values: seq<ChannelValue>, seen: set<ColourChannel>)
    ensures var fault := Fault(values, seen);
            && (fault.None? <==> forall i :: 0 <= i < |values| ==> !Faulty(values, seen, i))
            && (fault.Some? ==>
                  exists i: nat :: FaultyFirst(values, seen, i) &&
                    fault.value == if IsAdditive(values[i].channel) then DuplicateAdditiveChannel(values[i].channel)
                                   else NonAdditiveChannel(values[i].channel))
  {
    if values != [] {
      if Faulty(values, seen, 0) {
        assert FaultyFirst(values, seen, 0);
      } else {
        var rest, more := values[1..], seen + {values[0].channel};
        FaultExactly(rest, more);
        forall i: nat | i < |rest|
          ensures Faulty(rest, more, i) <==> Faulty(values, seen, i + 1)
        {
          FaultyLater(values, seen, i);
        }
        if i: nat :| FaultyFirst(rest, more, i) {
          FaultyFirstLater(values, seen, i);
        }
        assert forall i :: 1 <= i < |values| ==> (Faulty(values, seen, i) <==> Faulty(rest, more, i - 1));
      }
    }
  }

  lemma {:induction false} FaultyLater(values: seq<ChannelValue>, seen: set<ColourChannel>, i: nat)
    requires i + 1 < |values|
    ensures Faulty(values[1..], seen + {values[0].channel}, i) <==> Faulty(values, seen, i + 1)
  {
    var rest, more := values[1..], seen + {values[0].channel};
    assert rest[i] == values[i + 1];
    if SeenBefore(values, seen, i + 1) && values[i + 1].channel !in more {
      var j :| 0 <= j < i + 1 && values[j].channel == values[i + 1].channel;
      assert rest[j - 1] == values[j];
    }
    if SeenBefore(rest, more, i) && values[i + 1].channel !in seen {
      if values[i + 1].channel != values[0].channel {
        var j :| 0 <= j < i && rest[j].channel == rest[i].channel;
        assert values[j + 1] == rest[j];
      }
    }
  }

  lemma {:induction false} FaultyFirstLater(values: seq<ChannelValue>, seen: set<ColourChannel>, i: nat)
    requires values != [] && !Faulty(values, seen, 0) && FaultyFirst(values[1..], seen + {values[0].channel}, i)
    ensures FaultyFirst(values, seen, i + 1)
  {
    FaultyLater(values, seen, i);
    forall j | 0 <= j < i + 1
      ensures !Faulty(values, seen, j)
    {
      if j > 0 {
        FaultyLater(values, seen, j - 1);
      }
    }
  }

  function ChannelInput(channel: ColourChannel, rgb: Rgb): Byte {
    match channel
    case Red => rgb.r
    case Green => rgb.g
    case Blue => rgb.b
    case White | WarmWhite | CoolWhite => Luminance(rgb)
    case _ => 0
  }

  function ChannelValues(channels: seq<ChannelCapability>, rgb: Rgb): seq<ChannelValue> {
    seq(|channels|, i requires 0 <= i < |channels| =>
      ChannelValue(channels[i].channel, ScaleChannel(ChannelInput(channels[i].channel, rgb), channels[i].bits)))
  }

  function StaticColour(model: StaticModel, rgb: Rgb): Result<Colour, ColourError> {
    var hsx, light := FloatHsx(rgb), FloatLight(rgb);
    match model
    case AdditiveModel(channels) => Additive(ChannelValues(channels, rgb))
    case HsvModel(hue, saturation, value) =>
      Ok(HsvColour(ScaleUnit(hsx.hue, hue), ScaleUnit(hsx.valueSaturation, saturation), ScaleUnit(hsx.value, value)))
    case HslModel(hue, saturation, lightness) =>
      Ok(HslColour(ScaleUnit(hsx.hue, hue), ScaleUnit(hsx.lightnessSaturation, saturation),
                   ScaleUnit(FloatLightness(Largest(light), Smallest(light)), lightness)))
    case MonochromeModel(bits) => Ok(MonochromeColour(ScaleChannel(Luminance(rgb), bits)))
  }

  /** Whether a colour is in the model, every component within the bits that the target advertises for it. */
  ghost predicate Fits(model: StaticModel, colour: Colour) {
    match model
    case AdditiveModel(channels) =>
      && colour.AdditiveColour? && |colour.values| == |channels|
      && forall i :: 0 <= i < |channels| ==>
           colour.values[i].channel == channels[i].channel && colour.values[i].value <= Maximum(channels[i].bits)
    case HsvModel(hue, saturation, value) =>
      colour.HsvColour? && colour.hue <= Maximum(hue) && colour.saturation <= Maximum(saturation) &&
        colour.value <= Maximum(value)
    case HslModel(hue, saturation, lightness) =>
      colour.HslColour? && colour.hue <= Maximum(hue) && colour.saturation <= Maximum(saturation) &&
        colour.lightness <= Maximum(lightness)
    case MonochromeModel(bits) => colour.MonochromeColour? && colour.intensity <= Maximum(bits)
  }

  /** The colour has a component that reaches one in 32-bit floats, for which the model has 25 to 31 bits. */
  predicate Overshoots(model: StaticModel, rgb: Rgb) {
    var darkest, brightest := Darkest(rgb), Brightest(rgb);
    match model
    case HsvModel(_, saturation, value) =>
      (Wide(saturation) && darkest == 0 < brightest) || (Wide(value) && brightest == 255)
    case HslModel(_, saturation, lightness) =>
      (Wide(saturation) && SaturationIsFull(darkest, brightest)) || (Wide(lightness) && darkest == 255)
    case _ => false
  }

  /**
   For a model chosen from capabilities the colour is refused exactly if the model lists an emitter
   twice. Otherwise it fits the model exactly unless it overshoots.
   */
  lemma {:induction false} StaticColourFits(capabilities: seq<ColourCapability>, rgb: Rgb)
    requires StaticModelOf(capabilities).Some?
    ensures var model := StaticModelOf(capabilities).value;
            var colour := StaticColour(model, rgb);
            && (colour.Err? ==> colour.error.DuplicateAdditiveChannel?)
            && (colour.Ok? <==> (model.AdditiveModel? ==> DistinctEmitters(model.channels)))
            && (colour.Ok? ==> (Fits(model, colour.value) <==> !Overshoots(model, rgb)))
  {
    var model := StaticModelOf(capabilities).value;
    match model
    case AdditiveModel(channels) =>
      ModelIsUseful(capabilities);
      AdditiveFits(channels, rgb);
    case MonochromeModel(bits) => ScaleInRange(Luminance(rgb), bits);
    case HsvModel(hue, saturation, value) => HsvFits(hue, saturation, value, rgb);
    case HslModel(hue, saturation, lightness) => HslFits(hue, saturation, lightness, rgb);
  }

  lemma {:induction false} AdditiveFits(channels: seq<ChannelCapability>, rgb: Rgb)
    requires channels != [] && forall c :: c in channels ==> IsUseful(c.channel)
    ensures var model := AdditiveModel(channels);
            var colour := StaticColour(model, rgb);
            && (colour.Ok? <==> DistinctEmitters(channels))
            && (colour.Ok? ==> Fits(model, colour.value))
            && (colour.Err? ==> colour.error.DuplicateAdditiveChannel?)
  {
    var values := ChannelValues(channels, rgb);
    FaultExactly(values, {});
    forall i: nat | i < |values|
      ensures IsAdditive(values[i].channel)
    {
      assert channels[i] in channels;
    }
    DistinctExactly(channels, values);
    forall i | 0 <= i < |channels|
      ensures values[i].value <= Maximum(channels[i].bits)
    {
      ScaleInRange(ChannelInput(channels[i].channel, rgb), channels[i].bits);
    }
  }

  lemma {:induction false} DistinctExactly(channels: seq<ChannelCapability>, values: seq<ChannelValue>)
    requires |channels| == |values|
    requires forall i :: 0 <= i < |values| ==> values[i].channel == channels[i].channel && IsAdditive(values[i].channel)
    ensures (forall i :: 0 <= i < |values| ==> !Faulty(values, {}, i)) <==> DistinctEmitters(channels)
  {
    if forall i :: 0 <= i < |values| ==> !Faulty(values, {}, i) {
      forall i, j | 0 <= i < j < |channels|
        ensures channels[i].channel != channels[j].channel
      {
        assert !Faulty(values, {}, j);
        assert values[i].channel == channels[i].channel;
      }
    }
  }

  lemma {:induction false} HsvFits(hue: Byte, saturation: Byte, value: Byte, rgb: Rgb)
    ensures var model := HsvModel(hue, saturation, value);
            StaticColour(model, rgb).Ok? && (Fits(model, StaticColour(model, rgb).value) <==> !Overshoots(model, rgb))
  {
    var hsx := FloatHsx(rgb);
    ComponentsAreFloats(rgb);
    FullComponentsIn32(rgb);
    FullValueSaturationIn32(rgb);
    ScaleUnitInRange(hsx.hue, hue);
    ScaleUnitInRange(hsx.valueSaturation, saturation);
    ScaleUnitInRange(hsx.value, value);
  }

  lemma {:induction false} HslFits(hue: Byte, saturation: Byte, lightness: Byte, rgb: Rgb)
    ensures var model := HslModel(hue, saturation, lightness);
            StaticColour(model, rgb).Ok? && (Fits(model, StaticColour(model, rgb).value) <==> !Overshoots(model, rgb))
  {
    var hsx := FloatHsx(rgb);
    FloatExtremes(rgb);
    ComponentsAreFloats(rgb);
    FullComponentsIn32(rgb);
    FullLightnessSaturationIn32(rgb);
    ScaleUnitInRange(hsx.hue, hue);
    ScaleUnitInRange(hsx.lightnessSaturation, saturation);
    ScaleUnitInRange(FloatLightness(FloatChannel(Brightest(rgb)), FloatChannel(Darkest(rgb))), lightness);
  }

  /** White on a target with 25 to 31 bits of value comes out one above the largest value. */
  lemma {:induction false} WideValueOvershoots(white: Rgb, hue: Byte, saturation: Byte, value: Byte)
    requires Darkest(white) == 255 && Wide(value)
    ensures white == Rgb(255, 255, 255)
    ensures StaticColour(HsvModel(hue, saturation, value), white) == Ok(HsvColour(0, 0, Maximum(value) + 1))
  {
    WhiteComponents(white);
    ScaleUnitOfZero(hue);
    ScaleUnitOfZero(saturation);
    FullScaleOvershoots(FloatHsx(white).value, value);
  }

  lemma {:induction false} FullScaleOvershoots(value: real, bits: Byte)
    requires IsFloat(value) && value >= 1.0 && Wide(bits)
    ensures ScaleUnit(value, bits) == Maximum(bits) + 1
  {
    ScaleUnitInRange(value, bits);
  }

  lemma {:induction false} WhiteComponents(white: Rgb)
    requires Darkest(white) == 255
    ensures FloatHsx(white).hue == 0.0 && FloatHsx(white).valueSaturation == 0.0
    ensures IsFloat(FloatHsx(white).value) && FloatHsx(white).value >= 1.0
  {
    FloatHueIs(white);
    ComponentsAreFloats(white);
    FullComponentsIn32(white);
    WhiteHasNoSaturation(white);
  }

  lemma {:induction false} WhiteHasNoSaturation(white: Rgb)
    requires Darkest(white) == 255
    ensures FloatHsx(white).valueSaturation == 0.0
  {
    var largest := FloatChannel(Brightest(white));
    FloatValueSaturation(white);
    assert largest - FloatChannel(Darkest(white)) == 0.0;
    IntegersAreFloats(0);
    assert 0.0 / largest == 0.0;
  }

  lemma {:induction false} ScaleUnitOfZero(bits: Byte)
    ensures ScaleUnit(0.0, bits) == 0
  {
    IntegersAreFloats(0);
    assert Place(0.0, FloatMaximum(bits)) == 0.0;
  }

  ghost predicate DistinctEmitters(channels: seq<ChannelCapability>) {
    forall i, j :: 0 <= i < j < |channels| ==> channels[i].channel != channels[j].channel
  }

  /** An additive model lists at least one channel, and only emitters. */
  lemma {:induction false} ModelIsUseful(capabilities: seq<ColourCapability>)
    requires StaticModelOf(capabilities).Some?
    ensures var model := StaticModelOf(capabilities).value;
            model.AdditiveModel? ==> model.channels != [] && forall c :: c in model.channels ==> IsUseful(c.channel)
  {
    if ModelFor(capabilities[0]).None? {
      ModelIsUseful(capabilities[1..]);
    }
  }

  /** The components of an additive or monochrome colour. */
  function Components(colour: Colour): seq<nat> {
    match colour
    case AdditiveColour(values) => seq(|values|, i requires 0 <= i < |values| => values[i].value)
    case MonochromeColour(intensity) => [intensity]
    case _ => []
  }

  /** Brighter input makes no component of an additive or monochrome colour darker. */
  lemma {:induction false} StaticColourIsMonotone(model: StaticModel, rgb: Rgb, brighter: Rgb)
    requires NoBrighter(rgb, brighter) && (model.AdditiveModel? || model.MonochromeModel?)
    ensures StaticColour(model, rgb).Ok? <==> StaticColour(model, brighter).Ok?
    ensures StaticColour(model, rgb).Ok? ==>
              var a, b := Components(StaticColour(model, rgb).value), Components(StaticColour(model, brighter).value);
              |a| == |b| && forall i :: 0 <= i < |a| ==> a[i] <= b[i]
  {
    match model
    case AdditiveModel(channels) =>
      SameFault(ChannelValues(channels, rgb), ChannelValues(channels, brighter), {});
      forall i | 0 <= i < |channels|
        ensures ChannelValues(channels, rgb)[i].value <= ChannelValues(channels, brighter)[i].value
      {
        ScaleIsMonotone(ChannelInput(channels[i].channel, rgb), ChannelInput(channels[i].channel, brighter),
          channels[i].bits);
      }
    case MonochromeModel(bits) => ScaleIsMonotone(Luminance(rgb), Luminance(brighter), bits);
  }

  /** Faults depend on the channels only. */
  lemma {:induction false} SameFault(a: seq<ChannelValue>, b: seq<ChannelValue>, seen: set<ColourChannel>)
    requires |a| == |b| && forall i :: 0 <= i < |a| ==> a[i].channel == b[i].channel
    ensures Fault(a, seen) == Fault(b, seen)
  {
    if a != [] {
      SameFault(a[1..], b[1..], seen + {a[0].channel});
    }
  }
}

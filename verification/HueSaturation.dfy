/** Hue, saturation and value of 8-bit colours, over exact reals. */
module HueSaturation {
  import opened Reals
  import opened Topology

  /** The spacing of 32-bit floats at one. */
  const EPSILON: real := 1.0 / 8388608.0

  /** A colour whose channels are intensities. */
  datatype Light = Light(red: real, green: real, blue: real)

  /** Hue and value, and the saturations that go with value and with lightness. */
  datatype Hsx = Hsx(hue: real, valueSaturation: real, value: real, lightnessSaturation: real)

  function Max(a: real, b: real): real {
    if a < b then b else a
  }

  function Min(a: real, b: real): real {
    if b < a then b else a
  }

  function Clamp(x: real): real {
    Min(Max(x, 0.0), 1.0)
  }

  /** The remainder of `x` by `m` that is not negative. */
  function RemEuclid(x: real, m: real): real
    requires m > 0.0
  {
    x - m * (x / m).Floor as real
  }

  /** What is left of `x` when truncated toward zero. */
  function Fract(x: real): real {
    if x >= 0.0 then x - x.Floor as real else x + (-x).Floor as real
  }

  /** The nearest integer, for numbers that are not negative. */
  function Round(x: real): int {
    (x + 0.5).Floor
  }

  function Largest(c: Light): real {
    Max(Max(c.red, c.green), c.blue)
  }

  function Smallest(c: Light): real {
    Min(Min(c.red, c.green), c.blue)
  }

  function LightOf(rgb: Rgb): Light {
    Light(rgb.r as real / 255.0, rgb.g as real / 255.0, rgb.b as real / 255.0)
  }

  /** The difference of the two channels that follow the largest one round the circle. */
  function Difference(c: Light): real {
    if Largest(c) == c.red then c.green - c.blue
    else if Largest(c) == c.green then c.blue - c.red
    else c.red - c.green
  }

  /** The hue that lies `q` sixths of the circle from the primary of the largest channel. */
  function HueFrom(c: Light, q: real): real {
    if Largest(c) == c.red then RemEuclid(q, 6.0) / 6.0
    else if Largest(c) == c.green then (q + 2.0) / 6.0
    else (q + 4.0) / 6.0
  }

  function HueOf(c: Light): real {
    var delta := Largest(c) - Smallest(c);
    if delta <= EPSILON then 0.0 else HueFrom(c, Difference(c) / delta)
  }

  function LightnessOf(c: Light): real {
    (Largest(c) + Smallest(c)) / 2.0
  }

  function ToHsx(c: Light): Hsx
    requires 0.0 <= Smallest(c) && Largest(c) <= 1.0
  {
    var delta := Largest(c) - Smallest(c);
    var valueSaturation := if Largest(c) <= EPSILON then 0.0 else delta / Largest(c);
    LightnessDivisor(c);
    var lightnessSaturation := if delta <= EPSILON then 0.0 else delta / (1.0 - Abs(2.0 * LightnessOf(c) - 1.0));
    Hsx(HueOf(c), valueSaturation, Largest(c), lightnessSaturation)
  }

  /** The divisor of the lightness saturation is at least the difference that it divides. */
  lemma LightnessDivisor(c: Light)
    requires 0.0 <= Smallest(c) && Largest(c) <= 1.0
    ensures Largest(c) - Smallest(c) <= 1.0 - Abs(2.0 * LightnessOf(c) - 1.0)
  {
  }

  function Sector(hue: real): int {
    (RemEuclid(hue, 1.0) * 6.0).Floor
  }

  /** The light of a hue, saturation and value. */
  function FromHsv(hue: real, saturation: real, value: real): Light {
    var fraction := Fract(hue * 6.0);
    var low := value * (1.0 - saturation);
    var descending := value * (1.0 - saturation * fraction);
    var ascending := value * (1.0 - saturation * (1.0 - fraction));
    match Sector(hue)
    case 0 => Light(value, ascending, low)
    case 1 => Light(descending, value, low)
    case 2 => Light(low, value, ascending)
    case 3 => Light(low, descending, value)
    case 4 => Light(ascending, low, value)
    case _ => Light(value, low, descending)
  }

  function ToChannel(value: real): Byte {
    var scaled := Clamp(value) * 255.0;
    assert 0.0 <= scaled <= 255.0;
    Round(scaled)
  }

  function HsvRgb(hue: real, saturation: real, value: real): Rgb {
    var light := FromHsv(hue, saturation, value);
    Rgb(ToChannel(light.red), ToChannel(light.green), ToChannel(light.blue))
  }

  /** A hue is its sector and the fraction of the way through it. */
  lemma SectorAndFraction(hue: real, sector: int, fraction: real)
    requires 0 <= sector <= 5 && 0.0 <= fraction < 1.0 && hue * 6.0 == sector as real + fraction
    ensures Sector(hue) == sector && Fract(hue * 6.0) == fraction
  {
    assert (hue / 1.0).Floor == 0;
    assert (hue * 6.0).Floor == sector;
  }

  /** The light of a sector, given the difference and the part of it that the sector's third channel has covered. */
  function InSector(sector: int, value: real, delta: real, part: real): Light {
    match sector
    case 0 => Light(value, value - delta + part, value - delta)
    case 1 => Light(value - part, value, value - delta)
    case 2 => Light(value - delta, value, value - delta + part)
    case 3 => Light(value - delta, value - part, value)
    case 4 => Light(value - delta + part, value - delta, value)
    case _ => Light(value, value - delta, value - part)
  }

  lemma FromHsvInSector(hue: real, saturation: real, value: real, sector: int, fraction: real, delta: real, part: real)
    requires 0 <= sector <= 5 && 0.0 <= fraction < 1.0 && hue * 6.0 == sector as real + fraction
    requires value * saturation == delta && delta * fraction == part
    ensures FromHsv(hue, saturation, value) == InSector(sector, value, delta, part)
  {
    SectorAndFraction(hue, sector, fraction);
    Products(value, saturation, fraction, delta, part);
  }

  lemma Products(value: real, saturation: real, fraction: real, delta: real, part: real)
    requires value * saturation == delta && delta * fraction == part
    ensures value * (1.0 - saturation) == value - delta
    ensures value * (1.0 - saturation * fraction) == value - part
    ensures value * (1.0 - saturation * (1.0 - fraction)) == value - delta + part
  {
    assert value * (saturation * fraction) == part;
  }

  lemma Ratio(part: real, whole: real) returns (q: real)
    requires whole > 0.0
    ensures q == part / whole && q * whole == part
  {
    q := part / whole;
  }

  lemma RatioBounds(part: real, whole: real, q: real)
    requires whole > 0.0 && q * whole == part
    ensures part < 0.0 <==> q < 0.0
    ensures part < whole <==> q < 1.0
    ensures part == whole <==> q == 1.0
    ensures -whole <= part <==> -1.0 <= q
  {
    assert (q - 1.0) * whole == part - whole;
    assert (q + 1.0) * whole == part + whole;
  }

  /** Where a signed difference lies, seen from the start of sector `base`. */
  lemma Turn(difference: real, delta: real, base: int, q: real) returns (sector: int, fraction: real, part: real)
    requires delta > 0.0 && -delta <= difference <= delta && q * delta == difference
    ensures -1.0 <= q <= 1.0 && (q < 0.0 <==> difference < 0.0)
    ensures q + base as real == sector as real + fraction && 0.0 <= fraction < 1.0
    ensures delta * fraction == part
    ensures Placed(difference, delta, base, sector, part)
  {
    RatioBounds(difference, delta, q);
    if difference < 0.0 {
      sector, fraction, part := base - 1, 1.0 + q, delta + difference;
    } else if difference < delta {
      sector, fraction, part := base, q, difference;
    } else {
      sector, fraction, part := base + 1, 0.0, 0.0;
    }
  }

  lemma AroundRed(x: real)
    requires -1.0 <= x <= 1.0
    ensures RemEuclid(x, 6.0) == if x < 0.0 then x + 6.0 else x
  {
    assert (x / 6.0).Floor == if x < 0.0 then -1 else 0;
  }

  /** Where a difference lies is where the third channel of a sector must be. */
  ghost predicate Placed(difference: real, delta: real, base: int, sector: int, part: real) {
    && (difference < 0.0 ==> sector == base - 1 && part == delta + difference)
    && (0.0 <= difference < delta ==> sector == base && part == difference)
    && (difference == delta ==> sector == base + 1 && part == 0.0)
  }

  lemma RedSector(c: Light, sector: int, part: real)
    requires Largest(c) == c.red && Placed(c.green - c.blue, c.red - Smallest(c), 0, sector, part)
    ensures InSector(if sector < 0 then 5 else sector, c.red, c.red - Smallest(c), part) == c
    ensures c.green - c.blue < 0.0 ==> sector == -1
    ensures sector <= 1
  {
  }

  lemma GreenSector(c: Light, sector: int, part: real)
    requires c.red < c.green == Largest(c) && Placed(c.blue - c.red, c.green - Smallest(c), 2, sector, part)
    ensures 1 <= sector <= 3 && InSector(sector, c.green, c.green - Smallest(c), part) == c
  {
  }

  lemma BlueSector(c: Light, sector: int, part: real)
    requires c.red < c.blue && c.green < c.blue && Placed(c.red - c.green, c.blue - Smallest(c), 4, sector, part)
    ensures 3 <= sector <= 4 && InSector(sector, c.blue, c.blue - Smallest(c), part) == c
  {
  }

  lemma HueFromRatio(c: Light, delta: real) returns (q: real)
    requires delta == Largest(c) - Smallest(c) && delta > EPSILON
    ensures q * delta == Difference(c) && HueOf(c) == HueFrom(c, q)
  {
    q := Ratio(Difference(c), delta);
  }

  /** The sector of a hue, the fraction of it that is covered, and the part of the difference that makes. */
  lemma HueInSector(c: Light, value: real, delta: real, q: real) returns (sector: int, fraction: real, part: real)
    requires value == Largest(c) && delta == value - Smallest(c) && delta > 0.0 && q * delta == Difference(c)
    ensures 0 <= sector <= 5 && 0.0 <= fraction < 1.0 && HueFrom(c, q) * 6.0 == sector as real + fraction
    ensures delta * fraction == part && InSector(sector, value, delta, part) == c
  {
    if value == c.red {
      sector, fraction, part := Turn(c.green - c.blue, delta, 0, q);
      RedSector(c, sector, part);
      AroundRed(q);
      if sector < 0 {
        sector := 5;
      }
    } else if value == c.green {
      sector, fraction, part := Turn(c.blue - c.red, delta, 2, q);
      GreenSector(c, sector, part);
    } else {
      sector, fraction, part := Turn(c.red - c.green, delta, 4, q);
      BlueSector(c, sector, part);
    }
  }

  /** Coloured light survives the conversion to hue, saturation and value and back. */
  lemma ColouredRoundTrips(c: Light)
    requires 0.0 <= Smallest(c) && Largest(c) <= 1.0 && Largest(c) - Smallest(c) > EPSILON
    ensures FromHsv(ToHsx(c).hue, ToHsx(c).valueSaturation, ToHsx(c).value) == c
  {
    var value, delta := Largest(c), Largest(c) - Smallest(c);
    var q := HueFromRatio(c, delta);
    var sector, fraction, part := HueInSector(c, value, delta, q);
    var saturation := Ratio(delta, value);
    FromHsvInSector(HueOf(c), saturation, value, sector, fraction, delta, part);
  }

  /** Grey light survives. */
  lemma GreyRoundTrips(c: Light)
    requires 0.0 <= Smallest(c) == Largest(c) <= 1.0
    ensures FromHsv(ToHsx(c).hue, ToHsx(c).valueSaturation, ToHsx(c).value) == c
  {
    FromHsvInSector(0.0, ToHsx(c).valueSaturation, Largest(c), 0, 0.0, 0.0, 0.0);
  }

  /** Light of too little colour loses its hue, and survives only if it has the hue that stands for none. */
  lemma FaintRoundTrips(c: Light)
    requires 0.0 <= Smallest(c) < Largest(c) <= 1.0 && Largest(c) - Smallest(c) <= EPSILON
    ensures FromHsv(ToHsx(c).hue, ToHsx(c).valueSaturation, ToHsx(c).value) == c <==>
            Largest(c) > EPSILON && c.red == Largest(c) && c.green == c.blue
  {
    var value, delta := Largest(c), Largest(c) - Smallest(c);
    if value <= EPSILON {
      FromHsvInSector(0.0, 0.0, value, 0, 0.0, 0.0, 0.0);
    } else {
      var saturation := Ratio(delta, value);
      FromHsvInSector(0.0, saturation, value, 0, 0.0, delta, 0.0);
    }
  }

  /**
   The conversion to hue, saturation and value loses exactly the light whose colour is too faint, unless
   it is pure red.
   */
  lemma LightRoundTripsExactly(c: Light)
    requires 0.0 <= Smallest(c) && Largest(c) <= 1.0
    ensures FromHsv(ToHsx(c).hue, ToHsx(c).valueSaturation, ToHsx(c).value) == c <==>
            || Largest(c) - Smallest(c) > EPSILON
            || Largest(c) == Smallest(c)
            || (Largest(c) > EPSILON && c.red == Largest(c) && c.green == c.blue)
  {
    if Largest(c) - Smallest(c) > EPSILON {
      ColouredRoundTrips(c);
    } else if Largest(c) == Smallest(c) {
      GreyRoundTrips(c);
    } else {
      FaintRoundTrips(c);
    }
  }

  /** A byte survives as an intensity. */
  lemma ChannelRoundTrips(n: Byte)
    ensures ToChannel(n as real / 255.0) == n
  {
  }

  function RgbToHsx(rgb: Rgb): Hsx {
    BytesAreApart(rgb);
    ToHsx(LightOf(rgb))
  }

  /** Every 8-bit colour survives the conversion to hue, saturation and value and back. */
  lemma RgbRoundTrips(rgb: Rgb)
    ensures var hsx := RgbToHsx(rgb);
            HsvRgb(hsx.hue, hsx.valueSaturation, hsx.value) == rgb
  {
    var c := LightOf(rgb);
    BytesAreApart(rgb);
    LightRoundTripsExactly(c);
    ChannelRoundTrips(rgb.r);
    ChannelRoundTrips(rgb.g);
    ChannelRoundTrips(rgb.b);
  }

  lemma DistinctBytesAreApart(m: Byte, n: Byte)
    requires m < n
    ensures n as real / 255.0 - m as real / 255.0 > EPSILON
  {
    assert n as real - m as real >= 1.0;
  }

  function Brightest(rgb: Rgb): Byte {
    if rgb.r >= rgb.g && rgb.r >= rgb.b then rgb.r else if rgb.g >= rgb.b then rgb.g else rgb.b
  }

  function Darkest(rgb: Rgb): Byte {
    if rgb.r <= rgb.g && rgb.r <= rgb.b then rgb.r else if rgb.g <= rgb.b then rgb.g else rgb.b
  }

  lemma ExtremesOfBytes(rgb: Rgb)
    ensures Largest(LightOf(rgb)) == Brightest(rgb) as real / 255.0
    ensures Smallest(LightOf(rgb)) == Darkest(rgb) as real / 255.0
  {
  }

  /** The channels of an 8-bit colour differ by more than rounding, or not at all. */
  lemma BytesAreApart(rgb: Rgb)
    ensures var c := LightOf(rgb);
            0.0 <= Smallest(c) && Largest(c) <= 1.0 && (Largest(c) == Smallest(c) || Largest(c) - Smallest(c) > EPSILON)
  {
    ExtremesOfBytes(rgb);
    if Darkest(rgb) < Brightest(rgb) {
      DistinctBytesAreApart(Darkest(rgb), Brightest(rgb));
    }
  }

  /** A hue of less than a turn has a sector and a fraction. */
  lemma SplitHue(hue: real) returns (sector: int, fraction: real)
    requires 0.0 <= hue < 1.0
    ensures 0 <= sector <= 5 && 0.0 <= fraction < 1.0 && hue * 6.0 == sector as real + fraction
  {
    sector := (hue * 6.0).Floor;
    fraction := hue * 6.0 - sector as real;
  }

  lemma InSectorExtremes(sector: int, value: real, delta: real, part: real)
    requires 0 <= sector <= 5 && 0.0 <= part < delta
    ensures var c := InSector(sector, value, delta, part);
            Largest(c) == value && Smallest(c) == value - delta
  {
  }

  /** A product with a positive number has the sign of its other factor. */
  lemma ProductSign(a: real, b: real, product: real)
    requires b > 0.0 && a * b == product
    ensures (product == 0.0 <==> a == 0.0) && (product < 0.0 <==> a < 0.0)
  {
  }

  lemma SameRatio(delta: real, fraction: real, part: real, q: real, difference: real)
    requires delta > 0.0 && delta * fraction == part && q * delta == difference
    ensures difference == part <==> q == fraction
    ensures difference == part - delta <==> q == fraction - 1.0
    ensures difference == delta <==> q == 1.0
  {
    ProductSign(q - fraction, delta, difference - part);
    ProductSign(q - fraction + 1.0, delta, difference - part + delta);
    ProductSign(q - 1.0, delta, difference - delta);
  }

  lemma InSectorHue(sector: int, fraction: real, value: real, delta: real, part: real, q: real)
    requires 0 <= sector <= 5 && 0.0 <= fraction < 1.0 && delta > 0.0 && delta * fraction == part
    requires q * delta == Difference(InSector(sector, value, delta, part))
    ensures HueFrom(InSector(sector, value, delta, part), q) * 6.0 == sector as real + fraction
  {
    var c := InSector(sector, value, delta, part);
    SameRatio(delta, fraction, part, q, Difference(c));
    PartBounds(delta, fraction, part);
    InSectorExtremes(sector, value, delta, part);
    if c.red == value {
      AroundRed(q);
    }
  }

  lemma PartBounds(delta: real, fraction: real, part: real)
    requires delta > 0.0 && 0.0 <= fraction < 1.0 && delta * fraction == part
    ensures 0.0 <= part < delta && (part == 0.0 <==> fraction == 0.0)
  {
    ProductSign(fraction, delta, part);
    ProductSign(1.0 - fraction, delta, delta - part);
  }

  /** Conversely, a hue, saturation and value with enough colour survive the conversion to light and back. */
  lemma HsvRoundTrips(hue: real, saturation: real, value: real)
    requires 0.0 <= hue < 1.0 && 0.0 < saturation <= 1.0 && 0.0 < value <= 1.0 && value * saturation > EPSILON
    ensures var c := FromHsv(hue, saturation, value);
            && 0.0 <= Smallest(c) && Largest(c) <= 1.0
            && ToHsx(c).hue == hue && ToHsx(c).valueSaturation == saturation && ToHsx(c).value == value
  {
    var delta := value * saturation;
    var sector, fraction := SplitHue(hue);
    var part := delta * fraction;
    FromHsvInSector(hue, saturation, value, sector, fraction, delta, part);
    ProductSign(1.0 - saturation, value, value - delta);
    InSectorRoundTrips(hue, saturation, value, sector, fraction, delta, part);
  }

  lemma InSectorRoundTrips(hue: real, saturation: real, value: real, sector: int, fraction: real, delta: real,
                           part: real)
    requires 0 <= sector <= 5 && 0.0 <= fraction < 1.0 && hue * 6.0 == sector as real + fraction &&
             delta * fraction == part
    requires EPSILON < delta <= value <= 1.0 && value * saturation == delta
    ensures var c := InSector(sector, value, delta, part);
            && 0.0 <= Smallest(c) && Largest(c) <= 1.0
            && ToHsx(c).hue == hue && ToHsx(c).valueSaturation == saturation && ToHsx(c).value == value
  {
    var c := InSector(sector, value, delta, part);
    PartBounds(delta, fraction, part);
    InSectorExtremes(sector, value, delta, part);
    var q := HueFromRatio(c, delta);
    InSectorHue(sector, fraction, value, delta, part, q);
    var s := Ratio(delta, value);
    ProductSign(s - saturation, value, 0.0);
  }

  /** Hue, saturations and value all come out in their ranges, and light that has them is a light. */
  lemma HsxInRange(c: Light)
    requires 0.0 <= Smallest(c) && Largest(c) <= 1.0
    ensures var hsx := ToHsx(c);
            0.0 <= hsx.hue < 1.0 && 0.0 <= hsx.valueSaturation <= 1.0 && 0.0 <= hsx.value <= 1.0 &&
              0.0 <= hsx.lightnessSaturation <= 1.0
  {
    var value, delta := Largest(c), Largest(c) - Smallest(c);
    if delta > EPSILON {
      var q := HueFromRatio(c, delta);
      var _, _, _ := HueInSector(c, value, delta, q);
      LightnessDivisor(c);
      var divisor := 1.0 - Abs(2.0 * LightnessOf(c) - 1.0);
      var s := Ratio(delta, divisor);
      RatioBounds(delta, divisor, s);
    }
    if value > EPSILON {
      var s := Ratio(delta, value);
      RatioBounds(delta, value, s);
    }
  }

  /** The lightness and its saturation give back the extremes of the light, unless its colour is too faint. */
  lemma HslGivesExtremes(c: Light)
    requires 0.0 <= Smallest(c) && Largest(c) <= 1.0
    ensures var lightness := LightnessOf(c);
            var half := ToHsx(c).lightnessSaturation * (1.0 - Abs(2.0 * lightness - 1.0)) / 2.0;
            Largest(c) == lightness + half && Smallest(c) == lightness - half <==>
              Largest(c) == Smallest(c) || Largest(c) - Smallest(c) > EPSILON
  {
    var delta := Largest(c) - Smallest(c);
    if delta > EPSILON {
      LightnessDivisor(c);
      var divisor := 1.0 - Abs(2.0 * LightnessOf(c) - 1.0);
      var s := Ratio(delta, divisor);
      assert ToHsx(c).lightnessSaturation == s;
    }
  }

  // ----- Which components of an 8-bit colour are full

  /** Away from one by more than the smallest step of any component of an 8-bit colour. */
  predicate ClearlyBelowOne(x: real) {
    x <= 1.0 - 1.0 / 1530.0
  }

  lemma RatioClearlyBelowOne(part: real, whole: real, q: real)
    requires 0.0 < whole && q * whole == part && whole - part >= whole / 1530.0
    ensures ClearlyBelowOne(q)
  {
    var gap := 1.0 - q - 1.0 / 1530.0;
    assert gap * whole == whole - part - whole / 1530.0;
    if gap < 0.0 {
      ProductSign(gap, whole, gap * whole);
    }
  }

  /** The value is full exactly if some channel is at its largest. */
  lemma FullValue(rgb: Rgb)
    ensures if Brightest(rgb) == 255 then RgbToHsx(rgb).value == 1.0 else ClearlyBelowOne(RgbToHsx(rgb).value)
  {
    ExtremesOfBytes(rgb);
  }

  /** The saturation that goes with value is full exactly if some channel, but not every one, is dark. */
  lemma FullValueSaturation(rgb: Rgb)
    ensures if Darkest(rgb) == 0 < Brightest(rgb) then RgbToHsx(rgb).valueSaturation == 1.0
            else ClearlyBelowOne(RgbToHsx(rgb).valueSaturation)
  {
    ExtremesOfBytes(rgb);
    var value, delta := Largest(LightOf(rgb)), Largest(LightOf(rgb)) - Smallest(LightOf(rgb));
    if Brightest(rgb) > 0 {
      DistinctBytesAreApart(0, Brightest(rgb));
      var q := Ratio(delta, value);
      RatioBounds(delta, value, q);
      if Darkest(rgb) > 0 {
        RatioClearlyBelowOne(delta, value, q);
      }
    }
  }

  /** The lightness is full exactly for white. */
  lemma FullLightness(rgb: Rgb)
    ensures if Darkest(rgb) == 255 then LightnessOf(LightOf(rgb)) == 1.0 else ClearlyBelowOne(LightnessOf(LightOf(rgb)))
  {
    ExtremesOfBytes(rgb);
  }

  /** The saturation that goes with lightness is full exactly for a colour with a dark channel or one at its largest. */
  lemma FullLightnessSaturation(rgb: Rgb)
    ensures if Darkest(rgb) < Brightest(rgb) && (Darkest(rgb) == 0 || Brightest(rgb) == 255)
            then RgbToHsx(rgb).lightnessSaturation == 1.0
            else ClearlyBelowOne(RgbToHsx(rgb).lightnessSaturation)
  {
    ExtremesOfBytes(rgb);
    if Darkest(rgb) < Brightest(rgb) {
      DistinctBytesAreApart(Darkest(rgb), Brightest(rgb));
      var q, delta, divisor := LightnessRatio(LightOf(rgb));
      LightnessRatioFull(Darkest(rgb), Brightest(rgb), delta, divisor, q);
    }
  }

  lemma LightnessRatio(c: Light) returns (q: real, delta: real, divisor: real)
    requires 0.0 <= Smallest(c) && Largest(c) <= 1.0 && Largest(c) - Smallest(c) > EPSILON
    ensures q == ToHsx(c).lightnessSaturation && q * divisor == delta
    ensures delta == Largest(c) - Smallest(c) && divisor == 1.0 - Abs(Largest(c) + Smallest(c) - 1.0)
    ensures 0.0 < delta <= divisor
  {
    LightnessDivisor(c);
    delta, divisor := Largest(c) - Smallest(c), 1.0 - Abs(2.0 * LightnessOf(c) - 1.0);
    q := Ratio(delta, divisor);
  }

  lemma LightnessRatioFull(darkest: Byte, brightest: Byte, delta: real, divisor: real, q: real)
    requires darkest < brightest && delta == brightest as real / 255.0 - darkest as real / 255.0
    requires divisor == 1.0 - Abs(brightest as real / 255.0 + darkest as real / 255.0 - 1.0)
    requires 0.0 < delta <= divisor && q * divisor == delta
    ensures if darkest == 0 || brightest == 255 then q == 1.0 else ClearlyBelowOne(q)
  {
    LightnessGap(darkest as real, brightest as real, delta, divisor);
    RatioBounds(delta, divisor, q);
    if darkest > 0 && brightest < 255 {
      assert divisor - delta >= 2.0 / 255.0;
      RatioClearlyBelowOne(delta, divisor, q);
    }
  }

  lemma LightnessGap(darkest: real, brightest: real, delta: real, divisor: real)
    requires 0.0 <= darkest < brightest <= 255.0 && delta == brightest / 255.0 - darkest / 255.0
    requires divisor == 1.0 - Abs(brightest / 255.0 + darkest / 255.0 - 1.0)
    ensures divisor <= 1.0
    ensures divisor - delta == 2.0 * Min(darkest, 255.0 - brightest) / 255.0
  {
  }

  /** The hue is never full. */
  lemma HueIsNotFull(rgb: Rgb)
    ensures ClearlyBelowOne(RgbToHsx(rgb).hue)
  {
    var c := LightOf(rgb);
    var delta := Largest(c) - Smallest(c);
    ExtremesOfBytes(rgb);
    BytesAreApart(rgb);
    if delta > EPSILON {
      var q := HueFromRatio(c, delta);
      RatioBounds(Difference(c), delta, q);
      if Largest(c) == c.red {
        AroundRed(q);
        if q < 0.0 {
          assert rgb.b - rgb.g >= 1;
          HueGap(rgb.b - rgb.g, delta, q);
        }
      }
    }
  }

  /** A negative turn is at least one step of an 8-bit channel. */
  lemma HueGap(steps: int, delta: real, q: real)
    requires steps >= 1 && 0.0 < delta <= 1.0 && q < 0.0 && q * delta == -(steps as real) / 255.0
    ensures q <= -1.0 / 255.0
  {
    var gap := -q - 1.0 / 255.0;
    assert gap * delta == steps as real / 255.0 - delta / 255.0;
    if gap < 0.0 {
      ProductSign(gap, delta, gap * delta);
    }
  }
}

/** The hue, saturations and value of 8-bit colours as 32-bit floats, every operation rounded. */
module SinglePrecision {
  import opened Floats
  import opened HueSaturation
  import opened Reals
  import opened Topology

  /** Two to the power -24, the distance of floats below one. */
  const ULP: real := 1.0 / 16777216.0

  function FloatChannel(n: Byte): real {
    Float(n as real / 255.0)
  }

  function FloatLight(rgb: Rgb): Light {
    Light(FloatChannel(rgb.r), FloatChannel(rgb.g), FloatChannel(rgb.b))
  }

  function FloatDelta(largest: real, smallest: real): real {
    Float(largest - smallest)
  }

  function FloatLightness(largest: real, smallest: real): real {
    Float((largest + smallest) / 2.0)
  }

  function FloatDivisor(largest: real, smallest: real): real {
    Float(1.0 - Abs(Float(Float(2.0 * FloatLightness(largest, smallest)) - 1.0)))
  }

  /** The remainder of a float by six that is not negative: truncation is exact, and only the correction is rounded. */
  function FloatRemainder(q: real): real {
    var truncated := if q < 0.0 then -RemEuclid(-q, 6.0) else RemEuclid(q, 6.0);
    if truncated < 0.0 then Float(truncated + 6.0) else truncated
  }

  /** The turn from the primary of the largest channel, in sixths of the circle. */
  function FloatTurn(c: Light, delta: real): real
    requires delta > 0.0
  {
    Float(Float(Difference(c)) / delta)
  }

  function FloatHueFrom(c: Light, q: real): real {
    if Largest(c) == c.red then Float(FloatRemainder(q) / 6.0)
    else if Largest(c) == c.green then Float(Float(q + 2.0) / 6.0)
    else Float(Float(q + 4.0) / 6.0)
  }

  function FloatHsx(rgb: Rgb): Hsx {
    var c := FloatLight(rgb);
    var largest, smallest := Largest(c), Smallest(c);
    var delta := FloatDelta(largest, smallest);
    FloatDivisorIsPositive(rgb);
    var hue := if delta <= EPSILON then 0.0 else FloatHueFrom(c, FloatTurn(c, delta));
    var valueSaturation := if largest <= EPSILON then 0.0 else Float(delta / largest);
    var lightnessSaturation := if delta <= EPSILON then 0.0 else Float(delta / FloatDivisor(largest, smallest));
    Hsx(hue, valueSaturation, largest, lightnessSaturation)
  }

  // ----- Channels

  lemma {:induction false} ChannelIsNear(n: Byte)
    ensures 0.0 <= FloatChannel(n) <= 1.0 && Abs(FloatChannel(n) - n as real / 255.0) <= ULP
    ensures IsFloat(FloatChannel(n)) && FloatChannel(0) == 0.0 && FloatChannel(255) == 1.0
  {
    FloatIsNearUpTo(n as real / 255.0);
    FloatStaysBelow(n as real / 255.0, 1);
    FloatsAreFloats(n as real / 255.0);
    IntegersAreFloats(0);
    IntegersAreFloats(1);
  }

  lemma {:induction false} ChannelsGrow(m: Byte, n: Byte)
    requires m < n
    ensures FloatChannel(n) - FloatChannel(m) >= 1.0 / 255.0 - 2.0 * ULP
  {
    ChannelIsNear(m);
    ChannelIsNear(n);
  }

  lemma {:induction false} FloatExtremes(rgb: Rgb)
    ensures Largest(FloatLight(rgb)) == FloatChannel(Brightest(rgb))
    ensures Smallest(FloatLight(rgb)) == FloatChannel(Darkest(rgb))
    ensures Brightest(rgb) == rgb.r <==> Largest(FloatLight(rgb)) == FloatChannel(rgb.r)
    ensures Brightest(rgb) == rgb.g <==> Largest(FloatLight(rgb)) == FloatChannel(rgb.g)
  {
    Ordered(rgb.r, rgb.g);
    Ordered(rgb.g, rgb.b);
    Ordered(rgb.r, rgb.b);
  }

  lemma {:induction false} Ordered(m: Byte, n: Byte)
    ensures FloatChannel(m) < FloatChannel(n) <==> m < n
    ensures FloatChannel(m) == FloatChannel(n) <==> m == n
  {
    if m < n {
      ChannelsGrow(m, n);
    } else if n < m {
      ChannelsGrow(n, m);
    }
  }

  // ----- Nearness to exact reals

  lemma {:induction false} DeltaIsNear(darkest: Byte, brightest: Byte)
    requires darkest <= brightest
    ensures var delta := FloatDelta(FloatChannel(brightest), FloatChannel(darkest));
            && Abs(delta - (brightest - darkest) as real / 255.0) <= 3.0 * ULP
            && (darkest < brightest ==> delta >= 1.0 / 256.0)
            && (darkest == brightest ==> delta == 0.0)
  {
    ChannelIsNear(darkest);
    ChannelIsNear(brightest);
    FloatIsNearUpTo(FloatChannel(brightest) - FloatChannel(darkest));
    IntegersAreFloats(0);
  }

  /** Rounding adds at most one unit to the error of a number below two. */
  lemma {:induction false} RoundedNear(x: real, exact: real, error: real)
    requires Abs(x) < 2.0 && Abs(x - exact) <= error
    ensures Abs(Float(x) - exact) <= error + ULP
  {
    FloatIsNearUpTo(x);
  }

  /** The divisor from largest and smallest channels whose exact sum is `sum`. */
  lemma {:induction false} DivisorFrom(largest: real, smallest: real, sum: real)
    requires Abs(largest + smallest - sum) <= 2.0 * ULP && 0.0 <= sum <= 2.0 - 1.0 / 255.0
    ensures Abs(FloatDivisor(largest, smallest) - (1.0 - Abs(sum - 1.0))) <= 7.0 * ULP
  {
    RoundedNear((largest + smallest) / 2.0, sum / 2.0, ULP);
    var lightness := FloatLightness(largest, smallest);
    RoundedNear(2.0 * lightness, sum, 4.0 * ULP);
    var doubled := Float(2.0 * lightness);
    RoundedNear(doubled - 1.0, sum - 1.0, 5.0 * ULP);
    var centred := Float(doubled - 1.0);
    RoundedNear(1.0 - Abs(centred), 1.0 - Abs(sum - 1.0), 6.0 * ULP);
  }

  lemma {:induction false} DivisorIsNear(darkest: Byte, brightest: Byte)
    requires darkest < brightest
    ensures var exact := 1.0 - Abs((brightest + darkest) as real / 255.0 - 1.0);
            var divisor := FloatDivisor(FloatChannel(brightest), FloatChannel(darkest));
            exact >= 1.0 / 255.0 && Abs(divisor - exact) <= 7.0 * ULP
  {
    ChannelIsNear(darkest);
    ChannelIsNear(brightest);
    DivisorFrom(FloatChannel(brightest), FloatChannel(darkest), (brightest + darkest) as real / 255.0);
  }

  lemma {:induction false} FloatDivisorIsPositive(rgb: Rgb)
    ensures var c := FloatLight(rgb);
            FloatDelta(Largest(c), Smallest(c)) > EPSILON ==> FloatDivisor(Largest(c), Smallest(c)) > 0.0
  {
    FloatExtremes(rgb);
    DeltaIsNear(Darkest(rgb), Brightest(rgb));
    if Darkest(rgb) < Brightest(rgb) {
      DivisorIsNear(Darkest(rgb), Brightest(rgb));
    }
  }

  /** Nearer to each other than any 8-bit colour's component is to one, unless it is one. */
  predicate Near(x: real, y: real) {
    Abs(x - y) <= 1.0 / 5000.0
  }

  /** Rounded ratios of near numbers are near, if the whole is not small. */
  lemma {:induction false} RatiosAreNear(part: real, whole: real, nearPart: real, nearWhole: real)
    requires 0.0 < whole && -whole <= part <= whole && nearWhole >= 1.0 / 256.0
    requires Abs(nearPart - part) + Abs(nearWhole - whole) <= 10.0 * ULP
    ensures Abs(Float(nearPart / nearWhole) - part / whole) <= 2561.0 * ULP
  {
    var q := Ratio(part, whole);
    var near := Ratio(nearPart, nearWhole);
    RatioBounds(part, whole, q);
    RatioError(part, whole, q, nearPart, nearWhole, near);
    RoundedNear(near, q, 2560.0 * ULP);
  }

  lemma {:induction false} RatioError(part: real, whole: real, q: real, nearPart: real, nearWhole: real, near: real)
    requires -1.0 <= q <= 1.0 && q * whole == part && near * nearWhole == nearPart && nearWhole >= 1.0 / 256.0
    requires Abs(nearPart - part) + Abs(nearWhole - whole) <= 10.0 * ULP
    ensures Abs(near - q) <= 2560.0 * ULP
  {
    var off := q * (whole - nearWhole);
    ProductAtMost(q, whole - nearWhole, off);
    QuotientAtMost(near - q, nearWhole, nearPart - part + off, 10.0 * ULP);
  }

  lemma {:induction false} NotNegative(a: real, b: real)
    requires a >= 0.0 && b >= 0.0
    ensures a * b >= 0.0
  {
  }

  lemma {:induction false} ProductAtMost(a: real, b: real, product: real)
    requires -1.0 <= a <= 1.0 && a * b == product
    ensures Abs(product) <= Abs(b)
  {
    NotNegative(1.0 - a, Abs(b));
    NotNegative(1.0 + a, Abs(b));
  }

  lemma {:induction false} QuotientAtMost(a: real, b: real, product: real, error: real)
    requires b >= 1.0 / 256.0 && a * b == product && Abs(product) <= error
    ensures Abs(a) <= 256.0 * error
  {
    NotNegative(Abs(a), b - 1.0 / 256.0);
  }

  lemma {:induction false} FloatValueSaturation(rgb: Rgb)
    ensures Brightest(rgb) > 0 ==> FloatChannel(Brightest(rgb)) >= 1.0 / 256.0
    ensures FloatHsx(rgb).valueSaturation ==
            if Brightest(rgb) == 0 then 0.0
            else Float(FloatDelta(FloatChannel(Brightest(rgb)),
              FloatChannel(Darkest(rgb))) / FloatChannel(Brightest(rgb)))
  {
    FloatExtremes(rgb);
    ChannelIsNear(Brightest(rgb));
  }

  lemma {:induction false} ValueSaturationIsNear(rgb: Rgb)
    ensures Near(FloatHsx(rgb).valueSaturation, RgbToHsx(rgb).valueSaturation)
  {
    FloatValueSaturation(rgb);
    ExactValueSaturation(rgb);
    if Brightest(rgb) > 0 {
      ByteRatioIsNear(Darkest(rgb), Brightest(rgb));
    }
  }

  lemma {:induction false} ExactValueSaturation(rgb: Rgb)
    ensures var whole := Brightest(rgb) as real / 255.0;
            RgbToHsx(rgb).valueSaturation ==
            if Brightest(rgb) == 0 then 0.0 else (whole - Darkest(rgb) as real / 255.0) / whole
  {
    ExtremesOfBytes(rgb);
    if Brightest(rgb) > 0 {
      DistinctBytesAreApart(0, Brightest(rgb));
    }
  }

  lemma {:induction false} ByteRatioIsNear(darkest: Byte, brightest: Byte)
    requires darkest <= brightest && FloatChannel(brightest) >= 1.0 / 256.0
    ensures var whole := brightest as real / 255.0;
            && whole > 0.0
            && Near(Float(FloatDelta(FloatChannel(brightest), FloatChannel(darkest)) / FloatChannel(brightest)),
                    (whole - darkest as real / 255.0) / whole)
  {
    ChannelIsNear(brightest);
    DeltaIsNear(darkest, brightest);
    RatiosAreNear(brightest as real / 255.0 - darkest as real / 255.0, brightest as real / 255.0,
                  FloatDelta(FloatChannel(brightest), FloatChannel(darkest)), FloatChannel(brightest));
  }

  lemma {:induction false} FloatLightnessSaturation(rgb: Rgb)
    ensures var largest, smallest := FloatChannel(Brightest(rgb)), FloatChannel(Darkest(rgb));
            && (Darkest(rgb) < Brightest(rgb) ==>
                  FloatDivisor(largest, smallest) >= 1.0 / 256.0 && FloatDelta(largest, smallest) >= 1.0 / 256.0)
            && FloatHsx(rgb).lightnessSaturation ==
               if Darkest(rgb) == Brightest(rgb) then 0.0
               else Float(FloatDelta(largest, smallest) / FloatDivisor(largest, smallest))
  {
    FloatExtremes(rgb);
    DeltaIsNear(Darkest(rgb), Brightest(rgb));
    if Darkest(rgb) < Brightest(rgb) {
      DivisorIsNear(Darkest(rgb), Brightest(rgb));
    }
  }

  lemma {:induction false} LightnessSaturationIsNear(rgb: Rgb)
    ensures Near(FloatHsx(rgb).lightnessSaturation, RgbToHsx(rgb).lightnessSaturation)
  {
    FloatLightnessSaturation(rgb);
    ExtremesOfBytes(rgb);
    if Darkest(rgb) < Brightest(rgb) {
      DistinctBytesAreApart(Darkest(rgb), Brightest(rgb));
      var q, delta, divisor := LightnessRatio(LightOf(rgb));
      LightnessRatioIsNear(Darkest(rgb), Brightest(rgb), q, delta, divisor);
    }
  }

  lemma {:induction false} LightnessRatioIsNear(darkest: Byte, brightest: Byte, q: real, delta: real, divisor: real)
    requires darkest < brightest && delta == brightest as real / 255.0 - darkest as real / 255.0
    requires divisor == 1.0 - Abs(brightest as real / 255.0 + darkest as real / 255.0 - 1.0)
    requires 0.0 < delta <= divisor && q * divisor == delta
    requires FloatDivisor(FloatChannel(brightest), FloatChannel(darkest)) >= 1.0 / 256.0
    ensures var largest, smallest := FloatChannel(brightest), FloatChannel(darkest);
            Near(Float(FloatDelta(largest, smallest) / FloatDivisor(largest, smallest)), q)
  {
    DeltaIsNear(darkest, brightest);
    DivisorIsNear(darkest, brightest);
    RatioIs(delta, divisor, q);
    RatiosAreNear(delta, divisor, FloatDelta(FloatChannel(brightest), FloatChannel(darkest)),
                  FloatDivisor(FloatChannel(brightest), FloatChannel(darkest)));
  }

  lemma {:induction false} RatioIs(part: real, whole: real, q: real)
    requires whole > 0.0 && q * whole == part
    ensures part / whole == q
  {
  }

  lemma {:induction false} LightnessIsNear(rgb: Rgb)
    ensures var c := FloatLight(rgb);
            Near(FloatLightness(Largest(c), Smallest(c)), LightnessOf(LightOf(rgb)))
  {
    FloatExtremes(rgb);
    ExtremesOfBytes(rgb);
    ChannelIsNear(Darkest(rgb));
    ChannelIsNear(Brightest(rgb));
    RoundedNear((FloatChannel(Brightest(rgb)) + FloatChannel(Darkest(rgb))) / 2.0, LightnessOf(LightOf(rgb)), ULP);
  }

  /** The two channels that follow the largest one round the circle, the first of which is subtracted from. */
  function Followers(rgb: Rgb): (Byte, Byte) {
    if Brightest(rgb) == rgb.r then (rgb.g, rgb.b)
    else if Brightest(rgb) == rgb.g then (rgb.b, rgb.r)
    else (rgb.r, rgb.g)
  }

  lemma {:induction false} FollowersDiffer(rgb: Rgb)
    ensures var (m, n) := Followers(rgb);
            && Difference(LightOf(rgb)) == m as real / 255.0 - n as real / 255.0
            && Difference(FloatLight(rgb)) == FloatChannel(m) - FloatChannel(n)
            && Darkest(rgb) <= m <= Brightest(rgb) && Darkest(rgb) <= n <= Brightest(rgb)
  {
    ExtremesOfBytes(rgb);
    FloatExtremes(rgb);
  }

  /** A turn, and the exact one, of two channels `m` and `n`. */
  lemma {:induction false} TurnIsNear(m: Byte, n: Byte, darkest: Byte, brightest: Byte, delta: real, q: real)
    requires darkest <= m <= brightest && darkest <= n <= brightest && darkest < brightest
    requires delta == brightest as real / 255.0 - darkest as real / 255.0
    requires q * delta == m as real / 255.0 - n as real / 255.0
    requires FloatDelta(FloatChannel(brightest), FloatChannel(darkest)) >= 1.0 / 256.0
    ensures var turn := Float(Float(FloatChannel(m) - FloatChannel(n)) / FloatDelta(FloatChannel(brightest),
              FloatChannel(darkest)));
            -1.0 <= q <= 1.0 && Abs(turn - q) <= 2561.0 * ULP && (turn < 0.0 <==> q < 0.0)
  {
    ChannelIsNear(m);
    ChannelIsNear(n);
    DeltaIsNear(darkest, brightest);
    FloatIsNearUpTo(FloatChannel(m) - FloatChannel(n));
    RatioBounds(m as real / 255.0 - n as real / 255.0, delta, q);
    RatioIs(m as real / 255.0 - n as real / 255.0, delta, q);
    RatiosAreNear(m as real / 255.0 - n as real / 255.0, delta,
                  Float(FloatChannel(m) - FloatChannel(n)), FloatDelta(FloatChannel(brightest), FloatChannel(darkest)));
    TurnSteps(m, n, delta, q);
    if m == n {
      IntegersAreFloats(0);
    }
  }

  /** A turn is nothing, or at least the step of a channel. */
  lemma {:induction false} TurnSteps(m: Byte, n: Byte, delta: real, q: real)
    requires 0.0 < delta <= 1.0 && q * delta == m as real / 255.0 - n as real / 255.0
    ensures m < n ==> q <= -1.0 / 255.0
    ensures m == n ==> q == 0.0
    ensures m > n ==> q >= 1.0 / 255.0
  {
    if m < n {
      RatioBounds(m as real / 255.0 - n as real / 255.0, delta, q);
      HueGap(n - m, delta, q);
    } else if m > n {
      assert -q * delta == n as real / 255.0 - m as real / 255.0;
      RatioBounds(n as real / 255.0 - m as real / 255.0, delta, -q);
      HueGap(m - n, delta, -q);
    } else {
      ProductSign(q, delta, 0.0);
    }
  }

  lemma {:induction false} SmallRemainder(x: real)
    requires 0.0 <= x < 6.0
    ensures RemEuclid(x, 6.0) == x
  {
    assert (x / 6.0).Floor == 0;
  }

  lemma {:induction false} HueFromIsNear(c: Light, exact: Light, turn: real, q: real)
    requires Largest(c) == c.red <==> Largest(exact) == exact.red
    requires Largest(c) == c.green <==> Largest(exact) == exact.green
    requires -1.0 <= q <= 1.0 && Abs(turn - q) <= 2561.0 * ULP && (turn < 0.0 <==> q < 0.0)
    ensures Near(FloatHueFrom(c, turn), HueFrom(exact, q))
  {
    if Largest(c) == c.red {
      AroundRed(q);
      SmallRemainder(Abs(turn));
      if turn < 0.0 {
        SixthIsNear(turn + 6.0, q + 6.0);
      } else {
        RoundedNear(turn / 6.0, q / 6.0, 500.0 * ULP);
      }
    } else if Largest(c) == c.green {
      SixthIsNear(turn + 2.0, q + 2.0);
    } else {
      SixthIsNear(turn + 4.0, q + 4.0);
    }
  }

  lemma {:induction false} SixthIsNear(x: real, exact: real)
    requires 0.0 <= exact <= 6.0 && Abs(x - exact) <= 2561.0 * ULP
    ensures Near(Float(Float(x) / 6.0), exact / 6.0)
  {
    FloatIsNearUpTo(x);
    RoundedNear(Float(x) / 6.0, exact / 6.0, 500.0 * ULP);
  }

  lemma {:induction false} FloatHueIs(rgb: Rgb)
    ensures var c := FloatLight(rgb);
            var delta := FloatDelta(FloatChannel(Brightest(rgb)), FloatChannel(Darkest(rgb)));
            && (Darkest(rgb) < Brightest(rgb) ==> delta >= 1.0 / 256.0)
            && FloatHsx(rgb).hue == if Darkest(rgb) == Brightest(rgb) then 0.0 else FloatHueFrom(c, FloatTurn(c, delta))
  {
    FloatExtremes(rgb);
    DeltaIsNear(Darkest(rgb), Brightest(rgb));
  }

  lemma {:induction false} HueIsNear(rgb: Rgb)
    ensures Near(FloatHsx(rgb).hue, RgbToHsx(rgb).hue)
  {
    var darkest, brightest := Darkest(rgb), Brightest(rgb);
    FloatHueIs(rgb);
    ExtremesOfBytes(rgb);
    if darkest < brightest {
      var c, exact := FloatLight(rgb), LightOf(rgb);
      var (m, n) := Followers(rgb);
      DistinctBytesAreApart(darkest, brightest);
      FollowersDiffer(rgb);
      FloatExtremes(rgb);
      var delta := Largest(exact) - Smallest(exact);
      var q := HueFromRatio(exact, delta);
      TurnIsNear(m, n, darkest, brightest, delta, q);
      HueFromIsNear(c, exact, FloatTurn(c, FloatDelta(FloatChannel(brightest), FloatChannel(darkest))), q);
    }
  }

  /** Every component of an 8-bit colour computed in 32-bit floats is near the exact one. */
  lemma {:induction false} FloatHsxIsNear(rgb: Rgb)
    ensures var float, exact := FloatHsx(rgb), RgbToHsx(rgb);
            && Near(float.hue, exact.hue) && Near(float.value, exact.value)
            && Near(float.valueSaturation, exact.valueSaturation)
            && Near(float.lightnessSaturation, exact.lightnessSaturation)
  {
    HueIsNear(rgb);
    ValueSaturationIsNear(rgb);
    LightnessSaturationIsNear(rgb);
    FloatExtremes(rgb);
    ExtremesOfBytes(rgb);
    ChannelIsNear(Brightest(rgb));
  }

  // ----- Which components are full

  /** A multiple of 255ths with its leading bit at the top rounds up. */
  lemma {:induction false} TopRounds(m: int)
    requires 128 <= m <= 254
    ensures Magnitude(16777216.0 * m as real / 255.0) == 65793.0 * m as real + 1.0
  {
    var y := 16777216.0 * m as real / 255.0;
    assert y == 65793.0 * m as real + m as real / 255.0;
    assert y.Floor == 65793 * m;
  }

  lemma {:induction false} DoubledTop(n: Byte, t: int)
    requires t >= 1 && 0 < t * n < 128
    ensures var y := 16777216.0 * (t * n) as real / 255.0;
            Magnitude(y) == Magnitude(2.0 * y) / 2.0
  {
  }

  /** The exact float of a byte as an intensity: in units of 2 to the power -24, a multiple of 65793 and a fraction. */
  lemma {:induction false} ChannelIs(n: Byte) returns (fraction: real)
    requires n > 0
    ensures FloatChannel(n) == (65793.0 * n as real + fraction) / 16777216.0
    ensures if n >= 128 then fraction == 1.0 else if n >= 64 then fraction == 0.5 else 0.0 < fraction <= 0.25
  {
    var y := 16777216.0 * n as real / 255.0;
    FloatOfFraction(n as real / 255.0);
    if n == 255 {
      ChannelIsNear(255);
      fraction := 1.0;
    } else if n >= 64 {
      fraction := LargeChannel(n);
    } else {
      fraction := SmallChannel(n);
    }
    assert 16777216.0 * FloatChannel(n) == Magnitude(y);
  }

  lemma {:induction false} LargeChannel(n: Byte) returns (fraction: real)
    requires 64 <= n < 255
    ensures Magnitude(16777216.0 * n as real / 255.0) == 65793.0 * n as real + fraction
    ensures fraction == if n >= 128 then 1.0 else 0.5
  {
    if n >= 128 {
      TopRounds(n);
      fraction := 1.0;
    } else {
      DoubledTop(n, 1);
      TopRounds(2 * n);
      fraction := 0.5;
    }
  }

  lemma {:induction false} SmallChannel(n: Byte) returns (fraction: real)
    requires 0 < n < 64
    ensures Magnitude(16777216.0 * n as real / 255.0) == 65793.0 * n as real + fraction
    ensures 0.0 < fraction <= 0.25
  {
    DoubledTop(n, 1);
    DoubledTop(n, 2);
    fraction := 0.25;
    if n >= 32 {
      TopRounds(4 * n);
    } else {
      DoubledTop(n, 4);
      if n >= 16 {
        TopRounds(8 * n);
        fraction := 0.125;
      } else {
        fraction := SmallestChannel(n);
      }
    }
  }

  lemma {:induction false} SmallestChannel(n: Byte) returns (fraction: real)
    requires 0 < n < 16
    ensures Magnitude(16777216.0 * (8 * n) as real / 255.0) / 8.0 == 65793.0 * n as real + fraction
    ensures 0.0 < fraction <= 0.25
  {
    DoubledTop(n, 8);
    if n >= 8 {
      TopRounds(16 * n);
      fraction := 0.0625;
    } else {
      DoubledTop(n, 16);
      if n >= 4 {
        TopRounds(32 * n);
        fraction := 0.03125;
      } else {
        DoubledTop(n, 32);
        if n >= 2 {
          TopRounds(64 * n);
          fraction := 0.015625;
        } else {
          DoubledTop(n, 64);
          TopRounds(128 * n);
          fraction := 0.0078125;
        }
      }
    }
  }

  /** A number of 2 to the power -24, times `k`. */
  function Units(k: int): real {
    k as real / 16777216.0
  }

  /** One for the bytes whose intensity is halfway between two units below one, and rounds up from there. */
  function Carry(n: Byte): int {
    if 64 <= n < 128 && n % 2 == 1 then 1 else 0
  }

  /** With a dark channel, the divisor is exact from 128 on, and otherwise a number of units. */
  lemma {:induction false} DarkDivisor(brightest: Byte)
    requires brightest > 0
    ensures var largest := FloatChannel(brightest);
            && FloatDelta(largest, 0.0) == largest
            && FloatDivisor(largest, 0.0) == if brightest >= 128 then largest
              else Units(65793 * brightest + Carry(brightest))
  {
    var largest := FloatChannel(brightest);
    var fraction := ChannelIs(brightest);
    ChannelIsNear(brightest);
    FloatDoubles(largest / 2.0);
    assert FloatLightness(largest, 0.0) == largest / 2.0;
    assert Float(2.0 * FloatLightness(largest, 0.0)) == largest;
    FloatIsOdd(1.0 - largest);
    if brightest >= 128 {
      UpperComplement(brightest);
    } else {
      LowerComplement(brightest, fraction);
    }
  }

  /** From 128 on, the complement of an intensity is exact. */
  lemma {:induction false} UpperComplement(n: Byte)
    requires n >= 128
    ensures Float(1.0 - FloatChannel(n)) == 1.0 - FloatChannel(n)
  {
    var fraction := ChannelIs(n);
    FractionsAreFloats(0x100_0000 - 65793 * n - 1);
  }

  /** Below 128 it is rounded, and what is left of one is a number of units. */
  lemma {:induction false} LowerComplement(n: Byte, fraction: real)
    requires 0 < n < 128 && FloatChannel(n) == (65793.0 * n as real + fraction) / 16777216.0
    requires if n >= 64 then fraction == 0.5 else 0.0 < fraction <= 0.25
    ensures Float(1.0 - FloatChannel(n)) == Units(0x100_0000 - 65793 * n - Carry(n))
    ensures Float(1.0 - Units(0x100_0000 - 65793 * n - Carry(n))) == Units(65793 * n + Carry(n))
  {
    var below := 0x100_0000 - 65793 * n;
    FloatBelowOne(below as real - fraction);
    HalfwayBelow(below, fraction);
    FractionsAreFloats(65793 * n + Carry(n));
  }

  lemma {:induction false} HalfwayBelow(k: int, fraction: real)
    requires fraction == 0.5 || 0.0 < fraction <= 0.25
    ensures NearestEven(k as real - fraction) == if fraction == 0.5 && k % 2 == 1 then k - 1 else k
  {
    assert (k as real - fraction).Floor == k - 1;
  }

  /** The doubled lightness of a colour with a channel at its largest, less one, in units: an even number. */
  function BrightCentre(darkest: Byte): int {
    var k := 65793 * darkest;
    if darkest % 2 == 1 then k + 1 else if darkest >= 128 && darkest % 4 == 2 then k + 2 else k
  }

  lemma {:induction false} HalvedCentre(n: Byte, fraction: real, y: real)
    requires 0 < n < 255 && y == 8388608.0 + (65793.0 * n as real + fraction) / 2.0
    requires if n >= 128 then fraction == 1.0 else if n >= 64 then fraction == 0.5 else 0.0 < fraction <= 0.25
    ensures 2 * NearestEven(y) == 0x100_0000 + BrightCentre(n)
  {
    if n % 2 == 1 {
      OddCentre(n / 2, n, fraction, y);
    } else {
      EvenCentre(n / 2, n, fraction, y);
    }
  }

  lemma {:induction false} OddCentre(j: int, n: int, fraction: real, y: real)
    requires n == 2 * j + 1 && 0.0 < fraction <= 1.0 && y == 8388608.0 + (65793.0 * n as real + fraction) / 2.0
    ensures 2 * NearestEven(y) == 0x100_0000 + 65793 * n + 1
  {
    var k := 0x80_0000 + 65793 * j + 32896;
    assert y == k as real + (1.0 + fraction) / 2.0;
    RoundsUp(k, (1.0 + fraction) / 2.0, y);
  }

  lemma {:induction false} RoundsUp(k: int, rest: real, y: real)
    requires 0.5 < rest <= 1.0 && y == k as real + rest
    ensures NearestEven(y) == k + 1
  {
    assert y.Floor == if rest == 1.0 then k + 1 else k;
  }

  lemma {:induction false} EvenCentre(j: int, n: int, fraction: real, y: real)
    requires n == 2 * j && 0.0 < fraction <= 1.0 && y == 8388608.0 + (65793.0 * n as real + fraction) / 2.0
    ensures 2 * NearestEven(y) == 0x100_0000 + 65793 * n + if fraction == 1.0 && j % 2 == 1 then 2 else 0
  {
    var k := 0x80_0000 + 65793 * j;
    assert k == 2 * (0x40_0000 + 32896 * j) + j;
    assert y == k as real + fraction / 2.0;
    RoundsToEven(k, fraction / 2.0, y);
  }

  lemma {:induction false} RoundsToEven(k: int, rest: real, y: real)
    requires 0.0 <= rest <= 0.5 && y == k as real + rest
    ensures NearestEven(y) == k + if rest == 0.5 && k % 2 == 1 then 1 else 0
  {
    assert y.Floor == k;
  }

  /** With a channel at its largest, the divisor is a number of units. */
  lemma {:induction false} BrightDivisor(darkest: Byte)
    requires 0 < darkest < 255
    ensures FloatDivisor(1.0, FloatChannel(darkest)) == Units(0x100_0000 - BrightCentre(darkest))
    ensures FloatDelta(1.0, FloatChannel(darkest)) ==
            Units(0x100_0000 - 65793 * darkest - if darkest >= 128 then 1 else Carry(darkest))
  {
    var smallest := FloatChannel(darkest);
    var fraction := ChannelIs(darkest);
    var centre := BrightCentre(darkest);
    var halved := 8388608.0 + (65793.0 * darkest as real + fraction) / 2.0;
    HalvedCentre(darkest, fraction, halved);
    FloatBelowOne(halved);
    var lightness := FloatLightness(1.0, smallest);
    assert 2.0 * lightness == Units(0x100_0000 + centre);
    FloatsAreFloats((1.0 + smallest) / 2.0);
    FloatDoubles(lightness);
    FractionsAreFloats(centre);
    FractionsAreFloats(0x100_0000 - centre);
    if darkest >= 128 {
      UpperComplement(darkest);
    } else {
      LowerComplement(darkest, fraction);
    }
  }

  lemma {:induction false} RatioBelowOne(delta: real, divisor: real)
    requires 0.0 <= delta <= divisor - ULP / 2.0 && 0.0 < divisor <= 0.5
    ensures Float(delta / divisor) < 1.0
  {
    var q := Ratio(delta, divisor);
    RatioBounds(delta, divisor, q);
    NotNegative(0.5 - divisor, ULP);
    ProductSign(1.0 - q - ULP, divisor, divisor - delta - ULP * divisor);
    if q >= 0.5 {
      FloatBelowOne(16777216.0 * q);
      NearestEvenKeepsBounds(16777216.0 * q, 0xFF_FFFF);
    } else {
      SmallFloatIsNear(q);
    }
  }

  lemma {:induction false} RatioAtLeastOne(delta: real, divisor: real)
    requires 0.0 < divisor <= delta < 2.0 * divisor
    ensures Float(delta / divisor) >= 1.0
  {
    var q := Ratio(delta, divisor);
    RatioBounds(delta, divisor, q);
    ProductSign(2.0 - q, divisor, 2.0 * divisor - delta);
    FloatStaysAbove(q);
  }

  /**
   Which 8-bit colours have a full saturation to go with lightness: those with a dark channel or one at
   its largest, except where rounding makes the divisor larger than the difference.
   */
  predicate SaturationIsFull(darkest: Byte, brightest: Byte) {
    && darkest < brightest
    && ((darkest == 0 && Carry(brightest) == 0) || (brightest == 255 && !(darkest >= 128 && darkest % 4 == 0)))
  }

  lemma {:induction false} DarkSaturation(brightest: Byte)
    requires brightest > 0
    ensures FloatDivisor(FloatChannel(brightest), 0.0) > 0.0
    ensures Float(FloatDelta(FloatChannel(brightest), 0.0) / FloatDivisor(FloatChannel(brightest), 0.0)) >= 1.0 <==>
            Carry(brightest) == 0
  {
    var delta, divisor := FloatDelta(FloatChannel(brightest), 0.0), FloatDivisor(FloatChannel(brightest), 0.0);
    var fraction := ChannelIs(brightest);
    DarkDivisor(brightest);
    if Carry(brightest) == 0 {
      RatioAtLeastOne(delta, divisor);
    } else {
      RatioBelowOne(delta, divisor);
    }
  }

  lemma {:induction false} BrightSaturation(darkest: Byte)
    requires 0 < darkest < 255
    ensures FloatDivisor(1.0, FloatChannel(darkest)) > 0.0
    ensures Float(FloatDelta(1.0, FloatChannel(darkest)) / FloatDivisor(1.0, FloatChannel(darkest))) >= 1.0 <==>
            !(darkest >= 128 && darkest % 4 == 0)
  {
    BrightDivisor(darkest);
    UnitsRatio(0x100_0000 - 65793 * darkest - if darkest >= 128 then 1 else Carry(darkest),
               0x100_0000 - BrightCentre(darkest));
  }

  lemma {:induction false} UnitsRatio(delta: int, divisor: int)
    requires 0 < divisor && 0 <= delta < 2 * divisor && (delta < divisor ==> divisor <= 0x80_0000)
    ensures Units(divisor) > 0.0 && (Float(Units(delta) / Units(divisor)) >= 1.0 <==> delta >= divisor)
  {
    if delta < divisor {
      RatioBelowOne(Units(delta), Units(divisor));
    } else {
      RatioAtLeastOne(Units(delta), Units(divisor));
    }
  }

  /** The saturation that goes with lightness reaches one in 32-bit floats for exactly these colours. */
  lemma {:induction false} FullLightnessSaturationIn32(rgb: Rgb)
    ensures FloatHsx(rgb).lightnessSaturation >= 1.0 <==> SaturationIsFull(Darkest(rgb), Brightest(rgb))
  {
    FloatLightnessSaturation(rgb);
    ChannelIsNear(0);
    if Darkest(rgb) == 0 < Brightest(rgb) {
      DarkSaturation(Brightest(rgb));
    } else if Darkest(rgb) < Brightest(rgb) == 255 {
      BrightSaturation(Darkest(rgb));
    } else {
      LightnessSaturationIsNear(rgb);
      FullLightnessSaturation(rgb);
    }
  }

  /** The saturation that goes with value reaches one for exactly the colours with a dark channel beside a lit one. */
  lemma {:induction false} FullValueSaturationIn32(rgb: Rgb)
    ensures FloatHsx(rgb).valueSaturation >= 1.0 <==> Darkest(rgb) == 0 < Brightest(rgb)
  {
    if Darkest(rgb) == 0 < Brightest(rgb) {
      FloatValueSaturation(rgb);
      ChannelIsNear(0);
      ChannelIsNear(Brightest(rgb));
      RatioAtLeastOne(FloatChannel(Brightest(rgb)), FloatChannel(Brightest(rgb)));
    } else {
      ValueSaturationIsNear(rgb);
      FullValueSaturation(rgb);
    }
  }

  /** The hue never reaches one, the value for a channel at its largest, and the lightness for white. */
  lemma {:induction false} FullComponentsIn32(rgb: Rgb)
    ensures FloatHsx(rgb).hue < 1.0
    ensures FloatHsx(rgb).value >= 1.0 <==> Brightest(rgb) == 255
    ensures FloatLightness(FloatChannel(Brightest(rgb)), FloatChannel(Darkest(rgb))) >= 1.0 <==> Darkest(rgb) == 255
  {
    HueIsNear(rgb);
    HueIsNotFull(rgb);
    FloatExtremes(rgb);
    ChannelIsNear(Brightest(rgb));
    ChannelIsNear(Darkest(rgb));
    if Darkest(rgb) == 255 {
      IntegersAreFloats(1);
    } else {
      LightnessIsNear(rgb);
      FullLightness(rgb);
    }
  }

  lemma {:induction false} ComponentsAreFloats(rgb: Rgb)
    ensures var hsx := FloatHsx(rgb);
            && IsFloat(hsx.hue) && IsFloat(hsx.valueSaturation) && IsFloat(hsx.value) &&
              IsFloat(hsx.lightnessSaturation)
    ensures IsFloat(FloatLightness(FloatChannel(Brightest(rgb)), FloatChannel(Darkest(rgb))))
  {
    FloatExtremes(rgb);
    ChannelIsNear(Brightest(rgb));
    FloatsAreFloats((FloatChannel(Brightest(rgb)) + FloatChannel(Darkest(rgb))) / 2.0);
    IntegersAreFloats(0);
    SaturationsAreFloats(rgb);
    HueIsFloat(rgb);
  }

  lemma {:induction false} SaturationsAreFloats(rgb: Rgb)
    ensures IsFloat(FloatHsx(rgb).valueSaturation) && IsFloat(FloatHsx(rgb).lightnessSaturation)
  {
    var largest, smallest := FloatChannel(Brightest(rgb)), FloatChannel(Darkest(rgb));
    FloatValueSaturation(rgb);
    FloatLightnessSaturation(rgb);
    IntegersAreFloats(0);
    if Brightest(rgb) > 0 {
      FloatsAreFloats(FloatDelta(largest, smallest) / largest);
    }
    if Darkest(rgb) < Brightest(rgb) {
      FloatsAreFloats(FloatDelta(largest, smallest) / FloatDivisor(largest, smallest));
    }
  }

  lemma {:induction false} HueIsFloat(rgb: Rgb)
    ensures IsFloat(FloatHsx(rgb).hue)
  {
    FloatHueIs(rgb);
    IntegersAreFloats(0);
    if Darkest(rgb) < Brightest(rgb) {
      var c := FloatLight(rgb);
      var q := FloatTurn(c, FloatDelta(FloatChannel(Brightest(rgb)), FloatChannel(Darkest(rgb))));
      FloatsAreFloats(FloatRemainder(q) / 6.0);
      FloatsAreFloats(Float(q + 2.0) / 6.0);
      FloatsAreFloats(Float(q + 4.0) / 6.0);
    }
  }
}

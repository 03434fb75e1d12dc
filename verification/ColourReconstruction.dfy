/**
 Reconstructing one key's colour from a 32 by 11 video frame: brightness comes from the pixel under
 the key, colour differences from the average of a small window around it.
 */
module ColourReconstruction {
  import opened Topology

  const FRAME_WIDTH: nat := 32
  const FRAME_HEIGHT: nat := 11
  const CHROMA_RADIUS_X: nat := 2
  const CHROMA_RADIUS_Y: nat := 1

  /** A signed 32-bit integer; arithmetic on it is checked never to overflow. */
  newtype int32 = n: int | -0x8000_0000 <= n < 0x8000_0000

  const BLACK := Rgb(0, 0, 0)

  predicate IsGrey(rgb: Rgb) {
    rgb.r == rgb.g == rgb.b
  }

  function Negative(rgb: Rgb): Rgb {
    Rgb(255 - rgb.r, 255 - rgb.g, 255 - rgb.b)
  }

  // ----- Arithmetic

  /** Division that truncates toward zero. */
  function Truncated(dividend: int, divisor: int): int
    requires divisor > 0
  {
    if dividend >= 0 then dividend / divisor else -((-dividend) / divisor)
  }

  function RoundedDividend(dividend: int, divisor: int): int
    requires divisor > 0
  {
    if dividend >= 0 then Truncated(dividend + divisor / 2, divisor) else Truncated(dividend - divisor / 2, divisor)
  }

  lemma {:induction false} DivisionIdentity(n: nat, d: int)
    requires d > 0
    ensures d * (n / d) <= n < d * (n / d) + d
  {
    assert n == d * (n / d) + n % d;
  }

  lemma {:induction false} MultipleAtLeast(d: int, k: int)
    requires d > 0 && k >= 1
    ensures d * k >= d
  {
  }

  lemma {:induction false} MultipleIsUnique(d: int, p: int, q: int)
    requires d > 0 && -d < d * p - d * q < d
    ensures p == q
  {
    Distribute(d, q, p - q);
    Distribute(d, p, q - p);
    if p > q { MultipleAtLeast(d, p - q); }
    if p < q { MultipleAtLeast(d, q - p); }
  }

  /** The quotient is the nearest integer, and a tie is rounded away from zero. */
  lemma {:induction false} RoundedDividendIsNearest(dividend: int, divisor: int)
    requires divisor > 0
    ensures var q := RoundedDividend(dividend, divisor);
            && -divisor <= 2 * (divisor * q - dividend) <= divisor
            && (dividend >= 0 ==> 2 * (divisor * q - dividend) > -divisor)
            && (dividend < 0 ==> 2 * (divisor * q - dividend) < divisor)
  {
    var size := if dividend >= 0 then dividend else -dividend;
    var q := (size + divisor / 2) / divisor;
    DivisionIdentity(size + divisor / 2, divisor);
    assert divisor * -q == -(divisor * q);
  }

  lemma {:induction false} RoundedDividendOfMultiple(k: int, divisor: int)
    requires divisor > 0
    ensures RoundedDividend(k * divisor, divisor) == k
  {
    RoundedDividendIsNearest(k * divisor, divisor);
    assert k * divisor == divisor * k;
    MultipleIsUnique(divisor, RoundedDividend(k * divisor, divisor), k);
  }

  function Luma(rgb: Rgb): (l: int)
    ensures 0 <= l <= 255
    ensures 256 * l - 128 <= 77 * rgb.r + 150 * rgb.g + 29 * rgb.b < 256 * l + 128
  {
    (77 * rgb.r + 150 * rgb.g + 29 * rgb.b + 128) / 256
  }

  function Channel(value: int): (c: Byte)
    ensures 0 <= value <= 255 ==> c == value
    ensures value < 0 ==> c == 0
    ensures value > 255 ==> c == 255
  {
    if value < 0 then 0 else if value > 255 then 255 else value
  }

  // ----- The frame and its window

  function ByteAt(frame: seq<Byte>, index: nat): Byte {
    if index < |frame| then frame[index] else 0
  }

  function PixelAt(frame: seq<Byte>, x: nat, y: nat): Rgb {
    var offset := (y * FRAME_WIDTH + x) * 3;
    Rgb(ByteAt(frame, offset), ByteAt(frame, offset + 1), ByteAt(frame, offset + 2))
  }

  /** Columns `left` up to, but not including, `right`; rows `top` up to, but not including, `bottom`. */
  datatype Window = Window(left: nat, right: nat, top: nat, bottom: nat) {
    function Count(): nat {
      if left <= right && top <= bottom then PixelsIn(right - left, bottom - top) else 0
    }

    predicate Contains(x: nat, y: nat) {
      left <= x < right && top <= y < bottom
    }
  }

  /** The number of pixels in a number of rows. */
  function PixelsIn(width: nat, rows: nat): nat {
    if rows == 0 then 0 else PixelsIn(width, rows - 1) + width
  }

  function WindowAround(x: nat, y: nat): Window {
    Window(
      if x < CHROMA_RADIUS_X then 0 else x - CHROMA_RADIUS_X,
      (if x + CHROMA_RADIUS_X < FRAME_WIDTH - 1 then x + CHROMA_RADIUS_X else FRAME_WIDTH - 1) + 1,
      if y < CHROMA_RADIUS_Y then 0 else y - CHROMA_RADIUS_Y,
      (if y + CHROMA_RADIUS_Y < FRAME_HEIGHT - 1 then y + CHROMA_RADIUS_Y else FRAME_HEIGHT - 1) + 1)
  }

  predicate InFrame(x: nat, y: nat) {
    x < FRAME_WIDTH && y < FRAME_HEIGHT
  }

  /**
   The window of a sample in the frame is the part of the frame at most two columns and one row away;
   it has 6 to 15 pixels.
   */
  lemma {:induction false} WindowSize(x: nat, y: nat)
    requires InFrame(x, y)
    ensures var w := WindowAround(x, y);
            && w.Contains(x, y) && 6 <= w.Count() <= 15
            && forall i: nat, j: nat :: w.Contains(i, j) <==> InFrame(i, j) && -2 <= i - x <= 2 && -1 <= j - y <= 1
  {
    var w := WindowAround(x, y);
    var columns, rows := w.right - w.left, w.bottom - w.top;
    assert 3 <= columns <= 5 && 2 <= rows <= 3;
    assert PixelsIn(columns, 1) == columns;
    assert PixelsIn(columns, 2) == 2 * columns;
    assert PixelsIn(columns, 3) == 3 * columns;
  }

  function RedDifference(rgb: Rgb): int {
    rgb.r - Luma(rgb)
  }

  function BlueDifference(rgb: Rgb): int {
    rgb.b - Luma(rgb)
  }

  function RowSum(frame: seq<Byte>, of: Rgb -> int, left: nat, right: nat, y: nat): int {
    if right <= left then 0 else RowSum(frame, of, left, right - 1, y) + of(PixelAt(frame, right - 1, y))
  }

  function WindowSum(frame: seq<Byte>, of: Rgb -> int, w: Window): int
    decreases w.bottom
  {
    if w.bottom <= w.top then 0
    else WindowSum(frame, of, w.(bottom := w.bottom - 1)) + RowSum(frame, of, w.left, w.right, w.bottom - 1)
  }

  lemma {:induction false} RowSumBounds(frame: seq<Byte>, of: Rgb -> int, left: nat, right: nat, y: nat, low: int,
                                        high: int)
    requires left <= right
    requires forall x :: left <= x < right ==> low <= of(PixelAt(frame, x, y)) <= high
    ensures low * (right - left) <= RowSum(frame, of, left, right, y) <= high * (right - left)
  {
    if left < right {
      RowSumBounds(frame, of, left, right - 1, y, low, high);
      assert low * (right - left) == low * (right - 1 - left) + low;
      assert high * (right - left) == high * (right - 1 - left) + high;
    }
  }

  lemma {:induction false} WindowSumBounds(frame: seq<Byte>, of: Rgb -> int, w: Window, low: int, high: int)
    requires w.left <= w.right && w.top <= w.bottom
    requires forall x, y :: w.Contains(x, y) ==> low <= of(PixelAt(frame, x, y)) <= high
    ensures low * w.Count() <= WindowSum(frame, of, w) <= high * w.Count()
    decreases w.bottom
  {
    CountRows(w);
    if w.top < w.bottom {
      var rest, width := w.(bottom := w.bottom - 1), w.right - w.left;
      assert forall x, y :: rest.Contains(x, y) ==> w.Contains(x, y);
      WindowSumBounds(frame, of, rest, low, high);
      LastRowBounds(frame, of, w, low, high);
      Distribute(low, rest.Count(), width);
      Distribute(high, rest.Count(), width);
    }
  }

  lemma {:induction false} LastRowBounds(frame: seq<Byte>, of: Rgb -> int, w: Window, low: int, high: int)
    requires w.left <= w.right && w.top < w.bottom
    requires forall x, y :: w.Contains(x, y) ==> low <= of(PixelAt(frame, x, y)) <= high
    ensures low * (w.right - w.left) <= RowSum(frame, of, w.left, w.right, w.bottom - 1) <= high * (w.right - w.left)
  {
    var y := w.bottom - 1;
    forall x | w.left <= x < w.right
      ensures low <= of(PixelAt(frame, x, y)) <= high
    {
      assert w.Contains(x, y);
    }
    RowSumBounds(frame, of, w.left, w.right, y, low, high);
  }

  lemma {:induction false} CountRows(w: Window)
    requires w.left <= w.right && w.top <= w.bottom
    ensures w.top == w.bottom ==> w.Count() == 0
    ensures w.top < w.bottom ==> w.Count() == w.(bottom := w.bottom - 1).Count() + (w.right - w.left)
  {
  }

  lemma {:induction false} Distribute(k: int, a: int, b: int)
    ensures k * (a + b) == k * a + k * b
  {
  }

  // ----- Reconstruction

  datatype Raw = Raw(red: int, green: int, blue: int)

  /** The reconstructed channels before inversion and clamping. */
  function RawColour(centreLuma: int, redDifference: int, blueDifference: int, count: int): Raw
    requires count > 0
  {
    var red := centreLuma + RoundedDividend(redDifference, count);
    var blue := centreLuma + RoundedDividend(blueDifference, count);
    Raw(red, RoundedDividend(256 * centreLuma - 77 * red - 29 * blue, 150), blue)
  }

  function Finished(raw: Raw, invert: bool): Rgb {
    if invert then Rgb(Channel(255 - raw.red), Channel(255 - raw.green), Channel(255 - raw.blue))
    else Rgb(Channel(raw.red), Channel(raw.green), Channel(raw.blue))
  }

  function RawAt(frame: seq<Byte>, x: nat, y: nat): Raw
    requires WindowAround(x, y).Count() > 0
  {
    var w := WindowAround(x, y);
    RawColour(Luma(PixelAt(frame, x, y)), WindowSum(frame, RedDifference, w), WindowSum(frame, BlueDifference, w),
      w.Count())
  }

  function ColourAt(frame: seq<Byte>, x: nat, y: nat, invert: bool): Rgb {
    if WindowAround(x, y).Count() == 0 then BLACK else Finished(RawAt(frame, x, y), invert)
  }

  lemma {:induction false} RawLuma(centreLuma: int, redDifference: int, blueDifference: int, count: int)
    requires count > 0
    ensures var raw := RawColour(centreLuma, redDifference, blueDifference, count);
            256 * centreLuma - 75 <= 77 * raw.red + 150 * raw.green + 29 * raw.blue <= 256 * centreLuma + 75
  {
    var raw := RawColour(centreLuma, redDifference, blueDifference, count);
    RoundedDividendIsNearest(256 * centreLuma - 77 * raw.red - 29 * raw.blue, 150);
  }

  /**
   Averaging the colour over the window leaves the brightness of the centre pixel alone. Clamping a
   channel at 255 can only darken the result and clamping one at 0 can only brighten it, so without
   clamping the luma is exactly the centre's, or 255 minus it when inverted.
   */
  lemma {:induction false} LumaIsPreserved(frame: seq<Byte>, x: nat, y: nat, invert: bool)
    requires WindowAround(x, y).Count() > 0
    ensures
      var raw := RawAt(frame, x, y);
      var centre := Luma(PixelAt(frame, x, y));
      var wanted := if invert then 255 - centre else centre;
      var low := raw.red >= 0 && raw.green >= 0 && raw.blue >= 0;
      var high := raw.red <= 255 && raw.green <= 255 && raw.blue <= 255;
      && ((if invert then high else low) ==> Luma(ColourAt(frame, x, y, invert)) <= wanted)
      && ((if invert then low else high) ==> Luma(ColourAt(frame, x, y, invert)) >= wanted)
      && (low && high ==> Luma(ColourAt(frame, x, y, invert)) == wanted)
  {
    var w := WindowAround(x, y);
    RawLuma(Luma(PixelAt(frame, x, y)), WindowSum(frame, RedDifference, w), WindowSum(frame, BlueDifference, w),
      w.Count());
  }

  /** The rounded average of a colour difference over the window of a sample. */
  function AverageAt(frame: seq<Byte>, of: Rgb -> int, x: nat, y: nat): int
    requires WindowAround(x, y).Count() > 0
  {
    RoundedDividend(WindowSum(frame, of, WindowAround(x, y)), WindowAround(x, y).Count())
  }

  /** The green that goes with a luma and the average red and blue differences. */
  function GreenFor(luma: int, red: int, blue: int): int {
    RoundedDividend(150 * luma - 77 * red - 29 * blue, 150)
  }

  /** What rounding green adds to the weighted sum of the channels. */
  function GreenRemainder(luma: int, red: int, blue: int): int {
    150 * GreenFor(luma, red, blue) - (150 * luma - 77 * red - 29 * blue)
  }

  /** What clamping takes off a channel: nothing within a byte, the excess above 255, and a negative amount below 0. */
  function Cut(value: int): int {
    if value < 0 then value else if value > 255 then value - 255 else 0
  }

  /** What clamping takes off the weighted sum of the channels. */
  function Moved(luma: int, red: int, blue: int): int {
    77 * Cut(luma + red) + 150 * Cut(GreenFor(luma, red, blue)) + 29 * Cut(luma + blue)
  }

  /**
   The brightness survives exactly as long as what clamping takes off the weighted sum, less what the
   rounding of green added to it, is within half a step of the luma.
   */
  lemma {:induction false} LumaIsPreservedExactly(frame: seq<Byte>, x: nat, y: nat, invert: bool)
    requires WindowAround(x, y).Count() > 0
    ensures
      var luma := Luma(PixelAt(frame, x, y));
      var red, blue := AverageAt(frame, RedDifference, x, y), AverageAt(frame, BlueDifference, x, y);
      var change := GreenRemainder(luma, red, blue) - Moved(luma, red, blue);
      Luma(ColourAt(frame, x, y, invert)) == (if invert then 255 - luma else luma) <==>
        if invert then -128 < change <= 128 else -128 <= change < 128
  {
    var luma := Luma(PixelAt(frame, x, y));
    var red, blue := AverageAt(frame, RedDifference, x, y), AverageAt(frame, BlueDifference, x, y);
    assert RawAt(frame, x, y) == Raw(luma + red, GreenFor(luma, red, blue), luma + blue);
    FinishedLuma(luma, red, blue, invert);
  }

  /**
   So the brightness survives any clamping that takes off at most 53 or adds at most 52, of 256 to a
   step, and it is lost to any that takes off 204 or adds 203; inverting exchanges the two directions.
   */
  lemma {:induction false} LumaSurvivesLittleClamping(frame: seq<Byte>, x: nat, y: nat, invert: bool)
    requires WindowAround(x, y).Count() > 0
    ensures
      var luma := Luma(PixelAt(frame, x, y));
      var moved := Moved(luma, AverageAt(frame, RedDifference, x, y), AverageAt(frame, BlueDifference, x, y));
      var darker := if invert then -moved else moved;
      var survives := Luma(ColourAt(frame, x, y, invert)) == if invert then 255 - luma else luma;
      && (-52 <= darker <= 53 ==> survives)
      && (darker >= 204 || darker <= -203 ==> !survives)
  {
    LumaIsPreservedExactly(frame, x, y, invert);
    GreenRemainderBound(Luma(PixelAt(frame, x, y)), AverageAt(frame, RedDifference, x, y),
      AverageAt(frame, BlueDifference, x, y));
  }

  lemma {:induction false} GreenRemainderBound(luma: int, red: int, blue: int)
    ensures -75 <= GreenRemainder(luma, red, blue) <= 75
  {
    RoundedDividendIsNearest(150 * luma - 77 * red - 29 * blue, 150);
  }

  lemma {:induction false} FinishedLuma(luma: int, red: int, blue: int, invert: bool)
    ensures
      var change := GreenRemainder(luma, red, blue) - Moved(luma, red, blue);
      Luma(Finished(Raw(luma + red, GreenFor(luma, red, blue), luma + blue), invert)) ==
        (if invert then 255 - luma else luma) <==>
        if invert then -128 < change <= 128 else -128 <= change < 128
  {
    var green := GreenFor(luma, red, blue);
    ChannelCuts(luma + red);
    ChannelCuts(green);
    ChannelCuts(luma + blue);
    var clamped := Rgb(Channel(luma + red), Channel(green), Channel(luma + blue));
    LumaExactly(clamped, luma);
    LumaExactly(Negative(clamped), 255 - luma);
    assert Finished(Raw(luma + red, green, luma + blue), invert) == if invert then Negative(clamped) else clamped;
  }

  lemma {:induction false} ChannelCuts(value: int)
    ensures Channel(value) == value - Cut(value) && Channel(255 - value) == 255 - Channel(value)
  {
  }

  lemma {:induction false} LumaExactly(rgb: Rgb, luma: int)
    ensures Luma(rgb) == luma <==> 256 * luma - 128 <= 77 * rgb.r + 150 * rgb.g + 29 * rgb.b < 256 * luma + 128
  {
  }

  /** Without the limit on clamping, brightness is not preserved: black beside red comes out visibly lit. */
  lemma {:induction false} ClampingChangesLuma()
    ensures
      var frame: seq<Byte> := seq(FRAME_WIDTH * FRAME_HEIGHT * 3, i => if i == 3 then 255 else 0);
      && Luma(PixelAt(frame, 0, 0)) == 0
      && ColourAt(frame, 0, 0, false) == Rgb(30, 0, 0)
      && Luma(ColourAt(frame, 0, 0, false)) == 9
  {
    var frame: seq<Byte> := seq(FRAME_WIDTH * FRAME_HEIGHT * 3, i => if i == 3 then 255 else 0);
    assert PixelAt(frame, 1, 0) == Rgb(255, 0, 0);
    assert PixelAt(frame, 0, 0) == PixelAt(frame, 2, 0) == BLACK;
    assert PixelAt(frame, 0, 1) == PixelAt(frame, 1, 1) == PixelAt(frame, 2, 1) == BLACK;
    RedInTopLeft(frame);
  }

  lemma {:induction false} RedInTopLeft(frame: seq<Byte>)
    requires PixelAt(frame, 1, 0) == Rgb(255, 0, 0)
    requires PixelAt(frame, 0, 0) == PixelAt(frame, 2, 0) == BLACK
    requires PixelAt(frame, 0, 1) == PixelAt(frame, 1, 1) == PixelAt(frame, 2, 1) == BLACK
    ensures ColourAt(frame, 0, 0, false) == Rgb(30, 0, 0)
  {
    var w := WindowAround(0, 0);
    assert w == Window(0, 3, 0, 2) && w.Count() == 6;
    TopLeftSum(frame, RedDifference);
    TopLeftSum(frame, BlueDifference);
    assert RedDifference(BLACK) == BlueDifference(BLACK) == 0;
    assert RedDifference(Rgb(255, 0, 0)) == 178 && BlueDifference(Rgb(255, 0, 0)) == -77;
    assert RawColour(0, 178, -77, 6) == Raw(30, -13, -13);
  }

  lemma {:induction false} TopLeftSum(frame: seq<Byte>, of: Rgb -> int)
    ensures WindowSum(frame, of, Window(0, 3, 0, 2)) ==
            of(PixelAt(frame, 0, 0)) + of(PixelAt(frame, 1, 0)) + of(PixelAt(frame, 2, 0)) +
            of(PixelAt(frame, 0, 1)) + of(PixelAt(frame, 1, 1)) + of(PixelAt(frame, 2, 1))
  {
    TopLeftRowSum(frame, of, 0);
    TopLeftRowSum(frame, of, 1);
    assert WindowSum(frame, of, Window(0, 3, 0, 0)) == 0;
    assert WindowSum(frame, of, Window(0, 3, 0, 1)) == RowSum(frame, of, 0, 3, 0);
  }

  lemma {:induction false} TopLeftRowSum(frame: seq<Byte>, of: Rgb -> int, y: nat)
    ensures RowSum(frame, of, 0, 3, y) == of(PixelAt(frame, 0, y)) + of(PixelAt(frame, 1, y)) + of(PixelAt(frame, 2, y))
  {
    assert RowSum(frame, of, 0, 1, y) == of(PixelAt(frame, 0, y));
    assert RowSum(frame, of, 0, 2, y) == RowSum(frame, of, 0, 1, y) + of(PixelAt(frame, 1, y));
  }

  /** Where every pixel of the window has the same colour difference, that difference is recovered exactly. */
  lemma {:induction false} ConstantDifference(frame: seq<Byte>, of: Rgb -> int, x: nat, y: nat, difference: int)
    requires WindowAround(x, y).Count() > 0
    requires forall i, j :: WindowAround(x, y).Contains(i, j) ==> of(PixelAt(frame, i, j)) == difference
    ensures RoundedDividend(WindowSum(frame, of, WindowAround(x, y)), WindowAround(x, y).Count()) == difference
  {
    var w := WindowAround(x, y);
    WindowSumBounds(frame, of, w, difference, difference);
    RoundedDividendOfMultiple(difference, w.Count());
  }

  /** The remainder lost by the luma of a colour, which decides how its green is rounded. */
  function LumaRemainder(rgb: Rgb): int {
    (77 * rgb.r + 150 * rgb.g + 29 * rgb.b + 128) % 256
  }

  /**
   A uniform colour keeps its red and blue exactly and its green to within one; green is exact
   precisely when the luma remainder is between 54 and 203, or when clamping absorbs the error.
   */
  lemma {:induction false} UniformColourSurvives(frame: seq<Byte>, x: nat, y: nat, colour: Rgb, invert: bool)
    requires InFrame(x, y)
    requires forall i, j :: WindowAround(x, y).Contains(i, j) ==> PixelAt(frame, i, j) == colour
    ensures
      var output := ColourAt(frame, x, y, invert);
      var wanted := if invert then Negative(colour) else colour;
      && output.r == wanted.r && output.b == wanted.b
      && -1 <= output.g - wanted.g <= 1
      && (output.g == wanted.g <==>
            || 54 <= LumaRemainder(colour) <= 203
            || (colour.g == 255 && LumaRemainder(colour) < 54)
            || (colour.g == 0 && LumaRemainder(colour) > 203))
  {
    WindowSize(x, y);
    ConstantDifference(frame, RedDifference, x, y, RedDifference(colour));
    ConstantDifference(frame, BlueDifference, x, y, BlueDifference(colour));
    UniformFinished(colour, RawAt(frame, x, y), invert);
  }

  /** A frame of one dark green comes out a shade lighter. */
  lemma {:induction false} UniformGreenCanChange(frame: seq<Byte>)
    requires forall i, j :: WindowAround(0, 0).Contains(i, j) ==> PixelAt(frame, i, j) == Rgb(0, 1, 0)
    ensures ColourAt(frame, 0, 0, false) == Rgb(0, 2, 0)
  {
    UniformColourSurvives(frame, 0, 0, Rgb(0, 1, 0), false);
    GreenOfUniform(Rgb(0, 1, 0));
    WindowSize(0, 0);
    ConstantDifference(frame, RedDifference, 0, 0, RedDifference(Rgb(0, 1, 0)));
    ConstantDifference(frame, BlueDifference, 0, 0, BlueDifference(Rgb(0, 1, 0)));
    assert WindowAround(0, 0).Contains(0, 0);
  }

  lemma {:induction false} UniformFinished(colour: Rgb, raw: Raw, invert: bool)
    requires raw.red == colour.r && raw.blue == colour.b
    requires raw.green == RoundedDividend(256 * Luma(colour) - 77 * colour.r - 29 * colour.b, 150)
    ensures
      var output := Finished(raw, invert);
      var wanted := if invert then Negative(colour) else colour;
      && output.r == wanted.r && output.b == wanted.b
      && -1 <= output.g - wanted.g <= 1
      && (output.g == wanted.g <==>
            || 54 <= LumaRemainder(colour) <= 203
            || (colour.g == 255 && LumaRemainder(colour) < 54)
            || (colour.g == 0 && LumaRemainder(colour) > 203))
  {
    GreenOfUniform(colour);
    ChannelCuts(raw.green);
  }

  lemma {:induction false} GreenOfUniform(colour: Rgb)
    ensures RoundedDividend(256 * Luma(colour) - 77 * colour.r - 29 * colour.b, 150) ==
            if LumaRemainder(colour) < 54 then colour.g + 1
            else if LumaRemainder(colour) <= 202 || (colour.g > 0 && LumaRemainder(colour) == 203) then colour.g
            else colour.g - 1
  {
    var excess := 128 - LumaRemainder(colour);
    assert 256 * Luma(colour) - 77 * colour.r - 29 * colour.b == 150 * colour.g + excess;
    RoundedDividendIsNearest(150 * colour.g + excess, 150);
  }

  /** On grey pixels, uniform or not, the centre pixel or its negative comes back exactly. */
  lemma {:induction false} GreySurvives(frame: seq<Byte>, x: nat, y: nat, invert: bool)
    requires InFrame(x, y)
    requires forall i, j :: WindowAround(x, y).Contains(i, j) ==> IsGrey(PixelAt(frame, i, j))
    ensures ColourAt(frame, x, y, invert) ==
            if invert then Negative(PixelAt(frame, x, y)) else PixelAt(frame, x, y)
  {
    WindowSize(x, y);
    GreyWindow(frame, x, y);
    ConstantDifference(frame, RedDifference, x, y, 0);
    ConstantDifference(frame, BlueDifference, x, y, 0);
    assert WindowAround(x, y).Contains(x, y);
    var centre := PixelAt(frame, x, y);
    GreyFinished(centre, RawAt(frame, x, y), invert);
  }

  lemma {:induction false} GreyWindow(frame: seq<Byte>, x: nat, y: nat)
    requires forall i, j :: WindowAround(x, y).Contains(i, j) ==> IsGrey(PixelAt(frame, i, j))
    ensures forall i, j :: WindowAround(x, y).Contains(i, j) ==>
              RedDifference(PixelAt(frame, i, j)) == 0 && BlueDifference(PixelAt(frame, i, j)) == 0
  {
    forall i, j | WindowAround(x, y).Contains(i, j)
      ensures RedDifference(PixelAt(frame, i, j)) == 0 && BlueDifference(PixelAt(frame, i, j)) == 0
    {
      GreyHasNoDifference(PixelAt(frame, i, j));
    }
  }

  lemma {:induction false} GreyFinished(grey: Rgb, raw: Raw, invert: bool)
    requires IsGrey(grey) && raw.red == raw.blue == Luma(grey)
    requires raw.green == RoundedDividend(256 * Luma(grey) - 77 * raw.red - 29 * raw.blue, 150)
    ensures Finished(raw, invert) == if invert then Negative(grey) else grey
  {
    GreyHasNoDifference(grey);
    RoundedDividendOfMultiple(Luma(grey), 150);
  }

  lemma {:induction false} GreyHasNoDifference(rgb: Rgb)
    requires IsGrey(rgb)
    ensures Luma(rgb) == rgb.r && RedDifference(rgb) == 0 && BlueDifference(rgb) == 0
  {
  }

  // ----- The computation itself, in 32-bit arithmetic

  lemma {:induction false} QuotientBound(n: nat, d: int)
    requires d > 0
    ensures 0 <= n / d <= n
  {
    DivisionIdentity(n, d);
    if n / d > n {
      Distribute(n / d, 1, d - 1);
    }
  }

  method RoundedDividend32(dividend: int32, divisor: int32) returns (q: int32)
    requires 0 < divisor
    requires -0x8000_0000 < dividend as int - divisor as int / 2 && dividend as int + divisor as int / 2 < 0x8000_0000
    ensures q as int == RoundedDividend(dividend as int, divisor as int)
  {
    if dividend >= 0 {
      QuotientBound(dividend as int + divisor as int / 2, divisor as int);
      q := (dividend + divisor / 2) / divisor;
    } else {
      QuotientBound(-(dividend as int - divisor as int / 2), divisor as int);
      q := -((-(dividend - divisor / 2)) / divisor);
    }
  }

  /** The average of differences between -255 and 255 is again between -255 and 255. */
  lemma {:induction false} AverageBound(sum: int, count: int)
    requires count > 0 && -255 * count <= sum <= 255 * count
    ensures -255 <= RoundedDividend(sum, count) <= 255
  {
    var q := RoundedDividend(sum, count);
    RoundedDividendIsNearest(sum, count);
    if q > 255 {
      MultipleAtLeast(count, q - 255);
      Distribute(count, 255, q - 255);
    } else if q < -255 {
      MultipleAtLeast(count, -255 - q);
      Distribute(count, q, -255 - q);
    }
  }

  method Luma32(rgb: Rgb) returns (l: int32)
    ensures l as int == Luma(rgb)
  {
    l := (77 * rgb.r as int32 + 150 * rgb.g as int32 + 29 * rgb.b as int32 + 128) / 256;
  }

  /** Adds a row of the window to the sums and the count. */
  method AddRow(frame: seq<Byte>, left: nat, right: nat, row: nat, redStart: int32, blueStart: int32, countStart: int32)
    returns (redDifference: int32, blueDifference: int32, count: int32)
    requires left <= right <= left + 5 && 0 <= countStart <= 10
    requires -255 * countStart as int <= redStart as int <= 255 * countStart as int
    requires -255 * countStart as int <= blueStart as int <= 255 * countStart as int
    ensures redDifference as int == redStart as int + RowSum(frame, RedDifference, left, right, row)
    ensures blueDifference as int == blueStart as int + RowSum(frame, BlueDifference, left, right, row)
    ensures count as int == countStart as int + (right - left)
    ensures -255 * count as int <= redDifference as int <= 255 * count as int
    ensures -255 * count as int <= blueDifference as int <= 255 * count as int
  {
    redDifference, blueDifference, count := redStart, blueStart, countStart;
    for column := left to right
      invariant redDifference as int == redStart as int + RowSum(frame, RedDifference, left, column, row)
      invariant blueDifference as int == blueStart as int + RowSum(frame, BlueDifference, left, column, row)
      invariant count as int == countStart as int + (column - left)
      invariant -255 * count as int <= redDifference as int <= 255 * count as int
      invariant -255 * count as int <= blueDifference as int <= 255 * count as int
    {
      var pixel := PixelAt(frame, column, row);
      var pixelLuma := Luma32(pixel);
      redDifference := redDifference + (pixel.r as int32 - pixelLuma);
      blueDifference := blueDifference + (pixel.b as int32 - pixelLuma);
      count := count + 1;
    }
  }

  method WindowDifferences(frame: seq<Byte>, w: Window)
    returns (redDifference: int32, blueDifference: int32, count: int32)
    requires w.right - w.left <= 5 && w.bottom - w.top <= 3
    ensures redDifference as int == WindowSum(frame, RedDifference, w)
    ensures blueDifference as int == WindowSum(frame, BlueDifference, w)
    ensures count as int == w.Count()
    ensures -255 * count as int <= redDifference as int <= 255 * count as int
    ensures -255 * count as int <= blueDifference as int <= 255 * count as int
    ensures count <= 15
  {
    if w.right < w.left || w.bottom < w.top {
      redDifference, blueDifference, count := 0, 0, 0;
      EmptyWindow(frame, RedDifference, w);
      EmptyWindow(frame, BlueDifference, w);
    } else {
      redDifference, blueDifference, count := AddRows(frame, w);
      assert w.(bottom := w.bottom) == w;
    }
  }

  /** Adds up the rows of a window. */
  method AddRows(frame: seq<Byte>, w: Window) returns (redDifference: int32, blueDifference: int32, count: int32)
    requires w.left <= w.right <= w.left + 5 && w.top <= w.bottom <= w.top + 3
    ensures Summed(frame, w, w.bottom, redDifference as int, blueDifference as int, count as int)
    ensures -255 * count as int <= redDifference as int <= 255 * count as int
    ensures -255 * count as int <= blueDifference as int <= 255 * count as int
    ensures count <= 15
  {
    redDifference, blueDifference, count := 0, 0, 0;
    SummedNone(frame, w);
    for row := w.top to w.bottom
      invariant Summed(frame, w, row, redDifference as int, blueDifference as int, count as int)
      invariant 0 <= count as int <= 5 * (row - w.top)
      invariant -255 * count as int <= redDifference as int <= 255 * count as int
      invariant -255 * count as int <= blueDifference as int <= 255 * count as int
    {
      SummedRow(frame, w, row, redDifference as int, blueDifference as int, count as int);
      redDifference, blueDifference, count := AddRow(frame, w.left, w.right, row, redDifference, blueDifference, count);
    }
  }

  /** The sums and the count over the rows of the window before `row`. */
  ghost predicate Summed(frame: seq<Byte>, w: Window, row: nat, red: int, blue: int, count: int)
  {
    SummedOver(frame, w.(bottom := row), red, blue, count)
  }

  ghost predicate SummedOver(frame: seq<Byte>, w: Window, red: int, blue: int, count: int) {
    red == WindowSum(frame, RedDifference, w) && blue == WindowSum(frame, BlueDifference, w) && count == w.Count()
  }

  lemma {:induction false} SummedNone(frame: seq<Byte>, w: Window)
    requires w.left <= w.right
    ensures Summed(frame, w, w.top, 0, 0, 0)
  {
    CountRows(w.(bottom := w.top));
  }

  lemma {:induction false} SummedRow(frame: seq<Byte>, w: Window, row: nat, red: int, blue: int, count: int)
    requires w.left <= w.right && w.top <= row && Summed(frame, w, row, red, blue, count)
    ensures Summed(frame, w, row + 1, red + RowSum(frame, RedDifference, w.left, w.right, row),
                   blue + RowSum(frame, BlueDifference, w.left, w.right, row), count + (w.right - w.left))
  {
    CountRows(w.(bottom := row + 1));
  }

  lemma {:induction false} EmptyWindow(frame: seq<Byte>, of: Rgb -> int, w: Window)
    requires w.right < w.left || w.bottom < w.top
    ensures WindowSum(frame, of, w) == 0 && w.Count() == 0
    decreases w.bottom
  {
    if w.bottom > w.top {
      EmptyWindow(frame, of, w.(bottom := w.bottom - 1));
    }
  }

  /** Every intermediate of the computation fits in 32 bits, for every frame and every sample. */
  method ColourPixel(frame: seq<Byte>, x: nat, y: nat, invert: bool) returns (rgb: Rgb)
    ensures rgb == ColourAt(frame, x, y, invert)
  {
    var centreLuma := Luma32(PixelAt(frame, x, y));
    var redDifference, blueDifference, count := WindowDifferences(frame, WindowAround(x, y));
    if count == 0 {
      return BLACK;
    }
    AverageBound(redDifference as int, count as int);
    AverageBound(blueDifference as int, count as int);
    var red := RoundedDividend32(redDifference, count);
    red := centreLuma + red;
    var blue := RoundedDividend32(blueDifference, count);
    blue := centreLuma + blue;
    RawLuma(centreLuma as int, redDifference as int, blueDifference as int, count as int);
    var green := RoundedDividend32(256 * centreLuma - 77 * red - 29 * blue, 150);
    if invert {
      red, green, blue := 255 - red, 255 - green, 255 - blue;
    }
    rgb := Rgb(Channel(red as int), Channel(green as int), Channel(blue as int));
  }
}

/** Where the pixels of a frame lie in its bytes, and which of them a reconstructed colour depends on. */
module FramePixels {
  import opened Topology
  import opened ColourReconstruction
  import MediaPipes

  /** The bytes of a row of pixels: red, green and blue of each in turn. */
  function Packed(pixels: seq<Rgb>): (bytes: seq<Byte>)
    ensures |bytes| == 3 * |pixels|
  {
    if pixels == [] then []
    else
      var last := pixels[|pixels| - 1];
      Packed(pixels[..|pixels| - 1]) + [last.r, last.g, last.b]
  }

  lemma {:induction false} PackedAt(pixels: seq<Rgb>, k: nat)
    requires k < |pixels|
    ensures Rgb(Packed(pixels)[3 * k], Packed(pixels)[3 * k + 1], Packed(pixels)[3 * k + 2]) == pixels[k]
  {
    if k < |pixels| - 1 {
      PackedAt(pixels[..|pixels| - 1], k);
    }
  }

  /** A frame packs its pixels row by row: each reads back, and the last byte is the blue of the last pixel. */
  lemma {:induction false} PixelsReadBack(pixels: seq<Rgb>, x: nat, y: nat)
    requires |pixels| == FRAME_WIDTH * FRAME_HEIGHT && InFrame(x, y)
    ensures FRAME_WIDTH * y + x < |pixels| && PixelAt(Packed(pixels), x, y) == pixels[FRAME_WIDTH * y + x]
    ensures |Packed(pixels)| == MediaPipes.FrameBytes(true) && |pixels| == MediaPipes.FrameBytes(false)
    ensures Packed(pixels)[MediaPipes.FrameBytes(true) - 1] ==
            PixelAt(Packed(pixels), FRAME_WIDTH - 1, FRAME_HEIGHT - 1).b
  {
    PackedAt(pixels, FRAME_WIDTH * y + x);
  }

  // ----- One pixel at a time

  /** The frames have the same pixels except perhaps at `(i, j)`. */
  ghost predicate AgreeOff(f: seq<Byte>, g: seq<Byte>, i: nat, j: nat) {
    forall x: nat, y: nat :: x != i || y != j ==> PixelAt(f, x, y) == PixelAt(g, x, y)
  }

  lemma {:induction false} RowSumChange(f: seq<Byte>, g: seq<Byte>, of: Rgb -> int, left: nat, right: nat, y: nat,
                                        i: nat, j: nat)
    requires AgreeOff(f, g, i, j)
    ensures RowSum(g, of, left, right, y) == RowSum(f, of, left, right, y) +
            if y == j && left <= i < right then of(PixelAt(g, i, j)) - of(PixelAt(f, i, j)) else 0
  {
    if left < right {
      RowSumChange(f, g, of, left, right - 1, y, i, j);
    }
  }

  lemma {:induction false} WindowSumChange(f: seq<Byte>, g: seq<Byte>, of: Rgb -> int, w: Window, i: nat, j: nat)
    requires AgreeOff(f, g, i, j)
    ensures WindowSum(g, of, w) == WindowSum(f, of, w) +
            if w.Contains(i, j) then of(PixelAt(g, i, j)) - of(PixelAt(f, i, j)) else 0
    decreases w.bottom
  {
    if w.top < w.bottom {
      WindowSumChange(f, g, of, w.(bottom := w.bottom - 1), i, j);
      RowSumChange(f, g, of, w.left, w.right, w.bottom - 1, i, j);
    }
  }

  /**
   Each pixel at most two columns and one row from a sample counts once in the sums behind its colour,
   and a pixel further away not at all.
   */
  lemma {:induction false} PixelCountsOnce(f: seq<Byte>, g: seq<Byte>, of: Rgb -> int, x: nat, y: nat, i: nat, j: nat)
    requires AgreeOff(f, g, i, j) && InFrame(x, y) && InFrame(i, j)
    ensures var near := -2 <= i - x <= 2 && -1 <= j - y <= 1;
            && WindowSum(g, of, WindowAround(x, y)) == WindowSum(f, of, WindowAround(x, y)) +
                  (if near then of(PixelAt(g, i, j)) - of(PixelAt(f, i, j)) else 0)
            && (!near ==> forall invert :: ColourAt(g, x, y, invert) == ColourAt(f, x, y, invert))
  {
    WindowSize(x, y);
    WindowSumChange(f, g, of, WindowAround(x, y), i, j);
    WindowSumChange(f, g, RedDifference, WindowAround(x, y), i, j);
    WindowSumChange(f, g, BlueDifference, WindowAround(x, y), i, j);
    if i != x || j != y {
      assert PixelAt(f, x, y) == PixelAt(g, x, y);
    }
  }
}

/** `ScaleCoords`: the inverse of the letterbox transform, mapping a box from
    the network's input space (`imgShape`, 640 x 640 here) back to the
    original image (`origin`). */
module ScaleCoords {
  import opened Numerics

  /** `cv::Size`. */
  datatype Size = Size(width: int, height: int)

  /** `cv::Rect`: top-left corner and extent. */
  datatype Rect = Rect(x: int, y: int, width: int, height: int)

  predicate Positive(s: Size) {
    s.width > 0 && s.height > 0
  }

  /** A box that lies in the ranges `ScaleCoords` clamps to: each of `x` and
      `width` in `[0, origin.width]`, each of `y` and `height` in
      `[0, origin.height]`. */
  predicate Clamped(r: Rect, origin: Size) {
    && 0 <= r.x <= origin.width && 0 <= r.y <= origin.height
    && 0 <= r.width <= origin.width && 0 <= r.height <= origin.height
  }

  /** The letterbox gain: the smaller of the height and width ratios. */
  function Gain(imgShape: Size, origin: Size): (g: real)
    requires Positive(imgShape) && Positive(origin)
    ensures g > 0.0
    ensures g <= imgShape.height as real / origin.height as real
    ensures g <= imgShape.width as real / origin.width as real
  {
    var gh := imgShape.height as real / origin.height as real;
    var gw := imgShape.width as real / origin.width as real;
    if gw < gh then gw else gh
  }

  /** A side scaled by at most the ratio of the network's side to it fits
      into the network's side, and scaled by exactly that ratio fills it. */
  lemma ScaledSideFits(side: int, originSide: int, gain: real)
    requires originSide > 0 && 0.0 < gain <= side as real / originSide as real
    ensures originSide as real * gain <= side as real
    ensures gain == side as real / originSide as real ==> originSide as real * gain == side as real
  {
    assert originSide as real * (side as real / originSide as real) == side as real;
  }

  /** The gain is the largest uniform scale at which the original image
      still fits into `imgShape`: the scaled image fits on both axes and
      fills one of them exactly. */
  lemma GainFits(imgShape: Size, origin: Size)
    requires Positive(imgShape) && Positive(origin)
    ensures var g := Gain(imgShape, origin);
      && origin.width as real * g <= imgShape.width as real
      && origin.height as real * g <= imgShape.height as real
      && (origin.width as real * g == imgShape.width as real
          || origin.height as real * g == imgShape.height as real)
  {
    var g := Gain(imgShape, origin);
    ScaledSideFits(imgShape.width, origin.width, g);
    ScaledSideFits(imgShape.height, origin.height, g);
  }

  /** The space that the original side, scaled by the gain, leaves of the
      network's side. */
  function Leftover(side: int, originSide: int, gain: real): real {
    side as real - originSide as real * gain
  }

  /** The pad on one axis: the truncated half of the leftover space. */
  function HalfPad(side: int, originSide: int, gain: real): int {
    Trunc(Leftover(side, originSide, gain) / 2.0)
  }

  /** The padding `pad[0]` (left) and `pad[1]` (top). */
  function Pads(imgShape: Size, origin: Size): (pad: (int, int))
    requires Positive(imgShape) && Positive(origin)
  {
    var g := Gain(imgShape, origin);
    (HalfPad(imgShape.width, origin.width, g), HalfPad(imgShape.height, origin.height, g))
  }

  /** `p` is half of `leftover` truncated toward zero, for a non-negative
      `leftover`: twice `p` falls short of it by less than two. */
  predicate HalfOfLeftover(p: int, leftover: real) {
    0 <= p && (2 * p) as real <= leftover < (2 * p + 2) as real
  }

  /** When the scaled side fits, the pad is non-negative and twice the pad
      falls short of the leftover space by less than two pixels. */
  lemma HalfPadOfLeftover(side: int, originSide: int, gain: real)
    requires originSide as real * gain <= side as real
    ensures HalfOfLeftover(HalfPad(side, originSide, gain), Leftover(side, originSide, gain))
  {
    TruncTowardZero(Leftover(side, originSide, gain) / 2.0);
  }

  /** One axis of `PadsAreHalfLeftover`. */
  lemma PadOfSide(side: int, originSide: int, gain: real)
    requires originSide > 0 && 0.0 < gain <= side as real / originSide as real
    ensures HalfOfLeftover(HalfPad(side, originSide, gain), Leftover(side, originSide, gain))
  {
    ScaledSideFits(side, originSide, gain);
    HalfPadOfLeftover(side, originSide, gain);
  }

  /** Both pads are non-negative, and twice each pad is the leftover space on
      its axis, short by less than two pixels. */
  lemma PadsAreHalfLeftover(imgShape: Size, origin: Size)
    requires Positive(imgShape) && Positive(origin)
    ensures var g := Gain(imgShape, origin);
      var pad := Pads(imgShape, origin);
      && HalfOfLeftover(pad.0, Leftover(imgShape.width, origin.width, g))
      && HalfOfLeftover(pad.1, Leftover(imgShape.height, origin.height, g))
  {
    var g := Gain(imgShape, origin);
    PadOfSide(imgShape.width, origin.width, g);
    PadOfSide(imgShape.height, origin.height, g);
  }

  /** One coordinate of `ScaleCoords`: remove the pad, divide by the gain,
      round, then clamp to `[0, bound]`. */
  function AxisBack(v: int, pad: int, gain: real, bound: int): (r: int)
    requires gain > 0.0 && bound >= 0
    ensures 0 <= r <= bound
  {
    Clip(Round((v - pad) as real / gain), 0, bound)
  }

  /** A box of the network's input space mapped back under a given gain and
      pad: each coordinate on its own. Width and height get no pad and are
      clamped to the whole image dimension, not to what is left after `x`
      and `y`. */
  function Unletterbox(coords: Rect, gain: real, pad: (int, int), origin: Size): (r: Rect)
    requires gain > 0.0 && Positive(origin)
    ensures Clamped(r, origin)
  {
    Rect(AxisBack(coords.x, pad.0, gain, origin.width),
         AxisBack(coords.y, pad.1, gain, origin.height),
         AxisBack(coords.width, 0, gain, origin.width),
         AxisBack(coords.height, 0, gain, origin.height))
  }

  /** What `ScaleCoords` leaves in `coords`. */
  function MapBack(imgShape: Size, coords: Rect, origin: Size): (r: Rect)
    requires Positive(imgShape) && Positive(origin)
    ensures Clamped(r, origin)
  {
    Unletterbox(coords, Gain(imgShape, origin), Pads(imgShape, origin), origin)
  }

  /** The imperative form: `coords` is passed by reference in the source and
      its four fields are overwritten one after another; here the updated
      rectangle is returned. */
  method ScaleCoords(imgShape: Size, coords: Rect, origin: Size) returns (scaled: Rect)
    requires Positive(imgShape) && Positive(origin)
    ensures scaled == MapBack(imgShape, coords, origin)
    ensures Clamped(scaled, origin)
  {
    var gain := Gain(imgShape, origin);
    var pad := new int[2];
    pad[0] := HalfPad(imgShape.width, origin.width, gain);
    pad[1] := HalfPad(imgShape.height, origin.height, gain);

    var c := coords;
    c := c.(x := Round((c.x - pad[0]) as real / gain));
    c := c.(y := Round((c.y - pad[1]) as real / gain));

    c := c.(width := Round(c.width as real / gain));
    c := c.(height := Round(c.height as real / gain));

    c := c.(x := Clip(c.x, 0, origin.width));
    c := c.(y := Clip(c.y, 0, origin.height));
    c := c.(width := Clip(c.width, 0, origin.width));
    c := c.(height := Clip(c.height, 0, origin.height));
    scaled := c;
  }

  /** `v` is where the letterbox puts the original coordinate `orig`: the
      pad plus the gain times `orig`. */
  predicate LetterboxedAt(v: int, pad: int, gain: real, orig: int) {
    (v - pad) as real == gain * orig as real
  }

  /** Per axis, rounding and clamping undo the letterbox exactly: a value
      that is the pad plus the gain times a coordinate inside the image maps
      back to that coordinate. */
  lemma AxisBackInverts(v: int, pad: int, gain: real, bound: int, orig: int)
    requires gain > 0.0 && 0 <= orig <= bound
    requires LetterboxedAt(v, pad, gain, orig)
    ensures AxisBack(v, pad, gain, bound) == orig
  {
    assert (v - pad) as real / gain == orig as real;
    RoundOfInt(orig);
  }

  /** Round trip with the letterbox, for any gain and pad: a box that is the
      exact image, under the gain and the pad, of a box `orig` lying inside
      the original image is mapped back to `orig`. */
  lemma UnletterboxInverts(coords: Rect, gain: real, pad: (int, int), origin: Size, orig: Rect)
    requires gain > 0.0 && Positive(origin)
    requires Clamped(orig, origin)
    requires LetterboxedAt(coords.x, pad.0, gain, orig.x)
    requires LetterboxedAt(coords.y, pad.1, gain, orig.y)
    requires LetterboxedAt(coords.width, 0, gain, orig.width)
    requires LetterboxedAt(coords.height, 0, gain, orig.height)
    ensures Unletterbox(coords, gain, pad, origin) == orig
  {
    AxisBackInverts(coords.x, pad.0, gain, origin.width, orig.x);
    AxisBackInverts(coords.y, pad.1, gain, origin.height, orig.y);
    AxisBackInverts(coords.width, 0, gain, origin.width, orig.width);
    AxisBackInverts(coords.height, 0, gain, origin.height, orig.height);
  }

  /** Before clamping, a mapped coordinate is within half a pixel of the
      exact inverse of the letterbox, so when that inverse lies inside
      `[0, bound]` the result is within half a pixel of it. */
  lemma AxisBackWithinHalfPixel(v: int, pad: int, gain: real, bound: int)
    requires gain > 0.0 && bound >= 0
    ensures var exact := (v - pad) as real / gain;
      0.0 <= exact <= bound as real ==>
        -0.5 <= AxisBack(v, pad, gain, bound) as real - exact <= 0.5
  {
    RoundNearest((v - pad) as real / gain);
  }

  /** The worked example of a 1280 x 720 image letterboxed into 640 x 640:
      the gain is 1/2, the pads are 0 and 140, and the box (320, 320, 100, 50)
      maps back to (640, 360, 200, 100). */
  lemma ScaleCoordsExample()
    ensures Gain(Size(640, 640), Size(1280, 720)) == 0.5
    ensures Pads(Size(640, 640), Size(1280, 720)) == (0, 140)
    ensures MapBack(Size(640, 640), Rect(320, 320, 100, 50), Size(1280, 720)) == Rect(640, 360, 200, 100)
  {
    assert Gain(Size(640, 640), Size(1280, 720)) == 0.5;
    assert Pads(Size(640, 640), Size(1280, 720)) == (0, 140);
    RoundOfInt(640);
    RoundOfInt(360);
    RoundOfInt(200);
    RoundOfInt(100);
  }

  /** Width is clamped against the full image width, not against the space
      right of `x`, so a mapped box can reach past the image's right edge. */
  lemma ScaleCoordsMayOverhang()
    ensures var r := MapBack(Size(640, 640), Rect(600, 140, 100, 10), Size(1280, 720));
      r.x + r.width > 1280
  {
    assert Gain(Size(640, 640), Size(1280, 720)) == 0.5;
    assert Pads(Size(640, 640), Size(1280, 720)) == (0, 140);
    RoundOfInt(1200);
    RoundOfInt(200);
  }
}

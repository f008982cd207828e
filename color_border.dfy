/**
 * `color_border`: each image of a batch is placed on a canvas `width` pixels
 * larger on every side, filled with that image's border colour (given on a
 * 0..255 scale), and the canvases are stacked in batch order.
 */
module ColorBorder {

  /** The input channel behind output channel `c`: a one-channel image or colour row is broadcast to all three. */
  function SourceChannel(channels: nat, c: nat): (s: nat)
    requires channels == 1 || channels == 3
    requires c < 3
    ensures s < channels
    ensures channels == 3 ==> s == c
  {
    if channels == 1 then 0 else c
  }

  /** Inputs the source accepts: images `[B, C, H, W]` with C of 1 or 3, a colour row of 1 or 3 entries per image, a positive width. */
  predicate Acceptable(images: array4<real>, colors: array2<real>, width: nat)
  {
    (images.Length1 == 1 || images.Length1 == 3) &&
    images.Length0 <= colors.Length0 && (colors.Length1 == 1 || colors.Length1 == 3) &&
    width > 0
  }

  /** Pixel `(y, x)` of a padded canvas lies over the image, not the border. */
  predicate Interior(images: array4<real>, width: nat, y: int, x: int)
  {
    width <= y < images.Length2 + width && width <= x < images.Length3 + width
  }

  /**
   * `canvas` is image `i` with its border: three channels, `width` more pixels
   * on each side, the image (broadcast over channels) in the interior and
   * `colors[i, c] / 255` (one colour entry broadcast) everywhere else in channel `c`.
   */
  ghost predicate Padded(canvas: array3<real>, images: array4<real>, colors: array2<real>, i: nat, width: nat)
    reads canvas, images, colors
    requires Acceptable(images, colors, width) && i < images.Length0
  {
    canvas.Length0 == 3 &&
    canvas.Length1 == images.Length2 + 2 * width &&
    canvas.Length2 == images.Length3 + 2 * width &&
    (forall c, y, x :: 0 <= c < 3 && Interior(images, width, y, x) ==>
      canvas[c, y, x] == images[i, SourceChannel(images.Length1, c), y - width, x - width]) &&
    (forall c, y, x ::
      (0 <= c < 3 && 0 <= y < canvas.Length1 && 0 <= x < canvas.Length2 && !Interior(images, width, y, x)) ==>
      canvas[c, y, x] == colors[i, SourceChannel(colors.Length1, c)] / 255.0)
  }

  /** One iteration of the loop: a fresh canvas filled with the border colour, the image copied into its interior. */
  method PadImage(images: array4<real>, colors: array2<real>, i: nat, width: nat) returns (canvas: array3<real>)
    requires Acceptable(images, colors, width) && i < images.Length0
    ensures fresh(canvas)
    ensures Padded(canvas, images, colors, i, width)
  {
    var h, w := images.Length2 + 2 * width, images.Length3 + 2 * width;
    canvas := new real[3, h, w];
    forall c, y, x | 0 <= c < 3 && 0 <= y < h && 0 <= x < w {
      canvas[c, y, x] := colors[i, SourceChannel(colors.Length1, c)] / 255.0;
    }
    forall c, y, x | 0 <= c < 3 && width <= y < images.Length2 + width && width <= x < images.Length3 + width {
      canvas[c, y, x] := images[i, SourceChannel(images.Length1, c), y - width, x - width];
    }
  }

  /**
   * The whole batch: one padded image per input image, in the same order,
   * stacked into a fresh `[B, 3, H + 2 width, W + 2 width]` array.
   */
  method ColorBorder(images: array4<real>, colors: array2<real>, width: nat) returns (padded: array4<real>)
    requires Acceptable(images, colors, width)
    requires images.Length0 > 0
    ensures fresh(padded)
    ensures padded.Length0 == images.Length0 && padded.Length1 == 3
    ensures padded.Length2 == images.Length2 + 2 * width && padded.Length3 == images.Length3 + 2 * width
    ensures forall b, c, y, x :: 0 <= b < padded.Length0 && 0 <= c < 3 && Interior(images, width, y, x) ==>
      padded[b, c, y, x] == images[b, SourceChannel(images.Length1, c), y - width, x - width]
    ensures forall b, c, y, x ::
      (0 <= b < padded.Length0 && 0 <= c < 3 && 0 <= y < padded.Length2 && 0 <= x < padded.Length3 &&
       !Interior(images, width, y, x)) ==>
      padded[b, c, y, x] == colors[b, SourceChannel(colors.Length1, c)] / 255.0
  {
    var pads: seq<array3<real>> := [];
    for i := 0 to images.Length0
      invariant |pads| == i
      invariant forall j :: 0 <= j < i ==> fresh(pads[j]) && Padded(pads[j], images, colors, j, width)
    {
      var canvas := PadImage(images, colors, i, width);
      pads := pads + [canvas];
    }
    var h, w := images.Length2 + 2 * width, images.Length3 + 2 * width;
    padded := new real[images.Length0, 3, h, w];
    forall b, c, y, x | 0 <= b < images.Length0 && 0 <= c < 3 && 0 <= y < h && 0 <= x < w {
      padded[b, c, y, x] := pads[b][c, y, x];
    }
  }
}

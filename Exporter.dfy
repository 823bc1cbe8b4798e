/** Compositing a prepared watermark onto one image: output size, placement of
    the watermark's centre at a normalised anchor, the full-size overlay it is
    pasted into, and the choice of encoder. Decoding, resampling, per-pixel
    blending and encoding belong to the imaging library and are not modelled;
    the decoded size of the source is an input. */
module Exporter {
  import opened Base
  import opened PathText

  /** The arguments of one compose call. */
  datatype Request = Request(
    srcPath: string,
    dstPath: string,
    watermark: Size,
    anchor: Anchor,
    outputFormat: string,
    jpegQuality: int,
    resizeTo: Option<Size>)

  /** How the composed image is written: JPEG drops the alpha channel and runs
      the optimising pass at the given quality; PNG keeps alpha. */
  datatype Encoding = Jpeg(quality: int, optimize: bool) | Png(compressLevel: int)

  datatype Placement = Placement(center: Point, topLeft: Point)

  datatype Composition = Composition(size: Size, placement: Placement, encoding: Encoding, returned: string)

  /** One pixel of the overlay: still transparent, or showing the watermark
      pixel at the given offset (pasted through that pixel's own alpha). */
  datatype Cell = Clear | Covered(wx: int, wy: int)

  /** The size the source has after the optional resize. */
  function OutputSize(decoded: Size, resizeTo: Option<Size>): Size {
    match resizeTo
    case Some(target) => target
    case None => decoded
  }

  /** The watermark's centre is the anchor scaled to the image and truncated;
      its top-left corner is half the watermark (rounded down) above and to the left. */
  function Place(image: Size, watermark: Size, anchor: Anchor): Placement {
    var cx := Trunc(anchor.fx * image.width as real);
    var cy := Trunc(anchor.fy * image.height as real);
    Placement(Point(cx, cy), Point(cx - watermark.width / 2, cy - watermark.height / 2))
  }

  const JpegFormats: set<string> := {"jpg", "jpeg"}

  /** "jpg" or "jpeg" in any case selects JPEG; every other string selects PNG. */
  function EncodingFor(outputFormat: string, jpegQuality: int): Encoding {
    if Lower(outputFormat) in JpegFormats then Jpeg(jpegQuality, true) else Png(6)
  }

  /** `compose_watermark_on_image`, for a source that decodes to `decoded`. */
  function Compose(req: Request, decoded: Size): (c: Composition)
    ensures c.returned == req.dstPath
    ensures c.size == OutputSize(decoded, req.resizeTo)
    ensures c.placement == Place(c.size, req.watermark, req.anchor)
    ensures c.encoding.Jpeg? <==> Lower(req.outputFormat) in JpegFormats
    ensures c.encoding == if Lower(req.outputFormat) in JpegFormats then Jpeg(req.jpegQuality, true) else Png(6)
  {
    var size := OutputSize(decoded, req.resizeTo);
    Composition(size, Place(size, req.watermark, req.anchor), EncodingFor(req.outputFormat, req.jpegQuality), req.dstPath)
  }

  /** The overlay pixel at (x, y): the watermark where its rectangle covers
      (x, y), transparent everywhere else. */
  function OverlayAt(topLeft: Point, watermark: Size, x: int, y: int): Cell {
    if topLeft.x <= x < topLeft.x + watermark.width && topLeft.y <= y < topLeft.y + watermark.height
    then Covered(x - topLeft.x, y - topLeft.y)
    else Clear
  }

  /** Builds the transparent overlay of the image's size and pastes the
      watermark into it at `topLeft`; whatever falls outside the image is cut off. */
  method BuildOverlay(image: Size, watermark: Size, topLeft: Point) returns (layer: array2<Cell>)
    requires image.width >= 0 && image.height >= 0
    ensures layer.Length0 == image.width && layer.Length1 == image.height
    ensures forall x, y :: 0 <= x < image.width && 0 <= y < image.height ==>
              layer[x, y] == OverlayAt(topLeft, watermark, x, y)
  {
    layer := new Cell[image.width, image.height]((x, y) => Clear);
    var x0 := Max(topLeft.x, 0);
    var x1 := if topLeft.x + watermark.width < image.width then topLeft.x + watermark.width else image.width;
    var y0 := Max(topLeft.y, 0);
    var y1 := if topLeft.y + watermark.height < image.height then topLeft.y + watermark.height else image.height;
    var x := x0;
    while x < x1
      invariant x0 <= x && (x0 <= x1 ==> x <= x1)
      invariant forall a, b :: 0 <= a < image.width && 0 <= b < image.height ==>
                  layer[a, b] == (if x0 <= a < x && y0 <= b < y1 then OverlayAt(topLeft, watermark, a, b) else Clear)
    {
      var y := y0;
      while y < y1
        invariant y0 <= y && (y0 <= y1 ==> y <= y1)
        invariant forall a, b :: 0 <= a < image.width && 0 <= b < image.height ==>
                    layer[a, b] == (if (x0 <= a < x && y0 <= b < y1) || (a == x && y0 <= b < y)
                                    then OverlayAt(topLeft, watermark, a, b) else Clear)
      {
        layer[x, y] := Covered(x - topLeft.x, y - topLeft.y);
        y := y + 1;
      }
      x := x + 1;
    }
  }

  /** The paste is a translation: a pixel is covered exactly inside the
      watermark's rectangle, it then shows a pixel of the watermark at its
      offset from the corner, and no watermark pixel shows at two places. */
  lemma OverlayShowsWatermark(topLeft: Point, watermark: Size, x: int, y: int, x': int, y': int)
    ensures OverlayAt(topLeft, watermark, x, y).Covered? <==>
              (topLeft.x <= x < topLeft.x + watermark.width && topLeft.y <= y < topLeft.y + watermark.height)
    ensures OverlayAt(topLeft, watermark, x, y).Covered? ==>
              var c := OverlayAt(topLeft, watermark, x, y);
              && 0 <= c.wx < watermark.width && 0 <= c.wy < watermark.height
              && topLeft.x + c.wx == x && topLeft.y + c.wy == y
    ensures OverlayAt(topLeft, watermark, x, y).Covered? &&
            OverlayAt(topLeft, watermark, x, y) == OverlayAt(topLeft, watermark, x', y') ==>
              x == x' && y == y'
  {
  }

  /** Pasted at the corner `Place` computes, the watermark's own centre pixel
      (half its size, rounded down) lands on the anchor point. */
  lemma CentrePixelOnAnchor(image: Size, watermark: Size, anchor: Anchor)
    requires watermark.width > 0 && watermark.height > 0
    ensures var p := Place(image, watermark, anchor);
      OverlayAt(p.topLeft, watermark, p.center.x, p.center.y) == Covered(watermark.width / 2, watermark.height / 2)
  {
  }

  /** The watermark is centred on the anchor point: the centre is the scaled
      anchor rounded toward zero, it lies inside the image for anchors in [0, 1],
      and it splits the watermark into halves that differ by at most one pixel. */
  lemma PlacementCentresWatermark(image: Size, watermark: Size, anchor: Anchor)
    requires image.width >= 0 && image.height >= 0 && watermark.width >= 0 && watermark.height >= 0
    requires 0.0 <= anchor.fx <= 1.0 && 0.0 <= anchor.fy <= 1.0
    ensures var p := Place(image, watermark, anchor);
      && p.center.x as real <= anchor.fx * image.width as real < p.center.x as real + 1.0
      && p.center.y as real <= anchor.fy * image.height as real < p.center.y as real + 1.0
      && 0 <= p.center.x <= image.width && 0 <= p.center.y <= image.height
      && 0 <= (p.topLeft.x + watermark.width - p.center.x) - (p.center.x - p.topLeft.x) <= 1
      && 0 <= (p.topLeft.y + watermark.height - p.center.y) - (p.center.y - p.topLeft.y) <= 1
  {
    AxisCentre(anchor.fx, image.width);
    AxisCentre(anchor.fy, image.height);
  }

  /** Along one axis: the truncated scaled anchor is the whole part of the
      exact position and lies within the image. */
  lemma AxisCentre(f: real, n: int)
    requires 0.0 <= f <= 1.0 && n >= 0
    ensures var c := Trunc(f * n as real); c as real <= f * n as real < c as real + 1.0 && 0 <= c <= n
  {
    FractionOfLength(f, n);
  }

  /** `0 <= f * n <= n` for a fraction `f` in [0, 1], by induction on `n`. */
  lemma {:induction false} FractionOfLength(f: real, n: nat)
    requires 0.0 <= f <= 1.0
    ensures 0.0 <= f * n as real <= n as real
  {
    if n > 0 {
      FractionOfLength(f, n - 1);
      assert f * n as real == f * (n - 1) as real + f;
    }
  }

  /** For the default anchor (0.5, 0.5) the centre is the image's centre, rounded down. */
  lemma DefaultAnchorCentres(image: Size, watermark: Size)
    requires image.width >= 0 && image.height >= 0
    ensures Place(image, watermark, Anchor(0.5, 0.5)).center == Point(image.width / 2, image.height / 2)
  {
    HalfTruncates(image.width);
    HalfTruncates(image.height);
  }

  lemma HalfTruncates(n: int)
    requires n >= 0
    ensures Trunc(0.5 * n as real) == n / 2
  {
    var q, r := n / 2, n % 2;
    assert 0.5 * n as real == q as real + 0.5 * r as real;
    assert q as real <= 0.5 * n as real < q as real + 1.0;
  }

  /** Anchor (0.9, 0.9) on a 1000 x 800 image puts the centre at (900, 720). */
  lemma AnchorExample(watermark: Size)
    ensures Place(Size(1000, 800), watermark, Anchor(0.9, 0.9)).center == Point(900, 720)
  {
    assert 0.9 * 1000.0 == 900.0 && 0.9 * 800.0 == 720.0;
  }

  /** Placement is not clamped: a watermark anchored at the bottom-right corner
      hangs half outside the image. */
  lemma PlacementNotClamped()
    ensures var p := Place(Size(100, 100), Size(50, 50), Anchor(1.0, 1.0));
      p.topLeft == Point(75, 75) && p.topLeft.x + 50 > 100 && p.topLeft.y + 50 > 100
  {
  }

  /** The encoder choice is case-insensitive and every other format, known or
      not, is written as PNG at compression level 6 without error. */
  lemma EncodingDispatch(q: int)
    ensures EncodingFor("jpg", q) == Jpeg(q, true)
    ensures EncodingFor("JPEG", q) == Jpeg(q, true)
    ensures EncodingFor("png", q) == Png(6)
    ensures EncodingFor("gif", q) == Png(6)
  {
    assert Lower("jpg") == "jpg";
    assert Lower("JPEG") == "jpeg" by {
      assert forall i | 0 <= i < 4 :: Lower("JPEG")[i] == "jpeg"[i];
    }
    assert Lower("png") == "png";
    assert Lower("gif") == "gif";
  }
}

/** The geometry and colours of rendering a text watermark: which font is
    used, how large the transparent canvas is, where the text and its shadow
    are drawn and in which colours. The ink box of the text is measured by the
    imaging library and is an input here; glyph drawing and the blur are not
    modelled. */
module Watermark {
  import opened Base

  datatype Rgba = Rgba(r: int, g: int, b: int, a: int)

  /** The measured ink box of the text: left, top, right, bottom. */
  datatype Box = Box(left: int, top: int, right: int, bottom: int)

  datatype Font = TrueType(path: string, size: int) | DefaultFont

  /** A text draw call: position, colours and outline. */
  datatype TextDraw = TextDraw(origin: Point, text: string, fill: Rgba, strokeWidth: int, strokeFill: Rgba)

  /** The shadow pass: the text drawn on its own layer, then blurred and
      composited onto the canvas before the main draw. */
  datatype ShadowPass = ShadowPass(origin: Point, text: string, fill: Rgba, blurRadius: real)

  datatype RenderPlan = RenderPlan(font: Font, canvas: Size, shadow: Option<ShadowPass>, main: TextDraw)

  /** A TrueType face is loaded when a non-empty font path is given. */
  function FontFor(fontPath: Option<string>, fontSize: int): Font {
    if fontPath.Some? && fontPath.value != "" then TrueType(fontPath.value, fontSize) else DefaultFont
  }

  /** The canvas is the ink box padded by the shadow offset and four stroke widths. */
  function CanvasSize(bbox: Box, strokeWidth: int, shadowOffset: Point): Size {
    Size(bbox.right - bbox.left + Abs(shadowOffset.x) + strokeWidth * 4,
         bbox.bottom - bbox.top + Abs(shadowOffset.y) + strokeWidth * 4)
  }

  /** The text is drawn one stroke width from the left and raised by a fifth of the font size. */
  function TextOrigin(strokeWidth: int, fontSize: int): Point {
    Point(strokeWidth, strokeWidth - Trunc(fontSize as real * 0.2))
  }

  /** `create_text_watermark_image` for a text whose ink box measures `bbox`. */
  function Plan(text: string, fontPath: Option<string>, fontSize: int, color: Rgba, opacity: real,
                strokeWidth: int, strokeFill: Rgba, shadowOffset: Point, shadowBlur: real, bbox: Box): RenderPlan
  {
    var origin := TextOrigin(strokeWidth, fontSize);
    var shadow :=
      if shadowBlur > 0.0 then
        Some(ShadowPass(Point(origin.x + shadowOffset.x, origin.y + shadowOffset.y), text,
                        Rgba(strokeFill.r, strokeFill.g, strokeFill.b, Trunc(255.0 * 0.7)), shadowBlur))
      else None;
    RenderPlan(FontFor(fontPath, fontSize), CanvasSize(bbox, strokeWidth, shadowOffset), shadow,
               TextDraw(origin, text, Rgba(color.r, color.g, color.b, Trunc(255.0 * opacity)), strokeWidth, strokeFill))
  }

  /** The canvas is never smaller than the ink box: it exceeds it by exactly
      the shadow offset's magnitude plus four stroke widths in each direction. */
  lemma CanvasCoversText(bbox: Box, strokeWidth: int, shadowOffset: Point)
    requires strokeWidth >= 0 && bbox.left <= bbox.right && bbox.top <= bbox.bottom
    ensures var c := CanvasSize(bbox, strokeWidth, shadowOffset);
      && c.width >= bbox.right - bbox.left && c.height >= bbox.bottom - bbox.top
      && c.width - (bbox.right - bbox.left) == Abs(shadowOffset.x) + 4 * strokeWidth
      && c.height - (bbox.bottom - bbox.top) == Abs(shadowOffset.y) + 4 * strokeWidth
  {
  }

  /** For a non-negative font size the text is raised by `fontSize / 5`
      (integer division): truncating a fifth of the size is dividing by five. */
  lemma TextRaisedByFifth(strokeWidth: int, fontSize: int)
    requires fontSize >= 0
    ensures TextOrigin(strokeWidth, fontSize) == Point(strokeWidth, strokeWidth - fontSize / 5)
  {
    var q, r := fontSize / 5, fontSize % 5;
    assert fontSize as real * 0.2 == q as real + r as real * 0.2;
    assert q as real <= fontSize as real * 0.2 < q as real + 1.0;
  }

  /** The shadow pass exists exactly when the blur radius is positive; it is
      the text moved by the shadow offset, in the stroke colour at alpha 178,
      blurred by that radius. */
  lemma ShadowOnlyWhenBlurred(text: string, fontPath: Option<string>, fontSize: int, color: Rgba, opacity: real,
                              strokeWidth: int, strokeFill: Rgba, shadowOffset: Point, shadowBlur: real, bbox: Box)
    ensures var p := Plan(text, fontPath, fontSize, color, opacity, strokeWidth, strokeFill, shadowOffset, shadowBlur, bbox);
      && (p.shadow.Some? <==> shadowBlur > 0.0)
      && (p.shadow.Some? ==>
            && p.shadow.value.origin == Point(p.main.origin.x + shadowOffset.x, p.main.origin.y + shadowOffset.y)
            && p.shadow.value.fill == Rgba(strokeFill.r, strokeFill.g, strokeFill.b, 178)
            && p.shadow.value.blurRadius == shadowBlur
            && p.shadow.value.text == p.main.text)
  {
    assert Trunc(255.0 * 0.7) == 178;
  }

  /** The main draw keeps the colour's red, green and blue, takes its alpha
      from the opacity (0 to 255 for opacities in [0, 1], 255 at full opacity)
      and outlines with the given stroke. */
  lemma MainFillFromOpacity(text: string, fontPath: Option<string>, fontSize: int, color: Rgba, opacity: real,
                            strokeWidth: int, strokeFill: Rgba, shadowOffset: Point, shadowBlur: real, bbox: Box)
    requires 0.0 <= opacity <= 1.0
    ensures var p := Plan(text, fontPath, fontSize, color, opacity, strokeWidth, strokeFill, shadowOffset, shadowBlur, bbox);
      && p.main.fill.r == color.r && p.main.fill.g == color.g && p.main.fill.b == color.b
      && 0 <= p.main.fill.a <= 255
      && (opacity == 1.0 ==> p.main.fill.a == 255)
      && p.main.strokeWidth == strokeWidth && p.main.strokeFill == strokeFill
  {
    assert 255.0 * opacity <= 255.0;
  }

  /** A non-empty font path loads that TrueType face at the requested size,
      and no path or an empty one falls back to the default face; for the same
      measured ink box, the font path changes nothing in the plan but the font. */
  lemma FontChoice(text: string, fontPath: Option<string>, otherPath: Option<string>, fontSize: int, color: Rgba,
                   opacity: real, strokeWidth: int, strokeFill: Rgba, shadowOffset: Point, shadowBlur: real, bbox: Box)
    ensures var p := Plan(text, fontPath, fontSize, color, opacity, strokeWidth, strokeFill, shadowOffset, shadowBlur, bbox);
      && (p.font.TrueType? <==> (fontPath.Some? && fontPath.value != ""))
      && (p.font.TrueType? ==> p.font == TrueType(fontPath.value, fontSize))
    ensures var p := Plan(text, fontPath, fontSize, color, opacity, strokeWidth, strokeFill, shadowOffset, shadowBlur, bbox);
      var q := Plan(text, otherPath, fontSize, color, opacity, strokeWidth, strokeFill, shadowOffset, shadowBlur, bbox);
      p.canvas == q.canvas && p.shadow == q.shadow && p.main == q.main
  {
  }
}

/**
 * The compositing geometry of a render: the canvas, the inset QR bitmap,
 * the border path and the centred logo. All lengths are canvas pixels; the
 * page computes them with JavaScript numbers, and for the integer logo sizes
 * the slider produces every quantity is an exact integer.
 */
module Layout {

  /** Width (and height) the encoder is asked to draw the QR bitmap at. */
  const QrWidth := 400
  /** Space on every side of the bitmap. */
  const Padding := 40
  const BorderWidth := 8
  const BorderRadius := 15
  /** How far the logo's background patch reaches past the logo. */
  const LogoPatchMargin := 8
  /** The logo-size slider's range, in percent of the QR width. */
  const MinLogoSize := 10
  const MaxLogoSize := 30

  datatype Rect = Rect(x: int, y: int, width: int, height: int)

  /** The canvas side: the bitmap plus the padding on both sides. */
  function CanvasSize(): int
  {
    QrWidth + Padding * 2
  }

  /** Where the bitmap is drawn: at (padding, padding), at its own size. */
  function QrRect(): Rect
  {
    Rect(Padding, Padding, QrWidth, QrWidth)
  }

  /** The rectangle the border path follows (its corners are rounded). */
  function BorderPath(): Rect
  {
    Rect(Padding - BorderWidth / 2, Padding - BorderWidth / 2, QrWidth + BorderWidth, QrWidth + BorderWidth)
  }

  /** The logo's side: `logoSize` percent of the QR width. The division is
      exact (4 pixels per percent), so no rounding happens. */
  function LogoPixels(logoSize: int): (p: int)
    ensures p == 4 * logoSize
    ensures p * 100 == QrWidth * logoSize
  {
    assert QrWidth * logoSize == 400 * logoSize;
    (QrWidth * logoSize) / 100
  }

  /** The logo, centred on the canvas. */
  function LogoRect(logoSize: int): (r: Rect)
    ensures r.x * 2 + r.width == CanvasSize() && r.y * 2 + r.height == CanvasSize()
    ensures r.width == r.height == LogoPixels(logoSize)
  {
    var p := LogoPixels(logoSize);
    assert CanvasSize() == 480 && CanvasSize() - p == 2 * (240 - 2 * logoSize);
    Rect((CanvasSize() - p) / 2, (CanvasSize() - p) / 2, p, p)
  }

  /** The background patch drawn under the logo. */
  function LogoPatch(logoSize: int): Rect
  {
    var l := LogoRect(logoSize);
    Rect(l.x - LogoPatchMargin, l.y - LogoPatchMargin,
         l.width + 2 * LogoPatchMargin, l.height + 2 * LogoPatchMargin)
  }

  /** The canvas is 480 pixels square and the bitmap sits at (40, 40),
      400 pixels wide, with 40 pixels of canvas on every side. */
  lemma CanvasLayout()
    ensures CanvasSize() == 480
    ensures QrRect() == Rect(40, 40, 400, 400)
    ensures QrRect().x + QrRect().width + Padding == CanvasSize()
  {
  }

  /** The border path's sides lie at 36 and 444; the 8-pixel stroke centred
      on a straight side covers [32, 40] or [440, 448], inside the canvas and
      outside the bitmap. */
  lemma BorderStrokeOutsideQr()
    ensures BorderPath() == Rect(36, 36, 408, 408)
    ensures var b, q := BorderPath(), QrRect();
      && b.x - BorderWidth / 2 == 32 && b.x + BorderWidth / 2 == 40
      && b.x + b.width - BorderWidth / 2 == 440 && b.x + b.width + BorderWidth / 2 == 448
      && 0 <= b.x - BorderWidth / 2 && b.x + b.width + BorderWidth / 2 <= CanvasSize()
      && b.x + BorderWidth / 2 <= q.x && q.x + q.width <= b.x + b.width - BorderWidth / 2
  {
  }

  /** For a slider value the logo is 40 to 120 pixels, 4 per percent, at
      240 - 2 * logoSize, and its background patch stays inside the bitmap and
      hence inside the canvas. */
  lemma LogoFits(logoSize: int)
    requires MinLogoSize <= logoSize <= MaxLogoSize
    ensures LogoPixels(logoSize) == 4 * logoSize
    ensures 40 <= LogoPixels(logoSize) <= 120
    ensures LogoRect(logoSize).x == LogoRect(logoSize).y == 240 - 2 * logoSize
    ensures var p, q := LogoPatch(logoSize), QrRect();
      && q.x <= p.x && p.x + p.width <= q.x + q.width
      && q.y <= p.y && p.y + p.height <= q.y + q.height
      && 0 <= p.x && p.x + p.width <= CanvasSize()
  {
  }

  lemma MulBound(a: int, b: int, c: int)
    requires 0 <= a <= b && 0 <= c
    ensures a * c <= b * c
  {
  }

  /** The logo covers at most 9 percent of the bitmap's area. */
  lemma LogoArea(logoSize: int)
    requires MinLogoSize <= logoSize <= MaxLogoSize
    ensures LogoPixels(logoSize) * LogoPixels(logoSize) * 100 <= 9 * QrWidth * QrWidth
  {
    var p := LogoPixels(logoSize);
    MulBound(p, 120, p);
    MulBound(p, 120, 120);
    assert 9 * QrWidth * QrWidth == 1440000;
  }

  /** The opaque background patch, which is what actually hides modules, is
      4 * logoSize + 16 pixels square and covers less than 12 percent of the
      bitmap's area (11.56 percent at the largest logo). */
  lemma LogoPatchArea(logoSize: int)
    requires MinLogoSize <= logoSize <= MaxLogoSize
    ensures LogoPatch(logoSize).width == LogoPatch(logoSize).height == 4 * logoSize + 2 * LogoPatchMargin
    ensures LogoPatch(logoSize).width * LogoPatch(logoSize).height * 100 < 12 * QrWidth * QrWidth
  {
    var w := LogoPatch(logoSize).width;
    assert 56 <= w <= 136;
    MulBound(w, 136, w);
    MulBound(w, 136, 136);
    assert 12 * QrWidth * QrWidth == 1920000;
  }
}

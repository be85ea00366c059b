/**
 Clipping an image placement to its pane (`clipped_placement`, src/kitty_graphics.rs). The code
 treats columns and rows alike, so the arithmetic is stated once for an axis.
 */
module GraphicsClip {
  import opened Options
  import opened LayoutGeometry
  import opened GraphicsCache

  const U32_MAX: int := 0xFFFF_FFFF
  const I32_MAX: int := 0x7FFF_FFFF

  function Min(a: int, b: int): int { if a < b then a else b }
  function Max(a: int, b: int): int { if a < b then b else a }

  function SaturatingMul(a: nat, b: nat): nat { Min(a * b, U32_MAX) }
  function SaturatingSub(a: nat, b: nat): nat { if a < b then 0 else a - b }
  function WrappingAdd(a: nat, b: nat): nat { (a + b) % (U32_MAX + 1) }

  /** `scale_pixels`: the product of two `u32` values fits the `u64` it is computed in. */
  function ScalePixels(value: nat, source: nat, dest: nat): nat {
    Min(value * source / Max(dest, 1), U32_MAX)
  }

  /** One axis of a placement: columns or rows of cells, and the pixels behind them. */
  datatype AxisInput = AxisInput(
    viewport: int, areaLength: nat, grid: nat, cell: nat, pixels: nat,
    sourceStart: nat, sourceLength: nat, imageLength: nat, offset: nat)
  {
    /** The values fit the integer types of the source. */
    predicate Typed() {
      && -I32_MAX - 1 <= viewport <= I32_MAX && areaLength <= U16_MAX
      && grid <= U32_MAX && cell <= U32_MAX && pixels <= U32_MAX
      && sourceStart <= U32_MAX && sourceLength <= U32_MAX && imageLength <= U32_MAX
    }

    /** A source length of zero asks for the whole image. */
    function Requested(): nat {
      if sourceLength == 0 then imageLength else sourceLength
    }

    /** Neither the pixel extent of the grid nor the requested source range leaves `u32`. */
    predicate NoOverflow() {
      grid * cell <= U32_MAX && sourceStart + Requested() <= U32_MAX
    }

    /** `viewport.saturating_neg()` cells lie before the pane. */
    function CellsBefore(): nat {
      if viewport >= 0 then 0 else Min(-viewport, I32_MAX)
    }

    function PixelExtent(): nat {
      Max(Max(pixels, SaturatingMul(grid, cell)), 1)
    }
  }

  datatype AxisClip = AxisClip(start: nat, cells: nat, sourceStart: nat, sourceLength: nat, offset: nat)

  function ClipAxis(a: AxisInput): Option<AxisClip> {
    var start := Max(a.viewport, 0);
    if a.areaLength == 0 || a.grid == 0 || start >= a.areaLength then None
    else
      var before := a.CellsBefore();
      var cells := Min(SaturatingSub(a.grid, before), a.areaLength - start);
      if cells == 0 then None
      else
        var crop := SaturatingMul(before, a.cell);
        var visible := SaturatingMul(cells, a.cell);
        var sourceStart := WrappingAdd(a.sourceStart, ScalePixels(crop, a.Requested(), a.PixelExtent()));
        var scaled := Max(ScalePixels(visible, a.Requested(), a.PixelExtent()), 1);
        var sourceLength := Min(scaled, SaturatingSub(a.imageLength, sourceStart));
        if sourceLength == 0 then None
        else Some(AxisClip(start, cells, sourceStart, sourceLength, if before == 0 then a.offset else 0))
  }

  lemma CancelFactor(x: nat, s: nat, d: nat)
    requires d > 0
    ensures x * d <= s * d ==> x <= s
    ensures x * d < s * d ==> x < s
  {
  }

  lemma QuotientsFit(x: nat, y: nat, s: nat, d: nat)
    requires d > 0 && x + y <= s * d
    ensures x / d + y / d <= s
    ensures x < s * d ==> x / d < s
  {
    QuotientBound(x, d);
    QuotientBound(y, d);
    Distribute(x / d, y / d, 0, d);
    CancelFactor(x / d + y / d, s, d);
    CancelFactor(x / d, s, d);
  }

  lemma QuotientBound(x: nat, d: nat)
    requires d > 0
    ensures 0 <= x / d && (x / d) * d <= x
  {
  }

  lemma Distribute(x: nat, y: nat, z: nat, d: nat)
    ensures x * d + y * d + z * d == (x + y + z) * d
    ensures 0 <= x * d && 0 <= y * d && 0 <= z * d
  {
  }

  lemma ProductsFit(crop: nat, visible: nat, s: nat, d: nat)
    requires crop + visible <= d
    ensures crop * s + visible * s <= s * d
    ensures visible > 0 && s > 0 ==> crop * s < s * d
  {
    Distribute(crop, visible, d - crop - visible, s);
  }

  /** Two disjoint pixel ranges inside the extent scale to disjoint source ranges inside the request. */
  lemma ScaledRangesFit(crop: nat, visible: nat, s: nat, d: nat)
    requires d > 0 && crop + visible <= d && 0 < s <= U32_MAX && (visible == 0 ==> crop == 0)
    ensures ScalePixels(crop, s, d) + Max(ScalePixels(visible, s, d), 1) <= s
  {
    ProductsFit(crop, visible, s, d);
    QuotientsFit(crop * s, visible * s, s, d);
    assert visible == 0 ==> crop * s / d == 0;
  }

  /** The visible cells lie in the pane and the source range is a nonempty part of the image. */
  lemma ClipStaysInside(a: AxisInput)
    requires ClipAxis(a).Some?
    ensures var c := ClipAxis(a).value;
            && 1 <= c.cells <= a.grid && c.start + c.cells <= a.areaLength
            && 1 <= c.sourceLength && c.sourceStart + c.sourceLength <= a.imageLength
            && c.offset == if a.viewport < 0 then 0 else a.offset
  {
  }

  /** The source range lies inside the requested one. */
  predicate InsideRequest(a: AxisInput, c: AxisClip) {
    a.sourceStart <= c.sourceStart && c.sourceStart + c.sourceLength <= a.sourceStart + a.Requested()
  }

  /** Source pixels before the visible ones, and the visible ones before they are cut to the image. */
  function ScaledCrop(a: AxisInput): nat {
    ScalePixels(SaturatingMul(a.CellsBefore(), a.cell), a.Requested(), a.PixelExtent())
  }

  function ScaledVisible(a: AxisInput): nat {
    var cells := Min(SaturatingSub(a.grid, a.CellsBefore()), SaturatingSub(a.areaLength, Max(a.viewport, 0)));
    Max(ScalePixels(SaturatingMul(cells, a.cell), a.Requested(), a.PixelExtent()), 1)
  }

  /** The sum that starts the source range does not wrap. */
  predicate StartFits(a: AxisInput) {
    a.sourceStart + ScaledCrop(a) <= U32_MAX
  }

  /** For every input: inside exactly when the start does not wrap and the end is in the request or cut to it. */
  lemma InsideRequestExactly(a: AxisInput)
    requires a.Typed() && ClipAxis(a).Some?
    ensures InsideRequest(a, ClipAxis(a).value) <==>
              && StartFits(a)
              && (ScaledCrop(a) + ScaledVisible(a) <= a.Requested() || a.imageLength <= a.sourceStart + a.Requested())
  {
    hide ScalePixels, SaturatingMul, AxisInput.PixelExtent;
    assert ScaledCrop(a) <= U32_MAX by {
      ScaledFits(SaturatingMul(a.CellsBefore(), a.cell), a.Requested(), a.PixelExtent());
    }
  }

  lemma ScaledFits(value: nat, source: nat, dest: nat)
    ensures ScalePixels(value, source, dest) <= U32_MAX
  {
  }

  /** As long as the pixels up to the last visible cell fit `u32`, only a wrapping start leaves the request. */
  lemma ClipStaysInsideRequest(a: AxisInput)
    requires a.Typed() && ClipAxis(a).Some?
    requires (a.CellsBefore() + ClipAxis(a).value.cells) * a.cell <= U32_MAX
    ensures InsideRequest(a, ClipAxis(a).value) <==> StartFits(a)
    ensures a.sourceStart + a.Requested() <= U32_MAX ==> StartFits(a)
  {
    hide ScalePixels, SaturatingMul, AxisInput.PixelExtent;
    var before := a.CellsBefore();
    var cells := ClipAxis(a).value.cells;
    InsideRequestExactly(a);
    RequestIsNonempty(a);
    CellsFitExtent(a, before, cells);
    ScaledRangesFit(SaturatingMul(before, a.cell), SaturatingMul(cells, a.cell), a.Requested(), a.PixelExtent());
  }

  lemma CellsFitExtent(a: AxisInput, before: nat, cells: nat)
    requires before + cells <= a.grid && (before + cells) * a.cell <= U32_MAX && cells > 0
    ensures a.PixelExtent() > 0
    ensures SaturatingMul(before, a.cell) + SaturatingMul(cells, a.cell) <= a.PixelExtent()
    ensures SaturatingMul(cells, a.cell) == 0 ==> SaturatingMul(before, a.cell) == 0
  {
    Distribute(before, cells, a.grid - before - cells, a.cell);
    Distribute(before, cells, 0, a.cell);
  }

  /** When the pixels before the pane saturate, the source range always leaves the request. */
  lemma SaturatedCropLeavesRequest(a: AxisInput)
    requires a.Typed() && ClipAxis(a).Some? && a.CellsBefore() * a.cell >= U32_MAX
    ensures !InsideRequest(a, ClipAxis(a).value)
  {
    assert SaturatingMul(a.CellsBefore(), a.cell) == U32_MAX;
    assert a.PixelExtent() == U32_MAX by {
      Distribute(a.CellsBefore(), a.grid - a.CellsBefore(), 0, a.cell);
    }
    WholeScale(a.Requested(), U32_MAX);
    RequestIsNonempty(a);
    hide ScalePixels, SaturatingMul, AxisInput.PixelExtent;
    assert ScaledCrop(a) == a.Requested();
  }

  /** When the whole grid fits `u32` in pixels, so do the cells up to the last visible one. */
  lemma ExtentBoundsCells(a: AxisInput)
    requires ClipAxis(a).Some? && a.grid * a.cell <= U32_MAX
    ensures (a.CellsBefore() + ClipAxis(a).value.cells) * a.cell <= U32_MAX
  {
    var shown := a.CellsBefore() + ClipAxis(a).value.cells;
    Distribute(shown, a.grid - shown, 0, a.cell);
  }

  lemma RequestIsNonempty(a: AxisInput)
    requires ClipAxis(a).Some?
    ensures a.Requested() > 0
  {
    ClipStaysInside(a);
  }

  lemma NoOverflowStaysInside(a: AxisInput)
    requires a.Typed() && a.NoOverflow() && ClipAxis(a).Some?
    ensures InsideRequest(a, ClipAxis(a).value)
  {
    ExtentBoundsCells(a);
    ClipStaysInsideRequest(a);
  }

  /** The source pixels asked for, and the pixels of the whole placement, when nothing overflows. */
  function SourceExtent(a: AxisInput): nat {
    if a.sourceLength == 0 then a.imageLength else a.sourceLength
  }

  function DrawnExtent(a: AxisInput): nat {
    Max(Max(a.pixels, a.grid * a.cell), 1)
  }

  /** `part` is the whole number of source pixels in that many drawn pixels. */
  predicate IsShare(part: int, drawn: int, a: AxisInput) {
    part * DrawnExtent(a) <= drawn * SourceExtent(a) < (part + 1) * DrawnExtent(a)
  }

  /**
   The source range starts at the last whole source pixel before the first visible cell, and is as
   long as the visible cells are in source pixels, at least one, as far as the image goes.
   */
  lemma ClipSamplesShare(a: AxisInput) returns (visible: nat)
    requires a.Typed() && a.NoOverflow() && ClipAxis(a).Some?
    ensures var c := ClipAxis(a).value;
            && IsShare(c.sourceStart - a.sourceStart, Min(Max(-a.viewport, 0), I32_MAX) * a.cell, a)
            && IsShare(visible, c.cells * a.cell, a)
            && c.sourceLength == Min(Max(visible, 1), a.imageLength - c.sourceStart)
  {
    hide ScalePixels, AxisInput.PixelExtent, SaturatingMul, DrawnExtent, SourceExtent, IsShare;
    var (before, c) := (a.CellsBefore(), ClipAxis(a).value);
    PixelsFit(a, before, c.cells);
    ShareOf(a, before * a.cell);
    ShareOf(a, c.cells * a.cell);
    NoOverflowStaysInside(a);
    visible := ScalePixels(c.cells * a.cell, a.Requested(), a.PixelExtent());
    ScaledFits(before * a.cell, a.Requested(), a.PixelExtent());
    StartDoesNotWrap(a);
    assert c.sourceStart == a.sourceStart + ScalePixels(before * a.cell, a.Requested(), a.PixelExtent());
  }

  lemma StartDoesNotWrap(a: AxisInput)
    requires a.Typed() && a.NoOverflow() && ClipAxis(a).Some?
    ensures ClipAxis(a).value.sourceStart == a.sourceStart + ScaledCrop(a)
  {
    hide ScalePixels, AxisInput.PixelExtent, SaturatingMul;
    ExtentBoundsCells(a);
    ClipStaysInsideRequest(a);
  }

  lemma ShareOf(a: AxisInput, drawn: nat)
    requires a.Typed() && a.NoOverflow() && drawn <= a.PixelExtent()
    ensures IsShare(ScalePixels(drawn, a.Requested(), a.PixelExtent()), drawn, a)
  {
    CropQuotient(drawn, a.Requested(), a.PixelExtent());
    assert DrawnExtent(a) == a.PixelExtent() && SourceExtent(a) == a.Requested();
    hide ScalePixels, AxisInput.PixelExtent, DrawnExtent, SourceExtent;
  }

  lemma PixelsFit(a: AxisInput, before: nat, cells: nat)
    requires a.Typed() && a.NoOverflow() && before + cells <= a.grid && cells > 0
    ensures SaturatingMul(before, a.cell) == before * a.cell <= a.PixelExtent()
    ensures SaturatingMul(cells, a.cell) == cells * a.cell <= a.PixelExtent()
  {
    Distribute(before, cells, a.grid - before - cells, a.cell);
  }

  lemma CropQuotient(crop: nat, s: nat, d: nat)
    requires d > 0 && crop <= d && s <= U32_MAX
    ensures ScalePixels(crop, s, d) <= s
    ensures ScalePixels(crop, s, d) * d <= crop * s < (ScalePixels(crop, s, d) + 1) * d
  {
    ProductsFit(crop, 0, s, d);
    QuotientsFit(crop * s, 0, s, d);
    EuclideanQuotient(crop * s, d);
  }

  lemma EuclideanQuotient(x: nat, d: nat)
    requires d > 0
    ensures (x / d) * d <= x < (x / d + 1) * d
  {
  }

  /** A placement that fits its pane and fills its own pixels is not cropped at all. */
  lemma UnclippedKeepsSource(a: AxisInput)
    requires a.Typed() && a.NoOverflow() && a.grid > 0 && a.cell > 0 && a.pixels <= a.grid * a.cell
    requires 0 <= a.viewport && a.viewport + a.grid <= a.areaLength
    requires a.Requested() > 0 && a.sourceStart + a.Requested() <= a.imageLength
    ensures ClipAxis(a) == Some(AxisClip(a.viewport, a.grid, a.sourceStart, a.Requested(), a.offset))
  {
    var (s, d) := (a.Requested(), a.grid * a.cell);
    assert d > 0 && a.PixelExtent() == d && SaturatingMul(a.grid, a.cell) == d && SaturatingMul(0, a.cell) == 0;
    WholeScale(s, d);
    hide ScalePixels, AxisInput.PixelExtent, SaturatingMul;
  }

  lemma WholeScale(s: nat, d: nat)
    requires d > 0 && s <= U32_MAX
    ensures ScalePixels(d, s, d) == s && ScalePixels(0, s, d) == 0
  {
    WholeQuotient(s, d);
    assert 0 * s / d == 0;
  }

  lemma WholeQuotient(s: nat, d: nat)
    requires d > 0
    ensures d * s / d == s
  {
    EuclideanQuotient(d * s, d);
    CancelFactor(d * s / d, s, d);
    CancelFactor(s, d * s / d + 1, d);
  }

  /** The cells that the placement and the pane have in common; not positive when there are none. */
  function Overlap(a: AxisInput): int {
    Min(a.viewport + a.grid, a.areaLength) - Max(a.viewport, 0)
  }

  /**
   The cells shown are the common ones, except that the most negative offset, which has no negation
   in `i32`, shows exactly one cell too many unless the placement reaches the far edge of the pane.
   */
  lemma ClipShowsTheOverlap(a: AxisInput)
    requires a.Typed() && ClipAxis(a).Some?
    ensures var c := ClipAxis(a).value;
            && c.start == Max(a.viewport, 0)
            && (c.cells == Overlap(a) <==> a.viewport > -I32_MAX - 1 || a.viewport + a.grid >= a.areaLength)
            && (c.cells != Overlap(a) ==> c.cells == Overlap(a) + 1)
            && (Overlap(a) <= 0 <==> a.viewport == -I32_MAX - 1 && a.grid == I32_MAX + 1)
  {
  }

  /**
   Something is drawn exactly when a cell is in the pane (for the most negative offset, when the
   placement reaches at least up to the pane) and the source range starts inside the image.
   */
  lemma ClipDrawsExactly(a: AxisInput)
    requires a.Typed()
    ensures ClipAxis(a).Some? <==>
              && (if a.viewport > -I32_MAX - 1 then Overlap(a) > 0 else a.viewport + a.grid >= 0 && a.areaLength > 0)
              && (a.sourceStart + ScaledCrop(a)) % 0x1_0000_0000 < a.imageLength
  {
    hide ScalePixels, SaturatingMul, AxisInput.PixelExtent;
  }

  /** The most negative offset can show a cell of a placement that ends before the pane. */
  lemma MostNegativeOffsetShowsOneCellTooMany(a: AxisInput)
    requires a == AxisInput(-I32_MAX - 1, 10, I32_MAX + 1, 1, 1, 0, 1, 1, 0)
    ensures a.Typed() && a.NoOverflow() && Overlap(a) == 0
    ensures ClipAxis(a).Some? && ClipAxis(a).value.cells == 1
  {
  }

  /** The pixels before the pane do saturate for some input. */
  lemma SaturatedExtentLeavesRequest(a: AxisInput)
    requires a == AxisInput(-0x4000_0000, 10, 0x4000_0001, 4, 0, 0, 1, 2, 0)
    ensures a.Typed() && ClipAxis(a).Some? && !InsideRequest(a, ClipAxis(a).value)
  {
    assert ClipAxis(a).Some?;
    SaturatedCropLeavesRequest(a);
  }

  // --- Both axes ---

  /** The inputs of `clipped_placement` that decide what is drawn where. */
  datatype RawPlacement = RawPlacement(area: Rect, columns: AxisInput, rows: AxisInput, z: int, scrollback: nat) {
    predicate Typed() {
      && area.Fits() && columns.Typed() && rows.Typed()
      && columns.areaLength == area.width && rows.areaLength == area.height
    }
  }

  function Clip(p: RawPlacement): Option<ClippedPlacement> {
    match (ClipAxis(p.columns), ClipAxis(p.rows))
    case (Some(c), Some(r)) =>
      Some(ClippedPlacement(p.area.x + c.start, p.area.y + r.start, c.cells, r.cells,
                            c.sourceStart, r.sourceStart, c.sourceLength, r.sourceLength, c.offset, r.offset))
    case _ => None
  }

  /** `placement_signature` of what remains after clipping. */
  function Shown(p: RawPlacement): Option<PlacementSignature> {
    match Clip(p)
    case Some(clipped) => Some(PlacementSignature(clipped, p.z, p.scrollback))
    case None => None
  }

  /** Signatures agree exactly when both placements are clipped away, or drawn alike at one depth and scroll offset. */
  lemma SignatureTellsApart(p: RawPlacement, q: RawPlacement)
    ensures Shown(p).Some? <==> Clip(p).Some?
    ensures Shown(p) == Shown(q) <==>
              Clip(p) == Clip(q) && (Clip(p).Some? ==> p.z == q.z && p.scrollback == q.scrollback)
  {
    hide Clip;
  }

  /**
   A placement is drawn exactly when both axes draw something; it then starts at its own cell, or at
   the pane's edge without its offset, column by column and row by row.
   */
  lemma ClipDrawsBothAxes(p: RawPlacement)
    requires p.Typed()
    ensures Clip(p).Some? <==> ClipAxis(p.columns).Some? && ClipAxis(p.rows).Some?
    ensures Clip(p).Some? ==>
              var (c, columns, rows) := (Clip(p).value, p.columns, p.rows);
              && c.x == p.area.x + Max(columns.viewport, 0) && c.y == p.area.y + Max(rows.viewport, 0)
              && (columns.viewport > -I32_MAX - 1 ==> c.cols == Overlap(columns))
              && (rows.viewport > -I32_MAX - 1 ==> c.rows == Overlap(rows))
              && c.xOffset == (if columns.viewport < 0 then 0 else columns.offset)
              && c.yOffset == (if rows.viewport < 0 then 0 else rows.offset)
              && c.sourceX == (columns.sourceStart + ScaledCrop(columns)) % 0x1_0000_0000
              && c.sourceY == (rows.sourceStart + ScaledCrop(rows)) % 0x1_0000_0000
              && c.sourceWidth == Min(ScaledVisible(columns), columns.imageLength - c.sourceX)
              && c.sourceHeight == Min(ScaledVisible(rows), rows.imageLength - c.sourceY)
  {
    if Clip(p).Some? {
      AxisDraws(p.columns);
      AxisDraws(p.rows);
    }
    hide ClipAxis, Overlap, ScaledCrop, ScaledVisible;
  }

  lemma AxisDraws(a: AxisInput)
    requires a.Typed() && ClipAxis(a).Some?
    ensures var c := ClipAxis(a).value;
            && c.start == Max(a.viewport, 0)
            && (a.viewport > -I32_MAX - 1 ==> c.cells == Overlap(a))
            && c.offset == (if a.viewport < 0 then 0 else a.offset)
            && c.sourceStart == (a.sourceStart + ScaledCrop(a)) % 0x1_0000_0000
            && c.sourceLength == Min(ScaledVisible(a), a.imageLength - c.sourceStart)
  {
    hide ScalePixels, SaturatingMul, AxisInput.PixelExtent;
    ClipShowsTheOverlap(a);
    ClipStaysInside(a);
  }

  /** The drawn rectangle lies in the pane, on screen, and samples a nonempty part of the image. */
  lemma ClipStaysInPane(p: RawPlacement)
    requires p.Typed() && Clip(p).Some?
    ensures var c := Clip(p).value;
            && Rect(c.x, c.y, c.cols, c.rows).Within(p.area) && Rect(c.x, c.y, c.cols, c.rows).Fits()
            && c.cols >= 1 && c.rows >= 1 && c.sourceWidth >= 1 && c.sourceHeight >= 1
            && c.sourceX + c.sourceWidth <= p.columns.imageLength
            && c.sourceY + c.sourceHeight <= p.rows.imageLength
            && (p.columns.NoOverflow() ==>
                  p.columns.sourceStart <= c.sourceX
                  && c.sourceX + c.sourceWidth <= p.columns.sourceStart + p.columns.Requested())
            && (p.rows.NoOverflow() ==>
                  p.rows.sourceStart <= c.sourceY
                  && c.sourceY + c.sourceHeight <= p.rows.sourceStart + p.rows.Requested())
  {
    hide ClipAxis, AxisInput.NoOverflow, StartFits;
    ClipStaysInside(p.columns);
    ClipStaysInside(p.rows);
    if p.columns.NoOverflow() {
      NoOverflowStaysInside(p.columns);
    }
    if p.rows.NoOverflow() {
      NoOverflowStaysInside(p.rows);
    }
    var c := Clip(p).value;
    var drawn := Rect(c.x, c.y, c.cols, c.rows);
    forall d: Direction
      ensures p.area.Lo(d) <= drawn.Lo(d) && drawn.Hi(d) <= p.area.Hi(d)
    {
    }
    WithinFits(drawn, p.area);
  }
}

/** The scale-and-place arithmetic that puts the figure on a 1000x1000
    canvas: a padded extent around the opaque pixels, a scale that makes
    the padded figure at most 700 rows tall and 850 columns wide, a
    horizontal offset that centres the scaled figure and a vertical offset
    that puts its top at row 350. The resampling itself and the alpha blend
    of `paste` are parameters. */
module Placement {
  import opened Raster
  import opened Bounds

  /** Side of the square target canvas. */
  const Target: nat := 1000
  /** `int(1000 * 0.70)`. */
  const TargetPersonHeight: nat := 700
  /** `int(1000 * 0.85)`. */
  const TargetPersonWidth: nat := 850
  /** `int(1000 * 0.05)`, the original converter's side margin. */
  const SideMargin: nat := 50
  /** `int(1000 * 0.35)`, the row where the top of the figure goes. */
  const HeadTop: nat := 350
  const MinPadding: nat := 10

  // ---------------------------------------------------------------------
  // Padding

  /** `max(10, int(extent * 0.1))`. */
  function Padding(extent: nat): (p: nat)
    ensures p >= MinPadding && p >= extent / 10
    ensures p == MinPadding || p == extent / 10
  {
    if extent / 10 > MinPadding then extent / 10 else MinPadding
  }

  /** Inclusive bounds of the figure, as `rows.min()` .. `rows.max()` and
      `cols.min()` .. `cols.max()` give them. */
  datatype Extent = Extent(minRow: int, maxRow: int, minCol: int, maxCol: int)

  predicate ExtentWithin(e: Extent, height: int, width: int) {
    0 <= e.minRow <= e.maxRow < height && 0 <= e.minCol <= e.maxCol < width
  }

  predicate ExtentContains(outer: Extent, inner: Extent) {
    outer.minRow <= inner.minRow && inner.maxRow <= outer.maxRow &&
    outer.minCol <= inner.minCol && inner.maxCol <= outer.maxCol
  }

  /** The inclusive extent of the opaque pixels. */
  function OpaqueExtent(g: Grid): (e: Extent)
    requires Rect(g) && AnyTrue(AlphaMask(g))
    ensures ExtentWithin(e, |g|, Width(g))
    ensures forall p :: At(AlphaMask(g), p) ==>
              e.minRow <= p.row <= e.maxRow && e.minCol <= p.col <= e.maxCol
    ensures RowHas(AlphaMask(g), e.minRow) && RowHas(AlphaMask(g), e.maxRow)
    ensures ColHas(AlphaMask(g), e.minCol) && ColHas(AlphaMask(g), e.maxCol)
  {
    var b := ContentBox(AlphaMask(g));
    Extent(b.top, b.bottom - 1, b.left, b.right - 1)
  }

  /** Move each side out by a tenth of the figure's size (at least 10),
      stopping at the image's edge. */
  function Padded(e: Extent, height: nat, width: nat): (r: Extent)
    requires ExtentWithin(e, height, width)
    ensures ExtentWithin(r, height, width) && ExtentContains(r, e)
    ensures var ph, pw := Padding(e.maxRow - e.minRow), Padding(e.maxCol - e.minCol);
            (r.minRow == e.minRow - ph || r.minRow == 0) && r.minRow >= e.minRow - ph &&
            (r.maxRow == e.maxRow + ph || r.maxRow == height - 1) && r.maxRow <= e.maxRow + ph &&
            (r.minCol == e.minCol - pw || r.minCol == 0) && r.minCol >= e.minCol - pw &&
            (r.maxCol == e.maxCol + pw || r.maxCol == width - 1) && r.maxCol <= e.maxCol + pw
  {
    var ph, pw := Padding(e.maxRow - e.minRow), Padding(e.maxCol - e.minCol);
    Extent(Max(0, e.minRow - ph), Min(height - 1, e.maxRow + ph),
           Max(0, e.minCol - pw), Min(width - 1, e.maxCol + pw))
  }

  function Max(a: int, b: int): int { if a >= b then a else b }
  function Min(a: int, b: int): int { if a <= b then a else b }

  // ---------------------------------------------------------------------
  // Scale

  /** A non-negative rational num / den; `den` is positive wherever one is
      built. */
  datatype Ratio = Ratio(num: nat, den: nat)

  predicate RatioLe(a: Ratio, b: Ratio) {
    a.num * b.den <= b.num * a.den
  }

  /** `target / extent if extent > 0 else 1.0`. */
  function Fit(target: nat, extent: nat): (r: Ratio)
    ensures r.den > 0
    ensures extent > 0 ==> r.num == target && r.den == extent
  {
    if extent > 0 then Ratio(target, extent) else Ratio(1, 1)
  }

  /** `min(a, b)` on ratios: the first unless the second is strictly smaller. */
  function MinRatio(a: Ratio, b: Ratio): (r: Ratio)
    requires a.den > 0 && b.den > 0
    ensures RatioLe(r, a) && RatioLe(r, b) && (r == a || r == b)
  {
    if RatioLe(a, b) then a else b
  }

  /** `min(700 / height, 850 / width)` of the padded extent. */
  function Scale(height: nat, width: nat): (s: Ratio)
    ensures s.den > 0
    ensures height > 0 ==> s.num * height <= TargetPersonHeight * s.den
    ensures width > 0 ==> s.num * width <= TargetPersonWidth * s.den
    ensures height > 0 && width > 0 ==>
              s.num * height == TargetPersonHeight * s.den || s.num * width == TargetPersonWidth * s.den
    ensures height == 0 || width == 0 ==> s.num <= s.den
  {
    var sh, sw := Fit(TargetPersonHeight, height), Fit(TargetPersonWidth, width);
    var s := MinRatio(sh, sw);
    s
  }

  /** `int(d * scale)`: the size of one side after resizing. */
  function ScaledDim(d: nat, s: Ratio): nat
    requires s.den > 0
  {
    d * s.num / s.den
  }

  /** A length that the scale keeps within `target` stays within it once
      truncated. */
  lemma ScaledWithin(d: nat, s: Ratio, target: nat)
    requires s.den > 0 && s.num * d <= target * s.den
    ensures ScaledDim(d, s) <= target
  {
  }

  /** Resized by the scale, an extent of the given height and width is at
      most 700 rows and 850 columns. */
  lemma ScaleFits(height: nat, width: nat)
    ensures ScaledDim(height, Scale(height, width)) <= TargetPersonHeight
    ensures ScaledDim(width, Scale(height, width)) <= TargetPersonWidth
  {
    var s := Scale(height, width);
    if height > 0 {
      ScaledWithin(height, s, TargetPersonHeight);
    }
    if width > 0 {
      ScaledWithin(width, s, TargetPersonWidth);
    }
  }

  /** The scale applied to the padded extent of the opaque pixels. */
  function FigureScale(g: Grid): (s: Ratio)
    requires Rect(g) && AnyTrue(AlphaMask(g))
    ensures s.den > 0
  {
    var e := Padded(OpaqueExtent(g), |g|, Width(g));
    Scale(e.maxRow - e.minRow, e.maxCol - e.minCol)
  }

  /** The padded figure, scaled, is at most 700 by 850. */
  lemma PaddedFigureFits(g: Grid)
    requires Rect(g) && AnyTrue(AlphaMask(g))
    ensures var e := Padded(OpaqueExtent(g), |g|, Width(g));
            ScaledDim(e.maxRow - e.minRow, FigureScale(g)) <= TargetPersonHeight &&
            ScaledDim(e.maxCol - e.minCol, FigureScale(g)) <= TargetPersonWidth
  {
    var e := Padded(OpaqueExtent(g), |g|, Width(g));
    ScaleFits(e.maxRow - e.minRow, e.maxCol - e.minCol);
  }

  // ---------------------------------------------------------------------
  // Offsets

  /** Python's `int()` of a / 2, which rounds toward zero. */
  function TruncHalf(a: int): (r: int)
    ensures a >= 0 ==> 0 <= a - 2 * r <= 1
    ensures a < 0 ==> 0 <= 2 * r - a <= 1
  {
    if a >= 0 then a / 2 else -((-a) / 2)
  }

  /** `int(1000 / 2 - (min_col + (max_col - min_col) / 2))`: the offset that
      puts the middle of the figure's columns at the canvas's middle, to
      within half a column either way. */
  function CentreOffset(minCol: int, maxCol: int): (x: int)
    ensures Target - 1 <= (x + minCol) + (x + maxCol) <= Target + 1
    ensures (minCol + maxCol) % 2 == 0 ==> (x + minCol) + (x + maxCol) == Target
  {
    TruncHalf(Target - minCol - maxCol)
  }

  /** The offset the original converter ends with: the centred offset,
      pushed right to the left margin, then pushed left to the right margin,
      so that the right margin wins when the figure is too wide for both. */
  function ClampedX(x0: int, minCol: int, maxCol: int): (x: int)
    ensures x + maxCol <= Target - SideMargin
    ensures maxCol - minCol <= Target - 2 * SideMargin ==> x + minCol >= SideMargin
    ensures SideMargin <= x0 + minCol && x0 + maxCol <= Target - SideMargin ==> x == x0
    ensures x + maxCol > Target - SideMargin - 1 || x + minCol == SideMargin || x == x0
    ensures x0 + maxCol > Target - SideMargin ==> x + maxCol == Target - SideMargin
  {
    var x1 := if x0 + minCol < SideMargin then SideMargin - minCol else x0;
    if x1 + maxCol > Target - SideMargin then Target - SideMargin - maxCol else x1
  }

  /** `x_offset` after the two sequential clamps of the original converter. */
  method ClampHorizontal(x0: int, minCol: int, maxCol: int) returns (x: int)
    ensures x == ClampedX(x0, minCol, maxCol)
  {
    x := x0;
    if x + minCol < SideMargin {
      x := SideMargin - minCol;
    }
    if x + maxCol > Target - SideMargin {
      x := Target - SideMargin - maxCol;
    }
  }

  /** The original converter's vertical offset: the figure's top at row 350,
      raised to row 0 at most, then lowered so that the scaled image's bottom
      stays on the canvas. */
  function ClampedY(minRow: int, height: int): (y: int)
    ensures y + height <= Target
    ensures height <= Target ==> y >= 0
    ensures 0 <= HeadTop - minRow && HeadTop - minRow + height <= Target ==> y == HeadTop - minRow
    ensures y == HeadTop - minRow || y == 0 || y == Target - height
  {
    var y1 := if HeadTop - minRow < 0 then 0 else HeadTop - minRow;
    if y1 + height > Target then Target - height else y1
  }

  /** `y_offset` after the two sequential clamps of the original converter. */
  method ClampVertical(minRow: int, height: int) returns (y: int)
    ensures y == ClampedY(minRow, height)
  {
    y := HeadTop - minRow;
    if y < 0 {
      y := 0;
    }
    if y + height > Target {
      y := Target - height;
    }
  }

  // ---------------------------------------------------------------------
  // Canvas and paste

  /** `Image.new("RGBA", (w, h), (0, 0, 0, 0))`. */
  function Blank(h: nat, w: nat): (c: Grid)
    ensures Rect(c) && |c| == h && (h > 0 ==> Width(c) == w)
    ensures forall p :: InGrid(c, p) ==> Px(c, p) == Transparent
  {
    seq(h, i => seq(w, j => Transparent))
  }

  /** The blend `paste(src, (x, y), src)` applies to one canvas pixel and
      the source pixel over it is exact where the source's alpha is 0 (the
      canvas pixel is kept) or 255 (the source pixel replaces it). */
  ghost predicate ExactOnBinary(blend: (Pixel, Pixel) -> Pixel) {
    forall dst: Pixel, src: Pixel :: (src.a == 0 ==> blend(dst, src) == dst) &&
                       (src.a == 255 ==> blend(dst, src) == src)
  }

  /** `canvas.paste(src, (x, y), src)`: every canvas pixel covered by the
      shifted source is blended with the source pixel over it; the rest of
      the canvas, and the part of the source that falls off it, are left. */
  function Paste(canvas: Grid, src: Grid, x: int, y: int, blend: (Pixel, Pixel) -> Pixel): (r: Grid)
    requires Rect(canvas) && Rect(src)
    ensures SameShape(r, canvas)
    ensures forall p :: InGrid(canvas, p) ==>
              Px(r, p) == if InGrid(src, Pos(p.row - y, p.col - x))
                          then blend(Px(canvas, p), Px(src, Pos(p.row - y, p.col - x)))
                          else Px(canvas, p)
  {
    seq(|canvas|, i requires 0 <= i < |canvas| =>
      seq(Width(canvas), j requires 0 <= j < Width(canvas) =>
        if 0 <= i - y < |src| && 0 <= j - x < Width(src)
        then blend(canvas[i][j], src[i - y][j - x])
        else canvas[i][j]))
  }

  /** With an exact blend, a fully opaque source pixel that lands on the
      canvas appears there unchanged, and a canvas pixel under no source
      pixel or under a transparent one is kept. */
  lemma PasteExact(canvas: Grid, src: Grid, x: int, y: int, blend: (Pixel, Pixel) -> Pixel, p: Pos)
    requires Rect(canvas) && Rect(src) && ExactOnBinary(blend) && InGrid(canvas, p)
    ensures var q := Pos(p.row - y, p.col - x);
            (InGrid(src, q) && Px(src, q).a == 255 ==> Px(Paste(canvas, src, x, y, blend), p) == Px(src, q)) &&
            (!InGrid(src, q) || Px(src, q).a == 0 ==> Px(Paste(canvas, src, x, y, blend), p) == Px(canvas, p))
  {
  }

  /** Pasting onto a blank canvas with an exact blend, a binary-alpha source
      leaves opaque exactly the canvas pixels under its opaque pixels. */
  lemma PasteOpaqueOnBlank(h: nat, w: nat, src: Grid, x: int, y: int, blend: (Pixel, Pixel) -> Pixel, p: Pos)
    requires Rect(src) && ExactOnBinary(blend)
    requires forall q :: InGrid(src, q) ==> Px(src, q).a == 0 || Px(src, q).a == 255
    requires InGrid(Blank(h, w), p)
    ensures At(AlphaMask(Paste(Blank(h, w), src, x, y, blend)), p) <==>
            At(AlphaMask(src), Pos(p.row - y, p.col - x))
  {
    PasteExact(Blank(h, w), src, x, y, blend, p);
  }
}

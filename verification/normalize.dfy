/** The resize-and-place step shared by the three normalisers: pad the
    opaque extent, scale it to the 700 x 850 target, resize the whole image
    by that scale and paste it on a transparent 1000 x 1000 canvas. PIL's
    resize and its alpha-blended paste are parameters. */
module Normalize {
  import opened Raster
  import opened Results
  import opened Bounds
  import opened Placement

  /** `image.resize((w, h))` with both sides positive returns a valid
      h-by-w image, whatever its pixels. Pillow refuses a zero side, so
      nothing is assumed of that case. */
  ghost predicate ResizesTo(resize: (Grid, nat, nat) -> Grid) {
    forall g: Grid, h: nat, w: nat :: h > 0 && w > 0 ==>
      Rect(resize(g, h, w)) && ValidGrid(resize(g, h, w)) &&
      |resize(g, h, w)| == h && Width(resize(g, h, w)) == w
  }

  /** Pillow's `ValueError("height and width must be > 0")`, raised when
      the scaled size has a zero side. */
  datatype ResizeError = ZeroSize(height: nat, width: nat)

  /** `int(height * scale)` and `int(width * scale)`. */
  function ScaledHeight(g: Grid): nat
    requires Rect(g) && AnyTrue(AlphaMask(g))
  {
    ScaledDim(|g|, FigureScale(g))
  }

  function ScaledWidth(g: Grid): nat
    requires Rect(g) && AnyTrue(AlphaMask(g))
  {
    ScaledDim(Width(g), FigureScale(g))
  }

  /** The scaled size has a zero side, which the resize refuses: a thin
      strip scaled down truncates its short side to 0. */
  predicate Collapses(g: Grid)
    requires Rect(g) && AnyTrue(AlphaMask(g))
  {
    ScaledHeight(g) == 0 || ScaledWidth(g) == 0
  }

  /** The whole image resized by the figure's scale, for a size the resize
      accepts. */
  function Scaled(g: Grid, resize: (Grid, nat, nat) -> Grid): (s: Grid)
    requires Rect(g) && AnyTrue(AlphaMask(g)) && ResizesTo(resize) && !Collapses(g)
    ensures Rect(s) && ValidGrid(s) && |s| == ScaledHeight(g) && Width(s) == ScaledWidth(g)
    ensures |s| > 0 && Width(s) > 0
  {
    resize(g, ScaledHeight(g), ScaledWidth(g))
  }

  /** The zero-size case is reachable: a strip one pixel wide whose opaque
      pixels span more than 700 rows is scaled by 700 / (height - 1) < 1,
      and its width `int(1 * scale)` truncates to 0. */
  lemma {:induction false} ThinStripCollapses(g: Grid)
    requires Rect(g) && Width(g) == 1 && |g| > 701
    requires g[0][0].a > 0 && g[|g| - 1][0].a > 0
    ensures AnyTrue(AlphaMask(g)) && Collapses(g) && ScaledWidth(g) == 0
  {
    assert At(AlphaMask(g), Pos(0, 0));
    assert At(AlphaMask(g), Pos(|g| - 1, 0));
    var e := OpaqueExtent(g);
    assert e.minRow == 0 && e.maxRow == |g| - 1 && e.minCol == 0 && e.maxCol == 0;
    var s := Scale(|g| - 1, 0);
    assert s == FigureScale(g);
    assert s.num * 701 <= s.num * (|g| - 1) <= TargetPersonHeight * s.den;
    assert s.num < s.den;
  }

  /** The pipeline offsets: the opaque columns centred on column 500 (the
      halving truncated towards zero, as `int()` does) and the top opaque
      row on row 350, with no clamping. */
  function CentredOffsets(e: Extent): (o: (int, int))
    ensures o.1 + e.minRow == HeadTop
    ensures Target - 1 <= (o.0 + e.minCol) + (o.0 + e.maxCol) <= Target + 1
  {
    (CentreOffset(e.minCol, e.maxCol), HeadTop - e.minRow)
  }

  /** The canvas of `normalize_1000` and `resize_and_position`: the plain
      resize when nothing is opaque; the resize's ValueError when the
      scaled size has a zero side; else the scaled image pasted at the
      centred offsets, or nothing pasted when the scaled image has lost
      every opaque pixel. */
  function PipelinePlaced(g: Grid, resize: (Grid, nat, nat) -> Grid, blend: (Pixel, Pixel) -> Pixel)
    : (r: Result<Grid, ResizeError>)
    requires Rect(g) && ResizesTo(resize)
    ensures r.Ok? ==> Rect(r.value) && |r.value| == Target && Width(r.value) == Target
    ensures !AnyTrue(AlphaMask(g)) ==> r == Ok(resize(g, Target, Target))
    ensures AnyTrue(AlphaMask(g)) ==>
              (r.Err? <==> Collapses(g)) &&
              (r.Err? ==> r.error == ZeroSize(ScaledHeight(g), ScaledWidth(g)))
    ensures AnyTrue(AlphaMask(g)) && !Collapses(g) && !AnyTrue(AlphaMask(Scaled(g, resize))) ==>
              forall p :: InGrid(r.value, p) ==> Px(r.value, p) == Transparent
  {
    if !AnyTrue(AlphaMask(g)) then Ok(resize(g, Target, Target))
    else if Collapses(g) then Err(ZeroSize(ScaledHeight(g), ScaledWidth(g)))
    else
      var s := Scaled(g, resize);
      if AnyTrue(AlphaMask(s)) then
        var o := CentredOffsets(OpaqueExtent(s));
        Ok(Paste(Blank(Target, Target), s, o.0, o.1, blend))
      else
        Ok(Blank(Target, Target))
  }

  /** With a paste that leaves the canvas alone under a transparent source
      pixel, every opaque pixel of the canvas comes from an opaque pixel of
      the source: it lies in the source's opaque extent, shifted by the
      offsets. */
  lemma PastedWithinExtent(canvas: Grid, s: Grid, x: int, y: int, blend: (Pixel, Pixel) -> Pixel, p: Pos)
    requires Rect(canvas) && forall q :: InGrid(canvas, q) ==> Px(canvas, q).a == 0
    requires Rect(s) && ValidGrid(s) && AnyTrue(AlphaMask(s)) && ExactOnBinary(blend)
    requires At(AlphaMask(Paste(canvas, s, x, y, blend)), p)
    ensures var e := OpaqueExtent(s);
            y + e.minRow <= p.row <= y + e.maxRow && x + e.minCol <= p.col <= x + e.maxCol
  {
    var q := Pos(p.row - y, p.col - x);
    OpaqueFromSource(canvas, s, x, y, blend, p);
    WithinExtent(s, q);
  }

  lemma WithinExtent(s: Grid, q: Pos)
    requires Rect(s) && InGrid(s, q) && Px(s, q).a > 0
    ensures AnyTrue(AlphaMask(s))
    ensures var e := OpaqueExtent(s);
            e.minRow <= q.row <= e.maxRow && e.minCol <= q.col <= e.maxCol
  {
    assert At(AlphaMask(s), q);
  }

  /** An opaque pixel pasted over a transparent one comes from an opaque
      source pixel. */
  lemma OpaqueFromSource(canvas: Grid, s: Grid, x: int, y: int, blend: (Pixel, Pixel) -> Pixel, p: Pos)
    requires Rect(canvas) && Rect(s) && ValidGrid(s) && ExactOnBinary(blend)
    requires InGrid(canvas, p) && Px(canvas, p).a == 0
    requires At(AlphaMask(Paste(canvas, s, x, y, blend)), p)
    ensures InGrid(s, Pos(p.row - y, p.col - x)) && Px(s, Pos(p.row - y, p.col - x)).a > 0
  {
    var q := Pos(p.row - y, p.col - x);
    PasteExact(canvas, s, x, y, blend, p);
    if InGrid(s, q) {
      assert ValidPixel(s[q.row][q.col]);
    }
  }

  /** Where the pipeline versions put the figure: no opaque pixel above row
      350, and every opaque pixel within the scaled figure's columns shifted
      so that they centre on column 500. */
  lemma PipelineFigurePlacement(g: Grid, resize: (Grid, nat, nat) -> Grid, blend: (Pixel, Pixel) -> Pixel, p: Pos)
    requires Rect(g) && ResizesTo(resize) && ExactOnBinary(blend) && AnyTrue(AlphaMask(g)) && !Collapses(g)
    requires At(AlphaMask(PipelinePlaced(g, resize, blend).value), p)
    ensures var s := Scaled(g, resize);
            AnyTrue(AlphaMask(s)) &&
            var e := OpaqueExtent(s);
            var x := CentredOffsets(e).0;
            HeadTop <= p.row && x + e.minCol <= p.col <= x + e.maxCol
  {
    var s := Scaled(g, resize);
    if !AnyTrue(AlphaMask(s)) {
      assert false;
    }
    var o := CentredOffsets(OpaqueExtent(s));
    PastedWithinExtent(Blank(Target, Target), s, o.0, o.1, blend, p);
  }
}

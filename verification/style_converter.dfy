/** The post-processing of the original single-class converter: the reply
    parsing of its combined analysis call, the border-white pass, bottom
    flattening on the final canvas, and the placement on a 1000 x 1000
    canvas with side margins and vertical clamps. Its white outline is
    the Outline module. */
module StyleConverter {
  import opened Raster
  import opened Results
  import opened Text
  import opened Bounds
  import opened Background
  import opened Flatten
  import opened Placement
  import opened Normalize
  import opened Replies

  // ---------------------------------------------------------------------
  // Analysis

  /** `analyze_image`: both answers are read from one reply; a failed call
      (None) falls back to a full-body photo. */
  function AnalyzeImage(reply: Option<string>): (a: Analysis)
    ensures reply.None? ==> a == Analysis(Photo, FullBody)
    ensures reply.Some? ==> (a.imageType == Illustration <==> Contains(Upper(reply.value), "ILLUSTRATION"))
    ensures reply.Some? ==> a.bodyExtent == ExtentFromReply(reply.value)
  {
    match reply
    case None => Analysis(Photo, FullBody)
    case Some(r) => Analysis(TypeFromReply(r), ExtentFromReply(r))
  }

  /** The type and the extent are read independently: an illustration can
      carry any extent, and the keywords of one do not affect the other. */
  lemma AnalysisIndependent(pre: string, post: string)
    ensures AnalyzeImage(Some(pre + "illustration" + post)).imageType == Illustration
    ensures AnalyzeImage(Some(pre + "head_only" + post)).bodyExtent == HeadOnly
  {
    KeywordInContext(pre, post);
  }

  // ---------------------------------------------------------------------
  // Background

  /** `make_white_transparent(image, threshold)`: alpha 0 on every
      background pixel, everything else as it was. */
  method MakeWhiteTransparent(img: Image, t: int) returns (out: Image)
    requires Rect(img.px) && |img.px| > 0 && Width(img.px) > 0
    ensures out.mode == RGBA
    ensures out.px == Cleared(img.px, t)
  {
    var px := ClearBorderWhite(img.px, t);
    out := Image(RGBA, px);
  }

  // ---------------------------------------------------------------------
  // Flattening

  /** `crop_horizontal_bottom`: nothing changes without an opaque pixel;
      otherwise alpha is cleared on every row below the bottom row the
      band picks, or the lowest opaque row when the band holds none. */
  method CropHorizontalBottom(img: Image) returns (out: Image)
    requires Rect(img.px)
    ensures out.mode == RGBA
    ensures !AnyTrue(AlphaMask(img.px)) ==> out.px == img.px
    ensures AnyTrue(AlphaMask(img.px)) ==> out.px == ClearedBelow(img.px, OriginalBottom(AlphaMask(img.px)))
  {
    var m := AlphaMask(img.px);
    if !AnyTrue(m) {
      out := ToRGBA(img);
      return;
    }
    var bottom := OriginalBottom(m);
    var px := ClearBelow(img.px, bottom);
    out := Image(RGBA, px);
  }

  /** After `crop_horizontal_bottom` the lowest opaque row is the bottom row
      it picked, and every pixel keeps its colour. */
  lemma HorizontalBottomIsFlat(g: Grid, p: Pos)
    requires Rect(g) && AnyTrue(AlphaMask(g)) && InGrid(g, p)
    ensures var r := ClearedBelow(g, OriginalBottom(AlphaMask(g)));
            AnyTrue(AlphaMask(r)) && ContentBox(AlphaMask(r)).bottom - 1 == OriginalBottom(AlphaMask(g)) &&
            SameColour(Px(r, p), Px(g, p))
  {
    FlattenedBottomIsLowest(g);
    Flatten.ClearedKeepsColour(g, OriginalBottom(AlphaMask(g)), p);
  }

  // ---------------------------------------------------------------------
  // Placement

  /** The extent placement goes by: the scaled image's opaque extent, or,
      when resizing lost every opaque pixel, rows from 0 and columns
      0..new_width (its maxRow plays no part). */
  function PlacementExtent(s: Grid, newWidth: nat): (e: Extent)
    requires Rect(s)
    ensures AnyTrue(AlphaMask(s)) ==> e == OpaqueExtent(s)
    ensures !AnyTrue(AlphaMask(s)) ==> e.minRow == 0 && e.minCol == 0 && e.maxCol == newWidth
  {
    if AnyTrue(AlphaMask(s)) then OpaqueExtent(s) else Extent(0, 0, 0, newWidth)
  }

  /** The canvas `normalize_size_and_position` returns: the centred offset
      clamped to the side margins, the head-line offset clamped to the
      canvas; the resize's ValueError when the scaled size has a zero
      side. */
  function OriginalPlaced(g: Grid, resize: (Grid, nat, nat) -> Grid, blend: (Pixel, Pixel) -> Pixel)
    : (r: Result<Grid, ResizeError>)
    requires Rect(g) && ResizesTo(resize)
    ensures r.Ok? ==> Rect(r.value) && |r.value| == Target && Width(r.value) == Target
    ensures !AnyTrue(AlphaMask(g)) ==> r == Ok(resize(g, Target, Target))
    ensures AnyTrue(AlphaMask(g)) ==>
              (r.Err? <==> Collapses(g)) &&
              (r.Err? ==> r.error == ZeroSize(ScaledHeight(g), ScaledWidth(g)))
  {
    if !AnyTrue(AlphaMask(g)) then Ok(resize(g, Target, Target))
    else if Collapses(g) then Err(ZeroSize(ScaledHeight(g), ScaledWidth(g)))
    else
      var s := Scaled(g, resize);
      var e := PlacementExtent(s, ScaledWidth(g));
      Ok(Paste(Blank(Target, Target), s, ClampedX(CentreOffset(e.minCol, e.maxCol), e.minCol, e.maxCol),
               ClampedY(e.minRow, |s|), blend))
  }

  /** `normalize_size_and_position` with the default 1000 x 1000 target and
      head ratio 0.35. */
  method NormalizeSizeAndPosition(img: Image, resize: (Grid, nat, nat) -> Grid, blend: (Pixel, Pixel) -> Pixel)
    returns (out: Result<Image, ResizeError>)
    requires Rect(img.px) && ResizesTo(resize)
    ensures out.Ok? ==> out.value.mode == RGBA
    ensures out.Err? <==> OriginalPlaced(img.px, resize, blend).Err?
    ensures out.Err? ==> out.error == OriginalPlaced(img.px, resize, blend).error
    ensures out.Ok? ==> out.value.px == OriginalPlaced(img.px, resize, blend).value
  {
    var g := img.px;
    if !AnyTrue(AlphaMask(g)) {
      return Ok(Image(RGBA, resize(g, Target, Target)));
    }
    var newWidth := ScaledWidth(g);
    var newHeight := ScaledHeight(g);
    if newWidth == 0 || newHeight == 0 {
      return Err(ZeroSize(newHeight, newWidth));
    }
    var scaled := Scaled(g, resize);
    var e := PlacementExtent(scaled, newWidth);
    var x := CentreOffset(e.minCol, e.maxCol);
    x := ClampHorizontal(x, e.minCol, e.maxCol);
    var y := ClampVertical(e.minRow, |scaled|);
    out := Ok(Image(RGBA, Paste(Blank(Target, Target), scaled, x, y, blend)));
  }

  /** Every opaque pixel of the original placement stays left of the right
      margin, right of the left margin when the figure is narrow enough to
      fit between the margins, and at or below the head line when the
      scaled image fits the canvas height. */
  lemma OriginalFigurePlacement(g: Grid, resize: (Grid, nat, nat) -> Grid, blend: (Pixel, Pixel) -> Pixel, p: Pos)
    requires Rect(g) && ResizesTo(resize) && ExactOnBinary(blend) && AnyTrue(AlphaMask(g)) && !Collapses(g)
    requires AnyTrue(AlphaMask(Scaled(g, resize)))
    requires At(AlphaMask(OriginalPlaced(g, resize, blend).value), p)
    ensures var e := OpaqueExtent(Scaled(g, resize));
            p.col <= Target - SideMargin &&
            (e.maxCol - e.minCol <= Target - 2 * SideMargin ==> SideMargin <= p.col) &&
            (HeadTop - e.minRow >= 0 && HeadTop - e.minRow + |Scaled(g, resize)| <= Target ==> HeadTop <= p.row)
  {
    var s := Scaled(g, resize);
    var e := OpaqueExtent(s);
    var x := ClampedX(CentreOffset(e.minCol, e.maxCol), e.minCol, e.maxCol);
    var y := ClampedY(e.minRow, |s|);
    assert OriginalPlaced(g, resize, blend).value == Paste(Blank(Target, Target), s, x, y, blend);
    PastedWithinExtent(Blank(Target, Target), s, x, y, blend, p);
  }
}

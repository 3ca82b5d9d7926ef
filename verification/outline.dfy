/** The white outline: the figure is framed by a transparent border as wide
    as the outline, the alpha mask is dilated by a 3x3 square once per pixel
    of outline width, and every pixel the dilation reached that was not
    already opaque becomes opaque white. */
module Outline {
  import opened Raster
  import opened Results
  import opened Morphology
  import opened Placement

  /** `Image.new` of the enlarged size with the image pasted at (k, k),
      using the image as its own paste mask. */
  function Framed(g: Grid, k: nat, blend: (Pixel, Pixel) -> Pixel): (c: Grid)
    requires Rect(g)
    ensures Rect(c) && |c| == |g| + 2 * k && (|c| > 0 ==> Width(c) == Width(g) + 2 * k)
    ensures forall p :: InGrid(c, p) ==>
              Px(c, p) == if InGrid(g, Pos(p.row - k, p.col - k))
                          then blend(Transparent, Px(g, Pos(p.row - k, p.col - k)))
                          else Transparent
  {
    Paste(Blank(|g| + 2 * k, Width(g) + 2 * k), g, k, k, blend)
  }

  /** The canvas with every pixel that k rounds of dilation reach, and that
      is not already opaque, set to opaque white. */
  function Outlined(c: Grid, k: nat): (r: Grid)
    requires Rect(c)
    ensures SameShape(r, c)
    ensures forall p :: InGrid(c, p) ==>
              Px(r, p) == if At(DilateRepeat(AlphaMask(c), k), p) && !At(AlphaMask(c), p)
                          then OpaqueWhite else Px(c, p)
  {
    var d, a := DilateRepeat(AlphaMask(c), k), AlphaMask(c);
    seq(|c|, i requires 0 <= i < |c| =>
      seq(Width(c), j requires 0 <= j < Width(c) =>
        if d[i][j] && !a[i][j] then OpaqueWhite else c[i][j]))
  }

  /** `add_white_outline(image, outline_width=k)` with the outline mask
      taken as a boolean mask for every k (see OutlineAsWritten for k = 0). */
  method AddWhiteOutline(img: Image, k: nat, blend: (Pixel, Pixel) -> Pixel) returns (out: Image)
    requires Rect(img.px)
    ensures out.mode == RGBA
    ensures out.px == Outlined(Framed(img.px, k, blend), k)
  {
    var canvas := Framed(img.px, k, blend);
    var original := AlphaMask(canvas);
    var dilated := original;
    for i := 0 to k
      invariant dilated == DilateRepeat(original, i)
    {
      dilated := BoxDilate(dilated, 1, 1);
    }
    if |canvas| == 0 {
      GridExt(canvas, Outlined(canvas, k));
      return Image(RGBA, canvas);
    }
    var data := Load(canvas);
    forall i, j | 0 <= i < data.Length0 && 0 <= j < data.Length1 && dilated[i][j] && !original[i][j] {
      data[i, j] := OpaqueWhite;
    }
    var px := Store(data);
    forall p | InGrid(px, p) ensures Px(px, p) == Px(Outlined(canvas, k), p) {
      assert At(dilated, p) == dilated[p.row][p.col];
      assert At(original, p) == original[p.row][p.col];
    }
    GridExt(px, Outlined(canvas, k));
    out := Image(RGBA, px);
  }

  // ---------------------------------------------------------------------
  // Properties of the outline

  /** The outline's opaque pixels are exactly those within Chebyshev
      distance k of an opaque pixel of the canvas. */
  lemma OutlineIsDilation(c: Grid, k: nat, p: Pos)
    requires Rect(c)
    ensures At(AlphaMask(Outlined(c, k)), p) <==> InGrid(c, p) && NearTrue(AlphaMask(c), p, k, k)
  {
    DilateRepeatReach(AlphaMask(c), k, p);
    if At(AlphaMask(c), p) {
      DilateExtensiveRepeat(AlphaMask(c), k, p);
    }
  }

  /** Repeated dilation never removes a true cell. */
  lemma DilateExtensiveRepeat(m: Mask, k: nat, p: Pos)
    requires Rect(m) && At(m, p)
    ensures At(DilateRepeat(m, k), p)
  {
    assert InBox(p, p, k, k);
    DilateRepeatComplete(m, k, p, p);
  }

  /** The outline only adds white: every pixel that was opaque keeps its
      value, and every other pixel either stays or becomes opaque white. */
  lemma OutlineKeepsFigure(c: Grid, k: nat, p: Pos)
    requires Rect(c) && InGrid(c, p)
    ensures At(AlphaMask(c), p) ==> Px(Outlined(c, k), p) == Px(c, p)
    ensures Px(Outlined(c, k), p) == Px(c, p) || Px(Outlined(c, k), p) == OpaqueWhite
  {
  }

  /** With no outline width the canvas comes back unchanged. */
  lemma OutlineZeroIsIdentity(c: Grid)
    requires Rect(c)
    ensures Outlined(c, 0) == c
  {
    GridExt(Outlined(c, 0), c);
  }

  /** The figure sits k pixels in from every side of the framed canvas:
      with an exact blend, each fully opaque pixel appears there unchanged. */
  lemma FramedKeepsOpaque(g: Grid, k: nat, blend: (Pixel, Pixel) -> Pixel, p: Pos)
    requires Rect(g) && ExactOnBinary(blend) && InGrid(g, p) && Px(g, p).a == 255
    ensures InGrid(Framed(g, k, blend), Pos(p.row + k, p.col + k))
    ensures Px(Framed(g, k, blend), Pos(p.row + k, p.col + k)) == Px(g, p)
  {
    var q := Pos(p.row + k, p.col + k);
    assert Pos(q.row - k, q.col - k) == p;
  }

  // ---------------------------------------------------------------------
  // Outline width 0, as written

  datatype Failure = IndexError

  /** `add_white_outline` as written. For k = 0 the loop never runs, so the
      "dilated" alpha is still the uint8 alpha channel, the outline mask
      `alpha & ~opaque` is an all-zero uint8 array, and the four writes
      `result_array[outline_mask, c] = 255` index with it as integers: each
      sets the whole pixel (0, c) to 255, or raises IndexError when the
      canvas is narrower than four columns. */
  function OutlineAsWritten(g: Grid, k: nat, blend: (Pixel, Pixel) -> Pixel): (r: Result<Grid, Failure>)
    requires Rect(g)
    ensures k > 0 ==> r == Ok(Outlined(Framed(g, k, blend), k))
    ensures k == 0 && |g| > 0 && Width(g) < 4 ==> r == Err(IndexError)
    ensures k == 0 && |g| > 0 && Width(g) >= 4 ==>
              (r.Ok? && SameShape(r.value, g) &&
               forall p :: InGrid(g, p) ==>
                 Px(r.value, p) == if p.row == 0 && p.col < 4 then OpaqueWhite else Px(Framed(g, 0, blend), p))
  {
    var c := Framed(g, k, blend);
    if k > 0 then Ok(Outlined(c, k))
    else if |c| == 0 then Ok(c)
    else if Width(c) < 4 then Err(IndexError)
    else Ok(c[0 := [OpaqueWhite, OpaqueWhite, OpaqueWhite, OpaqueWhite] + c[0][4..]])
  }

  /** A one-row, four-pixel transparent image shows the difference: as
      written, width 0 whitens its first four pixels; the boolean outline
      leaves them transparent. */
  lemma ZeroWidthWhitensCorner(blend: (Pixel, Pixel) -> Pixel)
    requires ExactOnBinary(blend)
    ensures var g := [[Transparent, Transparent, Transparent, Transparent]];
            OutlineAsWritten(g, 0, blend).Ok? &&
            Px(OutlineAsWritten(g, 0, blend).value, Pos(0, 0)) == OpaqueWhite &&
            Px(Outlined(Framed(g, 0, blend), 0), Pos(0, 0)) == Transparent
  {
    var g := [[Transparent, Transparent, Transparent, Transparent]];
    assert InGrid(g, Pos(0, 0));
    OutlineZeroIsIdentity(Framed(g, 0, blend));
  }
}

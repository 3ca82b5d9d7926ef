/** The first-generation image processor: a real photo has its background
    removed and is cropped to its opaque pixels; a pixel-art image is only
    converted to RGBA. The background remover is a parameter: its result
    for the image is passed in as `removed`. */
module ImageProcessor {
  import opened Raster
  import opened Bounds

  /** The two kinds the first-generation analysis tells apart. */
  datatype SourceKind = RealPhoto | PixelArt

  /** `crop_to_flat_bottom`: the image, converted to RGBA, cropped to the
      bounding box of its opaque pixels; unchanged when nothing is opaque. */
  function CropToFlatBottom(img: Image): (r: Image)
    requires Rect(img.px)
    ensures r.mode == RGBA && Rect(r.px)
    ensures !AnyTrue(AlphaMask(img.px)) ==> r.px == img.px
    ensures |r.px| <= |img.px| && Width(r.px) <= Width(img.px)
    ensures forall p :: At(AlphaMask(img.px), p) ==>
              InGrid(r.px, Shift(p, ContentBox(AlphaMask(img.px)))) &&
              Px(r.px, Shift(p, ContentBox(AlphaMask(img.px)))) == Px(img.px, p)
    ensures CropToOpaque(r.px) == r.px
  {
    CropNeverGrows(img.px);
    CropKeepsEveryOpaque(img.px);
    CropIdempotent(img.px);
    Image(RGBA, CropToOpaque(img.px))
  }

  /** `process_image`: a real photo is replaced by its background-removed
      version cropped to content; any other image keeps its pixels and
      becomes RGBA. */
  function ProcessImage(img: Image, kind: SourceKind, removed: Grid): (r: Image)
    requires Rect(removed)
    ensures r.mode == RGBA
    ensures kind == PixelArt ==> r.px == img.px
    ensures kind == RealPhoto ==> r == CropToFlatBottom(Image(RGBA, removed))
  {
    match kind
    case RealPhoto => CropToFlatBottom(Image(RGBA, removed))
    case PixelArt => ToRGBA(img)
  }

  /** Re-cropping is a no-op: processing the processed photo again, with a
      background remover that hands back the already-transparent image
      unchanged, gives the same image, since the crop is already tight. */
  lemma ReprocessWithIdentityRemover(img: Image, removed: Grid)
    requires Rect(removed)
    ensures var once := ProcessImage(img, RealPhoto, removed);
            ProcessImage(once, RealPhoto, once.px) == once
  {
    var once := ProcessImage(img, RealPhoto, removed);
    assert CropToOpaque(once.px) == once.px;
  }
}

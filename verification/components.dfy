/** The coarse pipeline components: analysis, preprocessing, background and
    postprocessing steps that the engine strings together. A component's
    context argument is represented by the one entry it reads,
    `context.get("image_type")`. */
module Components {
  import opened Raster
  import opened Results
  import opened Bounds
  import opened Background
  import opened Flatten
  import opened Placement
  import opened Normalize
  import opened Replies

  // ---------------------------------------------------------------------
  // Analysis

  /** `gemini_25_analysis_photos_only`: the type from the first reply; an
      illustration is head-to-chest without a second question, a photo's
      extent comes from the second reply. */
  function AnalysisPhotosOnly(typeReply: string, bodyReply: string): (a: Analysis)
    ensures a.imageType == TypeFromReply(typeReply)
    ensures a.imageType == Illustration ==> a.bodyExtent == HeadChest
    ensures a.imageType == Photo ==> a.bodyExtent == ExtentFromReply(bodyReply)
  {
    var t := TypeFromReply(typeReply);
    if t == Illustration then Analysis(t, HeadChest) else Analysis(t, ExtentFromReply(bodyReply))
  }

  /** An illustration's analysis does not depend on the second reply: the
      second question is never asked. */
  lemma IllustrationAsksOnce(typeReply: string, b1: string, b2: string)
    requires TypeFromReply(typeReply) == Illustration
    ensures AnalysisPhotosOnly(typeReply, b1) == AnalysisPhotosOnly(typeReply, b2)
  {
  }

  /** `fast_analysis`: a head-to-chest photo, whatever the image. */
  function FastAnalysis<I>(image: I): (a: Analysis)
    ensures a.imageType == Photo && a.bodyExtent == HeadChest
  {
    Analysis(Photo, HeadChest)
  }

  // ---------------------------------------------------------------------
  // Preprocessing

  /** `rembg_preprocess`: for a photo, the background-removed image
      `removed` cropped to its opaque pixels; anything else only converted
      to RGBA. */
  function RembgPreprocess(img: Image, imageType: Option<string>, removed: Grid): (r: Image)
    requires Rect(removed)
    ensures r.mode == RGBA
    ensures imageType != Some("photo") ==> r.px == img.px
    ensures imageType == Some("photo") ==> r.px == CropToOpaque(removed)
    ensures imageType == Some("photo") ==> |r.px| <= |removed| && Width(r.px) <= Width(removed)
    ensures imageType == Some("photo") ==>
              forall p :: At(AlphaMask(removed), p) ==>
                InGrid(r.px, Shift(p, ContentBox(AlphaMask(removed)))) &&
                Px(r.px, Shift(p, ContentBox(AlphaMask(removed)))) == Px(removed, p)
  {
    if imageType == Some("photo") then
      CropNeverGrows(removed);
      CropKeepsEveryOpaque(removed);
      Image(RGBA, CropToOpaque(removed))
    else
      ToRGBA(img)
  }

  /** `no_preprocess`: only the conversion to RGBA. */
  function NoPreprocess(img: Image): (r: Image)
    ensures r.mode == RGBA && r.px == img.px
  {
    ToRGBA(img)
  }

  // ---------------------------------------------------------------------
  // Background

  /** `transparent_background`: the border-white pass with threshold 240. */
  method TransparentBackground(img: Image) returns (out: Image)
    requires Rect(img.px) && |img.px| > 0 && Width(img.px) > 0
    ensures out.mode == RGBA
    ensures out.px == Cleared(img.px, DefaultThreshold)
  {
    var px := ClearBorderWhite(img.px, DefaultThreshold);
    out := Image(RGBA, px);
  }

  /** `keep_white_background`: the image as it came. */
  function KeepWhiteBackground(img: Image): (r: Image)
    ensures r == img
  {
    img
  }

  // ---------------------------------------------------------------------
  // Postprocessing

  /** `normalize_1000`: a plain resize when nothing is opaque; the
      resize's ValueError when the scaled size has a zero side; otherwise
      the centred placement, flattened at the band's lowest opaque row when
      the context says the image is a photo. */
  method Normalize1000(img: Image, imageType: Option<string>, resize: (Grid, nat, nat) -> Grid,
                       blend: (Pixel, Pixel) -> Pixel) returns (out: Result<Image, ResizeError>)
    requires Rect(img.px) && ResizesTo(resize)
    ensures out.Ok? ==> out.value.mode == RGBA
    ensures !AnyTrue(AlphaMask(img.px)) ==> out == Ok(Image(RGBA, resize(img.px, Target, Target)))
    ensures AnyTrue(AlphaMask(img.px)) && Collapses(img.px) ==>
              out == Err(ZeroSize(ScaledHeight(img.px), ScaledWidth(img.px)))
    ensures AnyTrue(AlphaMask(img.px)) && !Collapses(img.px) && imageType != Some("photo") ==>
              out == Ok(Image(RGBA, PipelinePlaced(img.px, resize, blend).value))
    ensures AnyTrue(AlphaMask(img.px)) && !Collapses(img.px) && imageType == Some("photo") ==>
              out == Ok(Image(RGBA, PipelineFlattened(PipelinePlaced(img.px, resize, blend).value)))
  {
    var g := img.px;
    if !AnyTrue(AlphaMask(g)) {
      return Ok(Image(RGBA, resize(g, Target, Target)));
    }
    var placed := PipelinePlaced(g, resize, blend);
    if placed.Err? {
      return Err(placed.error);
    }
    var result := placed.value;
    if imageType == Some("photo") {
      result := FlattenInBand(result);
    }
    out := Ok(Image(RGBA, result));
  }

  /** Flattening only ever clears alpha: every pixel of `normalize_1000`'s
      flattened canvas has the colour of the placed one, and is opaque only
      where the placed one is. */
  lemma FlattenOnlyClears(c: Grid, p: Pos)
    requires Rect(c) && InGrid(c, p)
    ensures SameColour(Px(PipelineFlattened(c), p), Px(c, p))
    ensures At(AlphaMask(PipelineFlattened(c)), p) ==> At(AlphaMask(c), p)
  {
    if PipelineBottom(AlphaMask(c)).Some? {
      var k := OriginalBottom(AlphaMask(c));
      Flatten.ClearedKeepsColour(c, k, p);
      ClearedOpaque(c, k, p);
    }
  }

  /** `keep_original_size`: the image as it came. */
  function KeepOriginalSize(img: Image): (r: Image)
    ensures r == img
  {
    img
  }
}

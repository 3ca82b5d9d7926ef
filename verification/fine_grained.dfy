/** The fine-grained pipeline components: the coarse steps split into one
    component per step. A component's context argument is represented by
    the entries it reads. */
module FineGrained {
  import opened Raster
  import opened Results
  import opened Bounds
  import opened Connectivity
  import opened Background
  import opened Flatten
  import opened Placement
  import opened Normalize
  import opened Replies
  import opened Prompts

  // ---------------------------------------------------------------------
  // Analysis

  /** `detect_image_type`: "illustration" exactly when the reply says so. */
  function DetectImageType(reply: string): (t: ImageType)
    ensures t == TypeFromReply(reply)
  {
    TypeFromReply(reply)
  }

  /** `detect_body_extent`: head-to-chest for an image the context calls an
      illustration, without asking; otherwise the extent in the reply. */
  function DetectBodyExtent(imageType: Option<string>, reply: string): (e: BodyExtent)
    ensures imageType == Some("illustration") ==> e == HeadChest
    ensures imageType != Some("illustration") ==> e == ExtentFromReply(reply)
  {
    if imageType == Some("illustration") then HeadChest else ExtentFromReply(reply)
  }

  /** Only an explicit "illustration" skips the question: a context without
      an image type is treated as a photo. */
  lemma MissingTypeAsks(reply: string)
    ensures DetectBodyExtent(None, reply) == DetectBodyExtent(Some("photo"), reply)
  {
  }

  // ---------------------------------------------------------------------
  // Preprocessing

  /** `rembg_remove_background`: for a photo, the background-removed image
      `removed`; anything else only converted to RGBA. */
  function RembgRemoveBackground(img: Image, imageType: Option<string>, removed: Grid): (r: Image)
    ensures imageType == Some("photo") ==> r == Image(RGBA, removed)
    ensures imageType != Some("photo") ==> r.mode == RGBA && r.px == img.px
  {
    if imageType == Some("photo") then Image(RGBA, removed) else ToRGBA(img)
  }

  /** `crop_to_content`: a non-RGBA image is returned as it is; an RGBA
      image is cropped to its opaque pixels, or kept when none is opaque. */
  function CropToContent(img: Image): (r: Image)
    requires Rect(img.px)
    ensures r.mode == img.mode
    ensures img.mode != RGBA || !AnyTrue(AlphaMask(img.px)) ==> r == img
    ensures img.mode == RGBA ==> r.px == CropToOpaque(img.px)
    ensures img.mode == RGBA ==>
              forall p :: At(AlphaMask(img.px), p) ==>
                InGrid(r.px, Shift(p, ContentBox(AlphaMask(img.px)))) &&
                Px(r.px, Shift(p, ContentBox(AlphaMask(img.px)))) == Px(img.px, p)
  {
    if img.mode != RGBA then img
    else
      CropKeepsEveryOpaque(img.px);
      Image(RGBA, CropToOpaque(img.px))
  }

  /** Cropping to content twice is cropping once. */
  lemma CropToContentIdempotent(img: Image)
    requires Rect(img.px)
    ensures CropToContent(CropToContent(img)) == CropToContent(img)
  {
    CropIdempotent(img.px);
  }

  // ---------------------------------------------------------------------
  // Prompt

  /** `generate_body_instruction`: the instruction for the context's
      extent, head-to-chest when the extent is missing or unknown. */
  function GenerateBodyInstruction(extent: Option<string>): (instruction: string)
    ensures extent.Some? && extent.value in Instructions ==> instruction == Instructions[extent.value]
    ensures extent.None? || extent.value !in Instructions ==> instruction == Instructions["head_chest"]
  {
    Lookup(if extent.Some? then extent.value else "head_chest", "head_chest")
  }

  /** `build_full_prompt`: the style prompt for the context's extent. A
      missing extent means head-to-chest, but an unknown one falls through
      to the full-body prompt. */
  function BuildFullPrompt(extent: Option<string>): (prompt: string)
    ensures extent.None? ==> prompt == GetStylePrompt("head_chest")
    ensures extent.Some? ==> prompt == GetStylePrompt(extent.value)
  {
    GetStylePrompt(if extent.Some? then extent.value else "head_chest")
  }

  /** The two lookups disagree on an unknown extent: the instruction step
      falls back to head-to-chest, the prompt step to the full body. */
  lemma UnknownExtentFallbacks(e: string)
    requires e !in Instructions
    ensures GenerateBodyInstruction(Some(e)) == KeepChest
    ensures BuildFullPrompt(Some(e)) == TemplateHead + CropToChest + TemplateTail
  {
  }

  // ---------------------------------------------------------------------
  // Background

  /** `detect_white_background`: the labelling of the near-white (> 240)
      pixels and the labels found on the border; a white pixel's label is
      among them exactly when its component touches the border. */
  method DetectWhiteBackground(img: Image) returns (labels: seq<seq<nat>>, count: nat, edge: set<nat>)
    requires Rect(img.px) && |img.px| > 0 && Width(img.px) > 0
    ensures IsLabelling(WhiteMask(img.px, DefaultThreshold), labels, count)
    ensures edge == EdgeLabels(labels)
    ensures forall p :: At(WhiteMask(img.px, DefaultThreshold), p) ==>
              (LabelAt(labels, p) in edge <==> TouchesBorder(WhiteMask(img.px, DefaultThreshold), p))
  {
    var white := WhiteMask(img.px, DefaultThreshold);
    labels, count := Label(white);
    edge := EdgeLabels(labels);
    forall p | At(white, p)
      ensures LabelAt(labels, p) in edge <==> TouchesBorder(white, p)
    {
      EdgeLabelIffTouches(white, labels, count, p);
    }
  }

  /** `make_white_transparent`: the border-white pass with threshold 240. */
  method MakeWhiteTransparent(img: Image) returns (out: Image)
    requires Rect(img.px) && |img.px| > 0 && Width(img.px) > 0
    ensures out.mode == RGBA
    ensures out.px == Cleared(img.px, DefaultThreshold)
  {
    var px := ClearBorderWhite(img.px, DefaultThreshold);
    out := Image(RGBA, px);
  }

  /** `keep_background`: the image as it came. */
  function KeepBackground(img: Image): (r: Image)
    ensures r == img
  {
    img
  }

  // ---------------------------------------------------------------------
  // Postprocessing

  /** What `calculate_normalization` reports: scale 1 and offsets 0 for an
      image without opaque pixels, else the scale with `needs_positioning`. */
  datatype Normalization = Unpositioned | NeedsPositioning(scale: Ratio)

  function CalculateNormalization(img: Image): (n: Normalization)
    requires Rect(img.px)
    ensures n.Unpositioned? <==> !AnyTrue(AlphaMask(img.px))
    ensures n.NeedsPositioning? ==> n.scale == FigureScale(img.px)
  {
    if !AnyTrue(AlphaMask(img.px)) then Unpositioned else NeedsPositioning(FigureScale(img.px))
  }

  /** The scale `calculate_normalization` reports brings the padded figure
      within 700 x 850. */
  lemma NormalizationFits(img: Image)
    requires Rect(img.px) && AnyTrue(AlphaMask(img.px))
    ensures var n := CalculateNormalization(img);
            var e := Padded(OpaqueExtent(img.px), |img.px|, Width(img.px));
            n.NeedsPositioning? && n.scale.den > 0 &&
            ScaledDim(e.maxRow - e.minRow, n.scale) <= TargetPersonHeight &&
            ScaledDim(e.maxCol - e.minCol, n.scale) <= TargetPersonWidth
  {
    PaddedFigureFits(img.px);
  }

  /** `resize_and_position`: a 1000 x 1000 canvas, the plain resize when
      nothing is opaque, else the scaled image at the centred offsets; the
      resize's ValueError when the scaled size has a zero side. */
  function ResizeAndPosition(img: Image, resize: (Grid, nat, nat) -> Grid, blend: (Pixel, Pixel) -> Pixel)
    : (r: Result<Image, ResizeError>)
    requires Rect(img.px) && ResizesTo(resize)
    ensures r.Err? <==> AnyTrue(AlphaMask(img.px)) && Collapses(img.px)
    ensures r.Ok? ==> r.value.mode == RGBA && Rect(r.value.px) &&
                      |r.value.px| == Target && Width(r.value.px) == Target
    ensures r.Ok? ==> r.value.px == PipelinePlaced(img.px, resize, blend).value
  {
    match PipelinePlaced(img.px, resize, blend)
    case Ok(px) => Ok(Image(RGBA, px))
    case Err(e) => Err(e)
  }

  /** `crop_bottom_edge`: only an RGBA photo is flattened, at the band's
      lowest opaque row; everything else is returned as it is. */
  method CropBottomEdge(img: Image, imageType: Option<string>) returns (out: Image)
    requires Rect(img.px)
    ensures imageType != Some("photo") || img.mode != RGBA ==> out == img
    ensures imageType == Some("photo") && img.mode == RGBA ==>
              out == Image(RGBA, PipelineFlattened(img.px))
  {
    if imageType != Some("photo") {
      return img;
    }
    if img.mode != RGBA {
      return img;
    }
    var px := FlattenInBand(img.px);
    out := Image(RGBA, px);
  }

  /** `no_postprocess`: the image as it came. */
  function NoPostprocess(img: Image): (r: Image)
    ensures r == img
  {
    img
  }

  /** `convert_to_rgba`. */
  function ConvertToRgba(img: Image): (r: Image)
    ensures r.mode == RGBA && r.px == img.px
  {
    ToRGBA(img)
  }
}

# Image post-processing pipeline: a verified model

This project models the deterministic core of an image-conversion service.
The service turns a portrait photo or illustration into a vector-style
avatar. AI calls do the styling. Everything around those calls is ordinary
code, and that code is what is modelled here:

- the border-white pass that makes a white background transparent. It
  labels the near-white pixels (all of R, G, B above 240) by 4-connected
  components. A component counts as background when it touches the image
  border and less than 30 % of it lies in the protected zone, which is the
  person mask (any channel below 245) dilated by a 20 x 20 box;
- cropping an image to the bounding box of its opaque pixels;
- bottom flattening. The lowest opaque row inside a central band of columns
  becomes the bottom edge; everything below it turns transparent;
- placement on a transparent 1000 x 1000 canvas. The opaque extent is
  padded and scaled into 700 x 850, centred on column 500, with its top on
  row 350. The original converter also clamps the figure to 50-pixel side
  margins and to the canvas height;
- the white outline, made by repeated 3 x 3 dilation of the alpha mask on
  an enlarged canvas;
- parsing the analysis replies into an image type and a body extent;
- looking up and formatting the style prompt;
- the pipeline engine (fixed stage order, optional stages, the name to
  component registry);
- the quota-retry wrapper with exponential waits;
- the duplicate-version cleanup script.

Images are values `Image(mode, px)`. The pixel grid is a sequence of rows of
RGBA pixels. Operations that the code performs on a numpy array are
methods: they copy the grid into an `array2`, write it in place, and copy it
back. Each such method is proved equal to a specification function, and the
properties are lemmas about that function. PIL's `resize` and its
alpha-blended `paste` are function parameters. Their only assumptions are
stated as predicates: `ResizesTo` (for a size with both sides positive,
the output has that size and valid channels; Pillow refuses a zero side,
and the normalisers return that refusal as an error) and `ExactOnBinary` (pasting a pixel of alpha 0 leaves the
canvas alone; alpha 255 copies the source). The background remover and the
AI replies are parameters too.

One module per concept is shared by the three generations of the code:
`Raster`, `Bounds`, `Connectivity`, `Morphology`, `Background`, `Flatten`,
`Placement`, `Normalize`, `Outline`, `Text`, `Replies`, `Prompts`, `Retry`
and `Cleanup`. The modules `StyleConverter`, `Components`, `FineGrained`,
`ImageProcessor` and `Engine` follow the source files of the same names.

The comment on the flattening band at
backup_before_pipeline/style_converter_original.py:435 calls it the
centre third of the figure. The code uses `c - w // 3 .. c + w // 3`,
where `c` is the middle column and `w` the spread, so the band covers two
thirds. The model follows the code.

## Model

| member | source | states |
|---|---|---|
| Raster.ToRGBA | src/pipeline/components_fine_grained.py:468-470 | converting to RGBA keeps every pixel; only the mode becomes RGBA |
| Raster.AlphaMask | src/pipeline/components.py:230-231 | the opaque mask has the image's shape and is set exactly where alpha > 0 |
| Raster.AnyTrue | src/pipeline/components.py:233 | `np.any` holds exactly when some cell of the mask is set |
| Raster.MaskAnd | backup_before_pipeline/style_converter_original.py:340 | the cell-wise `&` of two masks of one shape |
| Raster.CountTruePositive | backup_before_pipeline/style_converter_original.py:341-344 | a mask with a set cell has a positive `np.sum` |
| Raster.CountTrueZero | backup_before_pipeline/style_converter_original.py:341-344 | a mask with no set cell sums to 0 |
| Raster.Load | backup_before_pipeline/style_converter_original.py:306 | `np.array(image)`: a fresh array with the grid's size and pixels |
| Raster.Store | backup_before_pipeline/style_converter_original.py:350 | `Image.fromarray`: a rectangular grid holding the array's pixels |
| Bounds.RowsAny | src/image_processor.py:53 | entry i is true exactly when row i has an opaque pixel |
| Bounds.ColsAny | src/image_processor.py:54 | entry j is true exactly when column j has an opaque pixel |
| Bounds.ArgMax | src/image_processor.py:59-62 | `np.argmax` of a boolean row: the first true index, or 0 when none is true |
| Bounds.EndOfTrue | src/image_processor.py:60-62 | `len - argmax(reversed)` is one past the last true entry |
| Bounds.LastTrueFromReverse | src/image_processor.py:60 | the first true entry of the reversed row is the last true entry of the row |
| Bounds.ContentBox | src/image_processor.py:56-62 | the box lies in the image, its four border lines each hold an opaque pixel, and it contains every opaque pixel |
| Bounds.Crop | src/image_processor.py:65 | `image.crop(box)` has the box's size and pixel p equals pixel p + (top, left) of the image |
| Bounds.CropKeepsOpaque | src/image_processor.py:52-65 | an opaque pixel is inside the box and keeps its value at its shifted place in the crop |
| Bounds.CropKeepsEveryOpaque | src/image_processor.py:52-65 | every opaque pixel survives the crop, unchanged, at its shifted place |
| Bounds.CropKeepsInside | src/image_processor.py:65 | any pixel inside the box is kept at its shifted place |
| Bounds.OpaqueStaysOpaque | src/image_processor.py:65 | an opaque pixel inside the box is opaque in the crop |
| Bounds.CropNeverGrows | src/image_processor.py:56-65 | the crop is never taller or wider than the image |
| Bounds.CropIsTight | src/image_processor.py:56-65 | the first and last row and column of the crop each hold an opaque pixel |
| Bounds.CropWhole | src/image_processor.py:65 | cropping to the whole image changes nothing |
| Bounds.TightBoxIsWhole | src/image_processor.py:56-62 | when the border lines already hold opaque pixels, the box is the whole image |
| Bounds.CropIdempotent | src/image_processor.py:56-65 | cropping to content twice is cropping once |
| Background.WhiteMask | backup_before_pipeline/style_converter_original.py:310-312 | set exactly where R, G and B all exceed the threshold |
| Background.PersonMask | backup_before_pipeline/style_converter_original.py:326 | set exactly where some channel is below 245 |
| Background.Protected | backup_before_pipeline/style_converter_original.py:329-332 | set exactly where a person pixel lies 9 rows/columns before to 10 after (the 20 x 20 dilation), empty without person pixels |
| Background.EdgeLabels | backup_before_pipeline/style_converter_original.py:318-323 | exactly the non-zero labels found on the first or last row or column |
| Background.RegionMask | backup_before_pipeline/style_converter_original.py:337 | `labeled == label`: set exactly where the pixel carries that label |
| Background.ComponentMask | backup_before_pipeline/style_converter_original.py:315 | set exactly on the pixels 4-connected to p within the mask |
| Background.RegionIsComponent | backup_before_pipeline/style_converter_original.py:315-337 | a label's region is exactly the connected component of any of its pixels |
| Background.EdgeLabelIffTouches | backup_before_pipeline/style_converter_original.py:318-323 | a white pixel's label is an edge label exactly when its component touches the border |
| Background.BackgroundByLabels | backup_before_pipeline/style_converter_original.py:336-345 | the label-based test of the code (edge label, overlap below 30 %) is exactly the component-based definition of background |
| Background.ClearBorderWhite | backup_before_pipeline/style_converter_original.py:299-350 | alpha becomes 0 on every background pixel, every other value is unchanged; equals `Cleared` |
| Background.Cleared | backup_before_pipeline/style_converter_original.py:336-348 | same shape; background pixels get alpha 0, all others are unchanged |
| Background.BackgroundIgnoresAlpha | backup_before_pipeline/style_converter_original.py:310-326 | whether a pixel is background depends on colours only, never on alpha |
| Background.ClearedKeepsColour | backup_before_pipeline/style_converter_original.py:348 | RGB is never touched; alpha stays or becomes 0 |
| Background.ClearedIdempotent | backup_before_pipeline/style_converter_original.py:299-350 | running the pass twice is running it once |
| Background.BackgroundWholeComponent | backup_before_pipeline/style_converter_original.py:336-345 | a white component is cleared as a whole or not at all |
| Background.BackgroundIsWhite | backup_before_pipeline/style_converter_original.py:310-345 | only near-white pixels are ever cleared |
| Background.NoPersonClearsBorderWhite | backup_before_pipeline/style_converter_original.py:329-345 | with no person pixel, every white component touching the border is cleared |
| Background.AllWhiteAllCleared | backup_before_pipeline/style_converter_original.py:310-345 | an image that is white everywhere becomes fully transparent |
| Connectivity.Label | backup_before_pipeline/style_converter_original.py:315 | `ndimage.label`: 0 off the mask, labels 1..count on it, two mask pixels share a label exactly when they are 4-connected |
| Connectivity.LabelIffConnected | backup_before_pipeline/style_converter_original.py:315 | in a labelling, equal labels are the same as connectedness |
| Connectivity.ConnectedSym | backup_before_pipeline/style_converter_original.py:315 | 4-connectedness is symmetric |
| Connectivity.ConnectedTrans | backup_before_pipeline/style_converter_original.py:315 | 4-connectedness is transitive |
| Morphology.BoxDilate | backup_before_pipeline/style_converter_original.py:330 | `binary_dilation` by a box: set exactly where a set cell lies within the box's reach |
| Morphology.DilateExtensive | backup_before_pipeline/style_converter_original.py:330 | dilation keeps every set cell |
| Morphology.DilateEmpty | backup_before_pipeline/style_converter_original.py:329-332 | dilating an empty mask gives an empty mask |
| Morphology.DilateRepeatSound | backup_before_pipeline/style_converter_original.py:387-388 | after k 3 x 3 dilations, a set cell is within k rows and k columns of an original one |
| Morphology.DilateRepeatComplete | backup_before_pipeline/style_converter_original.py:387-388 | every cell within k rows and k columns of a set cell is set after k dilations |
| Morphology.DilateRepeatReach | backup_before_pipeline/style_converter_original.py:387-388 | k 3 x 3 dilations are exactly one (2k+1) x (2k+1) dilation |
| Flatten.CentreBand | backup_before_pipeline/style_converter_original.py:432-435 | the band `c - w // 3 .. c + w // 3` is non-empty and inside the opaque columns |
| Flatten.LowestInBand | backup_before_pipeline/style_converter_original.py:438-440 | none exactly when the band holds no opaque pixel; else the lowest row with one |
| Flatten.OriginalBottom | backup_before_pipeline/style_converter_original.py:431-442 | the band's lowest opaque row, or the lowest opaque row when the band holds none |
| Flatten.PipelineBottom | src/pipeline/components.py:290-298 | defined only when the band holds an opaque pixel, and then equal to that row |
| Flatten.ClearedBelow | backup_before_pipeline/style_converter_original.py:446-447 | alpha 0 on every row below the bottom row, every other value unchanged |
| Flatten.ClearBelow | backup_before_pipeline/style_converter_original.py:446-447 | the in-place write equals `ClearedBelow` |
| Flatten.PipelineFlattened | src/pipeline/components.py:284-302 | unchanged when the band is empty, else cleared below the band's bottom row |
| Flatten.FlattenInBand | src/pipeline/components_fine_grained.py:444-456 | the in-place flattening equals `PipelineFlattened` |
| Flatten.ClearedKeepsColour | backup_before_pipeline/style_converter_original.py:447 | flattening never touches RGB; alpha stays or becomes 0 |
| Flatten.ClearedOpaque | backup_before_pipeline/style_converter_original.py:447 | a pixel is opaque afterwards exactly when it was opaque and not below the bottom row |
| Flatten.FlattenedBottomIsLowest | backup_before_pipeline/style_converter_original.py:440-447 | afterwards the lowest opaque row of the whole image is the chosen bottom row |
| Placement.Padding | src/pipeline/components.py:245-246 | `max(10, int(extent * 0.1))`: at least 10 and at least a tenth, and one of the two |
| Placement.OpaqueExtent | src/pipeline/components.py:237-239 | min/max opaque row and column: within the image, every opaque pixel inside, each bound reached |
| Placement.Padded | src/pipeline/components.py:247-250 | each side moved out by its padding and clamped to the image; the result contains the extent |
| Placement.Fit | src/pipeline/components.py:260-261 | `target / extent`, or 1 when the extent is 0 |
| Placement.MinRatio | src/pipeline/components.py:259-262 | `min` of two ratios: no larger than either and equal to one |
| Placement.Scale | src/pipeline/components.py:256-262 | the scale keeps the height within 700 and the width within 850 and meets one of them exactly |
| Placement.ScaledWithin | src/pipeline/components.py:265 | `int(d * scale)` stays within a target that `d * scale` stays within |
| Placement.ScaleFits | src/pipeline/components.py:256-265 | the scaled, truncated height is at most 700 and width at most 850 |
| Placement.PaddedFigureFits | src/pipeline/components.py:241-265 | the padded figure, scaled and truncated, is at most 700 x 850 |
| Placement.TruncHalf | src/pipeline/components.py:276-277 | halving truncated towards zero, as `int()` does, for either sign |
| Placement.CentreOffset | src/pipeline/components.py:276-277 | the opaque columns end up centred on column 500, within one pixel, and exactly for an even sum |
| Placement.ClampedX | backup_before_pipeline/style_converter_original.py:557-564 | the figure's right edge is at most 950; its left edge at least 50 when it fits between the margins; unchanged when already inside |
| Placement.ClampHorizontal | backup_before_pipeline/style_converter_original.py:557-564 | the two `if` adjustments compute `ClampedX` |
| Placement.ClampedY | backup_before_pipeline/style_converter_original.py:566-574 | the scaled image ends within the canvas, starts at 0 or below when it fits, and is at the head line when that fits |
| Placement.ClampVertical | backup_before_pipeline/style_converter_original.py:566-574 | the two `if` adjustments compute `ClampedY` |
| Placement.Blank | src/pipeline/components.py:266 | `Image.new("RGBA", size, (0,0,0,0))`: the size asked for, all transparent |
| Placement.Paste | src/pipeline/components.py:282 | the canvas's shape; blended where the shifted source covers the canvas, unchanged elsewhere |
| Placement.PasteExact | src/pipeline/components.py:282 | an opaque source pixel replaces the canvas pixel; a transparent one leaves it |
| Placement.PasteOpaqueOnBlank | src/pipeline/components.py:266-282 | on a blank canvas, a binary-alpha source is opaque exactly where it was |
| Normalize.Scaled | src/pipeline/components.py:265 | for a scaled size with both sides positive, the resized image has exactly that truncated size |
| Normalize.ThinStripCollapses | src/pipeline/components.py:256-265 | a one-pixel-wide strip whose opaque pixels span more than 700 rows scales to width 0, the size the resize refuses |
| Normalize.CentredOffsets | src/pipeline/components.py:276-280 | the top opaque row lands on row 350; the opaque columns centre on 500 within a pixel |
| Normalize.PipelinePlaced | src/pipeline/components.py:224-282 | the plain resize without opaque pixels; the ValueError exactly when the scaled size has a zero side; otherwise a 1000 x 1000 canvas, all transparent when scaling lost every opaque pixel |
| Normalize.OpaqueFromSource | src/pipeline/components.py:282 | an opaque pixel of the pasted canvas comes from an opaque source pixel |
| Normalize.PastedWithinExtent | src/pipeline/components.py:270-282 | every opaque canvas pixel lies in the source's opaque extent shifted by the offsets |
| Normalize.PipelineFigurePlacement | src/pipeline/components.py:270-282 | no opaque pixel above row 350; every opaque pixel within the centred columns |
| Outline.Framed | backup_before_pipeline/style_converter_original.py:370-378 | a canvas 2k larger each way; the image pasted at (k, k) on transparency |
| Outline.Outlined | backup_before_pipeline/style_converter_original.py:384-399 | opaque white where the k-fold dilated alpha is set and alpha is 0; every other pixel unchanged |
| Outline.AddWhiteOutline | backup_before_pipeline/style_converter_original.py:352-401 | the method's result equals `Outlined(Framed(image, k), k)` in RGBA mode: the boolean outline mask for every k; k = 0 as written is `OutlineAsWritten` (see Findings) |
| Outline.OutlineIsDilation | backup_before_pipeline/style_converter_original.py:386-399 | the opaque pixels afterwards are exactly those within k of an opaque pixel |
| Outline.OutlineKeepsFigure | backup_before_pipeline/style_converter_original.py:390-399 | opaque pixels are unchanged; any other pixel is unchanged or opaque white |
| Outline.OutlineZeroIsIdentity | backup_before_pipeline/style_converter_original.py:387-399 | with the boolean mask the code intends, width 0 changes nothing |
| Outline.FramedKeepsOpaque | backup_before_pipeline/style_converter_original.py:375-378 | an opaque pixel keeps its value at offset (k, k) |
| Outline.OutlineAsWritten | backup_before_pipeline/style_converter_original.py:384-399 | as written: for k > 0 the outline; for k = 0 pixels (0,0)..(0,3) turn opaque white, or IndexError below four columns |
| Outline.ZeroWidthWhitensCorner | backup_before_pipeline/style_converter_original.py:387-399 | on a transparent 1 x 4 image, width 0 as written whitens pixel (0,0) while the intended outline leaves it transparent |
| Text.Upper | src/pipeline/components_fine_grained.py:49 | `.upper()` on ASCII: same length, each letter a..z raised, every other character kept |
| Text.UpperIdempotent | src/pipeline/components_fine_grained.py:49 | upper-casing twice is upper-casing once |
| Text.ContainsWithin | src/pipeline/components_fine_grained.py:50 | a substring stays a substring with text around it |
| Text.ShortNeverContains | src/pipeline/components_fine_grained.py:50 | a text shorter than a keyword never contains it |
| Replies.TypeFromReply | src/pipeline/components_fine_grained.py:49-50 | illustration exactly when the upper-cased reply contains ILLUSTRATION |
| Replies.ExtentFromReply | src/pipeline/components_fine_grained.py:80-88 | HEAD_ONLY before HEAD_NECK before HEAD_CHEST, full body otherwise, each as an if-and-only-if |
| Replies.ParseIgnoresCase | src/pipeline/components_fine_grained.py:80 | parsing an upper-cased reply gives the same answers |
| Replies.KeywordInContext | src/pipeline/components_fine_grained.py:49-88 | a keyword in any lower-case context is found |
| Replies.ShortReplyIsFullBodyPhoto | src/pipeline/components_fine_grained.py:49-88 | a reply shorter than every keyword means a full-body photo |
| Replies.NamesAreDistinct | src/pipeline/components_fine_grained.py:82-88 | the context strings of different extents or types differ |
| Prompts.Lookup | src/prompts.py:173 | `dict.get(key, d[fallback])`: the key's entry, else the fallback's |
| Prompts.FormatBraceFreePrefix | src/prompts.py:174 | `str.format` copies a brace-free prefix as it is |
| Prompts.FormatOneField | src/prompts.py:174 | a template with one field and no other brace formats to head + value + tail |
| Prompts.TemplateFormats | src/prompts.py:50-174 | the template formats without error, to head + instruction + tail |
| Prompts.GetStylePrompt | src/prompts.py:163-174 | the template around the extent's instruction, the full-body one for an unknown extent |
| Prompts.UnknownExtentIsFullBody | src/prompts.py:173 | an unknown extent gives exactly the full-body prompt |
| Prompts.HeadOnlyIsHeadNeck | src/prompts.py:23-37 | "head_only" and "head_neck" give the same prompt |
| Prompts.PromptDeterminesInstruction | src/prompts.py:173-174 | equal prompts come from equal instructions |
| Retry.RetryOnQuotaError | src/utils.py:20-36 | at most max_retries calls; the first success is returned at once; a non-quota error is re-raised at once; otherwise gives up after max_retries quota failures; the i-th wait is base_delay * 2^i and there is one per quota failure |
| Retry.WaitsDouble | src/utils.py:30 | each wait is twice the one before |
| Cleanup.SuffixVersion | cleanup_duplicates.py:21-32 | ".png" is version 0 and "_fixed.png" version 999 |
| Cleanup.ParseName | cleanup_duplicates.py:21-24 | the lazy regex: the shortest non-empty base whose remainder is a version suffix; none exactly when no split works |
| Cleanup.FirstSeen | cleanup_duplicates.py:14-34 | the bases in order of first appearance, none twice |
| Cleanup.FindDuplicates | cleanup_duplicates.py:12-36 | the keys are exactly the bases seen, in first-seen order, each mapped to its files' entries in file order |
| Cleanup.FirstSeenHasBase | cleanup_duplicates.py:34 | a base is a key exactly when some file parses to it |
| Cleanup.FileInItsGroup | cleanup_duplicates.py:21-34 | every parsable file is in its base's group |
| Cleanup.SortDesc | cleanup_duplicates.py:48 | the sort is a permutation |
| Cleanup.SortDescending | cleanup_duplicates.py:48 | the sort orders versions from highest to lowest |
| Cleanup.SortHeadIsFirstMax | cleanup_duplicates.py:48-49 | the stable sort puts first the first entry of highest version |
| Cleanup.FirstMax | cleanup_duplicates.py:48-49 | the entry kept has the highest version, and no earlier entry has it |
| Cleanup.KeepNewest | cleanup_duplicates.py:46-49 | the kept file is the first of highest version, no other entry is newer |
| Cleanup.DeleteTheRest | cleanup_duplicates.py:52 | the kept entry plus the deleted ones are exactly the group |
| Cleanup.CountOk | cleanup_duplicates.py:53-58 | successful deletions never exceed attempts |
| Cleanup.CountOkAppend | cleanup_duplicates.py:53-58 | one more attempt adds one exactly when that unlink succeeds |
| Cleanup.GroupsStep | cleanup_duplicates.py:45-61 | each group with more than one file adds its older files to the targets and its newest to the kept files |
| Cleanup.DeleteAll | cleanup_duplicates.py:52-58 | the inner loop appends the group's older files and counts the successful unlinks |
| Cleanup.CleanupDuplicates | cleanup_duplicates.py:38-61 | targets and kept files are those of every group in first-seen order; deleted_count counts successful unlinks; kept_count counts groups with duplicates |
| StyleConverter.AnalyzeImage | backup_before_pipeline/style_converter_original.py:107-168 | a failed call gives photo / full body; otherwise the type and the extent are each read from the reply |
| StyleConverter.AnalysisIndependent | backup_before_pipeline/style_converter_original.py:148-162 | the type and the extent are read independently |
| StyleConverter.MakeWhiteTransparent | backup_before_pipeline/style_converter_original.py:299-350 | RGBA, and alpha 0 exactly on the background pixels for the given threshold |
| StyleConverter.CropHorizontalBottom | backup_before_pipeline/style_converter_original.py:403-449 | unchanged without opaque pixels; else cleared below the band's bottom row, or the lowest opaque row when the band is empty |
| StyleConverter.HorizontalBottomIsFlat | backup_before_pipeline/style_converter_original.py:444-449 | afterwards the lowest opaque row is the chosen one and colours are unchanged |
| StyleConverter.PlacementExtent | backup_before_pipeline/style_converter_original.py:524-538 | the scaled opaque extent, or rows from 0 and columns 0..new_width when scaling lost every opaque pixel |
| StyleConverter.OriginalPlaced | backup_before_pipeline/style_converter_original.py:450-579 | the plain resize without opaque pixels; the ValueError exactly when the scaled size has a zero side; otherwise a 1000 x 1000 canvas |
| StyleConverter.NormalizeSizeAndPosition | backup_before_pipeline/style_converter_original.py:450-579 | the method's result is `OriginalPlaced`, the canvas in RGBA mode or the same error |
| StyleConverter.OriginalFigurePlacement | backup_before_pipeline/style_converter_original.py:557-577 | every opaque pixel is at most at column 950, at least at 50 when the figure fits the margins, at or below row 350 when the image fits below the head line |
| Components.AnalysisPhotosOnly | src/pipeline/components.py:26-81 | the type from the first reply; an illustration is head to chest; a photo's extent comes from the second reply |
| Components.IllustrationAsksOnce | src/pipeline/components.py:57-59 | for an illustration the second reply plays no part |
| Components.FastAnalysis | src/pipeline/components.py:84-86 | always a head-to-chest photo |
| Components.RembgPreprocess | src/pipeline/components.py:93-117 | for a photo the removed image cropped to content (never larger, every opaque pixel kept); otherwise only RGBA |
| Components.NoPreprocess | src/pipeline/components.py:120-122 | only the conversion to RGBA |
| Components.TransparentBackground | src/pipeline/components.py:177-212 | the border-white pass with threshold 240 |
| Components.KeepWhiteBackground | src/pipeline/components.py:215-217 | the image unchanged |
| Components.Normalize1000 | src/pipeline/components.py:224-304 | the plain resize without opaque pixels; the resize's ValueError when the scaled size has a zero side; else the centred placement, flattened for photos |
| Components.FlattenOnlyClears | src/pipeline/components.py:284-302 | flattening the canvas keeps colours and only removes opacity |
| Components.KeepOriginalSize | src/pipeline/components.py:307-309 | the image unchanged |
| FineGrained.DetectImageType | src/pipeline/components_fine_grained.py:28-52 | illustration exactly when the reply says so |
| FineGrained.DetectBodyExtent | src/pipeline/components_fine_grained.py:55-90 | head to chest for an illustration without asking; otherwise the reply's extent |
| FineGrained.MissingTypeAsks | src/pipeline/components_fine_grained.py:58 | a context without an image type is treated like a photo |
| FineGrained.RembgRemoveBackground | src/pipeline/components_fine_grained.py:97-110 | for a photo the removed image; otherwise only RGBA |
| FineGrained.CropToContent | src/pipeline/components_fine_grained.py:113-129 | non-RGBA or no opaque pixel: unchanged; else the crop, every opaque pixel kept |
| FineGrained.CropToContentIdempotent | src/pipeline/components_fine_grained.py:113-129 | cropping to content twice is cropping once |
| FineGrained.GenerateBodyInstruction | src/pipeline/components_fine_grained.py:147-154 | the extent's instruction; head to chest when the extent is missing or unknown |
| FineGrained.BuildFullPrompt | src/pipeline/components_fine_grained.py:157-161 | the style prompt of the extent; of head to chest when the extent is missing |
| FineGrained.UnknownExtentFallbacks | src/pipeline/components_fine_grained.py:147-161 | for an unknown extent the instruction falls back to head to chest but the prompt to full body |
| FineGrained.DetectWhiteBackground | src/pipeline/components_fine_grained.py:252-270 | a labelling of the pixels above 240, and the border labels: a white pixel's label is among them exactly when its component touches the border |
| FineGrained.MakeWhiteTransparent | src/pipeline/components_fine_grained.py:273-308 | the border-white pass with threshold 240 |
| FineGrained.KeepBackground | src/pipeline/components_fine_grained.py:311-313 | the image unchanged |
| FineGrained.CalculateNormalization | src/pipeline/components_fine_grained.py:320-366 | unpositioned exactly when nothing is opaque; else the figure's scale |
| FineGrained.NormalizationFits | src/pipeline/components_fine_grained.py:337-360 | the reported scale brings the padded figure within 700 x 850 |
| FineGrained.ResizeAndPosition | src/pipeline/components_fine_grained.py:369-429 | the resize's ValueError exactly when the scaled size has a zero side; otherwise an RGBA 1000 x 1000 canvas, the pipeline placement |
| FineGrained.CropBottomEdge | src/pipeline/components_fine_grained.py:432-456 | unchanged unless an RGBA photo; then flattened at the band's bottom row |
| FineGrained.NoPostprocess | src/pipeline/components_fine_grained.py:459-461 | the image unchanged |
| FineGrained.ConvertToRgba | src/pipeline/components_fine_grained.py:468-470 | the pixels unchanged, in RGBA mode |
| ImageProcessor.CropToFlatBottom | src/image_processor.py:33-65 | RGBA; unchanged without opaque pixels; never larger; every opaque pixel kept; already tight |
| ImageProcessor.ProcessImage | src/image_processor.py:67-89 | a real photo: background removed, then cropped; any other: only RGBA, same pixels |
| ImageProcessor.ReprocessWithIdentityRemover | src/image_processor.py:78-82 | cropping the processed photo again changes nothing, when the remover hands back its input unchanged |
| Engine.Ctx | src/pipeline/engine.py:24-30 | the context is empty without analysis, else the analysis of the original image |
| Engine.Selected | src/pipeline/engine.py:27-45 | only stages the configuration holds are run |
| Engine.RunPipeline | src/pipeline/engine.py:7-47 | the method's result is `Run`: present stages in the fixed order, each given the analysis of the input |
| Engine.RunUnfolded | src/pipeline/engine.py:24-47 | the result is preprocess, style, background, postprocess applied in that order, each only when present |
| Engine.RunsInOrder | src/pipeline/engine.py:32-45 | exactly the present stages run, in the order of the stage list |
| Engine.SelectedHolds | src/pipeline/engine.py:32-45 | every present stage runs |
| Engine.RunAllStages | src/pipeline/engine.py:32-45 | with every stage present the result is their composition in order |
| Engine.NoStagesIsIdentity | src/pipeline/engine.py:24-47 | without stages the input is returned, whatever the analysis |
| Engine.SingleStage | src/pipeline/engine.py:24-45 | a lone stage sees the input image and its analysis |
| Engine.IdentityStageIsSkip | src/pipeline/engine.py:32-45 | a stage returning its image is the same as no stage |
| Engine.GetComponent | src/pipeline/engine.py:85-87 | the registered component; KeyError naming the category, else the name |
| Engine.BuildPipelineFromNames | src/pipeline/engine.py:90-106 | succeeds exactly when every picked entry resolves; keys are exactly the picked categories, each mapped to its component; else the KeyError of the first failing entry |
| Engine.NoneNeverPicked | src/pipeline/engine.py:63-104 | the registry's "none" preprocess component is never chosen by name |

## Left out

- Floating point. Padding, scale and offsets are exact rationals with `int()` truncation. `int(extent * 0.1)` is taken as `extent / 10`, `target / extent` as a ratio, and the centre `a + (b - a) / 2` as `(a + b) / 2`. Rounding differences of the floats are not modelled.
- PIL's LANCZOS resize and the alpha blend of `paste` are parameters. Only their output size for a size with both sides positive, valid channels and exactness at alpha 0 and 255 are assumed. Resampling itself is not modelled. A zero side is the resize's ValueError, which the normalisers return as `Normalize.ResizeError`.
- The target size 1000 x 1000 and head ratio 0.35 of `normalize_size_and_position` are fixed; other arguments are not modelled.
- The network: the AI calls, the OpenRouter gateway and `rembg` are out. Their replies and results are parameters (`reply`, `removed`). `prepare_image_for_api` is not part of this model.
- The style generators (`detailed_style_generate`, `ai_generate_style`, `apply_style`) and `prepare_for_ai` are out: they call the AI model or only composite for it. `Engine.ComponentId.DetailedStyle` names the registered generator without modelling it.
- `detect_white_background` also returns the raw array and labelling as context entries (`data`, `labeled`). Only the labelling and the border labels are modelled.
- A component's `context` is modelled by the entries it reads, as `Option<string>`. Components never write to the context, and stages run by `Engine.RunPipeline` all receive the analysis result unchanged.
- `Engine.Config`: a missing key and a `None` value are one case, "absent", since `run_pipeline` treats both alike.
- `Engine.BuildPipelineFromNames`: the input dictionary is given as its items in order, with distinct keys as a dictionary has.
- Text: `.upper()` is modelled for ASCII letters only, and `.strip()` is left out because no keyword contains whitespace. The prompt texts are short stand-ins that keep the template's single field and which extents share an instruction.
- `Components.TransparentBackground`, `FineGrained.MakeWhiteTransparent`, `FineGrained.DetectWhiteBackground` and `StyleConverter.MakeWhiteTransparent` require a non-empty image: the code indexes the first and last row and column and raises IndexError on an empty one.
- `Outline.AddWhiteOutline` takes a natural width: a negative `outline_width` is not modelled. An image of height 0 with width 0 is not distinguished from other empty images.
- `Connectivity.Label` is specified by what it returns (a labelling by 4-connected components), not by scipy's numbering order of labels.
- `Cleanup.CleanupDuplicates`: the directory walk (`rglob`) is replaced by the list of files it yields, `unlink` is a parameter that succeeds or fails, and printing is out.
- `Retry.RetryOnQuotaError`: sleeping is recorded as the list of waits, and the wrapped call is a function of the attempt number.
- `ImageProcessor.SourceKind` stands for the first-generation `ImageType` (REAL_PHOTO, PIXEL_ART) of src/gemini_client.py:10-13; the classifier itself is a network call and is out.

## Findings

| source | as written | input that shows it | evidently intended | confidence | as-written member | corrected member |
|---|---|---|---|---|---|---|
| backup_before_pipeline/style_converter_original.py:387-399 | with `outline_width = 0` the dilation loop never runs, so the outline mask is the uint8 alpha array ANDed with a boolean array; the writes `result_array[outline_mask, c] = 255` then index rows with integers and set the whole pixel (0, c) to 255 for c = 0..3, or raise IndexError on a canvas narrower than four columns | a transparent 1 x 4 image with outline width 0 | width 0 adds no outline and returns the image unchanged | not executed | Outline.ZeroWidthWhitensCorner | Outline.OutlineZeroIsIdentity |

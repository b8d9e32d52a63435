# Letterbox model of image-bg-extender

A Dafny model of the core of `image-bg-extender`. The tool letterboxes an
image to a target aspect ratio. It trims the pixels left over after dividing
each dimension by its ratio component. It samples one colour from each of two
opposite edge strips of the trimmed image. It paints a two-colour split
background on a canvas of exactly the target ratio. Finally it pastes the
trimmed image centred on that canvas. An image that already has the ratio
exactly is copied verbatim instead.

The model has four modules:

- `Raster` (`raster.dfy`): RGBA colours, pixel buffers (`Image`, rows of
  pixels), rectangles, and the buffer operations the pipeline calls. These are
  a new transparent buffer, an immutable crop, writing one pixel, and pasting
  one buffer onto another with its bounds check.
- `Dimensions` (`dimensions.dfy`): `div`, the per-axis multiplier and
  overflow, the "already exact" test, and the orientation rule.
- `Letterbox` (`letterbox.dfy`): the trim rectangle, the edge strips and
  their thickness, the canvas size, the split background (as a closed-form
  colour rule and as a method that paints it pixel by pixel in the source's
  loop order), and the centring offset.
- `Pipeline` (`pipeline.dfy`): the decisions inside `compile_image`. `PlanOf`
  gives the geometry of a job, and `CompileImage` runs the whole job on a
  decoded image.

The main facts proved:

- Every crop rectangle lies inside its buffer, and so does the pasted
  rectangle. The paste in `compile_image` is therefore never refused, and the
  result is never `GeometryError`.
- The trimmed image is exactly `ratioWidth * widthMultiplier` by
  `ratioHeight * heightMultiplier`.
- The canvas has exactly the target ratio and contains the trimmed image. It
  matches the image along the long axis, so only one axis gets bands.
- Every output pixel is either the source pixel it came from or the
  background colour.
- Running a job on its own output takes the copy path.

## Model

| member | source | states |
|---|---|---|
| `Dimensions.Div` | src/lib.rs:20-22 | for a positive modulus, quotient * modulus + remainder == base and remainder < modulus |
| `Dimensions.DivUnique` | src/lib.rs:20-22 | any split of base into q * modulus + rem with rem < modulus is the one `div` returns |
| `Dimensions.Reconcile` | src/lib.rs:124-127 | each dimension equals its ratio component times its multiplier plus an overflow smaller than the component |
| `Dimensions.ExactIffRatioMultiple` | src/lib.rs:128-129 | the no-overflow, equal-multiplier test holds exactly when the image is m ratio units on both axes for some m |
| `Dimensions.IsExact` | src/lib.rs:128-129 | the definition is the contract: no overflow on either axis and equal multipliers; `ExactIffRatioMultiple` characterises it as "the image is m ratio units on both axes" |
| `Dimensions.MultipleIsExact` | src/lib.rs:126-129 | an image of m ratio units on both axes reconciles to multiplier m on both axes with no overflow |
| `Dimensions.OrientationOf` | src/lib.rs:130-134 | the definition is the contract: Landscape exactly when the width multiplier is strictly larger, Portrait otherwise (ties included); `OrientationShape` characterises what each answer says about the image's shape |
| `Dimensions.OrientationShape` | src/lib.rs:130-134 | Landscape implies width * rh > height * rw; Portrait implies width * rh < height * rw + rw * rh; so a tie in multipliers can still be slightly wide |
| `Dimensions.PortraitWithoutTieIsTaller` | src/lib.rs:130-134 | a Portrait image whose multipliers differ is strictly taller than the ratio (width * rh < height * rw); with `TieIsPortrait`, the "taller than the desired aspect ratio" comment at src/lib.rs:46 fails only on ties |
| `Dimensions.TieIsPortrait` | src/lib.rs:129-134 | a 5x2 image at 2:1 has equal multipliers and an overflow, takes the compositing branch and is Portrait, although 5 * 1 > 2 * 2 shows it is wider, not taller, than the ratio (so the comment at src/lib.rs:46 does not hold on the tie) |
| `Letterbox.TrimRect` | src/lib.rs:55-66 | the crop lies inside the source, is the source minus the overflow, and its trailing margin equals the leading margin or exceeds it by one |
| `Letterbox.NormaliseImage` | src/lib.rs:55-66 | the trimmed buffer has the source size minus the overflow, and pixel (x, y) is source pixel (wo/2 + x, ho/2 + y) |
| `Letterbox.EdgeLength` | src/lib.rs:24-26 | the strip thickness is floor(length / 20), five percent rounded down, and never exceeds the length |
| `Letterbox.EdgeStrips` | src/lib.rs:37-50 | both strips lie inside the image; the first touches the top-left corner and the second the bottom-right; they are full-width rows (Landscape) or full-height columns (Portrait) of the given thickness |
| `Letterbox.EdgeStripsDisjoint` | src/lib.rs:40-50 | with the five-percent thickness the first strip ends before the second begins |
| `Letterbox.EdgeStripImages` | src/lib.rs:33-53 | the strip buffers are the top and bottom e rows (Landscape) or the left and right e columns (Portrait) of the image, pixel for pixel |
| `Letterbox.AggregateEdgeColors` | src/lib.rs:33-53 | the two colours are `sample` applied to the crops (0, 0, width, e) and (0, height - e, width, e) for Landscape, with e = EdgeLength(height), and to (0, 0, e, height) and (width - e, 0, e, height) for Portrait, with e = EdgeLength(width) |
| `Letterbox.EdgeColorsFromStrips` | src/lib.rs:33-53 | two images of the same size that agree on every pixel of the two edge strips get the same background colours, whatever their interiors hold |
| `Letterbox.CanvasDimensions` | src/lib.rs:68-84 | canvasWidth * rh == canvasHeight * rw |
| `Letterbox.CanvasContainsTrimmed` | src/lib.rs:68-84 | with the orientation the multipliers give, the canvas is at least the trimmed size on both axes and equal to it on the long axis |
| `Letterbox.PaintSplitBackground` | src/lib.rs:86-117 | painting a fresh canvas in the source's loop order writes every pixel; the result is the closed-form background; every pixel is one of the two colours; with distinct colours a pixel has the first colour iff y > height/2 (Landscape) or x < width/2 (Portrait) |
| `Letterbox.SplitColor` | src/lib.rs:94-116 | the definition is the contract: the first colour iff y > height/2 (Landscape) or x < width/2 (Portrait), the second otherwise; `PaintSplitBackground` proves the source's loops produce it |
| `Letterbox.SplitBackground` | src/lib.rs:86-117 | a canvas of the requested size whose pixel (x, y) has the colour of the split rule; `PaintSplitBackground` proves that the source's painting loops produce exactly this buffer |
| `Letterbox.Offset` | src/lib.rs:151-152 | when the image fits, offset + length <= canvas length and the trailing margin equals the leading one or exceeds it by one; otherwise the offset is 0 |
| `Raster.Blank` | src/lib.rs:147 | a new canvas has the requested size and every pixel is transparent |
| `Raster.Crop` | src/lib.rs:60-65 | a crop whose rectangle is inside the buffer has exactly the rectangle's size, and pixel (x, y) is buffer pixel (rect.x + x, rect.y + y) |
| `Raster.CropAgrees` | src/lib.rs:43-49 | a crop depends only on the pixels under its rectangle: two same-size buffers that agree there give the same crop |
| `Raster.PutPixel` | src/lib.rs:102 | the written pixel gets the colour and every other pixel is unchanged |
| `Raster.CopyFrom` | src/lib.rs:149-153 | the paste is refused iff the source would reach past the canvas; otherwise the source appears at the offset and the rest of the canvas is unchanged |
| `Pipeline.PlanOf` | src/lib.rs:124-153 | copy plan iff the image is exact; otherwise the trim lies inside the source and is a multiple of the ratio, the canvas is the ratio scaled by the long axis's multiplier, and the placed image lies inside the canvas |
| `Pipeline.PlanCentred` | src/lib.rs:139-153 | along the long axis the trimmed image fills the canvas (offset 0); along the other the trailing band equals the leading one or exceeds it by one |
| `Pipeline.CompileImage` | src/lib.rs:119-163 | the copy path is taken iff the image is exact; the paste never fails; a composited result has the planned canvas size and exactly the target ratio |
| `Pipeline.CompositeStages` | src/lib.rs:136-153 | a composited result is the plan's trim of the source pasted at the plan's offsets onto the background painted in the two sampled colours |
| `Pipeline.ComposedPixels` | src/lib.rs:146-153 | pasting a crop onto a split background yields, per pixel, the source pixel inside the pasted rectangle and the background colour outside it |
| `Pipeline.JobColors` | src/lib.rs:136-137 | the definition is the contract: `AggregateEdgeColors` of the `NormaliseImage` trim with the orientation `OrientationOf` gives; `CompositeContent` shows these colours fill the bands |
| `Pipeline.CompositeContent` | src/lib.rs:136-155 | every pixel of a composited result is either the original source pixel it came from, unclipped and unshifted, or the split-background colour |
| `Pipeline.CompileIdempotent` | src/lib.rs:126-129 | running a job again on its own composited output takes the copy path |
| `Pipeline.LandscapeBandsCrossed` | src/lib.rs:40-44 | in a Landscape result with bands, the top-left pixel has the colour sampled from the bottom strip and the bottom-left pixel the colour sampled from the top strip |
| `Pipeline.PortraitBandsSideConsistent` | src/lib.rs:47-49 | in a Portrait result with bands, the top-left pixel has the colour sampled from the left strip and the top-right pixel the colour sampled from the right strip |
| `Pipeline.WideScenario` | src/lib.rs:124-153 | 1000x400 at 2:1 is Landscape with nothing trimmed, a 1000x500 canvas and the image 50 pixels down |
| `Pipeline.NearSquareScenario` | src/lib.rs:124-153 | 101x100 at 1:1 is Landscape with a 101x101 canvas and offsets (0, 0), so nothing is clipped |
| `Pipeline.ShorterThanUnitScenario` | src/lib.rs:124-153 | 1x1 at 1:2 has height multiplier 0, so the trim keeps no rows and the 1x2 canvas holds only background |
| `Pipeline.UnreducedRatioScenario` | src/lib.rs:124-153 | 6x3 at 4:2 already has the shape 2:1 but is not a whole multiple of 4:2, so it is trimmed to its middle 4x2 on a 4x2 canvas |
| `Pipeline.ExactScenario` | src/lib.rs:126-129 | 1920x1080 at 16:9 takes the copy path |

## Notes on behaviour

- The canvas is sized by the larger multiplier. It therefore always contains
  the trimmed image, and the `saturating_sub` at src/lib.rs:151-152 never
  saturates. For example, a 101x100 image at ratio 1:1 gets a 101x101
  canvas, not a 100x100 one (`NearSquareScenario`).
- There is no minimum strip thickness. A trimmed image shorter than 20
  pixels along the sampled axis gives edge strips of thickness 0. The empty
  strips are passed to the colour reduction as they are.
- Equal multipliers with a leftover overflow give Portrait (src/lib.rs:130).
  `OrientationShape` shows that such an image can still be slightly wider
  than the ratio, by less than one ratio unit.
- In the Landscape branch the colour from the top strip paints the rows
  below the middle, and the colour from the bottom strip paints the rows
  above. The model keeps this crossing as written and states it in
  `LandscapeBandsCrossed`. The Portrait branch is side-consistent, as
  `PortraitBandsSideConsistent` states.
- An image shorter than one ratio unit on an axis has multiplier 0 there,
  so the trim keeps nothing on that axis and the output is background only.
  For example, a 1x1 image at ratio 1:2 gives an empty trim on a 1x2
  canvas (`ShorterThanUnitScenario`).
- The ratio is used as given, not reduced. An image that already has the
  shape of the ratio but is not a whole multiple of the given components is
  still trimmed. For example, a 6x3 image at ratio 4:2 becomes its middle
  4x2 (`UnreducedRatioScenario`).
- In the Landscape branch the middle row (y == height/2) takes the second
  colour. So the second colour covers height/2 + 1 rows and the first covers
  the rest. In the Portrait branch the first colour covers width/2 columns.

## Left out

- Image decoding, encoding and saving, and the verbatim file copy
  (src/lib.rs:122, 157, 159): these are I/O. `CompileImage` starts from a
  decoded `Image` and returns `CopyVerbatim` where the source copies the
  file. It returns `Composited` where the source saves the buffer.
- `src/main.rs`: the JSON job list, the loop over jobs, and the error
  classification by downcasting are glue. Only the geometric error of the
  paste is modelled (`GeometryError`), and it is proved unreachable.
- `average_color` (src/lib.rs:28-31): it resizes a strip to one pixel with
  the image library's nearest-neighbour filter. Which pixel that picks is not
  visible in the repository, so the reduction is the function parameter
  `sample`. `sample` is total: the model assumes the reduction returns a
  colour for every strip, including an empty one (thickness 0 when the
  sampled axis is shorter than 20 pixels). Whether the library's resize
  accepts an empty strip is not visible in the repository either.
- Letterbox.EdgeLength: `calculate_edge_length` computes
  `floor(length as f32 * 0.05)` in 32-bit floating point. The model uses the
  integer `length / 20` instead. The two agree for every length below
  16,777,219. At 16,777,219 the f32 computation gives 838,861 and
  `length / 20` gives 838,860, because that length is not representable in
  f32. The strip lemmas (`EdgeStrips`) hold for any thickness up to the
  length, so they do not depend on this choice.
- Machine integers: `u32` products such as `aspect_height * width_multiplier`
  (src/lib.rs:76) can wrap, and a zero ratio component divides by zero
  (src/lib.rs:21). Dimensions are unbounded `nat`s, and ratio components are
  required to be positive.
- Pixel formats: the decoded image's own pixel type and its conversion to
  RGBA when pasted are not modelled. Every buffer holds RGBA colours.
- `Raster.Crop` models `crop_imm`. Its clamping of an out-of-range
  rectangle to the buffer follows the image library, whose code is not in
  this repository. `Raster.Clamp` proves that clamping changes nothing for a
  rectangle already inside, and every rectangle the pipeline requests is
  proved inside, so the clamping never applies.
- `put_pixel` panics outside the buffer. `Raster.PutPixel` requires an
  in-bounds pixel instead, and every call in `PaintSplitBackground` is
  proved in bounds.

/** One image job end to end, with the image decoded and the output not yet
    written: either the image already has the ratio and is copied verbatim,
    or it is trimmed, given a two-colour background and centred on a canvas
    of exactly the ratio. */
module Pipeline {
  import opened Raster
  import opened Dimensions
  import opened Letterbox

  /** The geometry the pipeline settles on for a job before touching a pixel. */
  datatype Plan =
    | CopyPlan
    | ComposePlan(orientation: Orientation, trim: Rect,
                  canvasWidth: nat, canvasHeight: nat,
                  offsetX: nat, offsetY: nat)

  /** The plan for a width-by-height image at ratio ratioWidth:ratioHeight. */
  function PlanOf(width: nat, height: nat, ratioWidth: nat, ratioHeight: nat): (p: Plan)
    requires ratioWidth > 0 && ratioHeight > 0
    ensures p.CopyPlan? <==> IsExact(Reconcile(width, height, ratioWidth, ratioHeight))
    ensures p.ComposePlan? ==>
              var rec := Reconcile(width, height, ratioWidth, ratioHeight);
              // the trimmed image lies inside the source and is a whole number of ratio units
              && p.orientation == OrientationOf(rec)
              && Inside(p.trim, width, height)
              && p.trim.width == ratioWidth * rec.widthMultiplier
              && p.trim.height == ratioHeight * rec.heightMultiplier
              // the canvas has exactly the ratio, scaled by the long axis's multiplier
              && IsRatioMultiple(p.canvasWidth, p.canvasHeight, ratioWidth, ratioHeight,
                                 if p.orientation == Landscape then rec.widthMultiplier else rec.heightMultiplier)
              && p.canvasWidth * ratioHeight == p.canvasHeight * ratioWidth
              // the trimmed image, placed at the offsets, lies inside the canvas
              && Inside(Rect(p.offsetX, p.offsetY, p.trim.width, p.trim.height), p.canvasWidth, p.canvasHeight)
  {
    var rec := Reconcile(width, height, ratioWidth, ratioHeight);
    if IsExact(rec) then
      CopyPlan
    else
      var o := OrientationOf(rec);
      var trim := TrimRect(width, height, rec.widthOverflow, rec.heightOverflow);
      var multipliers := (rec.widthMultiplier, rec.heightMultiplier);
      var canvas := CanvasDimensions((ratioWidth, ratioHeight), multipliers, o);
      CanvasContainsTrimmed((ratioWidth, ratioHeight), multipliers, o);
      assert trim.width == ratioWidth * rec.widthMultiplier && trim.height == ratioHeight * rec.heightMultiplier;
      ComposePlan(o, trim, canvas.0, canvas.1, Offset(canvas.0, trim.width), Offset(canvas.1, trim.height))
  }

  /** The placement is centred and letterboxes one axis only: along the
      long axis the trimmed image fills the canvas, and along the other the
      margin after it is the margin before it or one pixel more. */
  lemma PlanCentred(width: nat, height: nat, ratioWidth: nat, ratioHeight: nat)
    requires ratioWidth > 0 && ratioHeight > 0
    ensures var p := PlanOf(width, height, ratioWidth, ratioHeight);
            p.ComposePlan? ==>
              && (p.orientation == Landscape ==> p.offsetX == 0 && p.trim.width == p.canvasWidth)
              && (p.orientation == Portrait ==> p.offsetY == 0 && p.trim.height == p.canvasHeight)
              && p.offsetX <= p.canvasWidth - p.trim.width - p.offsetX <= p.offsetX + 1
              && p.offsetY <= p.canvasHeight - p.trim.height - p.offsetY <= p.offsetY + 1
  {
    var p := PlanOf(width, height, ratioWidth, ratioHeight);
    if p.ComposePlan? {
      var rec := Reconcile(width, height, ratioWidth, ratioHeight);
      CanvasContainsTrimmed((ratioWidth, ratioHeight), (rec.widthMultiplier, rec.heightMultiplier), p.orientation);
    }
  }

  /** What one job produces. GeometryError is the paste onto the canvas
      being refused because the trimmed image does not fit. */
  datatype Outcome = CopyVerbatim | Composited(image: Image) | GeometryError

  /** The background colours of a composited job: the two edge strips of
      the trimmed image, each reduced by `sample`. */
  function JobColors(img: Image, ratioWidth: nat, ratioHeight: nat, sample: Image -> Color): (Color, Color)
    requires img.Valid() && ratioWidth > 0 && ratioHeight > 0
    requires !IsExact(Reconcile(img.width, img.height, ratioWidth, ratioHeight))
  {
    var rec := Reconcile(img.width, img.height, ratioWidth, ratioHeight);
    var p := PlanOf(img.width, img.height, ratioWidth, ratioHeight);
    AggregateEdgeColors(NormaliseImage(img, rec.widthOverflow, rec.heightOverflow), p.orientation, sample)
  }

  /** The whole job on a decoded image: `sample` reduces an edge strip to
      its representative colour. The paste onto the canvas is never refused,
      and a composited result has the canvas size of the plan and exactly
      the target ratio. */
  function CompileImage(img: Image, ratioWidth: nat, ratioHeight: nat, sample: Image -> Color): (r: Outcome)
    requires img.Valid() && ratioWidth > 0 && ratioHeight > 0
    ensures r.CopyVerbatim? <==> IsExact(Reconcile(img.width, img.height, ratioWidth, ratioHeight))
    ensures !r.GeometryError?
    ensures r.Composited? ==>
              var p := PlanOf(img.width, img.height, ratioWidth, ratioHeight);
              && p.ComposePlan?
              && r.image.Valid()
              && r.image.width == p.canvasWidth && r.image.height == p.canvasHeight
              && r.image.width * ratioHeight == r.image.height * ratioWidth
  {
    var rec := Reconcile(img.width, img.height, ratioWidth, ratioHeight);
    if IsExact(rec) then
      CopyVerbatim
    else
      var p := PlanOf(img.width, img.height, ratioWidth, ratioHeight);
      var trimmed := NormaliseImage(img, rec.widthOverflow, rec.heightOverflow);
      var colors := JobColors(img, ratioWidth, ratioHeight, sample);
      var background := SplitBackground(p.canvasWidth, p.canvasHeight, colors.0, colors.1, p.orientation);
      match CopyFrom(background, trimmed, Offset(p.canvasWidth, trimmed.width), Offset(p.canvasHeight, trimmed.height))
      case Copied(out) => Composited(out)
      case DimensionMismatch => GeometryError
  }

  /** The colour of pixel (x, y) of a width-by-height canvas onto which the
      part of `img` under `trim` was pasted at (ox, oy): inside the pasted
      rectangle the `img` pixel it came from, outside it the background. */
  function ComposedColor(img: Image, trim: Rect, ox: nat, oy: nat, width: nat, height: nat,
                         first: Color, second: Color, o: Orientation, x: nat, y: nat): Color
    requires img.Valid() && Inside(trim, img.width, img.height)
  {
    if ox <= x < ox + trim.width && oy <= y < oy + trim.height
    then img.Pixel(trim.x + x - ox, trim.y + y - oy)
    else SplitColor(width, height, x, y, first, second, o)
  }

  /** Every pixel of a composited result: inside the placed rectangle, the
      source pixel the trimmed image took from the original (nothing is
      clipped and nothing is shifted); everywhere else, the two-colour
      background. */
  lemma CompositeContent(img: Image, ratioWidth: nat, ratioHeight: nat, sample: Image -> Color)
    requires img.Valid() && ratioWidth > 0 && ratioHeight > 0
    ensures var r := CompileImage(img, ratioWidth, ratioHeight, sample);
            r.Composited? ==>
              var p := PlanOf(img.width, img.height, ratioWidth, ratioHeight);
              var colors := JobColors(img, ratioWidth, ratioHeight, sample);
              forall x: nat, y: nat :: x < p.canvasWidth && y < p.canvasHeight ==>
                r.image.Pixel(x, y) == ComposedColor(img, p.trim, p.offsetX, p.offsetY, p.canvasWidth, p.canvasHeight,
                                                     colors.0, colors.1, p.orientation, x, y)
  {
    var r := CompileImage(img, ratioWidth, ratioHeight, sample);
    if r.Composited? {
      var p := PlanOf(img.width, img.height, ratioWidth, ratioHeight);
      var rec := Reconcile(img.width, img.height, ratioWidth, ratioHeight);
      var colors := JobColors(img, ratioWidth, ratioHeight, sample);
      CompositeStages(img, ratioWidth, ratioHeight, sample);
      ComposedPixels(img, p.trim, NormaliseImage(img, rec.widthOverflow, rec.heightOverflow),
                     p.canvasWidth, p.canvasHeight, colors.0, colors.1, p.orientation,
                     p.offsetX, p.offsetY, r.image);
    }
  }

  /** How a composited result is assembled from the plan: the trimmed image
      is the plan's trim rectangle cut from the source, and it is pasted at
      the plan's offsets onto the background painted in the job's colours. */
  lemma CompositeStages(img: Image, ratioWidth: nat, ratioHeight: nat, sample: Image -> Color)
    requires img.Valid() && ratioWidth > 0 && ratioHeight > 0
    ensures var r := CompileImage(img, ratioWidth, ratioHeight, sample);
            var p := PlanOf(img.width, img.height, ratioWidth, ratioHeight);
            var rec := Reconcile(img.width, img.height, ratioWidth, ratioHeight);
            r.Composited? ==>
              var trimmed := NormaliseImage(img, rec.widthOverflow, rec.heightOverflow);
              var colors := JobColors(img, ratioWidth, ratioHeight, sample);
              && p.trim == TrimRect(img.width, img.height, rec.widthOverflow, rec.heightOverflow)
              && CopyFrom(SplitBackground(p.canvasWidth, p.canvasHeight, colors.0, colors.1, p.orientation),
                          trimmed, p.offsetX, p.offsetY) == Copied(r.image)
  {
  }

  /** The composite of a trimmed image `src` cut from `img` at `trim`, pasted
      at (ox, oy) onto a two-colour background: each pixel is the `img`
      pixel it came from inside the pasted rectangle and the background
      colour outside it. */
  lemma ComposedPixels(img: Image, trim: Rect, src: Image,
                       width: nat, height: nat, first: Color, second: Color, o: Orientation,
                       ox: nat, oy: nat, out: Image)
    requires img.Valid() && Inside(trim, img.width, img.height) && src == Crop(img, trim)
    requires CopyFrom(SplitBackground(width, height, first, second, o), src, ox, oy) == Copied(out)
    ensures forall x: nat, y: nat :: x < width && y < height ==>
              out.Pixel(x, y) == ComposedColor(img, trim, ox, oy, width, height, first, second, o, x, y)
  {
    var background := SplitBackground(width, height, first, second, o);
    assert Clamp(trim, img.width, img.height) == trim;
    PlacedPixels(img, trim.x, trim.y, src, background, ox, oy, out);
  }

  /** Pasting a crop of `img` taken at (tx, ty): inside the pasted rectangle
      each pixel is the `img` pixel it was cropped from, outside it the
      canvas is untouched. */
  lemma PlacedPixels(img: Image, tx: nat, ty: nat, src: Image, canvas: Image, ox: nat, oy: nat, out: Image)
    requires img.Valid() && src.Valid() && canvas.Valid()
    requires tx + src.width <= img.width && ty + src.height <= img.height
    requires forall x: nat, y: nat :: x < src.width && y < src.height ==> src.Pixel(x, y) == img.Pixel(tx + x, ty + y)
    requires CopyFrom(canvas, src, ox, oy) == Copied(out)
    ensures forall x: nat, y: nat :: x < canvas.width && y < canvas.height ==>
              out.Pixel(x, y) ==
                if ox <= x < ox + src.width && oy <= y < oy + src.height
                then img.Pixel(tx + x - ox, ty + y - oy)
                else canvas.Pixel(x, y)
  {
    PastedPixels(canvas, src, ox, oy, out);
    forall x: nat, y: nat | x < canvas.width && y < canvas.height && ox <= x < ox + src.width && oy <= y < oy + src.height
      ensures out.Pixel(x, y) == img.Pixel(tx + x - ox, ty + y - oy)
    {
      var i: nat, j: nat := x - ox, y - oy;
      assert out.Pixel(x, y) == src.Pixel(i, j);
    }
  }

  /** A successful paste, pixel by pixel in canvas coordinates. */
  lemma PastedPixels(canvas: Image, src: Image, ox: nat, oy: nat, out: Image)
    requires canvas.Valid() && src.Valid() && CopyFrom(canvas, src, ox, oy) == Copied(out)
    ensures forall x: nat, y: nat :: x < canvas.width && y < canvas.height ==>
              out.Pixel(x, y) ==
                if ox <= x < ox + src.width && oy <= y < oy + src.height
                then src.Pixel(x - ox, y - oy)
                else canvas.Pixel(x, y)
  {
    forall x: nat, y: nat | x < canvas.width && y < canvas.height && ox <= x < ox + src.width && oy <= y < oy + src.height
      ensures out.Pixel(x, y) == src.Pixel(x - ox, y - oy)
    {
      var i: nat, j: nat := x - ox, y - oy;
      assert out.Pixel(ox + i, oy + j) == src.Pixel(i, j);
    }
  }

  /** Running a job again on its own composited output takes the copy path:
      the output already has the ratio exactly. */
  lemma CompileIdempotent(img: Image, ratioWidth: nat, ratioHeight: nat, sample: Image -> Color, resample: Image -> Color)
    requires img.Valid() && ratioWidth > 0 && ratioHeight > 0
    ensures var r := CompileImage(img, ratioWidth, ratioHeight, sample);
            r.Composited? ==> CompileImage(r.image, ratioWidth, ratioHeight, resample).CopyVerbatim?
  {
    var r := CompileImage(img, ratioWidth, ratioHeight, sample);
    if r.Composited? {
      var p := PlanOf(img.width, img.height, ratioWidth, ratioHeight);
      var rec := Reconcile(img.width, img.height, ratioWidth, ratioHeight);
      var m := if p.orientation == Landscape then rec.widthMultiplier else rec.heightMultiplier;
      MultipleIsExact(m, ratioWidth, ratioHeight);
    }
  }

  /** In a Landscape result the colours are crossed over: a band above the
      image is painted with the colour sampled from the bottom strip, and a
      band below it with the colour sampled from the top strip. */
  lemma LandscapeBandsCrossed(img: Image, ratioWidth: nat, ratioHeight: nat, sample: Image -> Color)
    requires img.Valid() && ratioWidth > 0 && ratioHeight > 0
    ensures var r := CompileImage(img, ratioWidth, ratioHeight, sample);
            var p := PlanOf(img.width, img.height, ratioWidth, ratioHeight);
            r.Composited? && p.orientation == Landscape && p.offsetY > 0 ==>
              r.image.Valid() && 0 < r.image.width && 2 <= r.image.height
    ensures var r := CompileImage(img, ratioWidth, ratioHeight, sample);
            var p := PlanOf(img.width, img.height, ratioWidth, ratioHeight);
            var rec := Reconcile(img.width, img.height, ratioWidth, ratioHeight);
            var strips := EdgeStripImages(NormaliseImage(img, rec.widthOverflow, rec.heightOverflow), Landscape);
            r.Composited? && p.orientation == Landscape && p.offsetY > 0 ==>
              && r.image.Pixel(0, 0) == sample(strips.1)
              && r.image.Pixel(0, r.image.height - 1) == sample(strips.0)
  {
    var r := CompileImage(img, ratioWidth, ratioHeight, sample);
    var p := PlanOf(img.width, img.height, ratioWidth, ratioHeight);
    if r.Composited? && p.orientation == Landscape && p.offsetY > 0 {
      PlanCentred(img.width, img.height, ratioWidth, ratioHeight);
      CompositeContent(img, ratioWidth, ratioHeight, sample);
      var colors := JobColors(img, ratioWidth, ratioHeight, sample);
      assert r.image.Pixel(0, 0) == SplitColor(p.canvasWidth, p.canvasHeight, 0, 0, colors.0, colors.1, Landscape);
      var bottom := p.canvasHeight - 1;
      assert bottom >= p.offsetY + p.trim.height;
      assert r.image.Pixel(0, bottom) == SplitColor(p.canvasWidth, p.canvasHeight, 0, bottom, colors.0, colors.1, Landscape);
    }
  }

  /** In a Portrait result the colours keep their sides: a band left of the
      image is painted with the colour sampled from the left strip, and a band
      right of it with the colour sampled from the right strip. */
  lemma PortraitBandsSideConsistent(img: Image, ratioWidth: nat, ratioHeight: nat, sample: Image -> Color)
    requires img.Valid() && ratioWidth > 0 && ratioHeight > 0
    ensures var r := CompileImage(img, ratioWidth, ratioHeight, sample);
            var p := PlanOf(img.width, img.height, ratioWidth, ratioHeight);
            r.Composited? && p.orientation == Portrait && p.offsetX > 0 ==>
              r.image.Valid() && 2 <= r.image.width && 0 < r.image.height
    ensures var r := CompileImage(img, ratioWidth, ratioHeight, sample);
            var p := PlanOf(img.width, img.height, ratioWidth, ratioHeight);
            var rec := Reconcile(img.width, img.height, ratioWidth, ratioHeight);
            var strips := EdgeStripImages(NormaliseImage(img, rec.widthOverflow, rec.heightOverflow), Portrait);
            r.Composited? && p.orientation == Portrait && p.offsetX > 0 ==>
              && r.image.Pixel(0, 0) == sample(strips.0)
              && r.image.Pixel(r.image.width - 1, 0) == sample(strips.1)
  {
    var r := CompileImage(img, ratioWidth, ratioHeight, sample);
    var p := PlanOf(img.width, img.height, ratioWidth, ratioHeight);
    if r.Composited? && p.orientation == Portrait && p.offsetX > 0 {
      PlanCentred(img.width, img.height, ratioWidth, ratioHeight);
      CompositeContent(img, ratioWidth, ratioHeight, sample);
      var colors := JobColors(img, ratioWidth, ratioHeight, sample);
      assert r.image.Pixel(0, 0) == SplitColor(p.canvasWidth, p.canvasHeight, 0, 0, colors.0, colors.1, Portrait);
      var right := p.canvasWidth - 1;
      assert right >= p.offsetX + p.trim.width;
      assert r.image.Pixel(right, 0) == SplitColor(p.canvasWidth, p.canvasHeight, right, 0, colors.0, colors.1, Portrait);
    }
  }

  /** A 1000x400 image at ratio 2:1: no overflow, multipliers 500 and 400,
      Landscape; nothing is trimmed, the canvas is 1000x500 and the image sits
      50 pixels down, with 50-pixel bands above and below. */
  lemma WideScenario()
    ensures PlanOf(1000, 400, 2, 1) == ComposePlan(Landscape, Rect(0, 0, 1000, 400), 1000, 500, 0, 50)
  {
  }

  /** A 101x100 image at ratio 1:1: multipliers 101 and 100, Landscape; the
      canvas is sized by the width multiplier, so it is 101x101 and holds the
      whole image with offsets (0, 0) - nothing is clipped. */
  lemma NearSquareScenario()
    ensures PlanOf(101, 100, 1, 1) == ComposePlan(Landscape, Rect(0, 0, 101, 100), 101, 101, 0, 0)
  {
  }

  /** A 1x1 image at ratio 1:2 is less than one ratio unit tall: the trim
      keeps no rows at all, so the 1x2 canvas gets only background, the empty
      trimmed image being placed one pixel down. */
  lemma ShorterThanUnitScenario()
    ensures PlanOf(1, 1, 1, 2) == ComposePlan(Landscape, Rect(0, 0, 1, 0), 1, 2, 0, 1)
  {
  }

  /** A 6x3 image at ratio 4:2 already has the shape 2:1, but it is not a
      whole multiple of 4:2: multipliers 1 and 1 with overflows 2 and 1, so it
      is trimmed to its middle 4x2 and the 4x2 canvas has no bands. */
  lemma UnreducedRatioScenario()
    ensures PlanOf(6, 3, 4, 2) == ComposePlan(Portrait, Rect(1, 0, 4, 2), 4, 2, 0, 0)
  {
  }

  /** A 1920x1080 image at ratio 16:9 is 120 ratio units on both axes and is
      copied verbatim. */
  lemma ExactScenario()
    ensures PlanOf(1920, 1080, 16, 9) == CopyPlan
  {
  }
}

/** The stages of the letterbox pipeline after reconciliation: trimming the
    overflow, locating the two edge strips the background colours are sampled
    from, sizing the canvas, painting the two-colour background and centring
    the trimmed image on it. */
module Letterbox {
  import opened Raster
  import opened Dimensions

  /** The crop rectangle that removes the overflow: half of it (rounded
      down) from the leading edge, the rest from the trailing edge. */
  function TrimRect(width: nat, height: nat, widthOverflow: nat, heightOverflow: nat): (r: Rect)
    requires widthOverflow <= width && heightOverflow <= height
    ensures Inside(r, width, height)
    ensures r.width + widthOverflow == width && r.height + heightOverflow == height
    // the trailing margin is the leading one or one pixel more
    ensures r.x <= width - (r.x + r.width) <= r.x + 1
    ensures r.y <= height - (r.y + r.height) <= r.y + 1
  {
    Rect(widthOverflow / 2, heightOverflow / 2, width - widthOverflow, height - heightOverflow)
  }

  /** The image with the overflow trimmed away, as a new buffer. */
  function NormaliseImage(img: Image, widthOverflow: nat, heightOverflow: nat): (r: Image)
    requires img.Valid() && widthOverflow <= img.width && heightOverflow <= img.height
    ensures r.Valid()
    ensures r.width == img.width - widthOverflow && r.height == img.height - heightOverflow
    ensures forall x: nat, y: nat :: x < r.width && y < r.height ==>
              r.Pixel(x, y) == img.Pixel(widthOverflow / 2 + x, heightOverflow / 2 + y)
  {
    Crop(img, TrimRect(img.width, img.height, widthOverflow, heightOverflow))
  }

  /** Thickness of an edge strip: five percent of the length, rounded down. */
  function EdgeLength(length: nat): (e: nat)
    ensures e <= length
    ensures 20 * e <= length < 20 * e + 20
  {
    length / 20
  }

  /** The two strips the background colours are sampled from. */
  datatype Strips = Strips(first: Rect, second: Rect)

  /** Two strips of thickness `e` on opposite edges of a width-by-height
      image: the top and bottom rows for Landscape, the left and right
      columns for Portrait, each spanning the whole of the other axis. */
  function EdgeStrips(width: nat, height: nat, o: Orientation, e: nat): (s: Strips)
    requires e <= (if o == Landscape then height else width)
    ensures Inside(s.first, width, height) && Inside(s.second, width, height)
    // the first strip touches the top-left corner, the second the bottom-right one
    ensures s.first.x == 0 && s.first.y == 0
    ensures s.second.x + s.second.width == width && s.second.y + s.second.height == height
    ensures o == Landscape ==>
              && s.first.width == width && s.second.width == width
              && s.first.height == e && s.second.height == e
    ensures o == Portrait ==>
              && s.first.height == height && s.second.height == height
              && s.first.width == e && s.second.width == e
  {
    match o
    case Landscape => Strips(Rect(0, 0, width, e), Rect(0, height - e, width, e))
    case Portrait => Strips(Rect(0, 0, e, height), Rect(width - e, 0, e, height))
  }

  /** With the five-percent thickness the two strips never overlap: the
      first ends before the second begins. */
  lemma EdgeStripsDisjoint(width: nat, height: nat, o: Orientation)
    ensures var e := EdgeLength(if o == Landscape then height else width);
            var s := EdgeStrips(width, height, o, e);
            && (o == Landscape ==> s.first.y + s.first.height <= s.second.y)
            && (o == Portrait ==> s.first.x + s.first.width <= s.second.x)
  {
  }

  /** The two edge strips cut out of `img` as buffers of their own. */
  function EdgeStripImages(img: Image, o: Orientation): (p: (Image, Image))
    requires img.Valid()
    ensures p.0.Valid() && p.1.Valid()
    ensures o == Landscape ==>
              var e := EdgeLength(img.height);
              && p.0.width == img.width && p.0.height == e
              && p.1.width == img.width && p.1.height == e
              && (forall x: nat, y: nat :: x < img.width && y < e ==> p.0.Pixel(x, y) == img.Pixel(x, y))
              && (forall x: nat, y: nat :: x < img.width && y < e ==> p.1.Pixel(x, y) == img.Pixel(x, img.height - e + y))
    ensures o == Portrait ==>
              var e := EdgeLength(img.width);
              && p.0.width == e && p.0.height == img.height
              && p.1.width == e && p.1.height == img.height
              && (forall x: nat, y: nat :: x < e && y < img.height ==> p.0.Pixel(x, y) == img.Pixel(x, y))
              && (forall x: nat, y: nat :: x < e && y < img.height ==> p.1.Pixel(x, y) == img.Pixel(img.width - e + x, y))
  {
    var s := SampledStrips(img.width, img.height, o);
    (Crop(img, s.first), Crop(img, s.second))
  }

  /** The two background colours: each strip reduced to one colour by
      `sample`, which stands for the image library's one-pixel resize. */
  function AggregateEdgeColors(img: Image, o: Orientation, sample: Image -> Color): (c: (Color, Color))
    requires img.Valid()
    // Landscape samples the top and bottom rows, Portrait the left and right columns
    ensures o == Landscape ==>
              var e := EdgeLength(img.height);
              c == (sample(Crop(img, Rect(0, 0, img.width, e))), sample(Crop(img, Rect(0, img.height - e, img.width, e))))
    ensures o == Portrait ==>
              var e := EdgeLength(img.width);
              c == (sample(Crop(img, Rect(0, 0, e, img.height))), sample(Crop(img, Rect(img.width - e, 0, e, img.height))))
  {
    var strips := EdgeStripImages(img, o);
    (sample(strips.0), sample(strips.1))
  }

  /** The two strips of a width-by-height image at the five-percent thickness. */
  function SampledStrips(width: nat, height: nat, o: Orientation): Strips {
    EdgeStrips(width, height, o, EdgeLength(if o == Landscape then height else width))
  }

  /** Pixel (x, y) lies in one of the two sampled strips. */
  predicate InEdgeStrip(width: nat, height: nat, o: Orientation, x: nat, y: nat) {
    var s := SampledStrips(width, height, o);
    InRect(s.first, x, y) || InRect(s.second, x, y)
  }

  /** The background colours depend on the edge strips only: two images of
      the same size that agree on every strip pixel get the same colours,
      whatever their interiors hold. */
  lemma EdgeColorsFromStrips(a: Image, b: Image, o: Orientation, sample: Image -> Color)
    requires a.Valid() && b.Valid() && a.width == b.width && a.height == b.height
    ensures (forall x: nat, y: nat :: x < a.width && y < a.height && InEdgeStrip(a.width, a.height, o, x, y) ==>
               a.Pixel(x, y) == b.Pixel(x, y))
            ==> AggregateEdgeColors(a, o, sample) == AggregateEdgeColors(b, o, sample)
  {
    var s := SampledStrips(a.width, a.height, o);
    if forall x: nat, y: nat :: x < a.width && y < a.height && InEdgeStrip(a.width, a.height, o, x, y) ==>
         a.Pixel(x, y) == b.Pixel(x, y)
    {
      CropAgrees(a, b, s.first);
      CropAgrees(a, b, s.second);
    }
  }

  /** The canvas: the ratio scaled by the width multiplier for Landscape and
      by the height multiplier for Portrait. */
  function CanvasDimensions(ratio: (nat, nat), multipliers: (nat, nat), o: Orientation): (c: (nat, nat))
    ensures c.0 * ratio.1 == c.1 * ratio.0
  {
    var m := if o == Landscape then multipliers.0 else multipliers.1;
    (ratio.0 * m, ratio.1 * m)
  }

  /** When the orientation is the one the multipliers give, the canvas holds
      an image of `multipliers` ratio units on both axes, and matches it
      exactly along the axis the orientation names as the long one. */
  lemma CanvasContainsTrimmed(ratio: (nat, nat), multipliers: (nat, nat), o: Orientation)
    requires o == Landscape <==> multipliers.0 > multipliers.1
    ensures var c := CanvasDimensions(ratio, multipliers, o);
            && ratio.0 * multipliers.0 <= c.0
            && ratio.1 * multipliers.1 <= c.1
            && (o == Landscape ==> c.0 == ratio.0 * multipliers.0)
            && (o == Portrait ==> c.1 == ratio.1 * multipliers.1)
  {
    if o == Landscape {
      MulMonotone(multipliers.1, multipliers.0, ratio.1);
    } else {
      MulMonotone(multipliers.0, multipliers.1, ratio.0);
    }
  }

  /** The colour of background pixel (x, y): Landscape gives the first colour
      to the rows strictly below the middle row, Portrait gives it to the
      columns left of the middle. */
  function SplitColor(width: nat, height: nat, x: nat, y: nat, first: Color, second: Color, o: Orientation): Color {
    match o
    case Landscape => if y > height / 2 then first else second
    case Portrait => if x < width / 2 then first else second
  }

  /** The whole two-colour background. */
  function SplitBackground(width: nat, height: nat, first: Color, second: Color, o: Orientation): (r: Image)
    ensures r.Valid() && r.width == width && r.height == height
    ensures forall x: nat, y: nat :: x < width && y < height ==> r.Pixel(x, y) == SplitColor(width, height, x, y, first, second, o)
  {
    Image(width, height,
          seq(height, y requires 0 <= y < height =>
            seq(width, x requires 0 <= x < width => SplitColor(width, height, x, y, first, second, o))))
  }

  /** Paints a fresh transparent canvas pixel by pixel, row after row for
      Landscape and column after column for Portrait. Every pixel is written:
      each ends up holding one of the two colours, Landscape rows below the
      middle row and Portrait columns left of the middle taking the first. */
  method PaintSplitBackground(width: nat, height: nat, first: Color, second: Color, o: Orientation)
    returns (canvas: Image)
    ensures canvas == SplitBackground(width, height, first, second, o)
    ensures forall x: nat, y: nat :: x < width && y < height ==>
              canvas.Pixel(x, y) == first || canvas.Pixel(x, y) == second
    ensures first != second ==>
              forall x: nat, y: nat :: x < width && y < height ==>
                (canvas.Pixel(x, y) == first <==> (if o == Landscape then y > height / 2 else x < width / 2))
  {
    canvas := Blank(width, height);
    if o == Landscape {
      var y := 0;
      while y < height
        invariant y <= height
        invariant canvas.Valid() && canvas.width == width && canvas.height == height
        invariant forall i: nat, j: nat :: i < width && j < height ==>
                    canvas.Pixel(i, j) == if j < y then SplitColor(width, height, i, j, first, second, o) else Transparent
      {
        var color := if y > height / 2 then first else second;
        var x := 0;
        while x < width
          invariant x <= width
          invariant canvas.Valid() && canvas.width == width && canvas.height == height
          invariant forall i: nat, j: nat :: i < width && j < height ==>
                      canvas.Pixel(i, j) == if j < y || (j == y && i < x)
                                            then SplitColor(width, height, i, j, first, second, o)
                                            else Transparent
        {
          canvas := PutPixel(canvas, x, y, color);
          x := x + 1;
        }
        y := y + 1;
      }
    } else {
      var x := 0;
      while x < width
        invariant x <= width
        invariant canvas.Valid() && canvas.width == width && canvas.height == height
        invariant forall i: nat, j: nat :: i < width && j < height ==>
                    canvas.Pixel(i, j) == if i < x then SplitColor(width, height, i, j, first, second, o) else Transparent
      {
        var color := if x < width / 2 then first else second;
        var y := 0;
        while y < height
          invariant y <= height
          invariant canvas.Valid() && canvas.width == width && canvas.height == height
          invariant forall i: nat, j: nat :: i < width && j < height ==>
                      canvas.Pixel(i, j) == if i < x || (i == x && j < y)
                                            then SplitColor(width, height, i, j, first, second, o)
                                            else Transparent
        {
          canvas := PutPixel(canvas, x, y, color);
          y := y + 1;
        }
        x := x + 1;
      }
    }
    SamePixels(canvas, SplitBackground(width, height, first, second, o));
  }

  /** Where an image of `length` pixels starts so as to sit centred on an
      axis of `canvasLength` pixels; zero when it does not fit. */
  function Offset(canvasLength: nat, length: nat): (r: nat)
    ensures length <= canvasLength ==> r + length <= canvasLength
    // the margin after the image is the margin before it or one pixel more
    ensures length <= canvasLength ==> r <= canvasLength - length - r <= r + 1
    ensures length > canvasLength ==> r == 0
  {
    (if canvasLength >= length then canvasLength - length else 0) / 2
  }
}

/** Pixel buffers as the letterbox pipeline uses them: RGBA colours on a
    width-by-height grid, and the three buffer operations the pipeline calls
    on them (an immutable crop, writing one pixel, pasting one buffer onto
    another). */
module Raster {

  newtype byte = x: int | 0 <= x < 256

  /** A colour with four 8-bit channels. */
  datatype Color = Rgba(r: byte, g: byte, b: byte, a: byte)

  /** The colour every pixel of a newly allocated RGBA buffer starts with. */
  const Transparent: Color := Rgba(0, 0, 0, 0)

  /** A pixel buffer: `rows[y][x]` is the pixel in column x of row y, row 0
      being the top row and column 0 the leftmost column. */
  datatype Image = Image(width: nat, height: nat, rows: seq<seq<Color>>) {

    predicate Valid() {
      |rows| == height && forall y :: 0 <= y < |rows| ==> |rows[y]| == width
    }

    function Pixel(x: nat, y: nat): Color
      requires Valid() && x < width && y < height
    {
      rows[y][x]
    }
  }

  /** An axis-aligned rectangle: its top-left corner and its size. */
  datatype Rect = Rect(x: nat, y: nat, width: nat, height: nat)

  /** The rectangle lies entirely inside a width-by-height buffer. */
  predicate Inside(rect: Rect, width: nat, height: nat) {
    rect.x + rect.width <= width && rect.y + rect.height <= height
  }

  /** Pixel (x, y) lies under the rectangle. */
  predicate InRect(rect: Rect, x: nat, y: nat) {
    rect.x <= x < rect.x + rect.width && rect.y <= y < rect.y + rect.height
  }

  /** Two valid buffers of the same size that agree on every pixel are equal. */
  lemma SamePixels(a: Image, b: Image)
    requires a.Valid() && b.Valid() && a.width == b.width && a.height == b.height
    requires forall x: nat, y: nat :: x < a.width && y < a.height ==> a.Pixel(x, y) == b.Pixel(x, y)
    ensures a == b
  {
    forall y | 0 <= y < a.height
      ensures a.rows[y] == b.rows[y]
    {
      forall x | 0 <= x < a.width
        ensures a.rows[y][x] == b.rows[y][x]
      {
        assert a.Pixel(x, y) == b.Pixel(x, y);
      }
    }
  }

  /** A new buffer of the given size, every pixel transparent black. */
  function Blank(width: nat, height: nat): (r: Image)
    ensures r.Valid() && r.width == width && r.height == height
    ensures forall x: nat, y: nat :: x < width && y < height ==> r.Pixel(x, y) == Transparent
  {
    Image(width, height, seq(height, _ => seq(width, _ => Transparent)))
  }

  /** The part of `rect` that lies inside a width-by-height buffer: the corner
      is pulled back onto the buffer and the size shortened to fit. */
  function Clamp(rect: Rect, width: nat, height: nat): (c: Rect)
    ensures Inside(c, width, height)
    ensures c.width <= rect.width && c.height <= rect.height
    ensures Inside(rect, width, height) ==> c == rect
  {
    var x := if rect.x <= width then rect.x else width;
    var y := if rect.y <= height then rect.y else height;
    Rect(x, y,
         if rect.width <= width - x then rect.width else width - x,
         if rect.height <= height - y then rect.height else height - y)
  }

  /** An immutable crop: a new buffer holding the pixels of `img` under
      `rect`, after `rect` has been clamped to the buffer. */
  function Crop(img: Image, rect: Rect): (r: Image)
    requires img.Valid()
    ensures r.Valid()
    ensures Inside(rect, img.width, img.height) ==> r.width == rect.width && r.height == rect.height
    ensures var c := Clamp(rect, img.width, img.height);
            && r.width == c.width && r.height == c.height
            && forall x: nat, y: nat :: x < r.width && y < r.height ==> r.Pixel(x, y) == img.Pixel(c.x + x, c.y + y)
  {
    var c := Clamp(rect, img.width, img.height);
    Image(c.width, c.height,
          seq(c.height, y requires 0 <= y < c.height => img.rows[c.y + y][c.x .. c.x + c.width]))
  }

  /** A crop depends only on the pixels under its rectangle: two buffers of
      the same size that agree there give the same crop. */
  lemma CropAgrees(a: Image, b: Image, rect: Rect)
    requires a.Valid() && b.Valid() && a.width == b.width && a.height == b.height
    requires Inside(rect, a.width, a.height)
    ensures (forall x: nat, y: nat :: x < a.width && y < a.height && InRect(rect, x, y) ==> a.Pixel(x, y) == b.Pixel(x, y))
            ==> Crop(a, rect) == Crop(b, rect)
  {
    if forall x: nat, y: nat :: x < a.width && y < a.height && InRect(rect, x, y) ==> a.Pixel(x, y) == b.Pixel(x, y) {
      var ca, cb := Crop(a, rect), Crop(b, rect);
      forall x: nat, y: nat | x < ca.width && y < ca.height
        ensures ca.Pixel(x, y) == cb.Pixel(x, y)
      {
        assert InRect(rect, rect.x + x, rect.y + y);
      }
      SamePixels(ca, cb);
    }
  }

  /** Writes one pixel; every other pixel is left as it was. */
  function PutPixel(img: Image, x: nat, y: nat, color: Color): (r: Image)
    requires img.Valid() && x < img.width && y < img.height
    ensures r.Valid() && r.width == img.width && r.height == img.height
    ensures r.Pixel(x, y) == color
    ensures forall i: nat, j: nat :: i < r.width && j < r.height && (i != x || j != y) ==> r.Pixel(i, j) == img.Pixel(i, j)
  {
    img.(rows := img.rows[y := img.rows[y][x := color]])
  }

  datatype CopyResult = Copied(image: Image) | DimensionMismatch

  /** Pastes `src` onto `canvas` with its top-left corner at (x, y). The
      paste is refused, leaving nothing written, when `src` would reach past
      the right or bottom edge of `canvas`. */
  function CopyFrom(canvas: Image, src: Image, x: nat, y: nat): (r: CopyResult)
    requires canvas.Valid() && src.Valid()
    ensures r.DimensionMismatch? <==> canvas.width < src.width + x || canvas.height < src.height + y
    ensures r.Copied? ==> r.image.Valid() && r.image.width == canvas.width && r.image.height == canvas.height
    ensures r.Copied? ==>
              forall i: nat, j: nat :: i < src.width && j < src.height ==> r.image.Pixel(x + i, y + j) == src.Pixel(i, j)
    ensures r.Copied? ==>
              forall i: nat, j: nat :: i < canvas.width && j < canvas.height
                                       && !(x <= i < x + src.width && y <= j < y + src.height)
                                       ==> r.image.Pixel(i, j) == canvas.Pixel(i, j)
  {
    if canvas.width < src.width + x || canvas.height < src.height + y then
      DimensionMismatch
    else
      var r := Image(canvas.width, canvas.height,
                     seq(canvas.height, j requires 0 <= j < canvas.height =>
                       seq(canvas.width, i requires 0 <= i < canvas.width =>
                         if x <= i < x + src.width && y <= j < y + src.height
                         then src.rows[j - y][i - x]
                         else canvas.rows[j][i])));
      assert forall i: nat, j: nat :: i < src.width && j < src.height ==> r.Pixel(x + i, y + j) == src.Pixel(i, j);
      Copied(r)
  }
}

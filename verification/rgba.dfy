/** RGBA8 pixel storage as a browser ImageData holds it: a flat, row-major
    array of four clamped bytes per pixel, top-left origin. */
module Rgba {

  /** One element of a Uint8ClampedArray. */
  type Byte = b: int | 0 <= b < 256

  /** The byte a Uint8ClampedArray keeps when an integer is stored into it. */
  function Clamp(v: int): (b: Byte)
    ensures 0 <= v < 256 ==> b == v
  {
    if v < 0 then 0 else if v > 255 then 255 else v
  }

  /** An (R, G, B, A) tuple. Channels are plain integers, so that the
      "no pixel" sentinel (-1, -1, -1, -1) is a Color too. */
  datatype Color = Color(r: int, g: int, b: int, a: int) {

    predicate IsBytes() {
      0 <= r < 256 && 0 <= g < 256 && 0 <= b < 256 && 0 <= a < 256
    }

    /** What is read back after storing this colour into clamped storage. */
    function Clamped(): (c: Color)
      ensures c.IsBytes()
      ensures IsBytes() ==> c == this
    {
      Color(Clamp(r), Clamp(g), Clamp(b), Clamp(a))
    }
  }

  /** Returned for coordinates that have no pixel behind them. */
  const NoPixel: Color := Color(-1, -1, -1, -1)

  /** The background that clearing writes, and the eraser's colour. */
  const White: Color := Color(255, 255, 255, 255)

  /** The browser's ImageData: dimensions plus the backing byte array. */
  datatype ImageData = ImageData(width: int, height: int, data: seq<Byte>) {
    predicate Valid() {
      width >= 1 && height >= 1 && |data| == width * height * 4
    }
  }

  /** The row-major index of pixel (x, y) in an image of the given width. */
  function PixelIndex(width: int, x: int, y: int): int {
    x + y * width
  }

  lemma PixelIndexBounds(width: int, height: int, x: int, y: int)
    requires 0 <= x < width && 0 <= y < height
    ensures 0 <= PixelIndex(width, x, y) < width * height
    ensures 4 * PixelIndex(width, x, y) + 4 <= width * height * 4
  {
    assert y * width <= (height - 1) * width by {
      MulMonotone(y, height - 1, width);
    }
  }

  lemma MulMonotone(a: int, b: int, c: int)
    requires 0 <= a <= b && 0 <= c
    ensures 0 <= a * c <= b * c
  {
  }

  /** Distinct in-range coordinates have distinct pixel indices. */
  lemma PixelIndexInjective(width: int, x: int, y: int, x': int, y': int)
    requires 0 <= x < width && 0 <= x' < width
    requires PixelIndex(width, x, y) == PixelIndex(width, x', y')
    ensures x == x' && y == y'
  {
    if y < y' {
      assert (y' - y) * width >= width by { MulMonotone(1, y' - y, width); }
      assert false;
    } else if y' < y {
      assert (y - y') * width >= width by { MulMonotone(1, y - y', width); }
      assert false;
    }
  }

  /** Every pixel index of an image is the index of some in-range (x, y). */
  lemma PixelIndexOnto(width: int, height: int, p: int)
    requires width >= 1 && 0 <= p < width * height
    ensures 0 <= p % width < width && 0 <= p / width < height
    ensures PixelIndex(width, p % width, p / width) == p
  {
    if p / width >= height {
      MulMonotone(height, p / width, width);
      assert false;
    }
  }

  /** The colour held by the four bytes starting at byte offset i. */
  function ColorAt(data: seq<Byte>, i: int): Color
    requires 0 <= i && i + 4 <= |data|
  {
    Color(data[i], data[i + 1], data[i + 2], data[i + 3])
  }

  /** The colour of pixel p, stored at byte offset 4 * p. */
  function PixelAt(data: seq<Byte>, p: int): Color
    requires 0 <= p && 4 * p + 4 <= |data|
  {
    ColorAt(data, 4 * p)
  }

  /** The four bytes at byte offset i replaced by the clamped channels of c. */
  function WriteColor(data: seq<Byte>, i: int, c: Color): (r: seq<Byte>)
    requires 0 <= i && i + 4 <= |data|
    ensures |r| == |data|
    ensures ColorAt(r, i) == c.Clamped()
    ensures forall k :: 0 <= k < |data| && !(i <= k < i + 4) ==> r[k] == data[k]
  {
    data[i := Clamp(c.r)][i + 1 := Clamp(c.g)][i + 2 := Clamp(c.b)][i + 3 := Clamp(c.a)]
  }

  /** Writing pixel p changes pixel p and no other pixel. */
  lemma WritePixelOnly(data: seq<Byte>, p: int, q: int, c: Color)
    requires 0 <= p && 4 * p + 4 <= |data|
    requires 0 <= q && 4 * q + 4 <= |data|
    ensures PixelAt(WriteColor(data, 4 * p, c), q) == if p == q then c.Clamped() else PixelAt(data, q)
  {
  }

  /** The colour of pixel (x, y) of a width-by-height buffer. */
  function PixelOf(data: seq<Byte>, width: int, height: int, x: int, y: int): Color
    requires |data| == width * height * 4
    requires 0 <= x < width && 0 <= y < height
  {
    PixelIndexBounds(width, height, x, y);
    PixelAt(data, PixelIndex(width, x, y))
  }

  /** Pixel (x, y) of a width-by-height buffer set to c, written at byte
      offset (x + y * width) * 4. */
  function WritePixel(data: seq<Byte>, width: int, height: int, x: int, y: int, c: Color): (r: seq<Byte>)
    requires |data| == width * height * 4
    requires 0 <= x < width && 0 <= y < height
    ensures |r| == |data|
  {
    PixelIndexBounds(width, height, x, y);
    WriteColor(data, 4 * PixelIndex(width, x, y), c)
  }

  /** Writing pixel (x, y) changes that pixel, to the clamped colour, and no
      other pixel of the buffer. */
  lemma WritePixelAt(data: seq<Byte>, width: int, height: int, x: int, y: int, c: Color)
    requires |data| == width * height * 4
    requires 0 <= x < width && 0 <= y < height
    ensures forall px, py :: 0 <= px < width && 0 <= py < height ==>
      PixelOf(WritePixel(data, width, height, x, y, c), width, height, px, py) ==
      if px == x && py == y then c.Clamped() else PixelOf(data, width, height, px, py)
  {
    PixelIndexBounds(width, height, x, y);
    forall px, py | 0 <= px < width && 0 <= py < height
      ensures PixelOf(WritePixel(data, width, height, x, y, c), width, height, px, py) ==
        if px == x && py == y then c.Clamped() else PixelOf(data, width, height, px, py)
    {
      PixelIndexBounds(width, height, px, py);
      if PixelIndex(width, px, py) == PixelIndex(width, x, y) {
        PixelIndexInjective(width, px, py, x, y);
      }
      WritePixelOnly(data, PixelIndex(width, x, y), PixelIndex(width, px, py), c);
    }
  }

  /** Two buffers of n pixels that agree on every pixel are byte-identical. */
  lemma SamePixelsSameBytes(a: seq<Byte>, b: seq<Byte>, n: int)
    requires |a| == |b| == 4 * n
    requires forall p :: 0 <= p < n ==> PixelAt(a, p) == PixelAt(b, p)
    ensures a == b
  {
    forall k | 0 <= k < |a|
      ensures a[k] == b[k]
    {
      var p := k / 4;
      assert PixelAt(a, p) == PixelAt(b, p);
    }
  }
}

/** The free-standing pixel helpers of the editing canvas: colour lookup and
    comparison, clearing, and the write pass of the thick-line stroke. They
    address the buffer directly at (x + y * width) * 4, never through the
    tile addressing of VirtualImage. */
module CanvasPixels {
  import opened Rgba
  import JsMath

  /** getColorAt: the four channels starting at byte offset i. Canvas.tsx
      returns either a live view or a copy; a value is always a copy here. */
  function GetColorAt(data: seq<Byte>, i: int): (c: Color)
    requires 0 <= i && i + 4 <= |data|
    ensures [c.r, c.g, c.b, c.a] == data[i..i + 4]
    ensures c.IsBytes()
  {
    ColorAt(data, i)
  }

  /** isEqualColor: channel-by-channel comparison. */
  function IsEqualColor(c1: Color, c2: Color): (r: bool)
    ensures r <==> c1 == c2
  {
    c1.r == c2.r && c1.g == c2.g && c1.b == c2.b && c1.a == c2.a
  }

  /** clear: every byte set to 255. */
  function Clear(data: seq<Byte>): (r: seq<Byte>)
    ensures |r| == |data|
    ensures forall p :: 0 <= p && 4 * p + 4 <= |r| ==> PixelAt(r, p) == White
  {
    seq(|data|, _ => 255)
  }

  /** Clearing twice is clearing once, and the outcome depends only on the
      buffer's length. */
  lemma ClearForgetsContents(a: seq<Byte>, b: seq<Byte>)
    requires |a| == |b|
    ensures Clear(a) == Clear(b) == Clear(Clear(a))
  {
  }

  /** The inclusive pixel rectangle drawLine scans. */
  datatype Box = Box(minX: int, minY: int, maxX: int, maxY: int) {
    predicate Contains(x: int, y: int) {
      minX <= x <= maxX && minY <= y <= maxY
    }
  }

  /** Pixel (x, y) lies within half a line width of the bounding rectangle
      of the two endpoints on both axes; every pixel the capsule can cover
      satisfies this. */
  predicate NearSegment(x0: real, y0: real, x1: real, y1: real, lineWidth: real, x: int, y: int) {
    && JsMath.Min(x0, x1) - lineWidth / 2.0 <= x as real <= JsMath.Max(x0, x1) + lineWidth / 2.0
    && JsMath.Min(y0, y1) - lineWidth / 2.0 <= y as real <= JsMath.Max(y0, y1) + lineWidth / 2.0
  }

  /** drawLine's scan box: the endpoints' bounding rectangle inflated by
      half the line width plus one, rounded, and clamped to the buffer. It
      never leaves the buffer, never misses a pixel near the segment, and
      stays within half the line width plus one and a half of the endpoints'
      bounding rectangle. */
  function ScanBox(width: int, height: int, x0: real, y0: real, x1: real, y1: real, lineWidth: real): (b: Box)
    ensures 0 <= b.minX && b.maxX <= width - 1
    ensures 0 <= b.minY && b.maxY <= height - 1
    ensures forall x, y :: 0 <= x < width && 0 <= y < height && NearSegment(x0, y0, x1, y1, lineWidth, x, y) ==>
      b.Contains(x, y)
    ensures forall x, y :: b.Contains(x, y) ==>
      && JsMath.Min(x0, x1) - lineWidth / 2.0 - 1.5 <= x as real <= JsMath.Max(x0, x1) + lineWidth / 2.0 + 1.5
      && JsMath.Min(y0, y1) - lineWidth / 2.0 - 1.5 <= y as real <= JsMath.Max(y0, y1) + lineWidth / 2.0 + 1.5
  {
    var w2 := lineWidth / 2.0;
    Box(JsMath.Round(JsMath.Max(0.0, JsMath.Min(x0, x1) - w2 - 1.0)),
        JsMath.Round(JsMath.Max(0.0, JsMath.Min(y0, y1) - w2 - 1.0)),
        JsMath.Round(JsMath.Min((width - 1) as real, JsMath.Max(x0, x1) + w2 + 1.0)),
        JsMath.Round(JsMath.Min((height - 1) as real, JsMath.Max(y0, y1) + w2 + 1.0)))
  }

  /** The scan box does not depend on which endpoint comes first. */
  lemma ScanBoxSymmetric(width: int, height: int, x0: real, y0: real, x1: real, y1: real, lineWidth: real)
    ensures ScanBox(width, height, x0, y0, x1, y1, lineWidth) == ScanBox(width, height, x1, y1, x0, y0, lineWidth)
  {
  }

  /** drawLine's write pass. The capsule test Canvas.tsx evaluates for each
      scanned pixel (floating-point projection onto the segment) is the
      parameter `covers`. Every write lands inside the buffer; a pixel
      changes exactly when it is in the scan box and covered, and then it
      holds the stroke colour. */
  method DrawLine(image: ImageData, x0: real, y0: real, x1: real, y1: real, lineWidth: real,
                  color: Color, covers: (int, int) -> bool)
    returns (data: seq<Byte>)
    requires image.Valid()
    ensures |data| == |image.data|
    ensures forall x, y :: 0 <= x < image.width && 0 <= y < image.height ==>
      PixelOf(data, image.width, image.height, x, y) ==
        if ScanBox(image.width, image.height, x0, y0, x1, y1, lineWidth).Contains(x, y) && covers(x, y)
        then color.Clamped()
        else PixelOf(image.data, image.width, image.height, x, y)
  {
    var width, height := image.width, image.height;
    var box := ScanBox(width, height, x0, y0, x1, y1, lineWidth);
    data := image.data;
    var x := box.minX;
    while x <= box.maxX
      invariant |data| == |image.data|
      invariant box.minX <= x && (x <= box.maxX + 1 || x == box.minX)
      invariant forall px, py :: 0 <= px < width && 0 <= py < height ==>
        PixelOf(data, width, height, px, py) ==
          if box.Contains(px, py) && px < x && covers(px, py)
          then color.Clamped()
          else PixelOf(image.data, width, height, px, py)
    {
      var y := box.minY;
      while y <= box.maxY
        invariant |data| == |image.data|
        invariant box.minY <= y && (y <= box.maxY + 1 || y == box.minY)
        invariant forall px, py :: 0 <= px < width && 0 <= py < height ==>
          PixelOf(data, width, height, px, py) ==
            if box.Contains(px, py) && (px < x || (px == x && py < y)) && covers(px, py)
            then color.Clamped()
            else PixelOf(image.data, width, height, px, py)
      {
        if covers(x, y) {
          WritePixelAt(data, width, height, x, y, color);
          data := WritePixel(data, width, height, x, y, color);
        }
        y := y + 1;
      }
      x := x + 1;
    }
  }
}

/** Seamless-tile addressing over one content image.

    The virtual rectangle is the content surrounded, on each axis, by a grid
    line of `lineWidth` pixels and beyond it a gutter of half the content's
    extent. Grid-line pixels have no storage; gutter pixels alias the
    opposite edge of the content, so the content repeats toroidally. */
module VirtualImage {
  import opened Wrappers
  import opened Rgba
  import opened JsMath

  /** The axis whose coordinate made toIndex throw its range error. */
  datatype Axis = X | Y

  /** The outcome of toIndex: the -1 of a grid-line pixel, a byte offset into
      the content's data, or the range error it throws. */
  datatype Address = GridLine | Offset(i: int) | OutOfRange(axis: Axis)

  /** One axis of the virtual rectangle, as five consecutive bands:
      [0, Space) gutter, [Space, ContentStart) grid line,
      [ContentStart, ContentEnd) content, [ContentEnd, OuterStart) grid line,
      [OuterStart, Total) gutter. */
  datatype Bands = Bands(content: int, lineWidth: int) {

    predicate Valid() {
      content >= 1 && lineWidth >= 0
    }

    /** horizontalSpace / verticalSpace: the width of each gutter. */
    function Space(): int {
      content / 2
    }

    function ContentStart(): int {
      Space() + lineWidth
    }

    function ContentEnd(): int {
      ContentStart() + content
    }

    function OuterStart(): int {
      ContentEnd() + lineWidth
    }

    /** The virtual extent of the axis (width or height). */
    function Total(): int {
      content + lineWidth * 2 + Space() * 2
    }

    /** The stride at which drawToCanvas repeats the content. */
    function Period(): int {
      lineWidth + content
    }

    /** The coordinate lies in one of the two grid-line bands. */
    predicate OnLine(v: int) {
      (Space() <= v < ContentStart()) || (ContentEnd() <= v < OuterStart())
    }

    /** trueX / trueY of toIndex, or None where it throws. */
    function Map(v: int): Option<int> {
      if 0 <= v < Space() then Some(v + (content - Space()))
      else if ContentStart() <= v < ContentEnd() then Some(v - ContentStart())
      else if OuterStart() <= v < Total() then Some(v - OuterStart())
      else None
    }

    /** Where v falls inside one repetition of drawToCanvas's tiling, which
        puts a copy of the content at ContentStart() + k * Period() for
        every integer k. */
    function Phase(v: int): int
      requires Valid()
    {
      (v - ContentStart()) % Period()
    }
  }

  /** The remainder of a by m is r whenever a == q * m + r with 0 <= r < m. */
  lemma ModUnique(a: int, m: int, q: int, r: int)
    requires m > 0 && a == q * m + r && 0 <= r < m
    ensures a % m == r
  {
    var q', r' := a / m, a % m;
    assert a == q' * m + r';
    if q < q' {
      assert (q' - q) * m >= m by { MulMonotone(1, q' - q, m); }
      assert false;
    } else if q' < q {
      assert (q - q') * m >= m by { MulMonotone(1, q - q', m); }
      assert false;
    }
  }

  /** Each coordinate lies in at most one band, and in some band exactly
      when it lies inside the virtual extent, which is therefore the sum of
      the five band widths. */
  lemma BandsPartitionAxis(b: Bands, v: int)
    requires b.Valid()
    ensures !(b.OnLine(v) && b.Map(v).Some?)
    ensures b.OnLine(v) || b.Map(v).Some? <==> 0 <= v < b.Total()
    ensures b.Map(v).Some? ==> 0 <= b.Map(v).value < b.content
  {
  }

  /** toIndex agrees with the tiled picture drawToCanvas paints: a
      coordinate is a grid-line pixel exactly when its phase falls past the
      content, and otherwise it addresses the content at its phase. */
  lemma MapMatchesTiling(b: Bands, v: int)
    requires b.Valid() && 0 <= v < b.Total()
    ensures 0 <= b.Phase(v) < b.Period()
    ensures b.OnLine(v) <==> b.Phase(v) >= b.content
    ensures !b.OnLine(v) ==> b.Map(v) == Some(b.Phase(v))
  {
    var d := v - b.ContentStart();
    if d < 0 {
      ModUnique(d, b.Period(), -1, d + b.Period());
    } else if d < b.Period() {
      ModUnique(d, b.Period(), 0, d);
    } else {
      ModUnique(d, b.Period(), 1, d - b.Period());
    }
  }

  /** A gutter coordinate and the coordinate one period away inside the
      content address the same content position. */
  lemma MapWraps(b: Bands, v: int)
    requires b.Valid()
    ensures 0 <= v < b.Space() ==>
      !b.OnLine(v) && !b.OnLine(v + b.Period()) && b.Map(v) == b.Map(v + b.Period())
    ensures b.OuterStart() <= v < b.Total() ==>
      !b.OnLine(v) && !b.OnLine(v - b.Period()) && b.Map(v) == b.Map(v - b.Period())
  {
  }

  /** A content image seen through the virtual rectangle. */
  datatype VirtualImageData = VirtualImageData(imageData: ImageData, lineWidth: int) {

    predicate Valid() {
      imageData.Valid() && lineWidth >= 0
    }

    function Horizontal(): Bands {
      Bands(imageData.width, lineWidth)
    }

    function Vertical(): Bands {
      Bands(imageData.height, lineWidth)
    }

    function Width(): int {
      Horizontal().Total()
    }

    function Height(): int {
      Vertical().Total()
    }
  }

  /** The constructor: the grid-line width is the scale factor rounded. */
  function Make(imageData: ImageData, scaleFactor: real): (v: VirtualImageData)
    ensures v.imageData == imageData
    ensures v.lineWidth as real - 0.5 <= scaleFactor < v.lineWidth as real + 0.5
    ensures imageData.Valid() && scaleFactor >= 0.0 ==> v.Valid()
  {
    VirtualImageData(imageData, Round(scaleFactor))
  }

  /** toIndex: a virtual coordinate to a byte offset into the content. Both
      grid-line checks come before the range checks. */
  function ToIndex(v: VirtualImageData, x: int, y: int): (a: Address)
    requires v.Valid()
    ensures a.Offset? ==> 0 <= a.i && a.i % 4 == 0 && a.i + 4 <= |v.imageData.data|
  {
    var hb, vb := v.Horizontal(), v.Vertical();
    if hb.OnLine(x) then GridLine
    else if vb.OnLine(y) then GridLine
    else match (hb.Map(x), vb.Map(y))
      case (None, _) => OutOfRange(X)
      case (Some(_), None) => OutOfRange(Y)
      case (Some(trueX), Some(trueY)) =>
        BandsPartitionAxis(hb, x);
        BandsPartitionAxis(vb, y);
        PixelIndexBounds(v.imageData.width, v.imageData.height, trueX, trueY);
        Offset(4 * PixelIndex(v.imageData.width, trueX, trueY))
  }

  /** The outcome of toIndex for every integer pair: -1 exactly on the grid
      lines (even when the other coordinate is out of range), the x range
      error exactly when x is outside the virtual width and no line was hit,
      the y range error otherwise when y is outside the virtual height. */
  lemma ToIndexClassifies(v: VirtualImageData, x: int, y: int)
    requires v.Valid()
    ensures ToIndex(v, x, y).GridLine? <==> v.Horizontal().OnLine(x) || v.Vertical().OnLine(y)
    ensures ToIndex(v, x, y) == OutOfRange(X) <==>
      !v.Horizontal().OnLine(x) && !v.Vertical().OnLine(y) && !(0 <= x < v.Width())
    ensures ToIndex(v, x, y) == OutOfRange(Y) <==>
      !v.Horizontal().OnLine(x) && !v.Vertical().OnLine(y) && 0 <= x < v.Width() && !(0 <= y < v.Height())
    ensures ToIndex(v, x, y).Offset? <==>
      !v.Horizontal().OnLine(x) && !v.Vertical().OnLine(y) && 0 <= x < v.Width() && 0 <= y < v.Height()
  {
    BandsPartitionAxis(v.Horizontal(), x);
    BandsPartitionAxis(v.Vertical(), y);
  }

  /** Inside the virtual rectangle and off the grid lines, toIndex addresses
      the content pixel at the tiling phase of each coordinate. */
  lemma ToIndexMatchesTiling(v: VirtualImageData, x: int, y: int)
    requires v.Valid()
    requires 0 <= x < v.Width() && 0 <= y < v.Height()
    requires !v.Horizontal().OnLine(x) && !v.Vertical().OnLine(y)
    ensures 0 <= v.Horizontal().Phase(x) < v.imageData.width
    ensures 0 <= v.Vertical().Phase(y) < v.imageData.height
    ensures ToIndex(v, x, y) ==
      Offset(4 * PixelIndex(v.imageData.width, v.Horizontal().Phase(x), v.Vertical().Phase(y)))
  {
    MapMatchesTiling(v.Horizontal(), x);
    MapMatchesTiling(v.Vertical(), y);
  }

  /** The content band is a plain translation, so every content pixel is
      addressed by some virtual coordinate inside the virtual rectangle. */
  lemma ToIndexReachesEveryPixel(v: VirtualImageData, p: int)
    requires v.Valid() && 0 <= p < v.imageData.width * v.imageData.height
    ensures exists x, y :: 0 <= x < v.Width() && 0 <= y < v.Height() && ToIndex(v, x, y) == Offset(4 * p)
  {
    var w := v.imageData.width;
    PixelIndexOnto(w, v.imageData.height, p);
    var x, y := p % w + v.Horizontal().ContentStart(), p / w + v.Vertical().ContentStart();
    assert ToIndex(v, x, y) == Offset(4 * p);
  }

  /** A gutter column aliases the content column one period (lineWidth plus
      the content width) away, for every row. */
  lemma ToIndexWrapsHorizontally(v: VirtualImageData, x: int, y: int)
    requires v.Valid()
    ensures 0 <= x < v.Horizontal().Space() ==>
      ToIndex(v, x, y) == ToIndex(v, x + v.Horizontal().Period(), y)
    ensures v.Horizontal().OuterStart() <= x < v.Width() ==>
      ToIndex(v, x, y) == ToIndex(v, x - v.Horizontal().Period(), y)
  {
    MapWraps(v.Horizontal(), x);
  }

  /** A gutter row aliases the content row one period (lineWidth plus the
      content height) away, for every column. */
  lemma ToIndexWrapsVertically(v: VirtualImageData, x: int, y: int)
    requires v.Valid()
    ensures 0 <= y < v.Vertical().Space() ==>
      ToIndex(v, x, y) == ToIndex(v, x, y + v.Vertical().Period())
    ensures v.Vertical().OuterStart() <= y < v.Height() ==>
      ToIndex(v, x, y) == ToIndex(v, x, y - v.Vertical().Period())
  {
    MapWraps(v.Vertical(), y);
  }

  /** getColorAt: the sentinel on a grid line, the stored bytes otherwise,
      and toIndex's range error passed on. */
  function GetColorAt(v: VirtualImageData, x: int, y: int): (r: Result<Color, Axis>)
    requires v.Valid()
    ensures r.Failure? <==> ToIndex(v, x, y).OutOfRange?
    ensures r == Success(NoPixel) <==> ToIndex(v, x, y).GridLine?
    ensures r.Success? && r.value != NoPixel ==> r.value.IsBytes()
  {
    match ToIndex(v, x, y)
    case GridLine => Success(NoPixel)
    case OutOfRange(axis) => Failure(axis)
    case Offset(i) => Success(ColorAt(v.imageData.data, i))
  }

  /** setColorAt: a silent no-op on a grid line; otherwise exactly the four
      bytes at the addressed offset change. */
  function SetColorAt(v: VirtualImageData, x: int, y: int, c: Color): (r: Result<VirtualImageData, Axis>)
    requires v.Valid()
    ensures r.Failure? <==> ToIndex(v, x, y).OutOfRange?
    ensures r.Success? ==>
      r.value.Valid() && r.value.lineWidth == v.lineWidth &&
      r.value.imageData.width == v.imageData.width && r.value.imageData.height == v.imageData.height
    ensures ToIndex(v, x, y).GridLine? ==> r == Success(v)
    ensures ToIndex(v, x, y).Offset? ==> (
      var i := ToIndex(v, x, y).i;
      && r.Success?
      && ColorAt(r.value.imageData.data, i) == c.Clamped()
      && forall k :: 0 <= k < |v.imageData.data| && !(i <= k < i + 4) ==>
           r.value.imageData.data[k] == v.imageData.data[k])
  {
    match ToIndex(v, x, y)
    case GridLine => Success(v)
    case OutOfRange(axis) => Failure(axis)
    case Offset(i) =>
      var data := WriteColor(v.imageData.data, i, c);
      Success(v.(imageData := v.imageData.(data := data)))
  }

  /** After a write at (x, y), every coordinate that aliases the same content
      pixel reads back the written colour (the colour itself when its
      channels are bytes). */
  lemma ReadAfterWrite(v: VirtualImageData, x: int, y: int, x': int, y': int, c: Color)
    requires v.Valid() && ToIndex(v, x, y).Offset?
    requires ToIndex(v, x', y') == ToIndex(v, x, y)
    ensures GetColorAt(SetColorAt(v, x, y, c).value, x', y') == Success(c.Clamped())
    ensures c.IsBytes() ==> GetColorAt(SetColorAt(v, x, y, c).value, x', y') == Success(c)
  {
    var v' := SetColorAt(v, x, y, c).value;
    assert ToIndex(v', x', y') == ToIndex(v, x', y');
  }

  /** A colour written in a gutter reads back both there and at the wrapped
      position inside the content: one period right of the left gutter, one
      period left of the right gutter, and likewise down from the top
      gutter and up from the bottom one. */
  lemma ReadAfterWriteWrapped(v: VirtualImageData, x: int, y: int, c: Color)
    requires v.Valid() && ToIndex(v, x, y).Offset?
    ensures GetColorAt(SetColorAt(v, x, y, c).value, x, y) == Success(c.Clamped())
    ensures 0 <= x < v.Horizontal().Space() ==>
      GetColorAt(SetColorAt(v, x, y, c).value, x + v.Horizontal().Period(), y) == Success(c.Clamped())
    ensures 0 <= y < v.Vertical().Space() ==>
      GetColorAt(SetColorAt(v, x, y, c).value, x, y + v.Vertical().Period()) == Success(c.Clamped())
    ensures v.Horizontal().OuterStart() <= x < v.Width() ==>
      GetColorAt(SetColorAt(v, x, y, c).value, x - v.Horizontal().Period(), y) == Success(c.Clamped())
    ensures v.Vertical().OuterStart() <= y < v.Height() ==>
      GetColorAt(SetColorAt(v, x, y, c).value, x, y - v.Vertical().Period()) == Success(c.Clamped())
  {
    ReadAfterWrite(v, x, y, x, y, c);
    ToIndexWrapsHorizontally(v, x, y);
    ToIndexWrapsVertically(v, x, y);
    if 0 <= x < v.Horizontal().Space() {
      ReadAfterWrite(v, x, y, x + v.Horizontal().Period(), y, c);
    }
    if 0 <= y < v.Vertical().Space() {
      ReadAfterWrite(v, x, y, x, y + v.Vertical().Period(), c);
    }
    if v.Horizontal().OuterStart() <= x < v.Width() {
      ReadAfterWrite(v, x, y, x - v.Horizontal().Period(), y, c);
    }
    if v.Vertical().OuterStart() <= y < v.Height() {
      ReadAfterWrite(v, x, y, x, y - v.Vertical().Period(), c);
    }
  }

  /** A write leaves every coordinate that addresses a different content
      pixel reading what it read before. */
  lemma WriteLeavesOtherPixels(v: VirtualImageData, x: int, y: int, x': int, y': int, c: Color)
    requires v.Valid() && SetColorAt(v, x, y, c).Success?
    requires ToIndex(v, x', y') != ToIndex(v, x, y)
    ensures GetColorAt(SetColorAt(v, x, y, c).value, x', y') == GetColorAt(v, x', y')
  {
    var v' := SetColorAt(v, x, y, c).value;
    assert ToIndex(v', x', y') == ToIndex(v, x', y');
  }
}

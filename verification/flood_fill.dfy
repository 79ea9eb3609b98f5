/** The canvas's flood fill: a 4-connected worklist fill over the content
    buffer, with a visited array and a reference colour taken once from the
    start pixel before anything is written. */
module FloodFill {
  import opened Rgba
  import opened CanvasPixels

  /** A queued coordinate. */
  datatype Point = Point(x: int, y: int)

  predicate InGrid(width: int, height: int, p: Point) {
    0 <= p.x < width && 0 <= p.y < height
  }

  /** p and q differ by one step left, right, up or down. */
  predicate Adjacent(p: Point, q: Point) {
    || (p.x == q.x && (p.y == q.y + 1 || p.y + 1 == q.y))
    || (p.y == q.y && (p.x == q.x + 1 || p.x + 1 == q.x))
  }

  /** The index of p in the visited array, x + y * width. */
  function Index(width: int, height: int, p: Point): (i: int)
    requires InGrid(width, height, p)
    ensures 0 <= i < width * height
    ensures 4 * i + 4 <= width * height * 4
  {
    PixelIndexBounds(width, height, p.x, p.y);
    PixelIndex(width, p.x, p.y)
  }

  lemma IndexInjective(width: int, height: int, p: Point, q: Point)
    requires InGrid(width, height, p) && InGrid(width, height, q)
    ensures Index(width, height, p) == Index(width, height, q) <==> p == q
  {
    if Index(width, height, p) == Index(width, height, q) {
      PixelIndexInjective(width, p.x, p.y, q.x, q.y);
    }
  }

  /** p is a pixel of the image whose colour is c. */
  ghost predicate HasColor(image: ImageData, p: Point, c: Color)
    requires image.Valid()
  {
    InGrid(image.width, image.height, p) && PixelAt(image.data, Index(image.width, image.height, p)) == c
  }

  /** A non-empty 4-connected walk that stays inside the grid. */
  ghost predicate IsWalk(width: int, height: int, path: seq<Point>) {
    && |path| >= 1
    && (forall k :: 0 <= k < |path| ==> InGrid(width, height, path[k]))
    && (forall k :: 1 <= k < |path| ==> Adjacent(path[k - 1], path[k]))
  }

  /** A walk from s to p all of whose pixels, except perhaps p itself, have
      colour c. */
  ghost predicate IsApproach(image: ImageData, c: Color, s: Point, path: seq<Point>, p: Point)
    requires image.Valid()
  {
    && IsWalk(image.width, image.height, path)
    && path[0] == s && path[|path| - 1] == p
    && forall k :: 0 <= k < |path| - 1 ==> HasColor(image, path[k], c)
  }

  /** A walk from s to p all of whose pixels have colour c. */
  ghost predicate IsColorPath(image: ImageData, c: Color, s: Point, path: seq<Point>, p: Point)
    requires image.Valid()
  {
    IsApproach(image, c, s, path, p) && HasColor(image, p, c)
  }

  /** p belongs to the 4-connected region of colour c that contains s. */
  ghost predicate Reaches(image: ImageData, c: Color, s: Point, p: Point)
    requires image.Valid()
  {
    exists path :: IsColorPath(image, c, s, path, p)
  }

  /** The number of cells not yet visited. */
  function Unmarked(s: seq<bool>): (n: nat)
    ensures n <= |s|
  {
    if |s| == 0 then 0 else (if s[0] then 0 else 1) + Unmarked(s[1..])
  }

  /** Visiting a cell that was not visited lowers the count by exactly one. */
  lemma {:induction false} MarkOne(s: seq<bool>, i: int)
    requires 0 <= i < |s| && !s[i]
    ensures Unmarked(s[i := true]) == Unmarked(s) - 1
  {
    if i == 0 {
      assert s[i := true][1..] == s[1..];
    } else {
      assert s[i := true][1..] == s[1..][i - 1 := true];
      MarkOne(s[1..], i - 1);
    }
  }

  /** If the visited cells include s and are closed under stepping to an
      adjacent pixel of colour c, every pixel c-connected to s is visited. */
  lemma {:induction false} ClosedRegionContainsReach(image: ImageData, c: Color, s: Point,
                                                     visited: seq<bool>, path: seq<Point>, p: Point)
    requires image.Valid() && |visited| == image.width * image.height
    requires InGrid(image.width, image.height, s) && visited[Index(image.width, image.height, s)]
    requires forall a, n ::
      (InGrid(image.width, image.height, a) && InGrid(image.width, image.height, n) && Adjacent(a, n) &&
       visited[Index(image.width, image.height, a)] && HasColor(image, n, c)) ==>
      visited[Index(image.width, image.height, n)]
    requires IsColorPath(image, c, s, path, p)
    ensures visited[Index(image.width, image.height, p)]
    decreases |path|
  {
    if |path| > 1 {
      var prefix := path[..|path| - 1];
      var a := prefix[|prefix| - 1];
      assert IsColorPath(image, c, s, prefix, a);
      ClosedRegionContainsReach(image, c, s, visited, prefix, a);
      assert Adjacent(a, p);
    }
  }

  /** Writing one cell changes that cell's pixel and no other. */
  lemma WriteCellOnly(data: seq<Byte>, width: int, height: int, p: Point, c: Color)
    requires |data| == width * height * 4 && InGrid(width, height, p)
    ensures forall q :: InGrid(width, height, q) ==>
      PixelAt(WriteColor(data, 4 * Index(width, height, p), c), Index(width, height, q)) ==
      if q == p then c.Clamped() else PixelAt(data, Index(width, height, q))
  {
    forall q | InGrid(width, height, q)
      ensures PixelAt(WriteColor(data, 4 * Index(width, height, p), c), Index(width, height, q)) ==
        if q == p then c.Clamped() else PixelAt(data, Index(width, height, q))
    {
      IndexInjective(width, height, p, q);
      WritePixelOnly(data, Index(width, height, p), Index(width, height, q), c);
    }
  }

  /** The in-grid neighbours of p, in the order fill pushes them: left, up,
      right, down. */
  function Neighbours(width: int, height: int, p: Point): (ns: seq<Point>)
    requires InGrid(width, height, p)
    ensures forall n :: n in ns <==> InGrid(width, height, n) && Adjacent(p, n)
    ensures |ns| <= 4
  {
    (if p.x > 0 then [Point(p.x - 1, p.y)] else []) +
    (if p.y > 0 then [Point(p.x, p.y - 1)] else []) +
    (if p.x < width - 1 then [Point(p.x + 1, p.y)] else []) +
    (if p.y < height - 1 then [Point(p.x, p.y + 1)] else [])
  }

  /** The walks to the newly queued neighbours: the walk to their parent,
      one step longer. */
  ghost function Extend(walk: seq<Point>, ns: seq<Point>): (r: seq<seq<Point>>)
    ensures |r| == |ns|
    ensures forall k :: 0 <= k < |ns| ==> r[k] == walk + [ns[k]]
  {
    seq(|ns|, k requires 0 <= k < |ns| => walk + [ns[k]])
  }

  /** Every queued point is in the grid and comes with a walk from the start
      through reference-coloured pixels. */
  ghost predicate QueueWitnessed(image: ImageData, ref: Color, start: Point, q: seq<Point>, approaches: seq<seq<Point>>)
    requires image.Valid()
  {
    && |approaches| == |q|
    && forall k :: 0 <= k < |q| ==>
         InGrid(image.width, image.height, q[k]) && IsApproach(image, ref, start, approaches[k], q[k])
  }

  /** Every visited point comes with a reference-coloured path from the start. */
  ghost predicate VisitedWitnessed(image: ImageData, ref: Color, start: Point, isFilled: seq<bool>, paths: map<Point, seq<Point>>)
    requires image.Valid() && |isFilled| == image.width * image.height
  {
    forall p :: InGrid(image.width, image.height, p) && isFilled[Index(image.width, image.height, p)] ==>
      p in paths && IsColorPath(image, ref, start, paths[p], p)
  }

  /** Visited pixels hold the fill colour, the others their original colour. */
  ghost predicate PaintedExactly(image: ImageData, color: Color, data: seq<Byte>, isFilled: seq<bool>)
    requires image.Valid() && |isFilled| == image.width * image.height && |data| == |image.data|
  {
    forall p :: InGrid(image.width, image.height, p) ==>
      PixelAt(data, Index(image.width, image.height, p)) ==
        if isFilled[Index(image.width, image.height, p)] then color.Clamped()
        else PixelAt(image.data, Index(image.width, image.height, p))
  }

  /** A reference-coloured neighbour of a visited pixel is visited or queued. */
  ghost predicate ClosedUpToQueue(image: ImageData, ref: Color, isFilled: seq<bool>, q: seq<Point>)
    requires image.Valid() && |isFilled| == image.width * image.height
  {
    forall a, n ::
      (InGrid(image.width, image.height, a) && InGrid(image.width, image.height, n) && Adjacent(a, n) &&
       isFilled[Index(image.width, image.height, a)] && HasColor(image, n, ref)) ==>
      isFilled[Index(image.width, image.height, n)] || n in q
  }

  /** The loop invariant of fill. */
  ghost predicate FillInvariant(image: ImageData, ref: Color, start: Point, color: Color,
                                data: seq<Byte>, isFilled: seq<bool>, q: seq<Point>,
                                approaches: seq<seq<Point>>, paths: map<Point, seq<Point>>)
    requires image.Valid()
  {
    && |data| == |image.data| && |isFilled| == image.width * image.height
    && HasColor(image, start, ref)
    && QueueWitnessed(image, ref, start, q, approaches)
    && VisitedWitnessed(image, ref, start, isFilled, paths)
    && PaintedExactly(image, color, data, isFilled)
    && ClosedUpToQueue(image, ref, isFilled, q)
    && (isFilled[Index(image.width, image.height, start)] || start in q)
  }

  /** Dropping the head of the queue keeps the other queued walks. */
  lemma DropKeepsQueue(image: ImageData, ref: Color, start: Point, q: seq<Point>, approaches: seq<seq<Point>>)
    requires image.Valid() && |q| > 0
    requires QueueWitnessed(image, ref, start, q, approaches)
    ensures QueueWitnessed(image, ref, start, q[1..], approaches[1..])
  {
    forall k | 0 <= k < |q| - 1
      ensures InGrid(image.width, image.height, q[1..][k])
      ensures IsApproach(image, ref, start, approaches[1..][k], q[1..][k])
    {
      assert q[1..][k] == q[k + 1];
      assert approaches[1..][k] == approaches[k + 1];
    }
  }

  /** Dropping a head that is visited, or whose original colour is not the
      reference, keeps the closure. */
  lemma SkipKeepsClosure(image: ImageData, ref: Color, isFilled: seq<bool>, q: seq<Point>)
    requires image.Valid() && |q| > 0 && |isFilled| == image.width * image.height
    requires InGrid(image.width, image.height, q[0])
    requires ClosedUpToQueue(image, ref, isFilled, q)
    requires isFilled[Index(image.width, image.height, q[0])] || !HasColor(image, q[0], ref)
    ensures ClosedUpToQueue(image, ref, isFilled, q[1..])
  {
    var w, h := image.width, image.height;
    forall a, n | InGrid(w, h, a) && InGrid(w, h, n) && Adjacent(a, n) &&
                  isFilled[Index(w, h, a)] && HasColor(image, n, ref)
      ensures isFilled[Index(w, h, n)] || n in q[1..]
    {
      if n != q[0] && !isFilled[Index(w, h, n)] {
        var k :| 0 <= k < |q| && q[k] == n;
        assert q[1..][k - 1] == n;
      }
    }
  }

  /** Dropping a queued point that is visited, or whose colour differs from
      the reference, keeps the invariant. */
  lemma SkipKeepsInvariant(image: ImageData, ref: Color, start: Point, color: Color,
                           data: seq<Byte>, isFilled: seq<bool>, q: seq<Point>,
                           approaches: seq<seq<Point>>, paths: map<Point, seq<Point>>)
    requires image.Valid() && |q| > 0
    requires FillInvariant(image, ref, start, color, data, isFilled, q, approaches, paths)
    requires isFilled[Index(image.width, image.height, q[0])] ||
             PixelAt(data, Index(image.width, image.height, q[0])) != ref
    ensures FillInvariant(image, ref, start, color, data, isFilled, q[1..], approaches[1..], paths)
  {
    var w, h := image.width, image.height;
    DropKeepsQueue(image, ref, start, q, approaches);
    SkipKeepsClosure(image, ref, isFilled, q);
    if !isFilled[Index(w, h, start)] && start != q[0] {
      var k :| 0 <= k < |q| && q[k] == start;
      assert q[1..][k - 1] == start;
    }
  }

  /** The queue part of VisitKeepsInvariant. */
  lemma VisitKeepsQueue(image: ImageData, ref: Color, start: Point, q: seq<Point>, approaches: seq<seq<Point>>)
    requires image.Valid() && |q| > 0
    requires QueueWitnessed(image, ref, start, q, approaches)
    requires HasColor(image, q[0], ref)
    ensures var ns := Neighbours(image.width, image.height, q[0]);
      QueueWitnessed(image, ref, start, q[1..] + ns,
        approaches[1..] + Extend(approaches[0], ns))
  {
    var w, h := image.width, image.height;
    var ns := Neighbours(w, h, q[0]);
    var q' := q[1..] + ns;
    var approaches' := approaches[1..] + Extend(approaches[0], ns);
    forall k | 0 <= k < |q'|
      ensures InGrid(w, h, q'[k]) && IsApproach(image, ref, start, approaches'[k], q'[k])
    {
      if k >= |q| - 1 {
        var n := ns[k - (|q| - 1)];
        assert n in ns;
        var walk := approaches[0] + [n];
        assert approaches'[k] == walk;
        assert walk[|walk| - 1] == n;
        assert IsApproach(image, ref, start, walk, n);
      } else {
        assert q'[k] == q[k + 1];
        assert approaches'[k] == approaches[k + 1];
      }
    }
  }

  /** The closure part of VisitKeepsInvariant. */
  lemma VisitKeepsClosure(image: ImageData, ref: Color, isFilled: seq<bool>, q: seq<Point>)
    requires image.Valid() && |q| > 0 && |isFilled| == image.width * image.height
    requires InGrid(image.width, image.height, q[0])
    requires ClosedUpToQueue(image, ref, isFilled, q)
    ensures ClosedUpToQueue(image, ref, isFilled[Index(image.width, image.height, q[0]) := true],
                            q[1..] + Neighbours(image.width, image.height, q[0]))
  {
    var w, h := image.width, image.height;
    var p := q[0];
    var ns := Neighbours(w, h, p);
    var isFilled' := isFilled[Index(w, h, p) := true];
    var q' := q[1..] + ns;
    forall a, n | InGrid(w, h, a) && InGrid(w, h, n) && Adjacent(a, n) &&
                  isFilled'[Index(w, h, a)] && HasColor(image, n, ref)
      ensures isFilled'[Index(w, h, n)] || n in q'
    {
      IndexInjective(w, h, p, a);
      IndexInjective(w, h, p, n);
      if a == p {
        assert n in ns;
      } else if n != p && !isFilled[Index(w, h, n)] {
        assert n in q;
        var k :| 0 <= k < |q| && q[k] == n;
        assert q'[k - 1] == n;
      }
    }
  }

  /** Visiting the head of the queue (unvisited, of the reference colour):
      painting it, marking it and queueing its neighbours keeps the
      invariant. */
  lemma VisitKeepsInvariant(image: ImageData, ref: Color, start: Point, color: Color,
                            data: seq<Byte>, isFilled: seq<bool>, q: seq<Point>,
                            approaches: seq<seq<Point>>, paths: map<Point, seq<Point>>)
    requires image.Valid() && |q| > 0
    requires FillInvariant(image, ref, start, color, data, isFilled, q, approaches, paths)
    requires !isFilled[Index(image.width, image.height, q[0])]
    requires PixelAt(data, Index(image.width, image.height, q[0])) == ref
    ensures var p := q[0];
      var ns := Neighbours(image.width, image.height, p);
      FillInvariant(image, ref, start, color,
        WriteColor(data, 4 * Index(image.width, image.height, p), color),
        isFilled[Index(image.width, image.height, p) := true],
        q[1..] + ns,
        approaches[1..] + Extend(approaches[0], ns),
        paths[p := approaches[0]])
  {
    var w, h := image.width, image.height;
    var p := q[0];
    var i := Index(w, h, p);
    var isFilled' := isFilled[i := true];
    var q' := q[1..] + Neighbours(w, h, p);
    assert HasColor(image, p, ref);
    VisitKeepsQueue(image, ref, start, q, approaches);
    VisitKeepsClosure(image, ref, isFilled, q);
    forall r | InGrid(w, h, r)
      ensures isFilled'[Index(w, h, r)] == (r == p || isFilled[Index(w, h, r)])
    {
      IndexInjective(w, h, p, r);
    }
    assert IsColorPath(image, ref, start, approaches[0], p);
    WriteCellOnly(data, w, h, p, color);
    if !isFilled[Index(w, h, start)] && start != p {
      var k :| 0 <= k < |q| && q[k] == start;
      assert q'[k - 1] == start;
    }
  }

  /** The four guarded pushes of fill: each neighbour is queued only when it
      lies inside the image. */
  method PushNeighbours(q: seq<Point>, width: int, height: int, p: Point) returns (q': seq<Point>)
    requires InGrid(width, height, p)
    ensures q' == q + Neighbours(width, height, p)
  {
    q' := q;
    if p.x > 0 {
      q' := q' + [Point(p.x - 1, p.y)];
    }
    if p.y > 0 {
      q' := q' + [Point(p.x, p.y - 1)];
    }
    if p.x < width - 1 {
      q' := q' + [Point(p.x + 1, p.y)];
    }
    if p.y < height - 1 {
      q' := q' + [Point(p.x, p.y + 1)];
    }
  }

  /** When the queue is empty the invariant says the visited cells are
      exactly the reference-coloured region of the start. */
  lemma InvariantAtEnd(image: ImageData, ref: Color, start: Point, color: Color,
                       data: seq<Byte>, isFilled: seq<bool>, paths: map<Point, seq<Point>>)
    requires image.Valid()
    requires FillInvariant(image, ref, start, color, data, isFilled, [], [], paths)
    ensures forall p :: InGrid(image.width, image.height, p) ==>
      (isFilled[Index(image.width, image.height, p)] <==> Reaches(image, ref, start, p))
  {
    forall p | InGrid(image.width, image.height, p)
      ensures isFilled[Index(image.width, image.height, p)] <==> Reaches(image, ref, start, p)
    {
      if isFilled[Index(image.width, image.height, p)] {
        assert IsColorPath(image, ref, start, paths[p], p);
      }
      if Reaches(image, ref, start, p) {
        var path :| IsColorPath(image, ref, start, path, p);
        ClosedRegionContainsReach(image, ref, start, isFilled, path, p);
      }
    }
  }

  /** The ghost log of written pixels: no pixel twice, and exactly the
      visited ones; so there are never more writes than pixels. */
  ghost predicate WriteLog(width: int, height: int, isFilled: seq<bool>, writes: seq<Point>)
    requires |isFilled| == width * height
  {
    && (forall a, b :: 0 <= a < b < |writes| ==> writes[a] != writes[b])
    && (forall k :: 0 <= k < |writes| ==> InGrid(width, height, writes[k]))
    && (forall p :: InGrid(width, height, p) ==> (p in writes <==> isFilled[Index(width, height, p)]))
    && |writes| + Unmarked(isFilled) == width * height
  }

  /** Visiting an unvisited pixel extends the log by that pixel. */
  lemma VisitKeepsLog(width: int, height: int, isFilled: seq<bool>, writes: seq<Point>, p: Point)
    requires |isFilled| == width * height && InGrid(width, height, p)
    requires WriteLog(width, height, isFilled, writes)
    requires !isFilled[Index(width, height, p)]
    ensures WriteLog(width, height, isFilled[Index(width, height, p) := true], writes + [p])
  {
    MarkOne(isFilled, Index(width, height, p));
    forall r | InGrid(width, height, r)
      ensures isFilled[Index(width, height, p) := true][Index(width, height, r)] ==
              (r == p || isFilled[Index(width, height, r)])
    {
      IndexInjective(width, height, p, r);
    }
  }

  /** Nothing visited yet: the log is empty. */
  lemma {:induction false} EmptyLog(width: int, height: int)
    requires width >= 1 && height >= 1
    ensures WriteLog(width, height, seq(width * height, _ => false), [])
  {
    AllUnmarked(width * height);
  }

  lemma {:induction false} AllUnmarked(n: nat)
    ensures Unmarked(seq(n, _ => false)) == n
  {
    if n > 0 {
      assert seq(n, _ => false)[1..] == seq(n - 1, _ => false);
      AllUnmarked(n - 1);
    }
  }

  /** When the visited pixels are exactly the reference-coloured region and
      the fill colour equals the reference, painting them changes no byte. */
  lemma SameColorRepaintIsNoOp(image: ImageData, ref: Color, start: Point, color: Color,
                               data: seq<Byte>, isFilled: seq<bool>)
    requires image.Valid() && |data| == |image.data| && |isFilled| == image.width * image.height
    requires forall p :: InGrid(image.width, image.height, p) ==>
      (isFilled[Index(image.width, image.height, p)] <==> Reaches(image, ref, start, p))
    requires PaintedExactly(image, color, data, isFilled)
    requires color.Clamped() == ref
    ensures data == image.data
  {
    var w, h := image.width, image.height;
    forall i | 0 <= i < w * h
      ensures PixelAt(data, i) == PixelAt(image.data, i)
    {
      PixelIndexOnto(w, h, i);
      var p := Point(i % w, i / w);
      assert Index(w, h, p) == i;
      if isFilled[i] {
        assert Reaches(image, ref, start, p);
        var path :| IsColorPath(image, ref, start, path, p);
      }
    }
    SamePixelsSameBytes(data, image.data, w * h);
  }

  /** Before the loop: nothing visited, only the start queued. */
  lemma InvariantAtStart(image: ImageData, start: Point, color: Color)
    requires image.Valid() && InGrid(image.width, image.height, start)
    ensures var ref := PixelAt(image.data, Index(image.width, image.height, start));
      FillInvariant(image, ref, start, color, image.data, seq(image.width * image.height, _ => false),
                    [start], [[start]], map[])
  {
    var ref := PixelAt(image.data, Index(image.width, image.height, start));
    assert IsApproach(image, ref, start, [start], start);
  }

  /** fill. The start coordinates are floored and must lie inside the image
      (Canvas.tsx does not check them). On return the visited array marks
      exactly the 4-connected region of the start pixel's original colour;
      those pixels hold the fill colour and every other pixel is unchanged. */
  method Fill(image: ImageData, x: real, y: real, color: Color)
    returns (data: seq<Byte>, isFilled: seq<bool>, ghost writes: seq<Point>, ghost pushes: nat)
    requires image.Valid()
    requires 0 <= x.Floor < image.width && 0 <= y.Floor < image.height
    ensures |data| == |image.data| && |isFilled| == image.width * image.height
    ensures forall p :: InGrid(image.width, image.height, p) ==>
      (isFilled[Index(image.width, image.height, p)] <==>
       Reaches(image, PixelAt(image.data, Index(image.width, image.height, Point(x.Floor, y.Floor))),
               Point(x.Floor, y.Floor), p))
    ensures forall p :: InGrid(image.width, image.height, p) ==>
      PixelAt(data, Index(image.width, image.height, p)) ==
        if isFilled[Index(image.width, image.height, p)] then color.Clamped()
        else PixelAt(image.data, Index(image.width, image.height, p))
    ensures isFilled[Index(image.width, image.height, Point(x.Floor, y.Floor))]
    ensures PixelAt(data, Index(image.width, image.height, Point(x.Floor, y.Floor))) == color.Clamped()
    ensures color.Clamped() == PixelAt(image.data, Index(image.width, image.height, Point(x.Floor, y.Floor))) ==>
      data == image.data
    ensures forall a, b :: 0 <= a < b < |writes| ==> writes[a] != writes[b]
    ensures forall p :: InGrid(image.width, image.height, p) ==>
      (p in writes <==> isFilled[Index(image.width, image.height, p)])
    ensures |writes| <= image.width * image.height && pushes <= 4 * image.width * image.height
  {
    var width, height := image.width, image.height;
    var start := Point(x.Floor, y.Floor);
    isFilled := seq(width * height, _ => false);
    var colorAtPoint := GetColorAt(image.data, 4 * Index(width, height, start));
    var q := [start];
    data := image.data;
    ghost var paths: map<Point, seq<Point>> := map[];
    ghost var approaches := [[start]];
    InvariantAtStart(image, start, color);
    writes, pushes := [], 0;
    EmptyLog(width, height);
    while |q| != 0
      invariant FillInvariant(image, colorAtPoint, start, color, data, isFilled, q, approaches, paths)
      invariant WriteLog(width, height, isFilled, writes)
      invariant pushes <= 4 * |writes|
      decreases Unmarked(isFilled), |q|
    {
      var p := q[0];
      var i := Index(width, height, p);
      if isFilled[i] {
        SkipKeepsInvariant(image, colorAtPoint, start, color, data, isFilled, q, approaches, paths);
        q, approaches := q[1..], approaches[1..];
        continue;
      }
      var j := i * 4;
      if !IsEqualColor(colorAtPoint, GetColorAt(data, j)) {
        SkipKeepsInvariant(image, colorAtPoint, start, color, data, isFilled, q, approaches, paths);
        q, approaches := q[1..], approaches[1..];
        continue;
      }
      VisitKeepsInvariant(image, colorAtPoint, start, color, data, isFilled, q, approaches, paths);
      MarkOne(isFilled, i);
      VisitKeepsLog(width, height, isFilled, writes, p);
      writes := writes + [p];
      pushes := pushes + |Neighbours(width, height, p)|;
      ghost var approach := approaches[0];
      data := WriteColor(data, j, color);
      isFilled := isFilled[i := true];
      paths := paths[p := approach];
      q := PushNeighbours(q[1..], width, height, p);
      approaches := approaches[1..] + Extend(approach, Neighbours(width, height, p));
    }
    InvariantAtEnd(image, colorAtPoint, start, color, data, isFilled, paths);
    assert IsColorPath(image, colorAtPoint, start, [start], start);
    if color.Clamped() == colorAtPoint {
      SameColorRepaintIsNoOp(image, colorAtPoint, start, color, data, isFilled);
    }
  }

  /** Filling twice with the same colour at the same point leaves the buffer
      as one fill does: the second fill's reference colour is the fill colour
      itself. */
  method FillTwice(image: ImageData, x: real, y: real, color: Color)
    returns (once: seq<Byte>, twice: seq<Byte>)
    requires image.Valid()
    requires 0 <= x.Floor < image.width && 0 <= y.Floor < image.height
    ensures |once| == |image.data|
    ensures twice == once
  {
    var isFilled: seq<bool>;
    ghost var writes: seq<Point>;
    ghost var pushes: nat;
    once, isFilled, writes, pushes := Fill(image, x, y, color);
    twice, isFilled, writes, pushes := Fill(ImageData(image.width, image.height, once), x, y, color);
  }
}

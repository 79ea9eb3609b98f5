/** The Canvas component's gesture state machine. Pointer events are reduced
    to their offset coordinates; the pixel work they trigger is recorded as
    calls (drawLine, fill, clear, a paint of the buffer), and requestFrame
    is the flag-based scheduler of Frames. */
module CanvasComponent {
  import opened Rgba
  import Frames
  import CanvasPixels

  datatype Tool = Pen | Eraser | FillTool

  /** The props that change behaviour: the selected tool and colour. */
  datatype Props = Props(tool: Tool, color: Color)

  /** The effects of a handler, in order. */
  datatype Call =
    | DrawLineCall(x0: real, y0: real, x1: real, y1: real, lineWidth: real, color: Color)
    | FillCall(x: real, y: real, color: Color)
    | ClearCall
    | PaintCall

  /** The component's fields that the handlers read and write. */
  datatype Component = Component(prevX: real, prevY: real, isPointerActive: bool, isPointerMoved: bool,
                                 frames: Frames.Scheduler)

  /** A handler's outcome: the next state and the calls it made. */
  datatype Step = Step(next: Component, calls: seq<Call>)

  /** A pointer position in CSS pixels (offsetX, offsetY). */
  datatype Pos = Pos(x: real, y: real)

  datatype Event =
    | PointerDown(x: real, y: real)
    | PointerMove(x: real, y: real)
    | PointerUp
    | AnimationFrame
    | ClearCanvas
    | Mount

  datatype Input = Input(props: Props, event: Event)

  /** Device pixels per CSS pixel. */
  const ScaleFactor: real := 2.0

  /** The stroke width of pen and eraser, in CSS pixels. */
  const LineWidth: real := 3.0

  /** The eraser paints opaque white. */
  const EraserColor: Color := Color(255, 255, 255, 255)

  /** The field initialisers. */
  const Initial: Component := Component(-1.0, -1.0, false, false, Frames.Idle)

  /** A freshly constructed component has no gesture and no repaint
      pending, so the scheduler starts coalesced. */
  lemma InitialIsIdle()
    ensures Frames.Coalesced(Initial.frames)
    ensures !Initial.isPointerActive && !Initial.frames.isRequestingFrame
  {
  }

  /** The constructor's buffer: (width * scale) by (height * scale) pixels,
      cleared. */
  function NewImage(width: int, height: int): (image: ImageData)
    requires width >= 1 && height >= 1
    ensures image.Valid()
    ensures image.width == width * 2 && image.height == height * 2
    ensures forall p :: 0 <= p < image.width * image.height ==> PixelAt(image.data, p) == EraserColor
  {
    var w, h := width * 2, height * 2;
    ImageData(w, h, CanvasPixels.Clear(seq(w * h * 4, _ => 0)))
  }

  /** The eraser's colour is exactly what clearing writes. */
  lemma EraserMatchesClear(data: seq<Byte>, p: int)
    requires 0 <= p && 4 * p + 4 <= |data|
    ensures PixelAt(CanvasPixels.Clear(data), p) == EraserColor == White
  {
  }

  /** The colour pen and eraser strokes are drawn in. */
  function StrokeColor(props: Props): Color {
    if props.tool == Eraser then EraserColor else props.color
  }

  /** The drawLine call for a stroke segment between two positions. */
  function Segment(from: Pos, to: Pos, props: Props): Call {
    DrawLineCall(from.x * ScaleFactor, from.y * ScaleFactor, to.x * ScaleFactor, to.y * ScaleFactor,
                 LineWidth * ScaleFactor, StrokeColor(props))
  }

  /** The near-zero-length drawLine call that puts a round dab at a position. */
  function Dot(at: Pos, props: Props): Call {
    DrawLineCall(at.x * ScaleFactor, at.y * ScaleFactor, at.x * ScaleFactor + 0.01, at.y * ScaleFactor,
                 LineWidth * ScaleFactor, StrokeColor(props))
  }

  function Prev(c: Component): Pos {
    Pos(c.prevX, c.prevY)
  }

  /** componentDidMount: the first repaint is requested. */
  function OnMount(c: Component): (r: Step)
    ensures Frames.Coalesced(c.frames) ==> Frames.Coalesced(r.next.frames) && r.next.frames.isRequestingFrame
    ensures r.calls == []
    ensures r.next.(frames := c.frames) == c
  {
    Step(c.(frames := Frames.RequestFrame(c.frames)), [])
  }

  /** onPointerDown: pen and eraser start a stroke at the position; fill
      fills at the scaled position and requests a repaint. */
  function OnPointerDown(c: Component, props: Props, x: real, y: real): (r: Step)
    ensures Frames.Coalesced(c.frames) ==> Frames.Coalesced(r.next.frames)
    ensures props.tool != FillTool ==>
      r.calls == [] && r.next == c.(prevX := x, prevY := y, isPointerActive := true)
    ensures props.tool == FillTool ==>
      r.calls == [FillCall(x * ScaleFactor, y * ScaleFactor, props.color)] &&
      r.next.frames.isRequestingFrame && r.next.(frames := c.frames) == c
  {
    match props.tool
    case Pen | Eraser =>
      Step(c.(prevX := x, prevY := y, isPointerActive := true), [])
    case FillTool =>
      Step(c.(frames := Frames.RequestFrame(c.frames)), [FillCall(x * ScaleFactor, y * ScaleFactor, props.color)])
  }

  /** onPointerMove: while a gesture is active, marks it moved; with pen or
      eraser, strokes from the previous position to this one, requests a
      repaint and remembers this position. */
  function OnPointerMove(c: Component, props: Props, x: real, y: real): (r: Step)
    ensures Frames.Coalesced(c.frames) ==> Frames.Coalesced(r.next.frames)
    ensures !c.isPointerActive ==> r == Step(c, [])
    ensures c.isPointerActive ==> r.next.isPointerActive && r.next.isPointerMoved
    ensures c.isPointerActive && props.tool != FillTool ==>
      r.calls == [Segment(Prev(c), Pos(x, y), props)] && Prev(r.next) == Pos(x, y)
    ensures props.tool == FillTool ==> r.calls == [] && Prev(r.next) == Prev(c)
    ensures c.isPointerActive && props.tool != FillTool ==> r.next.frames == Frames.RequestFrame(c.frames)
    ensures props.tool == FillTool ==> r.next.frames == c.frames
  {
    if !c.isPointerActive then Step(c, [])
    else
      var moved := c.(isPointerMoved := true);
      match props.tool
      case FillTool => Step(moved, [])
      case Pen | Eraser =>
        Step(moved.(frames := Frames.RequestFrame(c.frames), prevX := x, prevY := y),
             [Segment(Prev(c), Pos(x, y), props)])
  }

  /** onPointerUp: ends an active gesture. isPointerMoved is cleared before
      it is tested, so pen and eraser always finish with a dot at the last
      position, whether or not the pointer moved. */
  function OnPointerUp(c: Component, props: Props): (r: Step)
    ensures Frames.Coalesced(c.frames) ==> Frames.Coalesced(r.next.frames)
    ensures !r.next.isPointerActive
    ensures c.isPointerActive ==> !r.next.isPointerMoved && Prev(r.next) == Prev(c)
    ensures !c.isPointerActive ==> r == Step(c, [])
    ensures c.isPointerActive && props.tool != FillTool ==> r.calls == [Dot(Prev(c), props)]
    ensures props.tool == FillTool ==> r.calls == []
    ensures c.isPointerActive && props.tool != FillTool ==> r.next.frames == Frames.RequestFrame(c.frames)
    ensures props.tool == FillTool ==> r.next.frames == c.frames
  {
    if !c.isPointerActive then Step(c, [])
    else
      var ended := c.(isPointerActive := false, isPointerMoved := false);
      if !ended.isPointerMoved && props.tool != FillTool then
        Step(ended.(frames := Frames.RequestFrame(c.frames)), [Dot(Prev(c), props)])
      else
        Step(ended, [])
  }

  /** The host's animation-frame tick: each pending callback clears the flag
      and paints the buffer as it is at that moment. */
  function OnAnimationFrame(c: Component): (r: Step)
    ensures Frames.Coalesced(c.frames) ==> Frames.Coalesced(r.next.frames) && |r.calls| <= 1
    ensures forall k :: 0 <= k < |r.calls| ==> r.calls[k] == PaintCall
    ensures |r.calls| > 0 <==> c.frames.scheduled > 0
    ensures Frames.Coalesced(c.frames) ==> r.next.frames == Frames.Idle
    ensures r.next.(frames := c.frames) == c
  {
    var (frames, paints) := Frames.Tick(c.frames);
    Step(c.(frames := frames), seq(paints, _ => PaintCall))
  }

  /** clearCanvas: clears the buffer and paints it at once, bypassing the
      scheduler. */
  function OnClearCanvas(c: Component): (r: Step)
    ensures r.next == c
    ensures r.calls == [ClearCall, PaintCall]
  {
    Step(c, [ClearCall, PaintCall])
  }

  /** Dispatches one input to its handler. */
  function Handle(c: Component, input: Input): (r: Step)
    ensures Frames.Coalesced(c.frames) ==> Frames.Coalesced(r.next.frames)
  {
    match input.event
    case PointerDown(x, y) => OnPointerDown(c, input.props, x, y)
    case PointerMove(x, y) => OnPointerMove(c, input.props, x, y)
    case PointerUp => OnPointerUp(c, input.props)
    case AnimationFrame => OnAnimationFrame(c)
    case ClearCanvas => OnClearCanvas(c)
    case Mount => OnMount(c)
  }

  /** Feeds a sequence of inputs through the handlers, collecting the calls. */
  function Run(c: Component, trace: seq<Input>): Step
    decreases |trace|
  {
    if |trace| == 0 then Step(c, [])
    else
      var first := Handle(c, trace[0]);
      var rest := Run(first.next, trace[1..]);
      Step(rest.next, first.calls + rest.calls)
  }

  /** The number of paints among some calls. */
  function Paints(calls: seq<Call>): nat {
    if |calls| == 0 then 0 else (if calls[0] == PaintCall then 1 else 0) + Paints(calls[1..])
  }

  /** The number of inputs that may paint: ticks and clearCanvas. */
  function PaintingInputs(trace: seq<Input>): nat {
    if |trace| == 0 then 0
    else (if trace[0].event.AnimationFrame? || trace[0].event.ClearCanvas? then 1 else 0) + PaintingInputs(trace[1..])
  }

  lemma {:induction false} PaintsOfConcat(a: seq<Call>, b: seq<Call>)
    ensures Paints(a + b) == Paints(a) + Paints(b)
    decreases |a|
  {
    if |a| > 0 {
      assert (a + b)[1..] == a[1..] + b;
      PaintsOfConcat(a[1..], b);
    } else {
      assert a + b == b;
    }
  }

  /** The paints one input makes: at most one, and only for a tick or a
      clear. */
  lemma HandlePaints(c: Component, input: Input)
    requires Frames.Coalesced(c.frames)
    ensures Paints(Handle(c, input).calls) <=
      if input.event.AnimationFrame? || input.event.ClearCanvas? then 1 else 0
  {
    var calls := Handle(c, input).calls;
    match input.event
    case AnimationFrame =>
      if |calls| == 1 {
        assert calls[1..] == [];
      }
    case ClearCanvas =>
      assert calls[1..][1..] == [];
    case Mount =>
    case PointerDown(_, _) | PointerMove(_, _) | PointerUp =>
      if |calls| == 1 {
        assert calls[1..] == [];
      }
  }

  /** Whatever the inputs, at most one repaint is ever pending, and the
      buffer is painted at most once per tick or clear. */
  lemma {:induction false} RunCoalescesPaints(c: Component, trace: seq<Input>)
    requires Frames.Coalesced(c.frames)
    ensures Frames.Coalesced(Run(c, trace).next.frames)
    ensures Paints(Run(c, trace).calls) <= PaintingInputs(trace)
    decreases |trace|
  {
    if |trace| > 0 {
      var first := Handle(c, trace[0]);
      RunCoalescesPaints(first.next, trace[1..]);
      PaintsOfConcat(first.calls, Run(first.next, trace[1..]).calls);
      HandlePaints(c, trace[0]);
    }
  }

  /** From construction on, whatever the inputs, at most one repaint is
      pending and the buffer is painted no more often than there are ticks
      and clears. */
  lemma InitialRunCoalescesPaints(trace: seq<Input>)
    ensures Frames.Coalesced(Run(Initial, trace).next.frames)
    ensures Paints(Run(Initial, trace).calls) <= PaintingInputs(trace)
  {
    InitialIsIdle();
    RunCoalescesPaints(Initial, trace);
  }

  /** Pointer moves to the given positions, all under the same props. */
  function Moves(props: Props, to: seq<Pos>): (trace: seq<Input>)
    ensures |trace| == |to|
  {
    seq(|to|, k requires 0 <= k < |to| => Input(props, PointerMove(to[k].x, to[k].y)))
  }

  /** The position a stroke is at before its k-th move. */
  function Before(c: Component, to: seq<Pos>, k: int): Pos
    requires 0 <= k <= |to|
  {
    if k == 0 then Prev(c) else to[k - 1]
  }

  /** During an active pen or eraser gesture, moves draw a connected
      polyline: the k-th segment runs from where the previous one ended to
      the k-th position, and the stroke ends at the last position. */
  lemma {:induction false} MovesDrawPolyline(c: Component, props: Props, to: seq<Pos>)
    requires c.isPointerActive && props.tool != FillTool
    ensures |Run(c, Moves(props, to)).calls| == |to|
    ensures forall k :: 0 <= k < |to| ==>
      Run(c, Moves(props, to)).calls[k] == Segment(Before(c, to, k), to[k], props)
    ensures Run(c, Moves(props, to)).next.isPointerActive
    ensures |to| > 0 ==> Prev(Run(c, Moves(props, to)).next) == to[|to| - 1]
    decreases |to|
  {
    if |to| > 0 {
      var first := Handle(c, Moves(props, to)[0]);
      assert Moves(props, to)[1..] == Moves(props, to[1..]);
      MovesDrawPolyline(first.next, props, to[1..]);
    }
  }

  /** A pen or eraser press released without moving leaves one dot at the
      press position, and ends with no gesture active. */
  lemma TapDrawsOneDot(c: Component, props: Props, at: Pos)
    requires props.tool != FillTool
    ensures var r := Run(c, [Input(props, PointerDown(at.x, at.y)), Input(props, PointerUp)]);
      r.calls == [Dot(at, props)] && !r.next.isPointerActive
  {
    var trace := [Input(props, PointerDown(at.x, at.y)), Input(props, PointerUp)];
    var down := OnPointerDown(c, props, at.x, at.y);
    var up := OnPointerUp(down.next, props);
    assert trace[1..] == [Input(props, PointerUp)];
    assert trace[1..][1..] == [];
    assert Run(down.next, trace[1..]) == Step(up.next, up.calls + []);
  }

  /** A pen or eraser move during a gesture is painted: from a coalesced
      scheduler, the next tick paints exactly once and leaves nothing
      pending. */
  lemma MoveThenTickPaintsOnce(c: Component, props: Props, at: Pos)
    requires Frames.Coalesced(c.frames) && c.isPointerActive && props.tool != FillTool
    ensures var r := Run(c, [Input(props, PointerMove(at.x, at.y)), Input(props, AnimationFrame)]);
      r.calls == [Segment(Prev(c), at, props), PaintCall] && r.next.frames == Frames.Idle
  {
    var trace := [Input(props, PointerMove(at.x, at.y)), Input(props, AnimationFrame)];
    var move := OnPointerMove(c, props, at.x, at.y);
    var tick := OnAnimationFrame(move.next);
    assert trace[1..] == [Input(props, AnimationFrame)];
    assert trace[1..][1..] == [];
    assert Run(move.next, trace[1..]) == Step(tick.next, tick.calls + []);
  }

  /** Releasing an active gesture does the same whether or not the pointer
      moved. */
  lemma UpIgnoresMoved(c: Component, props: Props)
    requires c.isPointerActive
    ensures OnPointerUp(c.(isPointerMoved := true), props) == OnPointerUp(c.(isPointerMoved := false), props)
  {
  }
}

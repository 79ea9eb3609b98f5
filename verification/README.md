# Pixel editor core in Dafny

This project models the core of a small browser pixel-art editor. It has two parts.

The first is the **virtual image** (`VirtualImageData`). It is an enlarged view of the picture meant for a tiled display; none of Canvas.tsx, Preview.tsx, App.tsx or index.tsx imports or constructs it (Preview.tsx tiles with its own rendering code). The picture sits in the middle, framed by two grid lines on each axis. Beyond the lines are gutters half the picture's size, and they show the opposite edge of the picture, so the view reads as a seamless tile.

The second is the **editing canvas** (`Canvas`). It holds an RGBA buffer at twice the CSS resolution. Its free-standing pixel routines are the flood fill, `clear`, colour lookup and comparison, and the thick-line stroke. The component reacts to pointer events and coalesces repaints through `requestFrame`.

Modules:

- `Rgba` (rgba.dfy): bytes, colours and the row-major RGBA buffer.
  - A colour holds four unbounded integers, so the sentinel `(-1, -1, -1, -1)` is a colour.
  - Storing a colour clamps each channel to 0..255, as a `Uint8ClampedArray` does.
- `JsMath` (js_math.dfy): `Math.round`, `Math.min` and `Math.max` on reals.
- `VirtualImage` (virtual_image.dfy): the constructor, `toIndex`, `getColorAt` and `setColorAt`.
  - Each axis is one `Bands` value: gutter, line, content, line, gutter.
  - The independent reference is the tiling phase `(v - contentStart) mod (lineWidth + content)`. That is the stride `drawToCanvas` tiles with.
  - A thrown range error is the `Failure` of a `Result`, carrying the axis that failed.
- `CanvasPixels` (canvas_pixels.dfy): `getColorAt`, `isEqualColor`, `clear`, and `drawLine`'s scan box and write loop.
  - The floating-point capsule test is a parameter `covers`.
  - `drawLine` addresses the buffer directly, never through the virtual image.
- `FloodFill` (flood_fill.dfy): `fill`, the worklist flood fill.
  - It is proved against a declarative definition: 4-connected paths of the reference colour.
- `Frames` (frames.dfy): the `requestFrame` flag and the animation-frame callbacks it schedules.
- `CanvasComponent` (canvas_component.dfy): the pointer handlers, `componentDidMount` and `clearCanvas`.
  - It covers the constructor's buffer and a tick of the host's animation frame.
  - Events are reduced to their offset coordinates.
  - Effects are returned as a list of calls: drawLine, fill, clear and paint.

## Model

| member | source | states |
|---|---|---|
| VirtualImage.Make | src/VirtualImageData.ts:10-16 | The grid-line width is the scale factor rounded as `Math.round` does (within half a unit, ties up). A valid buffer with a non-negative scale gives a valid virtual image. |
| VirtualImage.BandsPartitionAxis | src/VirtualImageData.ts:12-15 | On one axis the gutter, line, content, line and gutter bands never overlap. Together they cover exactly [0, content + 2·lineWidth + 2·floor(content/2)), the virtual width and height. Mapped coordinates land in [0, content). |
| VirtualImage.MapMatchesTiling | src/VirtualImageData.ts:28-29 | A coordinate is a grid-line pixel iff its tiling phase is past the content. Otherwise the per-axis mapping of `toIndex` equals that phase: the picture repeats with period lineWidth + content, as it is painted. |
| VirtualImage.MapWraps | src/VirtualImageData.ts:66-71 | A near-gutter coordinate and the coordinate one period further in map to the same content position, and neither lies on a line. So does a far-gutter coordinate and the one a period back. |
| VirtualImage.ToIndex | src/VirtualImageData.ts:40-87 | Every offset it yields is non-negative, a multiple of 4, and leaves room for four bytes in the buffer. |
| VirtualImage.ToIndexClassifies | src/VirtualImageData.ts:58-84 | For all integer pairs, four iffs. The result is -1 exactly when x or y is on a grid line, even when the other coordinate is out of range: the line checks come first. It is an x range error exactly when no line is hit and x is outside the virtual width. It is a y range error exactly when x is inside and y is outside. It is an offset exactly when both are inside and off the lines. |
| VirtualImage.ToIndexMatchesTiling | src/VirtualImageData.ts:66-86 | Inside the virtual rectangle and off the lines, the offset is 4·(phaseX + phaseY·width). The phases are the tiling phases of the two coordinates. |
| VirtualImage.ToIndexReachesEveryPixel | src/VirtualImageData.ts:68-69 | Every content pixel is addressed by some coordinate inside the virtual rectangle: the content band is a translation, so `toIndex` is onto. |
| VirtualImage.ToIndexWrapsHorizontally | src/VirtualImageData.ts:66-71 | A gutter column addresses what the column one period (lineWidth + width) away addresses, on every row. |
| VirtualImage.ToIndexWrapsVertically | src/VirtualImageData.ts:76-81 | A gutter row addresses what the row one period (lineWidth + height) away addresses, on every column. |
| VirtualImage.GetColorAt | src/VirtualImageData.ts:89-96 | It fails iff `toIndex` throws. It returns the sentinel (-1, -1, -1, -1) iff the coordinate is on a grid line. Any other colour it returns consists of bytes. |
| VirtualImage.SetColorAt | src/VirtualImageData.ts:98-106 | It fails iff `toIndex` throws. On a grid line it changes nothing. Otherwise the four bytes at the offset hold the clamped colour and every other byte is unchanged. Dimensions and line width are kept. |
| VirtualImage.ReadAfterWrite | src/VirtualImageData.ts:89-106 | After a write, every coordinate aliasing the same pixel reads the clamped colour. When the colour is already bytes, it reads the colour itself. |
| VirtualImage.ReadAfterWriteWrapped | src/VirtualImageData.ts:66-81 | A colour written in a gutter reads back at the written coordinate. It also reads back one period further in: right of the left gutter, left of the right gutter, below the top gutter and above the bottom gutter. |
| VirtualImage.WriteLeavesOtherPixels | src/VirtualImageData.ts:98-106 | A write leaves every coordinate addressing a different pixel (or a line, or out of range) reading exactly what it read before. |
| Rgba.Clamp | src/Canvas.tsx:280 | Storing a channel keeps values in 0..255 and changes nothing else. |
| Rgba.WriteColor | src/Canvas.tsx:280 | Writing a colour at byte offset i sets those four bytes to the clamped channels and leaves every other byte and the length unchanged. |
| Rgba.WritePixelAt | src/Canvas.tsx:249-253 | Writing pixel (x, y) at (x + y·width)·4 changes that pixel to the clamped colour and no other pixel of the grid. |
| Rgba.PixelIndexInjective | src/Canvas.tsx:276 | Distinct in-grid coordinates have distinct indices x + y·width. |
| Rgba.PixelIndexOnto | src/Canvas.tsx:276 | Every index in [0, width·height) comes from the in-grid coordinate (i mod width, i div width). |
| CanvasPixels.GetColorAt | src/Canvas.tsx:289-292 | The colour's four channels are the four bytes starting at i, so they are bytes. |
| CanvasPixels.IsEqualColor | src/Canvas.tsx:294-296 | Two colours compare equal iff they are the same colour. |
| CanvasPixels.Clear | src/Canvas.tsx:263-265 | The length is kept and every pixel becomes opaque white. |
| CanvasPixels.ClearForgetsContents | src/Canvas.tsx:263-265 | The result of clearing depends only on the buffer's length. Clearing twice is clearing once. |
| CanvasPixels.ScanBox | src/Canvas.tsx:210-215 | The scan box lies inside the buffer. It contains every in-buffer pixel within half a line width of the endpoints' bounding rectangle, so no pixel the stroke can cover is skipped. It also stays within half a line width plus 1.5 of that rectangle, so the scan (and every write of drawLine) is local to the segment. |
| CanvasPixels.ScanBoxSymmetric | src/Canvas.tsx:212-215 | The scan box does not depend on the order of the endpoints. |
| CanvasPixels.DrawLine | src/Canvas.tsx:200-257 | The length is kept. A pixel changes iff it is in the scan box and covered, and it then holds the clamped stroke colour. Every other pixel keeps its value, so no write leaves the buffer or the box. |
| FloodFill.IndexInjective | src/Canvas.tsx:276-277 | Two in-grid points share a visited-array slot iff they are the same point. |
| FloodFill.Neighbours | src/Canvas.tsx:282-285 | A point is pushed iff it is in the grid and adjacent to the popped point. At most four are pushed. |
| FloodFill.PushNeighbours | src/Canvas.tsx:282-285 | The four guarded pushes append exactly the in-grid neighbours, in the order left, up, right, down. |
| FloodFill.MarkOne | src/Canvas.tsx:281 | Marking an unvisited cell lowers the number of unvisited cells by one. This is the measure that makes the worklist terminate. |
| FloodFill.ClosedRegionContainsReach | src/Canvas.tsx:274-286 | A visited set that contains the start and is closed under steps to adjacent pixels of the reference colour contains the whole connected region. |
| FloodFill.SameColorRepaintIsNoOp | src/Canvas.tsx:279-280 | When the visited pixels are exactly the region and the fill colour equals the reference colour, the painted buffer equals the original. |
| FloodFill.Fill | src/Canvas.tsx:267-287 | A start inside the image is required. The reference colour is taken once, before any write. Results: the visited array marks exactly the 4-connected region of that colour containing the start. Those pixels hold the fill colour; every other pixel keeps its colour. The start is always painted. Each pixel is written at most once, at most width·height times in all. At most 4·width·height points are pushed, and the loop terminates. When the fill colour equals the start colour, the buffer is unchanged. |
| FloodFill.FillTwice | src/Canvas.tsx:267-287 | Filling again at the same point with the same colour leaves the buffer as the first fill left it. |
| Frames.RequestFrame | src/Canvas.tsx:157-165 | From a coalesced state, a request leaves exactly one callback pending with the flag set. While the flag is set, a request changes nothing. |
| Frames.Tick | src/Canvas.tsx:160-164 | A tick paints iff a callback was pending. From a coalesced state it paints at most once and returns to idle. |
| Frames.RequestsCoalesce | src/Canvas.tsx:157-165 | Any number (at least one) of requests between two ticks leads to exactly one paint. |
| CanvasComponent.NewImage | src/Canvas.tsx:31-39 | The constructor's buffer is (2·width) by (2·height) pixels, valid and entirely white. |
| CanvasComponent.EraserMatchesClear | src/Canvas.tsx:94-97 | The eraser's colour (255, 255, 255, 255) is what `clear` leaves in every pixel. |
| CanvasComponent.OnMount | src/Canvas.tsx:41-51 | Mounting requests the first repaint and keeps the scheduler coalesced. It draws nothing and leaves the gesture fields as they were. |
| CanvasComponent.OnPointerDown | src/Canvas.tsx:53-76 | Pen and eraser remember the position, activate the gesture and draw nothing; no other field changes. Fill issues one fill at the doubled position with the current colour and requests a repaint; nothing else changes. |
| CanvasComponent.OnPointerMove | src/Canvas.tsx:78-116 | Inactive: nothing happens. Active: the gesture is marked moved. With pen or eraser, one segment is drawn from the previous to the new position, doubled, at width 6 and in the tool's colour, and the new position becomes the previous one; the scheduler receives exactly one `requestFrame`. With fill, nothing is drawn and the scheduler is untouched. |
| CanvasComponent.OnPointerUp | src/Canvas.tsx:118-155 | The gesture ends inactive and unmoved, with the previous position kept. isPointerMoved is cleared before it is tested, so an active pen or eraser gesture always ends with the 0.01-long dot at the previous position, followed by one `requestFrame`. Fill draws nothing and leaves the scheduler untouched. |
| CanvasComponent.UpIgnoresMoved | src/Canvas.tsx:123-126 | Releasing an active gesture has the same outcome whether or not the pointer moved. |
| CanvasComponent.OnAnimationFrame | src/Canvas.tsx:160-164 | A tick only paints. It paints iff a callback was pending, the callback clears the flag so the scheduler returns to idle, at most once from a coalesced scheduler, and leaves the gesture fields untouched. |
| CanvasComponent.MoveThenTickPaintsOnce | src/Canvas.tsx:102-111 | A pen or eraser move during a gesture is followed, at the next tick, by exactly one paint, and nothing stays pending: every stroke segment reaches the screen. |
| CanvasComponent.OnClearCanvas | src/Canvas.tsx:188-192 | clearCanvas clears and paints at once, without going through the scheduler. The component state is unchanged. |
| CanvasComponent.Handle | src/Canvas.tsx:41-165 | Every handler keeps the scheduler coalesced. |
| CanvasComponent.HandlePaints | src/Canvas.tsx:157-192 | From a coalesced scheduler, one input paints at most once, and only when it is a tick or clearCanvas. |
| CanvasComponent.RunCoalescesPaints | src/Canvas.tsx:157-165 | Over any sequence of inputs, at most one repaint is ever pending. The buffer is painted no more often than there are ticks and clears. |
| CanvasComponent.InitialIsIdle | src/Canvas.tsx:22-29 | The field initialisers leave no gesture active and no repaint pending, so the scheduler starts coalesced. |
| CanvasComponent.InitialRunCoalescesPaints | src/Canvas.tsx:22-29 | From the initial fields, over any sequence of inputs, at most one repaint is ever pending and paints never outnumber ticks and clears. |
| CanvasComponent.MovesDrawPolyline | src/Canvas.tsx:99-115 | During an active pen or eraser gesture, a sequence of moves draws a connected polyline. Each segment starts where the previous one ended, the first starts at the press position, and the stroke ends at the last position. |
| CanvasComponent.TapDrawsOneDot | src/Canvas.tsx:53-155 | A press followed by a release with pen or eraser draws exactly one dot, at the press position, and ends the gesture. |
| JsMath.Round | src/Canvas.tsx:212-215 | `Math.round(v)` is the integer r with r - 0.5 <= v < r + 0.5. |

## Left out

- The capsule geometry of `drawLine` (src/Canvas.tsx:216-247) is floating-point arithmetic. It is a parameter `covers`, so `DrawLine` states its writes for any coverage test. Its only tie to the geometry is `ScanBox`, which contains every pixel near the segment.
- `drawToCanvas` is not modelled. It is rendering only: `putImageData` and `fillRect`. Its tiling stride is the reference that `MapMatchesTiling` compares `toIndex` with.
- DOM, React and rendering calls are dropped: `preventDefault`, `stopPropagation`, `setPointerCapture`, `getContext`, `addEventListener` and `render`. The exception is `putImageData` (src/Canvas.tsx:163, 191), which becomes `PaintCall`; the painted contents are not tracked. Every pointer event is assumed to reach the handlers, which stands in for `setPointerCapture` (src/Canvas.tsx:63).
- `getImageData` is left out. It only wraps the buffer in a new `ImageData`.
- Preview.tsx, App.tsx and index.tsx are left out: undo/redo, the colour picker, tool selection and the preview, which tiles with its own rendering code.
- Colours are modelled with integer channels. `Uint8ClampedArray` rounds fractional channels half-to-even, and that rounding is not modelled; clamping of integers is.
- `CanvasPixels.GetColorAt` always returns a copy. The source's `copy` flag chooses between a live subarray view and a copy. The view is only read before the next write, so the two cannot be told apart.
- `FloodFill.Fill` requires its floored start to lie inside the image. The source does not check this. Such a start is reachable: the canvas has a 1-pixel CSS border (src/Canvas.tsx:174), and a press on it gives an offset in [-1, 0) or [width, width + 1), so x is -2, -1 or at least the image width. With x = -1 and y > 0 the source addresses pixel (width - 1, y - 1) and lets the region cross the left/right edge; with y = 0 it reaches `data.set(color, -4)`, which throws. The model's precondition excludes these starts, so it does not describe them.
- `FloodFill.Fill`: event coordinates are reals and are floored as `Math.floor` does. The coordinates pushed afterwards are integers.
- `VirtualImage.ToIndex` takes integer coordinates. The source accepts any number, and a fractional coordinate gives a fractional, meaningless index.
- `VirtualImage.Make` does not state validity for a negative scale factor. A negative grid-line width makes the bands overlap, and no caller passes one.
- `CanvasComponent.OnAnimationFrame`: the browser's `requestAnimationFrame` is a host tick that runs every pending callback. Frame timing is not modelled.
- `CanvasComponent.OnMount` and `CanvasComponent.OnClearCanvas` do not model `requireNotNull` (src/Canvas.tsx:42-43, 189): before mounting there is no rendering context and `clearCanvas` throws without clearing, whereas `Run` accepts `ClearCanvas` before `Mount`. App.tsx calls `clearCanvas` through an optional ref (`ref.current?.clearCanvas()`, src/App.tsx:54), so it never runs before mount.
- The component's props (`width`, `height`) are fixed at construction. A change of size after mounting is not modelled, and the source does not handle it either.

# Mandelbrot explorer: viewport, tiles and drag selection

A Dafny model of the sequential core of an interactive Mandelbrot-set
explorer written in TypeScript. The application keeps a rectangle of the
complex plane (the *bounds*) locked to the canvas aspect ratio, splits each
render into 64 x 64 pixel *chunks* handed to a worker pool, and lets the user
drag a rectangle on an overlay canvas (the *selector*) to preview and commit a
zoom.

Four modules, one per concern:

- `Tiles` (`tiles.dfy`): the two nested loops of `render` that cut a `W x H`
  raster into chunks in row-major order, clipping the last column and row.
  Exact integer arithmetic.
- `Viewport` (`viewport.dfy`): `calculateBounds`, which keeps the requested
  centre and lengthens the too-short side until `lengthRe = lengthIm * aspect`.
  Modelled over `real`: an exact idealisation of the program's doubles.
- `Selection` (`selector.dfy`): the `Selector` class as a record state
  (`isPointerDown`, `from`, `to`, the listener map) with the three pointer
  handlers as transitions. Each listener invocation is appended to a log as a
  `Firing`. A firing records the callback id and the `startX/startY/endX/endY`
  values that callback could read.
- `App` (`app.dfy`): the wiring. It covers the initial view, the
  selection-to-bounds arithmetic shared by the preview and zoom listeners, and
  the job list `render` submits. The canvas width and height are parameters.

Two behaviours of the code are reproduced by the model:

- The zoom listener is registered under the name `'pointerdown'`
  (src/App.ts:43) but is fired by the pointer-up handler. The registration
  itself is not modelled: it enters the model as the constant
  `Selection.ZoomType`. That the pointer-up handler fires the listener of that
  type is stated by `Selection.OnPointerUp`.
- `to` is not reset on pointer-down, so a press and release without a move
  fires the zoom with the rectangle from the origin to the press point. The
  only exception is a press exactly at the origin. This one is proved
  (`Selection.ClickWithoutMove`).

The JavaScript comparison `lengthRe / lengthIm < canvasAspectRatio` is modelled
with its IEEE meaning when `lengthIm` is zero (`Viewport.QuotientBelow`):

- a positive numerator gives +Infinity, which is not below;
- a negative numerator gives -Infinity, which is below;
- 0 / 0 gives NaN, which is not below.

So `calculateBounds` needs no precondition beyond a positive aspect ratio.
The code does not check its lengths. A drag that is flat in one direction
(equal `startY` and `endY`, say) reaches it with an imaginary length that is
zero in exact arithmetic. In doubles it can instead be a tiny number of either
sign, left over from rounding the two edge computations.

## Model

| member | source | states |
|---|---|---|
| `Tiles.WorkgroupsX` | src/App.ts:28 | the column count is `ceil(W/64)`: enough columns to reach `W`, and no spare column |
| `Tiles.WorkgroupsY` | src/App.ts:29 | the row count is `ceil(H/64)`: enough rows to reach `H`, and no spare row |
| `Tiles.ChunkAt` | src/App.ts:138-141 | a chunk's sides are between 1 and 64 and it ends inside the raster; a side is shorter than 64 only where it meets the raster edge |
| `Tiles.Decompose` | src/App.ts:135-156 | the nested loops yield exactly the row-major decomposition, `ceil(W/64)·ceil(H/64)` chunks |
| `Tiles.DecompositionLength` | src/App.ts:135-137 | the decomposition has `workgroupsX · workgroupsY` chunks |
| `Tiles.RowMajorOrder` | src/App.ts:135-143 | chunk `j·workgroupsX + i` exists and starts at `(64i, 64j)` |
| `Tiles.ChunkOfIndex` | src/App.ts:135-143 | chunk `k` is workgroup `(k mod workgroupsX, k div workgroupsX)`, both in range |
| `Tiles.ChunkBounds` | src/App.ts:138-141 | every chunk has size `min(64, W-startX) × min(64, H-startY)`, each side is in 1..64, and the chunk lies inside the raster |
| `Tiles.CoveredPixelInRaster` | src/App.ts:138-141 | a chunk never reaches a pixel outside `[0,W)×[0,H)` |
| `Tiles.PixelOwnedOnce` | src/App.ts:135-165 | each raster pixel is written by exactly one `putImageData`: a chunk covers it if and only if the chunk is that pixel's owner |
| `Tiles.ChunksDisjoint` | src/App.ts:135-165 | two distinct chunks never cover the same pixel |
| `Tiles.ChunksCoverRaster` | src/App.ts:135-165 | a pixel is covered by some chunk if and only if it lies in `[0,W)×[0,H)` |
| `Tiles.AreaIsRaster` | src/App.ts:135-156 | the chunk areas sum to `W·H` |
| `Tiles.Raster130` | src/App.ts:26-29 | a 130×130 raster gives exactly the nine chunks of a 3×3 grid, listed in row-major order; every chunk of the last column is 2 pixels wide and every chunk of the last row is 2 pixels high |
| `Viewport.QuotientBelow` | src/App.ts:110 | for a non-zero `lengthIm` the test is exactly `lengthRe / lengthIm < aspect`; for a zero `lengthIm` it holds exactly when `lengthRe` is negative, as IEEE division gives -Infinity there and +Infinity or NaN otherwise |
| `Viewport.QuotientBelowIsDivision` | src/App.ts:110 | for a non-zero `lengthIm`, the modelled comparison is exactly `lengthRe / lengthIm < aspect` |
| `Viewport.CalculateBounds` | src/App.ts:103-130 | the centre is the midpoint of the request; the result has the aspect ratio exactly (`lengthRe = lengthIm·aspect`); its edges are its lengths apart and centred on the centre |
| `Viewport.OneSideKept` | src/App.ts:110-115 | only one side is lengthened; the other keeps its requested length |
| `Viewport.NeverShrinks` | src/App.ts:107-124 | for a request with `min ≤ max` on both axes, neither side shrinks, so the result contains the requested rectangle |
| `Viewport.LeastEnlargement` | src/App.ts:107-115 | any side lengths with the aspect ratio that cover the request are at least the result's: the enlargement is minimal |
| `Viewport.ConformingUnchanged` | src/App.ts:107-126 | a request that already has the aspect ratio comes back with the same edges |
| `Viewport.Idempotent` | src/App.ts:103-130 | re-running `calculateBounds` on its own result changes nothing |
| `Viewport.InitialViewExample` | src/App.ts:31 | `(-2.25, 0.75, -1, 1)` at aspect 1.5 is unchanged, with centre `(-0.75, 0)` and lengths 3 and 2 |
| `App.AspectRatio` | src/App.ts:19 | the aspect ratio is positive and `aspect · height = width` |
| `App.InitialBounds` | src/App.ts:31 | the start-up view has the canvas aspect ratio and is centred at `(-0.75, 0)` |
| `App.AspectThreeByTwo` | src/App.ts:19 | a canvas with `2·width = 3·height` has aspect ratio exactly 1.5 |
| `App.CalculatedCoherent` | src/App.ts:103-130 | a request with `min ≤ max` on both axes comes back coherent: its edges are its lengths apart and both lengths are non-negative |
| `App.InitialBoundsCoherent` | src/App.ts:31 | the start-up view is coherent |
| `App.InitialBoundsOnThreeByTwo` | src/App.ts:31 | on a 3:2 canvas the start-up view is exactly the requested `(-2.25, 0.75, -1, 1)` |
| `App.SelectionRect` | src/App.ts:60-63 | on a coherent view, all four new edges are the selected pixel edges under one linear pixel-to-plane map: `minRe + lengthRe·x/W` for `startX` and `endX`, `minIm + lengthIm·y/H` for `startY` and `endY`; the new width is the old width less `lengthRe` times the unselected fraction of the canvas width, and likewise the height |
| `App.ScaleByInverse` | src/App.ts:60-62 | multiplying by the precomputed `canvasInverseWidth` is dividing by the canvas width |
| `App.FarEdgeFromNear` | src/App.ts:61-63 | on a coherent view, measuring `W - endX` pixels back from `maxRe` lands on the same point as measuring `endX` pixels on from `minRe` |
| `App.SelectionBounds` | src/App.ts:65 | a selected view always has the canvas aspect ratio |
| `App.FullSelectionIsIdentity` | src/App.ts:60-63 | selecting `(0,0)–(W,H)` maps back to the current `minRe/maxRe/minIm/maxIm` exactly |
| `App.FullSelectionKeepsView` | src/App.ts:60-65 | zooming to the whole canvas from any computed view returns that view unchanged |
| `App.ScaleBetween` | src/App.ts:60-61 | a selected pixel span scaled by `length / width` stays ordered and within `[0, length]` |
| `App.SelectionNested` | src/App.ts:60-63 | for `0 ≤ startX ≤ endX ≤ W` and `0 ≤ startY ≤ endY ≤ H`, the mapped rectangle lies inside the current bounds |
| `App.ZoomContainsSelection` | src/App.ts:60-65 | the committed view is centred on the selected rectangle, contains it, has the canvas aspect ratio, and is coherent again, so every zoom chained from the start-up view keeps the premises of the next |
| `App.PreviewMatchesZoom` | src/App.ts:91-96 | after a drag, the bounds the preview showed on the last move equal the bounds the zoom commits on release |
| `App.Render` | src/App.ts:132-156 | one job per chunk, in decomposition order; each job carries the current bounds, `maxIterations = 2048` and the exact inverse canvas dimensions |
| `App.RenderCoversCanvasOnce` | src/App.ts:135-165 | for the job list `render` submits, the job at a pixel's owner index covers that pixel and no other job does: every canvas pixel is written exactly once |
| `Selection.Init` | src/Selector.ts:12-36 | the constructor's state has the pointer up, no listeners and an empty log, and is settled: both corners at the origin |
| `Selection.StartX` | src/Selector.ts:39-41 | `startX` is the smaller of `from.x` and `to.x` |
| `Selection.EndX` | src/Selector.ts:43-45 | `endX` is the larger of `from.x` and `to.x` |
| `Selection.StartY` | src/Selector.ts:47-49 | `startY` is the smaller of `from.y` and `to.y` |
| `Selection.EndY` | src/Selector.ts:51-53 | `endY` is the larger of `from.y` and `to.y` |
| `Selection.ContextOf` | src/Selector.ts:39-53 | in every state `startX ≤ endX` and `startY ≤ endY` |
| `Selection.ContextIgnoresDirection` | src/Selector.ts:39-53 | swapping `from` and `to` gives the same corners: the drag direction does not matter |
| `Selection.AddEventListener` | src/Selector.ts:55-57 | registering sets the callback for that type, keeps every other type's callback, and changes nothing else |
| `Selection.ListenerReplaced` | src/Selector.ts:55-57 | a second registration for the same type replaces the first |
| `Selection.Notify` | src/Selector.ts:95-96 | a registered listener is invoked once, with the current corners; an unregistered one changes nothing |
| `Selection.OnPointerDown` | src/Selector.ts:63-68 | pointer-down sets `isPointerDown` and `from`, and leaves `to`, the listeners and the log unchanged |
| `Selection.OnPointerUp` | src/Selector.ts:70-85 | pointer-up clears `isPointerDown` and resets both corners to `(0,0)`; it fires the `'pointerdown'` listener, on the state before the reset, exactly when one is registered and `from ≠ to` |
| `Selection.OnPointerMove` | src/Selector.ts:87-97 | with the pointer up, nothing changes and nothing fires; with it down, `to` follows the pointer and the `'pointermove'` listener (if any) fires with the updated corners |
| `Selection.Step` | src/Selector.ts:24-26 | each event appends at most one firing to the log and never rewrites it |
| `Selection.LogAppendOnly` | src/Selector.ts:70-97 | over any event sequence, the log only grows, by at most one firing per release or move |
| `Selection.StepSettled` | src/Selector.ts:63-97 | each event keeps "pointer up implies both corners at the origin" |
| `Selection.RunSettled` | src/Selector.ts:63-97 | that invariant holds after any event sequence |
| `Selection.ReachableSettled` | src/Selector.ts:34-36 | every state reachable from the constructor's satisfies it |
| `Selection.ClickWithoutMove` | src/Selector.ts:63-84 | a press and release with no move fires the zoom exactly when the press is away from the origin, with the rectangle from `(0,0)` to the press point |
| `Selection.ZoomSeesLastPreview` | src/Selector.ts:70-97 | after press, move and release, the zoom listener reads the same corners the preview listener read on the move |

## Left out

- The worker pool (`ThreadPool`) and the worker script with the escape-time kernel are not part of this model. Their job is concurrent dispatch and pixel colouring. `render` hands the job list to the pool and returns the pool's promise; the model stops at the job list (`App.Render`).
- There is no epoch or staleness guard in the modelled code, so none is modelled. A zoom started while an earlier render is still in flight is not modelled either.
- `src/Resizer.ts` is not modelled. It is a thin wrapper over `ResizeObserver` that copies box sizes and resolves a promise once. The canvas size it produces enters the model as the `Canvas` parameter.
- DOM and canvas I/O are not modelled: the `innerText`/`toFixed` readouts, `performance.now` timings, the `putImageData` pixel contents, and the overlay's `clearRect`/`strokeRect` drawing. Pixel writes appear only as the rectangle each chunk covers (`Tiles.Covers`).
- IEEE-754 rounding is not modelled. `calculateBounds` and the selection arithmetic are computed over exact reals, and `1 / canvas.width` is an exact reciprocal. Only the division-by-zero cases of the aspect comparison are reproduced.
- A zero-width or zero-height canvas is excluded (`App.ValidCanvas`). There the program would compute infinite inverses, and an aspect ratio of 0 (zero width), Infinity (zero height) or NaN (both zero). `Tiles` itself accepts any size and gives no chunks for an empty raster.
- What a listener does when it runs is not part of `Selection`. A callback is an opaque id. The effect of the application's two listeners is modelled separately in `App`.
- The preview listener (src/App.ts:91-96) and the zoom listener (src/App.ts:60-65) contain identical arithmetic. Both are modelled by the one function `App.SelectionBounds`. The zoom listener's follow-up `render` call is modelled by `App.Render`.
- `Viewport.NeverShrinks`: stated only for requests with `minRe ≤ maxRe` and `minIm ≤ maxIm`. An inverted request can come back shorter on one side. In exact arithmetic an on-canvas drag never produces one (`App.SelectionNested`); in doubles, see the next line.
- Flat drags are modelled only in exact arithmetic. There the flat side has length exactly zero and `calculateBounds` widens it to the aspect ratio. In doubles a flat vertical extent can come out as a tiny negative `lengthIm`. Then `lengthRe / lengthIm` is a huge negative number, the `if` branch sets `lengthRe = lengthIm · aspect`, and the program commits an inverted, almost zero-size view. The real-valued model does not reproduce this.

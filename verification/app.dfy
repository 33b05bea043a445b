/**
 The application's wiring: the initial view, the arithmetic both selector
 listeners use to turn a pixel-space selection into a new view, and the list
 of chunk jobs that `render` hands to the worker pool.

 The canvas size is a parameter rather than read from the page. The pool,
 the workers and the pixels they compute are not part of this model.
 */
module App {
  import Tiles
  import Viewport
  import Selection

  /** The raster, in device pixels. */
  datatype Canvas = Canvas(width: nat, height: nat)

  predicate ValidCanvas(c: Canvas) {
    c.width > 0 && c.height > 0
  }

  /** `canvasAspectRatio`: width over height. */
  function AspectRatio(c: Canvas): (a: real)
    requires ValidCanvas(c)
    ensures a > 0.0
    ensures a * (c.height as real) == c.width as real
  {
    (c.width as real) / (c.height as real)
  }

  /** The view requested at start-up. */
  const InitialView: Viewport.Rect := Viewport.Rect(-2.25, 0.75, -1.0, 1.0)

  /** The iteration budget every chunk job carries (`2 * 1024`). */
  const MaxIterations: nat := 2 * 1024

  function InitialBounds(c: Canvas): (b: Viewport.Bounds)
    requires ValidCanvas(c)
    ensures b.lengthRe == b.lengthIm * AspectRatio(c)
    ensures b.centerRe == -0.75 && b.centerIm == 0.0
  {
    Viewport.CalculateBounds(InitialView, AspectRatio(c))
  }

  lemma CancelFactor(k: real, h: real)
    requires h != 0.0
    ensures (k * h) / h == k
  {
  }

  lemma AspectThreeByTwo(c: Canvas)
    requires ValidCanvas(c) && 2 * c.width == 3 * c.height
    ensures AspectRatio(c) == 1.5
  {
    var a, w, h := AspectRatio(c), c.width as real, c.height as real;
    assert (2 * c.width) as real == (3 * c.height) as real;
    assert w == 1.5 * h;
    assert a == (1.5 * h) / h;
    CancelFactor(1.5, h);
  }

  /** On a 3:2 canvas the initial view is already conforming and is kept as requested. */
  lemma InitialBoundsOnThreeByTwo(c: Canvas)
    requires ValidCanvas(c) && 2 * c.width == 3 * c.height
    ensures InitialBounds(c) == Viewport.Bounds(-2.25, 0.75, -1.0, 1.0, -0.75, 0.0, 3.0, 2.0)
  {
    AspectThreeByTwo(c);
    Viewport.InitialViewExample();
  }

  /** Scaling by the reciprocal of `size` is dividing by `size`. */
  lemma ScaleByInverse(len: real, e: real, size: real)
    requires size > 0.0
    ensures len * e * (1.0 / size) == len * e / size
  {
    var inv := 1.0 / size;
    assert size * inv == 1.0;
    assert (len * e / size) * size == len * e;
  }

  /**
   Measured back from the far edge of a view of length `len`, the offset of
   the pixel `size - e` pixels from the canvas' far edge is the same point as
   the offset of pixel `e` measured from the near edge.
   */
  lemma FarEdgeFromNear(min: real, max: real, len: real, size: real, e: real)
    requires size > 0.0 && max - min == len
    ensures max - len * (size - e) * (1.0 / size) == min + len * e / size
  {
    var inv := 1.0 / size;
    assert size * inv == 1.0;
    assert len * (size - e) * inv == len * (size * inv) - len * e * inv;
    ScaleByInverse(len, e, size);
  }

  /**
   The selection listeners' arithmetic: move each edge of the current view
   in proportion to how far the selected pixel edge lies from the canvas
   edge. `1 / canvas.width` and `1 / canvas.height` are exact reciprocals here.

   On a coherent view all four new edges are the selected pixel edges put
   through one linear map from pixels to the plane: pixel `x` goes to
   `minRe + lengthRe * x / width`, pixel `y` to `minIm + lengthIm * y / height`.
   */
  function SelectionRect(b: Viewport.Bounds, c: Canvas, sel: Selection.Context): (r: Viewport.Rect)
    requires ValidCanvas(c)
    ensures r.maxRe - r.minRe
         == (b.maxRe - b.minRe) - b.lengthRe * ((c.width as real) - (sel.endX - sel.startX)) / (c.width as real)
    ensures r.maxIm - r.minIm
         == (b.maxIm - b.minIm) - b.lengthIm * ((c.height as real) - (sel.endY - sel.startY)) / (c.height as real)
    ensures r.minRe == b.minRe + b.lengthRe * sel.startX / (c.width as real)
    ensures r.minIm == b.minIm + b.lengthIm * sel.startY / (c.height as real)
    ensures Coherent(b) ==>
              && r.maxRe == b.minRe + b.lengthRe * sel.endX / (c.width as real)
              && r.maxIm == b.minIm + b.lengthIm * sel.endY / (c.height as real)
  {
    var width := c.width as real;
    var height := c.height as real;
    var canvasInverseWidth := 1.0 / width;
    var canvasInverseHeight := 1.0 / height;
    var newMinRe := b.minRe + b.lengthRe * sel.startX * canvasInverseWidth;
    var newMaxRe := b.maxRe - b.lengthRe * (width - sel.endX) * canvasInverseWidth;
    var newMinIm := b.minIm + b.lengthIm * sel.startY * canvasInverseHeight;
    var newMaxIm := b.maxIm - b.lengthIm * (height - sel.endY) * canvasInverseHeight;
    ScaleByInverse(b.lengthRe, sel.startX, width);
    ScaleByInverse(b.lengthIm, sel.startY, height);
    if Coherent(b) then
      FarEdgeFromNear(b.minRe, b.maxRe, b.lengthRe, width, sel.endX);
      FarEdgeFromNear(b.minIm, b.maxIm, b.lengthIm, height, sel.endY);
      Viewport.Rect(newMinRe, newMaxRe, newMinIm, newMaxIm)
    else
      Viewport.Rect(newMinRe, newMaxRe, newMinIm, newMaxIm)
  }

  /**
   The view a selection leads to: the committed zoom on release and the live
   preview on every move both compute this from the corners they read.
   */
  function SelectionBounds(b: Viewport.Bounds, c: Canvas, sel: Selection.Context): (r: Viewport.Bounds)
    requires ValidCanvas(c)
    ensures r.lengthRe == r.lengthIm * AspectRatio(c)
  {
    Viewport.CalculateBounds(SelectionRect(b, c, sel), AspectRatio(c))
  }

  /** Selecting the whole canvas maps back onto the current view's edges. */
  lemma FullSelectionIsIdentity(b: Viewport.Bounds, c: Canvas)
    requires ValidCanvas(c)
    ensures SelectionRect(b, c, Selection.Context(0.0, 0.0, c.width as real, c.height as real)) == b.Edges()
  {
  }

  /** ... so a whole-canvas zoom on any view the program produced changes nothing. */
  lemma FullSelectionKeepsView(req: Viewport.Rect, c: Canvas)
    requires ValidCanvas(c)
    ensures var b := Viewport.CalculateBounds(req, AspectRatio(c));
      SelectionBounds(b, c, Selection.Context(0.0, 0.0, c.width as real, c.height as real)) == b
  {
    var b := Viewport.CalculateBounds(req, AspectRatio(c));
    FullSelectionIsIdentity(b, c);
    Viewport.Idempotent(req, AspectRatio(c));
  }

  /** A view whose edges agree with its side lengths, as every computed view's do. */
  predicate Coherent(b: Viewport.Bounds) {
    && b.maxRe - b.minRe == b.lengthRe && b.lengthRe >= 0.0
    && b.maxIm - b.minIm == b.lengthIm && b.lengthIm >= 0.0
  }

  /** A well-formed request comes back as a coherent view. */
  lemma CalculatedCoherent(req: Viewport.Rect, aspect: real)
    requires aspect > 0.0
    requires req.minRe <= req.maxRe && req.minIm <= req.maxIm
    ensures Coherent(Viewport.CalculateBounds(req, aspect))
  {
    Viewport.NeverShrinks(req, aspect);
  }

  /** The view the program starts from is coherent. */
  lemma InitialBoundsCoherent(c: Canvas)
    requires ValidCanvas(c)
    ensures Coherent(InitialBounds(c))
  {
    CalculatedCoherent(InitialView, AspectRatio(c));
  }

  /** A selection that lies on the canvas. */
  predicate OnCanvas(c: Canvas, sel: Selection.Context) {
    && 0.0 <= sel.startX <= sel.endX <= c.width as real
    && 0.0 <= sel.startY <= sel.endY <= c.height as real
  }

  /** Scaling pixel offsets by `len / size` keeps them between 0 and `len`, in order. */
  lemma ScaleBetween(len: real, lo: real, hi: real, size: real, low: real, high: real)
    requires len >= 0.0 && size > 0.0 && 0.0 <= lo <= hi <= size
    requires low == len * lo * (1.0 / size) && high == len * (size - hi) * (1.0 / size)
    ensures 0.0 <= low <= len - high <= len
  {
    var inv := 1.0 / size;
    var a, z := len * lo, len * (size - hi);
    assert a >= 0.0 && z >= 0.0;
    assert a * inv >= 0.0 && z * inv >= 0.0;
    assert a + z <= len * size;
    assert (a + z) * inv <= (len * size) * inv;
    assert (len * size) * inv == len * (size * inv);
    assert size * inv == 1.0;
  }

  /** A selection on the canvas picks a sub-rectangle of the current view. */
  lemma SelectionNested(b: Viewport.Bounds, c: Canvas, sel: Selection.Context)
    requires ValidCanvas(c) && Coherent(b) && OnCanvas(c, sel)
    ensures var r := SelectionRect(b, c, sel);
      && b.minRe <= r.minRe <= r.maxRe <= b.maxRe
      && b.minIm <= r.minIm <= r.maxIm <= b.maxIm
  {
    var width, height := c.width as real, c.height as real;
    var lowRe, highRe := b.lengthRe * sel.startX * (1.0 / width), b.lengthRe * (width - sel.endX) * (1.0 / width);
    var lowIm, highIm := b.lengthIm * sel.startY * (1.0 / height), b.lengthIm * (height - sel.endY) * (1.0 / height);
    ScaleBetween(b.lengthRe, sel.startX, sel.endX, width, lowRe, highRe);
    ScaleBetween(b.lengthIm, sel.startY, sel.endY, height, lowIm, highIm);
    assert SelectionRect(b, c, sel) == Viewport.Rect(b.minRe + lowRe, b.maxRe - highRe, b.minIm + lowIm, b.maxIm - highIm);
  }

  /**
   The new view is centred on the selected sub-rectangle, contains it, keeps
   the canvas aspect ratio, and is coherent again, so zooms can be chained
   from the initial view indefinitely.
   */
  lemma ZoomContainsSelection(b: Viewport.Bounds, c: Canvas, sel: Selection.Context)
    requires ValidCanvas(c) && Coherent(b) && OnCanvas(c, sel)
    ensures var r := SelectionRect(b, c, sel);
      var n := SelectionBounds(b, c, sel);
      && n.centerRe == (r.minRe + r.maxRe) / 2.0 && n.centerIm == (r.minIm + r.maxIm) / 2.0
      && n.minRe <= r.minRe && r.maxRe <= n.maxRe
      && n.minIm <= r.minIm && r.maxIm <= n.maxIm
      && n.lengthRe == n.lengthIm * AspectRatio(c)
      && Coherent(n)
  {
    SelectionNested(b, c, sel);
    Viewport.NeverShrinks(SelectionRect(b, c, sel), AspectRatio(c));
    CalculatedCoherent(SelectionRect(b, c, sel), AspectRatio(c));
  }

  /**
   Press, drag to `at`, release: the view the preview displayed after the last
   move is exactly the view the zoom commits.
   */
  lemma PreviewMatchesZoom(b: Viewport.Bounds, c: Canvas, s: Selection.Selector, at: Selection.Point)
    requires ValidCanvas(c)
    requires s.isPointerDown && s.from != at
    requires Selection.PreviewType in s.listeners && Selection.ZoomType in s.listeners
    ensures var m := Selection.OnPointerMove(s, at);
      var u := Selection.OnPointerUp(m);
      && |m.log| == |s.log| + 1 && |u.log| == |m.log| + 1
      && SelectionBounds(b, c, u.log[|m.log|].context) == SelectionBounds(b, c, m.log[|s.log|].context)
  {
    Selection.ZoomSeesLastPreview(s, at);
  }

  // ---------------------------------------------------------------------------
  // Render jobs
  // ---------------------------------------------------------------------------

  /** The payload of one chunk job: the chunk, the view, and the iteration budget. */
  datatype ChunkInput = ChunkInput(
    canvasInverseWidth: real,
    canvasInverseHeight: real,
    chunk: Tiles.Chunk,
    maxIterations: nat,
    bounds: Viewport.Bounds)

  /**
   What `render` submits for the view `b`: one job per chunk of the canvas,
   in row-major order, each carrying the view, the iteration budget and the
   canvas reciprocals.
   */
  predicate RenderedFrom(jobs: seq<ChunkInput>, b: Viewport.Bounds, c: Canvas) {
    && |jobs| == |Tiles.Decomposition(c.width, c.height)|
    && forall k :: 0 <= k < |jobs| ==>
         && jobs[k].chunk == Tiles.Decomposition(c.width, c.height)[k]
         && jobs[k].bounds == b && jobs[k].maxIterations == MaxIterations
         && jobs[k].canvasInverseWidth * (c.width as real) == 1.0
         && jobs[k].canvasInverseHeight * (c.height as real) == 1.0
  }

  /** The job list `render` submits. */
  method Render(b: Viewport.Bounds, c: Canvas) returns (jobs: seq<ChunkInput>)
    requires ValidCanvas(c)
    ensures RenderedFrom(jobs, b, c)
    ensures |jobs| == Tiles.WorkgroupsX(c.width) * Tiles.WorkgroupsY(c.height)
  {
    var chunks := Tiles.Decompose(c.width, c.height);
    var inverseWidth := 1.0 / (c.width as real);
    var inverseHeight := 1.0 / (c.height as real);
    jobs := [];
    var k := 0;
    while k < |chunks|
      invariant k <= |chunks|
      invariant |jobs| == k
      invariant forall l :: 0 <= l < k ==>
                  jobs[l] == ChunkInput(inverseWidth, inverseHeight, chunks[l], MaxIterations, b)
    {
      jobs := jobs + [ChunkInput(inverseWidth, inverseHeight, chunks[k], MaxIterations, b)];
      k := k + 1;
    }
  }

  /**
   The jobs of a render write every canvas pixel exactly once: the job at the
   pixel's owner index covers it, and no other job does.
   */
  lemma RenderCoversCanvasOnce(jobs: seq<ChunkInput>, b: Viewport.Bounds, c: Canvas, x: nat, y: nat)
    requires ValidCanvas(c) && RenderedFrom(jobs, b, c)
    requires x < c.width && y < c.height
    ensures var o := Tiles.Owner(c.width, x, y);
      && o < |jobs|
      && Tiles.Covers(jobs[o].chunk, x, y)
      && forall k :: 0 <= k < |jobs| && Tiles.Covers(jobs[k].chunk, x, y) ==> k == o
  {
    Tiles.PixelOwnedOnce(c.width, c.height, x, y);
  }
}

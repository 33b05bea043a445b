/**
 Tile decomposition of the render raster.

 `render` walks the raster in 64 x 64 workgroups, row by row, and emits one
 chunk per workgroup; the chunks of the last column and the last row are
 clipped to the raster, never padded. Everything here is exact integer
 arithmetic over the raster's width `w` and height `h` in pixels.
 */
module Tiles {

  /** Workgroup edge lengths, in pixels. */
  const WorkgroupSizeX: nat := 64
  const WorkgroupSizeY: nat := 64

  /** One chunk of the raster: its top-left pixel and its extent. */
  datatype Chunk = Chunk(startX: nat, startY: nat, sizeX: nat, sizeY: nat)

  function Min(a: int, b: int): int {
    if a < b then a else b
  }

  /** `Math.ceil(w / WorkgroupSizeX)`: the number of workgroup columns. */
  function WorkgroupsX(w: nat): (n: nat)
    ensures n * WorkgroupSizeX >= w
    ensures n == 0 || (n - 1) * WorkgroupSizeX < w
  {
    (w + WorkgroupSizeX - 1) / WorkgroupSizeX
  }

  /** `Math.ceil(h / WorkgroupSizeY)`: the number of workgroup rows. */
  function WorkgroupsY(h: nat): (n: nat)
    ensures n * WorkgroupSizeY >= h
    ensures n == 0 || (n - 1) * WorkgroupSizeY < h
  {
    (h + WorkgroupSizeY - 1) / WorkgroupSizeY
  }

  /** A workgroup column index is in range exactly when its first pixel is. */
  lemma ColumnInRange(w: nat, i: nat)
    ensures i < WorkgroupsX(w) <==> i * WorkgroupSizeX < w
  {
  }

  lemma RowInRange(h: nat, j: nat)
    ensures j < WorkgroupsY(h) <==> j * WorkgroupSizeY < h
  {
  }

  /** The chunk of workgroup (i, j), clipped to the raster. */
  function ChunkAt(w: nat, h: nat, i: nat, j: nat): (c: Chunk)
    requires i < WorkgroupsX(w) && j < WorkgroupsY(h)
    ensures 1 <= c.sizeX <= WorkgroupSizeX && 1 <= c.sizeY <= WorkgroupSizeY
    ensures c.startX + c.sizeX <= w && c.startY + c.sizeY <= h
    ensures c.sizeX == WorkgroupSizeX || c.startX + c.sizeX == w
    ensures c.sizeY == WorkgroupSizeY || c.startY + c.sizeY == h
  {
    ColumnInRange(w, i);
    RowInRange(h, j);
    var startX := i * WorkgroupSizeX;
    var startY := j * WorkgroupSizeY;
    Chunk(startX, startY, Min(WorkgroupSizeX, w - startX), Min(WorkgroupSizeY, h - startY))
  }

  /** The first `n` chunks of workgroup row `j`, left to right. */
  function Row(w: nat, h: nat, j: nat, n: nat): seq<Chunk>
    requires n <= WorkgroupsX(w) && j < WorkgroupsY(h)
  {
    if n == 0 then [] else Row(w, h, j, n - 1) + [ChunkAt(w, h, n - 1, j)]
  }

  /** The chunks of the first `m` workgroup rows, top to bottom. */
  function Rows(w: nat, h: nat, m: nat): seq<Chunk>
    requires m <= WorkgroupsY(h)
  {
    if m == 0 then [] else Rows(w, h, m - 1) + Row(w, h, m - 1, WorkgroupsX(w))
  }

  /** The whole decomposition of a `w` x `h` raster, in row-major order. */
  function Decomposition(w: nat, h: nat): seq<Chunk> {
    Rows(w, h, WorkgroupsY(h))
  }

  /** The two nested loops of `render`, pushing one chunk per workgroup. */
  method Decompose(w: nat, h: nat) returns (chunks: seq<Chunk>)
    ensures chunks == Decomposition(w, h)
    ensures |chunks| == WorkgroupsX(w) * WorkgroupsY(h)
  {
    var workgroupsX := WorkgroupsX(w);
    var workgroupsY := WorkgroupsY(h);
    chunks := [];
    var j := 0;
    while j < workgroupsY
      invariant j <= workgroupsY
      invariant chunks == Rows(w, h, j)
    {
      var i := 0;
      while i < workgroupsX
        invariant i <= workgroupsX
        invariant chunks == Rows(w, h, j) + Row(w, h, j, i)
      {
        ColumnInRange(w, i);
        RowInRange(h, j);
        var chunkStartX := i * WorkgroupSizeX;
        var chunkStartY := j * WorkgroupSizeY;
        var chunkSizeX := Min(WorkgroupSizeX, w - chunkStartX);
        var chunkSizeY := Min(WorkgroupSizeY, h - chunkStartY);
        chunks := chunks + [Chunk(chunkStartX, chunkStartY, chunkSizeX, chunkSizeY)];
        i := i + 1;
      }
      j := j + 1;
    }
    DecompositionLength(w, h);
  }

  // ---------------------------------------------------------------------------
  // Row-major indexing
  // ---------------------------------------------------------------------------

  /** Multiplication is monotone in its left factor. */
  lemma MulMono(a: nat, b: nat, n: nat)
    requires a <= b
    ensures a * n <= b * n
  {
    var d := b - a;
    assert b * n == a * n + d * n;
  }

  /** A row-major index `j * n + i` stays below `m * n` and splits back into (i, j). */
  lemma RowMajorSplit(j: nat, i: nat, m: nat, n: nat)
    requires j < m && i < n
    ensures j * n + i < m * n
    ensures (j * n + i) / n == j && (j * n + i) % n == i
  {
    MulMono(j + 1, m, n);
    var k := j * n + i;
    var q := k / n;
    if q < j {
      MulMono(q + 1, j, n);
    } else if q > j {
      MulMono(j + 1, q, n);
    }
  }

  /** Every index below `m * n` is a row-major index of some (i, j). */
  lemma IndexSplit(k: nat, m: nat, n: nat)
    requires k < m * n
    ensures n > 0
    ensures k / n < m && k % n < n && k == (k / n) * n + k % n
  {
    var q := k / n;
    if q >= m {
      MulMono(m, q, n);
    }
  }

  lemma {:induction false} RowShape(w: nat, h: nat, j: nat, n: nat)
    requires n <= WorkgroupsX(w) && j < WorkgroupsY(h)
    ensures |Row(w, h, j, n)| == n
    ensures forall i :: 0 <= i < n ==> Row(w, h, j, n)[i] == ChunkAt(w, h, i, j)
  {
    if n > 0 {
      RowShape(w, h, j, n - 1);
    }
  }

  lemma {:induction false} RowsLength(w: nat, h: nat, m: nat)
    requires m <= WorkgroupsY(h)
    ensures |Rows(w, h, m)| == m * WorkgroupsX(w)
  {
    if m > 0 {
      var n := WorkgroupsX(w);
      RowsLength(w, h, m - 1);
      RowShape(w, h, m - 1, n);
      assert m * n == (m - 1) * n + n;
    }
  }

  /** The first `j` rows are a prefix of the first `m` rows. */
  lemma {:induction false} RowsPrefix(w: nat, h: nat, j: nat, m: nat)
    requires j <= m <= WorkgroupsY(h)
    ensures |Rows(w, h, j)| <= |Rows(w, h, m)|
    ensures Rows(w, h, m)[..|Rows(w, h, j)|] == Rows(w, h, j)
  {
    if j < m {
      RowsPrefix(w, h, j, m - 1);
      var prev := Rows(w, h, m - 1);
      assert Rows(w, h, m)[..|prev|] == prev;
      assert Rows(w, h, m)[..|Rows(w, h, j)|] == prev[..|Rows(w, h, j)|];
    }
  }

  /** Workgroup (i, j) sits right after the chunks of the first `j` rows. */
  lemma RowsShape(w: nat, h: nat, m: nat, j: nat, i: nat)
    requires j < m <= WorkgroupsY(h) && i < WorkgroupsX(w)
    ensures |Rows(w, h, j)| + i < |Rows(w, h, m)|
    ensures Rows(w, h, m)[|Rows(w, h, j)| + i] == ChunkAt(w, h, i, j)
  {
    RowsPrefix(w, h, j + 1, m);
    RowShape(w, h, j, WorkgroupsX(w));
    var next := Rows(w, h, j + 1);
    assert next[|Rows(w, h, j)| + i] == ChunkAt(w, h, i, j);
    assert Rows(w, h, m)[..|next|][|Rows(w, h, j)| + i] == next[|Rows(w, h, j)| + i];
  }

  /** There are exactly ceil(w/64) * ceil(h/64) chunks. */
  lemma DecompositionLength(w: nat, h: nat)
    ensures |Decomposition(w, h)| == WorkgroupsX(w) * WorkgroupsY(h)
  {
    RowsLength(w, h, WorkgroupsY(h));
  }

  /** Chunk `j * workgroupsX + i` is workgroup (i, j): it starts at (64 i, 64 j). */
  lemma RowMajorOrder(w: nat, h: nat, i: nat, j: nat)
    requires i < WorkgroupsX(w) && j < WorkgroupsY(h)
    ensures j * WorkgroupsX(w) + i < |Decomposition(w, h)|
    ensures Decomposition(w, h)[j * WorkgroupsX(w) + i] == ChunkAt(w, h, i, j)
    ensures Decomposition(w, h)[j * WorkgroupsX(w) + i].startX == i * WorkgroupSizeX
    ensures Decomposition(w, h)[j * WorkgroupsX(w) + i].startY == j * WorkgroupSizeY
  {
    RowsShape(w, h, WorkgroupsY(h), j, i);
    RowsLength(w, h, j);
  }

  /** Read the other way: chunk `k` is workgroup (k % workgroupsX, k / workgroupsX). */
  lemma ChunkOfIndex(w: nat, h: nat, k: nat)
    requires k < |Decomposition(w, h)|
    ensures WorkgroupsX(w) > 0
    ensures k % WorkgroupsX(w) < WorkgroupsX(w) && k / WorkgroupsX(w) < WorkgroupsY(h)
    ensures Decomposition(w, h)[k] == ChunkAt(w, h, k % WorkgroupsX(w), k / WorkgroupsX(w))
  {
    var n, m := WorkgroupsX(w), WorkgroupsY(h);
    DecompositionLength(w, h);
    IndexSplit(k, m, n);
    RowMajorOrder(w, h, k % n, k / n);
  }

  /** Every chunk has sides between 1 and 64 and lies inside the raster. */
  lemma ChunkBounds(w: nat, h: nat, k: nat)
    requires k < |Decomposition(w, h)|
    ensures var c := Decomposition(w, h)[k];
      && 1 <= c.sizeX <= WorkgroupSizeX && 1 <= c.sizeY <= WorkgroupSizeY
      && c.startX + c.sizeX <= w && c.startY + c.sizeY <= h
      && c.sizeX == Min(WorkgroupSizeX, w - c.startX)
      && c.sizeY == Min(WorkgroupSizeY, h - c.startY)
  {
    ChunkOfIndex(w, h, k);
  }

  // ---------------------------------------------------------------------------
  // Partition of the raster
  // ---------------------------------------------------------------------------

  /** Pixel (x, y) is written by the `putImageData` of chunk `c`. */
  predicate Covers(c: Chunk, x: int, y: int) {
    c.startX <= x < c.startX + c.sizeX && c.startY <= y < c.startY + c.sizeY
  }

  /** The index of the chunk that owns raster pixel (x, y). */
  function Owner(w: nat, x: nat, y: nat): nat {
    (y / WorkgroupSizeY) * WorkgroupsX(w) + x / WorkgroupSizeX
  }

  lemma CoversChunkAt(w: nat, h: nat, i: nat, j: nat, x: int, y: int)
    requires i < WorkgroupsX(w) && j < WorkgroupsY(h)
    requires 0 <= x < w && 0 <= y < h
    ensures Covers(ChunkAt(w, h, i, j), x, y) <==> i == x / WorkgroupSizeX && j == y / WorkgroupSizeY
  {
  }

  /** A chunk only covers pixels of the raster. */
  lemma CoveredPixelInRaster(w: nat, h: nat, k: nat, x: int, y: int)
    requires k < |Decomposition(w, h)|
    requires Covers(Decomposition(w, h)[k], x, y)
    ensures 0 <= x < w && 0 <= y < h
  {
    ChunkBounds(w, h, k);
  }

  /** Within an `m` x `n` grid, `k` splits into (i, j) exactly when it is `j * n + i`. */
  lemma IndexIff(k: nat, m: nat, n: nat, j: nat, i: nat)
    requires k < m * n && j < m && i < n
    ensures (k % n == i && k / n == j) <==> k == j * n + i
  {
    IndexSplit(k, m, n);
    RowMajorSplit(j, i, m, n);
  }

  lemma OwnerIff(w: nat, h: nat, x: nat, y: nat, k: nat)
    requires x < w && y < h && k < |Decomposition(w, h)|
    ensures Covers(Decomposition(w, h)[k], x, y) <==> k == Owner(w, x, y)
  {
    var n, m := WorkgroupsX(w), WorkgroupsY(h);
    var i, j := x / WorkgroupSizeX, y / WorkgroupSizeY;
    ColumnInRange(w, i);
    RowInRange(h, j);
    ChunkOfIndex(w, h, k);
    CoversChunkAt(w, h, k % n, k / n, x, y);
    DecompositionLength(w, h);
    assert k < n * m;
    IndexIff(k, m, n, j, i);
  }

  /**
   Every raster pixel is written by exactly one chunk: chunk `k` covers (x, y)
   if and only if `k` is the pixel's owner, and the owner is a valid index.
   */
  lemma PixelOwnedOnce(w: nat, h: nat, x: nat, y: nat)
    requires x < w && y < h
    ensures Owner(w, x, y) < |Decomposition(w, h)|
    ensures forall k :: 0 <= k < |Decomposition(w, h)| ==>
              (Covers(Decomposition(w, h)[k], x, y) <==> k == Owner(w, x, y))
  {
    var i, j := x / WorkgroupSizeX, y / WorkgroupSizeY;
    ColumnInRange(w, i);
    RowInRange(h, j);
    RowMajorOrder(w, h, i, j);
    forall k | 0 <= k < |Decomposition(w, h)|
      ensures Covers(Decomposition(w, h)[k], x, y) <==> k == Owner(w, x, y)
    {
      OwnerIff(w, h, x, y, k);
    }
  }

  /** Distinct chunks never write the same pixel. */
  lemma ChunksDisjoint(w: nat, h: nat, k: nat, l: nat, x: int, y: int)
    requires k < |Decomposition(w, h)| && l < |Decomposition(w, h)| && k != l
    ensures !(Covers(Decomposition(w, h)[k], x, y) && Covers(Decomposition(w, h)[l], x, y))
  {
    if Covers(Decomposition(w, h)[k], x, y) {
      CoveredPixelInRaster(w, h, k, x, y);
      PixelOwnedOnce(w, h, x, y);
    }
  }

  /** The union of the chunks is exactly the raster [0, w) x [0, h). */
  lemma ChunksCoverRaster(w: nat, h: nat, x: int, y: int)
    ensures (exists k :: 0 <= k < |Decomposition(w, h)| && Covers(Decomposition(w, h)[k], x, y))
            <==> (0 <= x < w && 0 <= y < h)
  {
    var d := Decomposition(w, h);
    if 0 <= x < w && 0 <= y < h {
      PixelOwnedOnce(w, h, x, y);
      assert Covers(d[Owner(w, x, y)], x, y);
    }
    if exists k :: 0 <= k < |d| && Covers(d[k], x, y) {
      var k :| 0 <= k < |d| && Covers(d[k], x, y);
      CoveredPixelInRaster(w, h, k, x, y);
    }
  }

  // ---------------------------------------------------------------------------
  // Areas
  // ---------------------------------------------------------------------------

  /** Total number of pixels written by a list of chunks. */
  function Area(cs: seq<Chunk>): nat {
    if |cs| == 0 then 0 else Area(cs[..|cs| - 1]) + cs[|cs| - 1].sizeX * cs[|cs| - 1].sizeY
  }

  lemma {:induction false} AreaAppend(a: seq<Chunk>, b: seq<Chunk>)
    ensures Area(a + b) == Area(a) + Area(b)
  {
    if |b| == 0 {
      assert a + b == a;
    } else {
      var ab := a + b;
      assert ab[..|ab| - 1] == a + b[..|b| - 1];
      assert ab[|ab| - 1] == b[|b| - 1];
      AreaAppend(a, b[..|b| - 1]);
    }
  }

  lemma Distribute(a: int, b: int, c: int)
    ensures (a + b) * c == a * c + b * c
  {
  }

  /** Pixels spanned by the first `n` workgroups along an axis of length `len`. */
  function Span(len: nat, size: nat, n: nat): int {
    if n == 0 then 0 else Span(len, size, n - 1) + Min(size, len - (n - 1) * size)
  }

  lemma {:induction false} SpanOfColumns(w: nat, n: nat)
    requires n <= WorkgroupsX(w)
    ensures Span(w, WorkgroupSizeX, n) == Min(w, n * WorkgroupSizeX)
  {
    if n > 0 {
      SpanOfColumns(w, n - 1);
      ColumnInRange(w, n - 1);
    }
  }

  lemma {:induction false} SpanOfRows(h: nat, m: nat)
    requires m <= WorkgroupsY(h)
    ensures Span(h, WorkgroupSizeY, m) == Min(h, m * WorkgroupSizeY)
  {
    if m > 0 {
      SpanOfRows(h, m - 1);
      RowInRange(h, m - 1);
    }
  }

  lemma {:induction false} RowArea(w: nat, h: nat, j: nat, n: nat)
    requires n <= WorkgroupsX(w) && j < WorkgroupsY(h)
    ensures Area(Row(w, h, j, n)) == Span(w, WorkgroupSizeX, n) * Min(WorkgroupSizeY, h - j * WorkgroupSizeY)
  {
    if n > 0 {
      RowArea(w, h, j, n - 1);
      AreaAppend(Row(w, h, j, n - 1), [ChunkAt(w, h, n - 1, j)]);
      assert [ChunkAt(w, h, n - 1, j)][..0] == [];
      var height := Min(WorkgroupSizeY, h - j * WorkgroupSizeY);
      var width := Min(WorkgroupSizeX, w - (n - 1) * WorkgroupSizeX);
      Distribute(Span(w, WorkgroupSizeX, n - 1), width, height);
    }
  }

  lemma {:induction false} RowsArea(w: nat, h: nat, m: nat)
    requires m <= WorkgroupsY(h)
    ensures Area(Rows(w, h, m)) == Span(h, WorkgroupSizeY, m) * w
  {
    if m > 0 {
      var n := WorkgroupsX(w);
      RowsArea(w, h, m - 1);
      AreaAppend(Rows(w, h, m - 1), Row(w, h, m - 1, n));
      RowArea(w, h, m - 1, n);
      SpanOfColumns(w, n);
      var height := Min(WorkgroupSizeY, h - (m - 1) * WorkgroupSizeY);
      var width := Span(w, WorkgroupSizeX, n);
      assert width == w;
      assert Area(Row(w, h, m - 1, n)) == width * height;
      assert Area(Row(w, h, m - 1, n)) == height * w;
      Distribute(Span(h, WorkgroupSizeY, m - 1), height, w);
    }
  }

  /** The chunk areas sum to the raster area. */
  lemma AreaIsRaster(w: nat, h: nat)
    ensures Area(Decomposition(w, h)) == w * h
  {
    var m := WorkgroupsY(h);
    RowsArea(w, h, m);
    SpanOfRows(h, m);
    var height := Span(h, WorkgroupSizeY, m);
    assert height == h;
    assert Area(Decomposition(w, h)) == height * w;
  }

  /**
   A 130 x 130 raster is a 3 x 3 grid of chunks whose last column is 2 pixels
   wide and whose last row is 2 pixels high.
   */
  lemma Raster130()
    ensures |Decomposition(130, 130)| == 9
    ensures Decomposition(130, 130)
         == [Chunk(0, 0, 64, 64),   Chunk(64, 0, 64, 64),   Chunk(128, 0, 2, 64),
             Chunk(0, 64, 64, 64),  Chunk(64, 64, 64, 64),  Chunk(128, 64, 2, 64),
             Chunk(0, 128, 64, 2),  Chunk(64, 128, 64, 2),  Chunk(128, 128, 2, 2)]
  {
    assert WorkgroupsX(130) == 3;
    assert WorkgroupsY(130) == 3;
    DecompositionLength(130, 130);
    RowMajorOrder(130, 130, 0, 0);
    RowMajorOrder(130, 130, 1, 0);
    RowMajorOrder(130, 130, 2, 0);
    RowMajorOrder(130, 130, 0, 1);
    RowMajorOrder(130, 130, 1, 1);
    RowMajorOrder(130, 130, 2, 1);
    RowMajorOrder(130, 130, 0, 2);
    RowMajorOrder(130, 130, 1, 2);
    RowMajorOrder(130, 130, 2, 2);
  }
}

/**
 * The frame loop: a shared byte buffer holding `processorCount` scanlines of
 * 4 bytes per pixel (B, G, R, alpha 255), one ScanlineTask per buffer row,
 * and rows rendered in batches of `processorCount` starting at y = 0, N, 2N, ...
 * The tasks of one batch write disjoint regions, so they are run one after
 * the other here; each batch is handed to `setScanlines`, which the model
 * records in a log instead of calling.
 */
module Render {
  import opened Float32
  import Colors
  import opened Vectors
  import opened Geometry
  import opened Tracer

  /** The four bytes of one pixel: `(byte)(B*255)`, `(byte)(G*255)`, `(byte)(R*255)`, then 255. */
  function PixelBytes(c: Colors.Color): (p: seq<byte>)
    ensures |p| == 4 && p[3] == 255
    ensures -1.0 < c.B * 255.0 < 256.0 ==> p[0] as int == Truncate(c.B * 255.0)
    ensures -1.0 < c.G * 255.0 < 256.0 ==> p[1] as int == Truncate(c.G * 255.0)
    ensures -1.0 < c.R * 255.0 < 256.0 ==> p[2] as int == Truncate(c.R * 255.0)
  {
    [ToByte(c.B * 255.0), ToByte(c.G * 255.0), ToByte(c.R * 255.0), 255]
  }

  /** For channels in [0, 1] each channel byte is the floor of `c*255`. */
  lemma PixelBytesInRange(c: Colors.Color)
    requires 0.0 <= c.B <= 1.0 && 0.0 <= c.G <= 1.0 && 0.0 <= c.R <= 1.0
    ensures PixelBytes(c)[0] as int == (c.B * 255.0).Floor
    ensures PixelBytes(c)[1] as int == (c.G * 255.0).Floor
    ensures PixelBytes(c)[2] as int == (c.R * 255.0).Floor
  {
  }

  /** The bytes of the first `width` pixels of row y, pixel after pixel. */
  function RowBytes(trace: (int, int) -> Colors.Color, width: nat, y: int): (r: seq<byte>)
    ensures |r| == 4 * width
  {
    if width == 0 then [] else RowBytes(trace, width - 1, y) + PixelBytes(trace(width - 1, y))
  }

  /** The bytes of `rows` consecutive rows starting at row y, row after row. */
  function BatchBytes(trace: (int, int) -> Colors.Color, width: nat, rows: nat, y: int): (r: seq<byte>)
    ensures |r| == rows * (4 * width)
  {
    if rows == 0 then [] else BatchBytes(trace, width, rows - 1, y) + RowBytes(trace, width, y + rows - 1)
  }

  /** A row's bytes depend only on the colours the trace returns. */
  lemma {:induction false} RowBytesExtensional(t1: (int, int) -> Colors.Color, t2: (int, int) -> Colors.Color,
                                               width: nat, y: int)
    requires forall x :: 0 <= x < width ==> t1(x, y) == t2(x, y)
    ensures RowBytes(t1, width, y) == RowBytes(t2, width, y)
    decreases width
  {
    if width > 0 {
      RowBytesExtensional(t1, t2, width - 1, y);
    }
  }

  /** Byte 4x + ch of a row is channel ch of pixel x. */
  lemma {:induction false} RowBytesLayout(trace: (int, int) -> Colors.Color, width: nat, y: int, x: int, ch: int)
    requires 0 <= x < width && 0 <= ch < 4
    ensures RowBytes(trace, width, y)[4 * x + ch] == PixelBytes(trace(x, y))[ch]
    decreases width
  {
    if x < width - 1 {
      RowBytesLayout(trace, width - 1, y, x, ch);
    }
  }

  /** Byte i*(4*width) + j of a batch is byte j of row y + i. */
  lemma {:induction false} BatchBytesRow(trace: (int, int) -> Colors.Color, width: nat, rows: nat, y: int,
                                         i: int, j: int)
    requires 0 <= i < rows && 0 <= j < 4 * width
    ensures 0 <= i * (4 * width) + j < |BatchBytes(trace, width, rows, y)|
    ensures BatchBytes(trace, width, rows, y)[i * (4 * width) + j] == RowBytes(trace, width, y + i)[j]
    decreases rows
  {
    var n := 4 * width;
    MulMonotone(0, i, n);
    assert rows * n == (rows - 1) * n + n;
    if i < rows - 1 {
      MulMonotone(i + 1, rows - 1, n);
      assert (i + 1) * n == i * n + n;
      BatchBytesRow(trace, width, rows - 1, y, i, j);
    }
  }

  /** Byte (i*width + x)*4 + ch of a batch is channel ch of pixel x of row y + i. */
  lemma BatchBytesLayout(trace: (int, int) -> Colors.Color, width: nat, rows: nat, y: int,
                         i: int, x: int, ch: int)
    requires 0 <= i < rows && 0 <= x < width && 0 <= ch < 4
    ensures 0 <= (i * width + x) * 4 + ch < |BatchBytes(trace, width, rows, y)|
    ensures BatchBytes(trace, width, rows, y)[(i * width + x) * 4 + ch] == PixelBytes(trace(x, y + i))[ch]
  {
    PixelIndexInRow(width, i, x, ch);
    BatchBytesRow(trace, width, rows, y, i, 4 * x + ch);
    RowBytesLayout(trace, width, y + i, x, ch);
  }

  /** Byte (i*width + x)*4 + ch sits 4x + ch bytes into row i, before row i + 1 starts. */
  lemma PixelIndexInRow(width: nat, i: int, x: int, ch: int)
    requires 0 <= x < width && 0 <= ch < 4
    ensures (i * width + x) * 4 + ch == i * (4 * width) + (4 * x + ch)
    ensures (i * width + x) * 4 + ch < (i + 1) * (4 * width)
  {
    assert (i + 1) * (4 * width) == i * (4 * width) + 4 * width;
  }

  /** One worker: renders a row of `width` pixels into `scanline` starting at `offset`. */
  class ScanlineTask {
    const width: int
    const offset: int
    const scanline: array<byte>
    const trace: (int, int) -> Colors.Color

    constructor(width: int, offset: int, scanline: array<byte>, trace: (int, int) -> Colors.Color)
      ensures this.width == width && this.offset == offset
      ensures this.scanline == scanline && this.trace == trace
    {
      this.width := width;
      this.offset := offset;
      this.scanline := scanline;
      this.trace := trace;
    }

    /** Start(y): writes row y's bytes to [offset, offset + 4*width) and nothing else. */
    method Start(y: int)
      requires 0 <= width && 0 <= offset && offset + 4 * width <= scanline.Length
      modifies scanline
      ensures scanline[offset..offset + 4 * width] == RowBytes(trace, width, y)
      ensures scanline[..offset] == old(scanline[..offset])
      ensures scanline[offset + 4 * width..] == old(scanline[offset + 4 * width..])
    {
      var x, i := 0, offset;
      while x < width
        invariant 0 <= x <= width && i == offset + 4 * x
        invariant scanline[offset..i] == RowBytes(trace, x, y)
        invariant scanline[..offset] == old(scanline[..offset])
        invariant scanline[offset + 4 * width..] == old(scanline[offset + 4 * width..])
      {
        ghost var before := scanline[..];
        WritePixel(i, trace(x, y));
        RowGrows(before, scanline[..], trace, x, y, offset, i, offset + 4 * width);
        x, i := x + 1, i + 4;
      }
    }

    /** Start's loop body: the B, G, R and alpha bytes of one pixel at i .. i + 3. */
    method WritePixel(i: int, color: Colors.Color)
      requires 0 <= i && i + 4 <= scanline.Length
      modifies scanline
      ensures scanline[..] == old(scanline[..])[..i] + PixelBytes(color) + old(scanline[..])[i + 4..]
    {
      scanline[i + 3] := 255;
      scanline[i + 0] := ToByte(color.B * 255.0);
      scanline[i + 1] := ToByte(color.G * 255.0);
      scanline[i + 2] := ToByte(color.R * 255.0);
    }
  }

  /**
   * Writing the four bytes of a pixel at i appends them to the region that
   * starts at offset and leaves everything outside [i, i + 4) alone.
   */
  lemma PixelWritten(before: seq<byte>, after: seq<byte>, offset: int, i: int, end: int, pixel: seq<byte>)
    requires 0 <= offset <= i && i + 4 <= end <= |before| && |pixel| == 4
    requires after == before[..i] + pixel + before[i + 4..]
    ensures after[offset..i + 4] == before[offset..i] + pixel
    ensures after[..offset] == before[..offset]
    ensures after[end..] == before[end..]
  {
    assert after[offset..i + 4] == after[offset..i] + after[i..i + 4];
  }

  /** Start's loop step: after pixel x is written at i, the region holds one more pixel of row y. */
  lemma RowGrows(before: seq<byte>, after: seq<byte>, trace: (int, int) -> Colors.Color, x: nat, y: int,
                 offset: int, i: int, end: int)
    requires 0 <= offset && i == offset + 4 * x && i + 4 <= end <= |before|
    requires before[offset..i] == RowBytes(trace, x, y)
    requires after == before[..i] + PixelBytes(trace(x, y)) + before[i + 4..]
    ensures after[offset..i + 4] == RowBytes(trace, x + 1, y)
    ensures after[..offset] == before[..offset]
    ensures after[end..] == before[end..]
  {
    PixelWritten(before, after, offset, i, end, PixelBytes(trace(x, y)));
  }

  /** The arguments of one `setScanlines(y, rows, buffer)` call. */
  datatype ScanlineCall = ScanlineCall(y: int, rows: int, bytes: seq<byte>)

  /** How many batches `for (y = 0; y < height; y += n)` runs. */
  function NumBatches(height: int, n: int): (b: nat)
    requires n > 0
  {
    if height <= 0 then 0 else (height - 1) / n + 1
  }

  /** Multiplying by a natural number keeps order. */
  lemma {:induction false} MulMonotone(a: int, b: int, c: nat)
    ensures a <= b ==> a * c <= b * c
    decreases c
  {
    if c > 0 {
      MulMonotone(a, b, c - 1);
      assert a * c == a * (c - 1) + a && b * c == b * (c - 1) + b;
    }
  }

  /** Batch b runs exactly when its first row b*n is below the height. */
  lemma BatchStartsBelowHeight(height: int, n: int, b: nat)
    requires n > 0
    ensures b < NumBatches(height, n) <==> b * n < height
  {
    if height > 0 {
      var q := (height - 1) / n;
      assert q * n + (height - 1) % n == height - 1;
      if b <= q {
        MulMonotone(b, q, n);
      } else {
        MulMonotone(q + 1, b, n);
        assert (q + 1) * n == q * n + n;
      }
    } else {
      assert b * n >= 0 by { MulMonotone(0, b, n); }
    }
  }

  /** Every row below the height is rendered by batch row / n, which does run, and by no other batch. */
  lemma BatchesCoverRows(height: int, n: int, row: int)
    requires n > 0 && 0 <= row < height
    ensures var b := row / n;
            0 <= b < NumBatches(height, n) && b * n <= row < b * n + n
    ensures forall b :: 0 <= b < NumBatches(height, n) ==> (b * n <= row < b * n + n <==> b == row / n)
  {
    var q := row / n;
    assert q * n + row % n == row;
    BatchStartsBelowHeight(height, n, q);
    forall b | 0 <= b < NumBatches(height, n) && b * n <= row < b * n + n
      ensures b == q
    {
      DivModUnique(row, n, b, row - b * n);
    }
  }

  /** Euclidean division is unique: a = q*n + r with 0 <= r < n fixes a / n and a % n. */
  lemma DivModUnique(a: int, n: int, q: int, r: int)
    requires n > 0 && 0 <= r < n && a == q * n + r
    ensures a / n == q && a % n == r
  {
    var q', r' := a / n, a % n;
    assert q' * n + r' == a && 0 <= r' < n;
    MulMonotone(q' + 1, q, n);
    MulMonotone(q + 1, q', n);
    assert (q' + 1) * n == q' * n + n && (q + 1) * n == q * n + n;
  }

  /**
   * The last batch asks for rows at or past the height exactly when n does
   * not divide the height.
   */
  lemma LastBatchOverruns(height: int, n: int)
    requires n > 0 && height > 0
    ensures (NumBatches(height, n) - 1) * n + n > height <==> height % n != 0
  {
    var q := (height - 1) / n;
    var r := (height - 1) % n;
    assert NumBatches(height, n) - 1 == q;
    assert q * n + r == height - 1 && 0 <= r < n;
    // height = q*n + (r + 1), so n divides height exactly when r + 1 == n.
    if r + 1 == n {
      assert height == (q + 1) * n + 0;
      DivModUnique(height, n, q + 1, 0);
    } else {
      DivModUnique(height, n, q, r + 1);
    }
  }

  /** Task i's region [i*width*4, i*width*4 + 4*width) ends no later than task j's starts, inside the buffer. */
  lemma TaskRegionsDisjoint(width: nat, n: nat, i: int, j: int)
    requires 0 <= i < j < n
    ensures 0 <= i * width * 4 && i * width * 4 + 4 * width <= j * width * 4
    ensures j * width * 4 + 4 * width <= n * width * 4
  {
    MulMonotone(0, i, width);
    MulMonotone(i + 1, j, width);
    MulMonotone(j + 1, n, width);
    assert (i + 1) * width == i * width + width;
    assert (j + 1) * width == j * width + width;
  }

  /** Row i of an n-row buffer: [i*width*4, (i+1)*width*4), of length 4*width and inside the buffer. */
  lemma RowRegion(width: nat, n: nat, i: int)
    requires 0 <= i < n
    ensures 0 <= i * width * 4 == i * (4 * width)
    ensures (i + 1) * width * 4 == i * width * 4 + 4 * width <= n * width * 4
  {
    TaskRegionsDisjoint(width, n + 1, i, n);
  }

  /**
   * One task's Start in a batch: with rows y .. y+i-1 already in the buffer
   * and row y+i written right after them, the buffer holds rows y .. y+i.
   */
  lemma StartExtendsBatch(buffer: seq<byte>, taskTrace: (int, int) -> Colors.Color,
                          trace: (int, int) -> Colors.Color, width: nat, i: nat, y: int, lo: int)
    requires 0 <= lo && lo + 4 * width <= |buffer|
    requires buffer[..lo] == BatchBytes(trace, width, i, y)
    requires buffer[lo..lo + 4 * width] == RowBytes(taskTrace, width, y + i)
    requires forall x, y :: taskTrace(x, y) == trace(x, y)
    ensures buffer[..lo + 4 * width] == BatchBytes(trace, width, i + 1, y)
  {
    calc {
      buffer[..lo + 4 * width];
      buffer[..lo] + buffer[lo..lo + 4 * width];
      { RowBytesExtensional(taskTrace, trace, width, y + i); }
      BatchBytes(trace, width, i, y) + RowBytes(trace, width, y + i);
      { BatchBytesNextRow(trace, width, i, y); }
      BatchBytes(trace, width, i + 1, y);
    }
  }

  /** One more row appends that row's bytes to the batch. */
  lemma BatchBytesNextRow(trace: (int, int) -> Colors.Color, width: nat, i: nat, y: int)
    ensures BatchBytes(trace, width, i + 1, y) == BatchBytes(trace, width, i, y) + RowBytes(trace, width, y + i)
  {
    assert y + (i + 1) - 1 == y + i;
  }

  /** Entry b of the log is batch b: n rows from row b*n. */
  ghost predicate Logged(log: seq<ScanlineCall>, n: nat, width: nat, trace: (int, int) -> Colors.Color)
  {
    forall b :: 0 <= b < |log| ==> log[b] == ScanlineCall(b * n, n, BatchBytes(trace, width, n, b * n))
  }

  /** Logging the next batch's bytes keeps the log in step and moves y on by n rows. */
  lemma LoggedAppend(log: seq<ScanlineCall>, n: nat, width: nat, trace: (int, int) -> Colors.Color, bytes: seq<byte>)
    requires Logged(log, n, width, trace)
    requires bytes == BatchBytes(trace, width, n, |log| * n)
    ensures Logged(log + [ScanlineCall(|log| * n, n, bytes)], n, width, trace)
    ensures (|log| + 1) * n == |log| * n + n
  {
  }

  /** The colour of screen pixel (x, y): the ray from the camera through GetPoint(x, y), traced from depth 0. */
  function PixelTrace(scene: Scene, point: (int, int) -> Vector): (f: (int, int) -> Colors.Color)
  {
    (x, y) => TraceRay(Ray(scene.Camera.Pos, point(x, y)), scene, 0)
  }

  /** Task k of the frame: full-width row k of the shared buffer. */
  ghost predicate Wired(t: ScanlineTask?, k: int, width: int, buffer: array<byte>, trace: (int, int) -> Colors.Color)
  {
    && t != null && t.width == width && t.offset == k * width * 4 && t.scanline == buffer
    && forall x, y :: t.trace(x, y) == trace(x, y)
  }

  class RayTracer {
    const screenWidth: int
    const screenHeight: int

    constructor(screenWidth: int, screenHeight: int)
      ensures this.screenWidth == screenWidth && this.screenHeight == screenHeight
    {
      this.screenWidth := screenWidth;
      this.screenHeight := screenHeight;
    }

    /** The inner loop of Render: starts task i on row y + i for every task, filling the whole buffer. */
    method RunBatch(scanLineTasks: array<ScanlineTask?>, scanlines: array<byte>, n: nat, width: nat, y: int,
                    ghost trace: (int, int) -> Colors.Color)
      requires scanLineTasks.Length == n && scanlines.Length == n * width * 4
      requires forall k :: 0 <= k < n ==> Wired(scanLineTasks[k], k, width, scanlines, trace)
      modifies scanlines
      ensures scanlines[..] == BatchBytes(trace, width, n, y)
    {
      for i := 0 to n
        invariant scanlines[..i * width * 4] == BatchBytes(trace, width, i, y)
      {
        assert Wired(scanLineTasks[i], i, width, scanlines, trace);
        RunTask(scanLineTasks[i], scanlines, n, width, y, i, trace);
      }
      assert scanlines[..] == scanlines[..n * width * 4];
    }

    /** One pass of RunBatch's loop: task i renders row y + i right after rows y .. y+i-1. */
    static method RunTask(task: ScanlineTask?, scanlines: array<byte>, n: nat, width: nat, y: int, i: nat,
                          ghost trace: (int, int) -> Colors.Color)
      requires i < n && scanlines.Length == n * width * 4
      requires Wired(task, i, width, scanlines, trace)
      requires scanlines[..i * width * 4] == BatchBytes(trace, width, i, y)
      modifies scanlines
      ensures (i + 1) * width * 4 <= scanlines.Length
      ensures scanlines[..(i + 1) * width * 4] == BatchBytes(trace, width, i + 1, y)
      ensures scanlines[(i + 1) * width * 4..] == old(scanlines[(i + 1) * width * 4..])
    {
      RowRegion(width, n, i);
      task.Start(y + i);
      StartExtendsBatch(scanlines[..], task.trace, trace, width, i, y, task.offset);
    }

    /**
     * Render: one setScanlines call per batch, at rows 0, n, 2n, ..., each
     * with n full rows of pixel bytes, including rows past the height in a
     * short last batch. GetPoint's ray directions are the parameter `point`.
     */
    method Render(scene: Scene, processorCount: int, point: (int, int) -> Vector) returns (log: seq<ScanlineCall>)
      requires processorCount > 0 && screenWidth >= 0
      ensures |log| == NumBatches(screenHeight, processorCount)
      ensures forall b :: 0 <= b < |log| ==>
                log[b] == ScanlineCall(b * processorCount, processorCount,
                                       BatchBytes(PixelTrace(scene, point), screenWidth, processorCount,
                                                  b * processorCount))
    {
      log := RenderRows(processorCount, PixelTrace(scene, point));
    }

    /** One task per buffer row: task i renders into bytes [i*width*4, (i+1)*width*4). */
    static method CreateTasks(n: nat, width: nat, scanlines: array<byte>, trace: (int, int) -> Colors.Color)
      returns (scanLineTasks: array<ScanlineTask?>)
      ensures fresh(scanLineTasks) && scanLineTasks.Length == n
      ensures forall k :: 0 <= k < n ==> Wired(scanLineTasks[k], k, width, scanlines, trace)
    {
      scanLineTasks := new ScanlineTask?[n];
      for i := 0 to n
        invariant forall k :: 0 <= k < i ==> Wired(scanLineTasks[k], k, width, scanlines, trace)
      {
        scanLineTasks[i] := new ScanlineTask(width, i * width * 4, scanlines, trace);
      }
    }

    /** Render's body for a given per-pixel trace: the task set-up and the batch loop. */
    method RenderRows(processorCount: int, trace: (int, int) -> Colors.Color) returns (log: seq<ScanlineCall>)
      requires processorCount > 0 && screenWidth >= 0
      ensures |log| == NumBatches(screenHeight, processorCount)
      ensures forall b :: 0 <= b < |log| ==>
                log[b] == ScanlineCall(b * processorCount, processorCount,
                                       BatchBytes(trace, screenWidth, processorCount, b * processorCount))
    {
      var n, width := processorCount, screenWidth;
      var scanlines := new byte[n * width * 4];
      var scanLineTasks := CreateTasks(n, width, scanlines, trace);
      var y := 0;
      log := [];
      while y < screenHeight
        invariant y == |log| * n
        invariant |log| > 0 ==> (|log| - 1) * n < screenHeight
        invariant Logged(log, n, width, trace)
        invariant forall k :: 0 <= k < n ==> Wired(scanLineTasks[k], k, width, scanlines, trace)
        decreases screenHeight - y
      {
        RunBatch(scanLineTasks, scanlines, n, width, y, trace);
        LoggedAppend(log, n, width, trace, scanlines[..]);
        log := log + [ScanlineCall(y, n, scanlines[..])];
        y := y + n;
      }
      BatchStartsBelowHeight(screenHeight, n, |log|);
      if |log| > 0 {
        BatchStartsBelowHeight(screenHeight, n, |log| - 1);
      }
    }
  }
}

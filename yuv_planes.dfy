/**
 * Copying the samples of a decoded YUV 4:2:0 image out of its strided plane
 * buffers: the per-plane extraction handed to the compositor, and the two
 * NV21 packings (Y plane, then V and U interleaved).
 *
 * A plane buffer is read with absolute `get(index)` calls; an index at or past
 * the buffer's limit throws. Each method therefore returns `ok`, false exactly
 * when some read would have thrown; its other results mean something only
 * when `ok` holds, because the Kotlin code leaves by an exception.
 */
module YuvPlanes {
  import opened Common
  import opened Pixels

  /** Buffer index of the sample at (row, col) of a plane with the given strides. */
  function SampleOffset(row: nat, col: nat, rowStride: nat, pixelStride: nat): nat
  {
    row * rowStride + col * pixelStride
  }

  lemma OffsetMonotone(r: nat, c: nat, r': nat, c': nat, rowStride: nat, pixelStride: nat)
    requires r <= r' && c <= c'
    ensures SampleOffset(r, c, rowStride, pixelStride) <= SampleOffset(r', c', rowStride, pixelStride)
  {
    MulMono(r, rowStride, r', rowStride);
    MulMono(c, pixelStride, c', pixelStride);
  }

  /**
   * Every read of a rows x cols scan is below `limit`. Offsets grow with row
   * and column, so the last sample decides.
   */
  predicate Fits(limit: nat, rows: nat, cols: nat, rowStride: nat, pixelStride: nat)
  {
    rows == 0 || cols == 0 || SampleOffset(rows - 1, cols - 1, rowStride, pixelStride) < limit
  }

  lemma FitsAt(limit: nat, rows: nat, cols: nat, rowStride: nat, pixelStride: nat, r: nat, c: nat)
    requires Fits(limit, rows, cols, rowStride, pixelStride) && r < rows && c < cols
    ensures SampleOffset(r, c, rowStride, pixelStride) < limit
  {
    OffsetMonotone(r, c, rows - 1, cols - 1, rowStride, pixelStride);
  }

  /** Columns 0 .. n-1 of row r, in order. */
  function RowSamples<T>(buf: seq<T>, r: nat, n: nat, rowStride: nat, pixelStride: nat): (s: seq<T>)
    requires n == 0 || SampleOffset(r, n - 1, rowStride, pixelStride) < |buf|
    ensures |s| == n
  {
    if n == 0 then []
    else
      assert n > 1 ==> SampleOffset(r, n - 2, rowStride, pixelStride) < |buf| by {
        if n > 1 { OffsetMonotone(r, n - 2, r, n - 1, rowStride, pixelStride); }
      }
      RowSamples(buf, r, n - 1, rowStride, pixelStride) + [buf[SampleOffset(r, n - 1, rowStride, pixelStride)]]
  }

  /** The rows x cols samples of a plane in row-major order: what the copy loops produce. */
  function Plane<T>(buf: seq<T>, rows: nat, cols: nat, rowStride: nat, pixelStride: nat): (s: seq<T>)
    requires Fits(|buf|, rows, cols, rowStride, pixelStride)
    ensures |s| == rows * cols
  {
    if rows == 0 then []
    else
      assert Fits(|buf|, rows - 1, cols, rowStride, pixelStride) by {
        if rows > 1 && cols > 0 { FitsAt(|buf|, rows, cols, rowStride, pixelStride, rows - 2, cols - 1); }
      }
      assert (rows - 1) * cols + cols == rows * cols;
      Plane(buf, rows - 1, cols, rowStride, pixelStride) + RowSamples(buf, rows - 1, cols, rowStride, pixelStride)
  }

  lemma {:induction false} RowSamplesAt<T>(buf: seq<T>, r: nat, n: nat, rowStride: nat, pixelStride: nat, c: nat)
    requires n == 0 || SampleOffset(r, n - 1, rowStride, pixelStride) < |buf|
    requires c < n
    ensures SampleOffset(r, c, rowStride, pixelStride) < |buf|
    ensures RowSamples(buf, r, n, rowStride, pixelStride)[c] == buf[SampleOffset(r, c, rowStride, pixelStride)]
  {
    OffsetMonotone(r, c, r, n - 1, rowStride, pixelStride);
    if c < n - 1 {
      OffsetMonotone(r, n - 2, r, n - 1, rowStride, pixelStride);
      RowSamplesAt(buf, r, n - 1, rowStride, pixelStride, c);
    }
  }

  /** Sample (r, c) of the plane sits at row-major position r * cols + c. */
  lemma {:induction false} PlaneAt<T>(buf: seq<T>, rows: nat, cols: nat, rowStride: nat, pixelStride: nat, r: nat, c: nat)
    requires Fits(|buf|, rows, cols, rowStride, pixelStride)
    requires r < rows && c < cols
    ensures SampleOffset(r, c, rowStride, pixelStride) < |buf|
    ensures r * cols + c < rows * cols
    ensures Plane(buf, rows, cols, rowStride, pixelStride)[r * cols + c] == buf[SampleOffset(r, c, rowStride, pixelStride)]
  {
    FitsAt(|buf|, rows, cols, rowStride, pixelStride, r, c);
    RowMajorBound(r, c, rows, cols);
    if r == rows - 1 {
      PlaneLastRow(buf, rows, cols, rowStride, pixelStride, c);
    } else {
      RowMajorBound(r, c, rows - 1, cols);
      PlaneEarlierRows(buf, rows, cols, rowStride, pixelStride, r * cols + c);
      PlaneAt(buf, rows - 1, cols, rowStride, pixelStride, r, c);
    }
  }

  /** The last row of a plane holds that row's samples. */
  lemma PlaneLastRow<T>(buf: seq<T>, rows: nat, cols: nat, rowStride: nat, pixelStride: nat, c: nat)
    requires Fits(|buf|, rows, cols, rowStride, pixelStride)
    requires 0 < rows && c < cols
    ensures SampleOffset(rows - 1, c, rowStride, pixelStride) < |buf|
    ensures (rows - 1) * cols + c < rows * cols
    ensures Plane(buf, rows, cols, rowStride, pixelStride)[(rows - 1) * cols + c]
         == buf[SampleOffset(rows - 1, c, rowStride, pixelStride)]
  {
    FitsAt(|buf|, rows, cols, rowStride, pixelStride, rows - 1, c);
    FitsAt(|buf|, rows, cols, rowStride, pixelStride, rows - 1, cols - 1);
    RowSamplesAt(buf, rows - 1, cols, rowStride, pixelStride, c);
    if rows > 1 { FitsAt(|buf|, rows, cols, rowStride, pixelStride, rows - 2, cols - 1); }
    var prefix := Plane(buf, rows - 1, cols, rowStride, pixelStride);
    assert Plane(buf, rows, cols, rowStride, pixelStride)
        == prefix + RowSamples(buf, rows - 1, cols, rowStride, pixelStride);
  }

  /** Adding a row leaves the earlier rows where they were. */
  lemma PlaneEarlierRows<T>(buf: seq<T>, rows: nat, cols: nat, rowStride: nat, pixelStride: nat, i: nat)
    requires Fits(|buf|, rows, cols, rowStride, pixelStride)
    requires 1 < rows && i < (rows - 1) * cols
    ensures Fits(|buf|, rows - 1, cols, rowStride, pixelStride)
    ensures i < rows * cols
    ensures Plane(buf, rows, cols, rowStride, pixelStride)[i] == Plane(buf, rows - 1, cols, rowStride, pixelStride)[i]
  {
    FitsAt(|buf|, rows, cols, rowStride, pixelStride, rows - 2, cols - 1);
  }

  /** With no padding (row stride == cols, pixel stride 1) the plane is a prefix of the buffer. */
  lemma {:induction false} ContiguousPlane<T>(buf: seq<T>, rows: nat, cols: nat)
    requires rows * cols <= |buf|
    ensures Fits(|buf|, rows, cols, cols, 1)
    ensures Plane(buf, rows, cols, cols, 1) == buf[..rows * cols]
  {
    if rows > 0 && cols > 0 {
      assert SampleOffset(rows - 1, cols - 1, cols, 1) == rows * cols - 1 by {
        assert (rows - 1) * cols == rows * cols - cols;
      }
    }
    if rows > 0 {
      assert (rows - 1) * cols == rows * cols - cols;
      ContiguousPlane(buf, rows - 1, cols);
      ContiguousRow(buf, rows - 1, cols, cols);
      assert buf[..rows * cols] == buf[..(rows - 1) * cols] + buf[(rows - 1) * cols..rows * cols];
    }
  }

  /** With pixel stride 1, row r is a slice of the buffer. */
  lemma {:induction false} ContiguousRow<T>(buf: seq<T>, r: nat, n: nat, rowStride: nat)
    requires r * rowStride + n <= |buf|
    ensures n == 0 || SampleOffset(r, n - 1, rowStride, 1) < |buf|
    ensures RowSamples(buf, r, n, rowStride, 1) == buf[r * rowStride..r * rowStride + n]
  {
    if n > 0 {
      ContiguousRow(buf, r, n - 1, rowStride);
      assert buf[r * rowStride..r * rowStride + n]
          == buf[r * rowStride..r * rowStride + n - 1] + [buf[r * rowStride + n - 1]];
    }
  }

  /** a[0], b[0], a[1], b[1], ... */
  function Interleave<T>(a: seq<T>, b: seq<T>): (r: seq<T>)
    requires |a| == |b|
    ensures |r| == 2 * |a|
  {
    if |a| == 0 then [] else Interleave(a[..|a| - 1], b[..|b| - 1]) + [a[|a| - 1], b[|b| - 1]]
  }

  lemma InterleaveSnoc<T>(a: seq<T>, b: seq<T>, x: T, y: T)
    requires |a| == |b|
    ensures Interleave(a + [x], b + [y]) == Interleave(a, b) + [x, y]
  {
    assert (a + [x])[..|a|] == a;
    assert (b + [y])[..|b|] == b;
  }

  lemma {:induction false} InterleaveAt<T>(a: seq<T>, b: seq<T>, k: nat)
    requires |a| == |b| && k < |a|
    ensures Interleave(a, b)[2 * k] == a[k] && Interleave(a, b)[2 * k + 1] == b[k]
  {
    if k < |a| - 1 {
      InterleaveAt(a[..|a| - 1], b[..|b| - 1], k);
    }
  }

  function Zeros(n: nat): (z: seq<uint8>)
    ensures |z| == n && forall i :: 0 <= i < n ==> z[i] == 0
  {
    seq(n, _ => 0)
  }

  /** Room for an NV21 image of width x height: `ySize + ySize / 2` bytes. */
  function Nv21Size(width: nat, height: nat): (n: nat)
    ensures n >= height * width + 2 * ((height / 2) * (width / 2))
  {
    var a, b := width / 2, height / 2;
    MulMono(2 * a, 2 * b, width, height);
    assert (2 * a) * (2 * b) == 4 * (a * b);
    width * height + width * height / 2
  }

  /**
   * An NV21 buffer: the Y plane, one (V, U) pair per chroma sample, V first,
   * and zero bytes for whatever room an odd width or height leaves over.
   */
  function Nv21(yPlane: seq<uint8>, vPlane: seq<uint8>, uPlane: seq<uint8>, size: nat): seq<uint8>
    requires |vPlane| == |uPlane| && |yPlane| + 2 * |vPlane| <= size
  {
    yPlane + Interleave(vPlane, uPlane) + Zeros(size - |yPlane| - 2 * |vPlane|)
  }

  /** Where each sample lands in an NV21 buffer. */
  lemma Nv21Layout(yPlane: seq<uint8>, vPlane: seq<uint8>, uPlane: seq<uint8>, size: nat)
    requires |vPlane| == |uPlane| && |yPlane| + 2 * |vPlane| <= size
    ensures |Nv21(yPlane, vPlane, uPlane, size)| == size
    ensures forall i :: 0 <= i < |yPlane| ==> Nv21(yPlane, vPlane, uPlane, size)[i] == yPlane[i]
    ensures forall k :: 0 <= k < |vPlane| ==>
      Nv21(yPlane, vPlane, uPlane, size)[|yPlane| + 2 * k] == vPlane[k] &&
      Nv21(yPlane, vPlane, uPlane, size)[|yPlane| + 2 * k + 1] == uPlane[k]
    ensures forall i :: |yPlane| + 2 * |vPlane| <= i < size ==> Nv21(yPlane, vPlane, uPlane, size)[i] == 0
  {
    forall k | 0 <= k < |vPlane|
      ensures Nv21(yPlane, vPlane, uPlane, size)[|yPlane| + 2 * k] == vPlane[k]
      ensures Nv21(yPlane, vPlane, uPlane, size)[|yPlane| + 2 * k + 1] == uPlane[k]
    {
      InterleaveAt(vPlane, uPlane, k);
    }
  }

  /**
   * One row of the strided copy loop:
   * `dst[pos++] = buf.get(row * rowStride + col * pixelStride)` for each column.
   * Stops (ok false) at the first read past the buffer's limit.
   */
  method CopyRow(buf: seq<uint8>, row: nat, cols: nat, rowStride: nat, pixelStride: nat,
                 dst: array<uint8>, start: nat) returns (ok: bool)
    requires start + cols <= dst.Length
    modifies dst
    ensures ok == (cols == 0 || SampleOffset(row, cols - 1, rowStride, pixelStride) < |buf|)
    ensures ok ==> dst[start..start + cols] == RowSamples(buf, row, cols, rowStride, pixelStride)
    ensures forall i :: 0 <= i < dst.Length && !(start <= i < start + cols) ==> dst[i] == old(dst[i])
  {
    var col := 0;
    while col < cols
      invariant 0 <= col <= cols
      invariant col > 0 ==> SampleOffset(row, col - 1, rowStride, pixelStride) < |buf|
      invariant dst[start..start + col] == RowSamples(buf, row, col, rowStride, pixelStride)
      invariant forall i :: 0 <= i < dst.Length && !(start <= i < start + cols) ==> dst[i] == old(dst[i])
    {
      var index := SampleOffset(row, col, rowStride, pixelStride);
      if index >= |buf| {
        OffsetMonotone(row, col, row, cols - 1, rowStride, pixelStride);
        return false;
      }
      dst[start + col] := buf[index];
      assert dst[start..start + col + 1] == dst[start..start + col] + [buf[index]];
      col := col + 1;
    }
    return true;
  }

  /**
   * The strided copy loop over all rows, writing from `start` on. Stops (ok
   * false) at the first read past the buffer's limit.
   */
  method CopyPlane(buf: seq<uint8>, rows: nat, cols: nat, rowStride: nat, pixelStride: nat,
                   dst: array<uint8>, start: nat) returns (ok: bool)
    requires start + rows * cols <= dst.Length
    modifies dst
    ensures ok == Fits(|buf|, rows, cols, rowStride, pixelStride)
    ensures ok ==> dst[start..start + rows * cols] == Plane(buf, rows, cols, rowStride, pixelStride)
    ensures forall i :: 0 <= i < dst.Length && !(start <= i < start + rows * cols) ==> dst[i] == old(dst[i])
  {
    var pos := start;
    var row := 0;
    while row < rows
      invariant 0 <= row <= rows
      invariant pos == start + row * cols
      invariant row * cols <= rows * cols
      invariant Fits(|buf|, row, cols, rowStride, pixelStride)
      invariant dst[start..pos] == Plane(buf, row, cols, rowStride, pixelStride)
      invariant forall i :: 0 <= i < dst.Length && !(start <= i < start + rows * cols) ==> dst[i] == old(dst[i])
    {
      NextRow(row, rows, cols);
      ghost var done := dst[start..pos];
      ok := CopyRow(buf, row, cols, rowStride, pixelStride, dst, pos);
      if !ok {
        OffsetMonotone(row, cols - 1, rows - 1, cols - 1, rowStride, pixelStride);
        return;
      }
      assert dst[start..pos] == done;
      assert dst[start..pos + cols] == dst[start..pos] + dst[pos..pos + cols];
      pos := pos + cols;
      row := row + 1;
    }
    return true;
  }

  /**
   * Copies a rows x cols plane into a fresh array of exactly that size, the
   * per-plane step of the frame extraction.
   */
  method ExtractPlane(buf: seq<uint8>, rows: nat, cols: nat, rowStride: nat, pixelStride: nat)
    returns (ok: bool, data: array<uint8>)
    ensures data.Length == rows * cols
    ensures ok == Fits(|buf|, rows, cols, rowStride, pixelStride)
    ensures ok ==> data[..] == Plane(buf, rows, cols, rowStride, pixelStride)
  {
    data := new uint8[rows * cols];
    ok := CopyPlane(buf, rows, cols, rowStride, pixelStride, data, 0);
    if ok {
      assert data[..] == data[0..rows * cols];
    }
  }

  /** Row r, column c of a plane is the sample at row r * rowStride + c * pixelStride of the buffer. */
  lemma PlaneEntries<T>(buf: seq<T>, rows: nat, cols: nat, rowStride: nat, pixelStride: nat)
    requires Fits(|buf|, rows, cols, rowStride, pixelStride)
    ensures forall r, c :: 0 <= r < rows && 0 <= c < cols ==>
      SampleOffset(r, c, rowStride, pixelStride) < |buf| && r * cols + c < rows * cols &&
      Plane(buf, rows, cols, rowStride, pixelStride)[r * cols + c] == buf[SampleOffset(r, c, rowStride, pixelStride)]
  {
    forall r, c | 0 <= r < rows && 0 <= c < cols
      ensures SampleOffset(r, c, rowStride, pixelStride) < |buf| && r * cols + c < rows * cols
      ensures Plane(buf, rows, cols, rowStride, pixelStride)[r * cols + c] == buf[SampleOffset(r, c, rowStride, pixelStride)]
    {
      PlaneAt(buf, rows, cols, rowStride, pixelStride, r, c);
    }
  }

  /**
   * extractYUVPlanes: the Y plane at full size with its own strides, then the
   * U and V planes at (width/2) x (height/2), both read with the U plane's
   * strides. A read that would throw ends the extraction (ok false).
   */
  method ExtractYuvPlanes(yBuf: seq<uint8>, uBuf: seq<uint8>, vBuf: seq<uint8>,
                          width: nat, height: nat,
                          yRowStride: nat, yPixelStride: nat, uvRowStride: nat, uvPixelStride: nat)
    returns (ok: bool, yData: array<uint8>, uData: array<uint8>, vData: array<uint8>)
    ensures ok == (Fits(|yBuf|, height, width, yRowStride, yPixelStride)
                && Fits(|uBuf|, height / 2, width / 2, uvRowStride, uvPixelStride)
                && Fits(|vBuf|, height / 2, width / 2, uvRowStride, uvPixelStride))
    ensures ok ==> yData.Length == height * width
    ensures ok ==> uData.Length == vData.Length == (height / 2) * (width / 2)
    ensures ok ==> yData[..] == Plane(yBuf, height, width, yRowStride, yPixelStride)
    ensures ok ==> uData[..] == Plane(uBuf, height / 2, width / 2, uvRowStride, uvPixelStride)
    ensures ok ==> vData[..] == Plane(vBuf, height / 2, width / 2, uvRowStride, uvPixelStride)
  {
    var uvWidth, uvHeight := width / 2, height / 2;
    uData := new uint8[0];
    vData := new uint8[0];
    ok, yData := ExtractPlane(yBuf, height, width, yRowStride, yPixelStride);
    if !ok { return; }
    ok, uData := ExtractPlane(uBuf, uvHeight, uvWidth, uvRowStride, uvPixelStride);
    if !ok { return; }
    ok, vData := ExtractPlane(vBuf, uvHeight, uvWidth, uvRowStride, uvPixelStride);
  }

  /** Columns 0 .. n-1 of chroma row r as (V, U) pairs, both read at the same offset. */
  function ChromaRow(vBuf: seq<uint8>, uBuf: seq<uint8>, r: nat, n: nat, rowStride: nat, pixelStride: nat): (s: seq<uint8>)
    requires n == 0 || (SampleOffset(r, n - 1, rowStride, pixelStride) < |vBuf|
                        && SampleOffset(r, n - 1, rowStride, pixelStride) < |uBuf|)
    ensures |s| == 2 * n
  {
    if n == 0 then []
    else
      assert n > 1 ==> SampleOffset(r, n - 2, rowStride, pixelStride) <= SampleOffset(r, n - 1, rowStride, pixelStride) by {
        if n > 1 { OffsetMonotone(r, n - 2, r, n - 1, rowStride, pixelStride); }
      }
      var offset := SampleOffset(r, n - 1, rowStride, pixelStride);
      ChromaRow(vBuf, uBuf, r, n - 1, rowStride, pixelStride) + [vBuf[offset], uBuf[offset]]
  }

  lemma {:induction false} ChromaRowInterleaves(vBuf: seq<uint8>, uBuf: seq<uint8>, r: nat, n: nat, rowStride: nat, pixelStride: nat)
    requires n == 0 || (SampleOffset(r, n - 1, rowStride, pixelStride) < |vBuf|
                        && SampleOffset(r, n - 1, rowStride, pixelStride) < |uBuf|)
    ensures ChromaRow(vBuf, uBuf, r, n, rowStride, pixelStride)
            == Interleave(RowSamples(vBuf, r, n, rowStride, pixelStride), RowSamples(uBuf, r, n, rowStride, pixelStride))
  {
    if n > 0 {
      if n > 1 { OffsetMonotone(r, n - 2, r, n - 1, rowStride, pixelStride); }
      ChromaRowInterleaves(vBuf, uBuf, r, n - 1, rowStride, pixelStride);
      var offset := SampleOffset(r, n - 1, rowStride, pixelStride);
      InterleaveSnoc(RowSamples(vBuf, r, n - 1, rowStride, pixelStride), RowSamples(uBuf, r, n - 1, rowStride, pixelStride),
                     vBuf[offset], uBuf[offset]);
    }
  }

  /**
   * One row of the chroma loop of both NV21 packings: for each chroma sample,
   * the V byte and then the U byte, both read at the same index computed from
   * the U plane's strides.
   */
  method CopyChromaRow(vBuf: seq<uint8>, uBuf: seq<uint8>, row: nat, cols: nat,
                       rowStride: nat, pixelStride: nat, dst: array<uint8>, start: nat)
    returns (ok: bool)
    requires start + 2 * cols <= dst.Length
    modifies dst
    ensures ok == (cols == 0 || (SampleOffset(row, cols - 1, rowStride, pixelStride) < |vBuf|
                                 && SampleOffset(row, cols - 1, rowStride, pixelStride) < |uBuf|))
    ensures ok ==> dst[start..start + 2 * cols] == ChromaRow(vBuf, uBuf, row, cols, rowStride, pixelStride)
    ensures forall i :: 0 <= i < dst.Length && !(start <= i < start + 2 * cols) ==> dst[i] == old(dst[i])
  {
    var col := 0;
    while col < cols
      invariant 0 <= col <= cols
      invariant col > 0 ==> SampleOffset(row, col - 1, rowStride, pixelStride) < |vBuf|
      invariant col > 0 ==> SampleOffset(row, col - 1, rowStride, pixelStride) < |uBuf|
      invariant dst[start..start + 2 * col] == ChromaRow(vBuf, uBuf, row, col, rowStride, pixelStride)
      invariant forall i :: 0 <= i < dst.Length && !(start <= i < start + 2 * cols) ==> dst[i] == old(dst[i])
    {
      var index := SampleOffset(row, col, rowStride, pixelStride);
      if index >= |vBuf| || index >= |uBuf| {
        OffsetMonotone(row, col, row, cols - 1, rowStride, pixelStride);
        return false;
      }
      var pos := start + 2 * col;
      ghost var prev := dst[start..pos];
      dst[pos], dst[pos + 1] := vBuf[index], uBuf[index];
      assert dst[start..pos + 2] == prev + [vBuf[index], uBuf[index]];
      col := col + 1;
    }
    return true;
  }

  lemma {:induction false} InterleaveAppend<T>(a: seq<T>, b: seq<T>, a': seq<T>, b': seq<T>)
    requires |a| == |b| && |a'| == |b'|
    ensures Interleave(a + a', b + b') == Interleave(a, b) + Interleave(a', b')
  {
    if |a'| > 0 {
      var n := |a'| - 1;
      assert (a + a')[..|a| + n] == a + a'[..n];
      assert (b + b')[..|b| + n] == b + b'[..n];
      InterleaveAppend(a, b, a'[..n], b'[..n]);
    } else {
      assert a + a' == a && b + b' == b;
    }
  }

  /** The (V, U) pairs of a rows x cols chroma scan, row by row. */
  function ChromaPairs(vBuf: seq<uint8>, uBuf: seq<uint8>, rows: nat, cols: nat, rowStride: nat, pixelStride: nat): (s: seq<uint8>)
    requires Fits(|vBuf|, rows, cols, rowStride, pixelStride) && Fits(|uBuf|, rows, cols, rowStride, pixelStride)
    ensures |s| == 2 * (rows * cols)
  {
    if rows == 0 then []
    else
      assert Fits(|vBuf|, rows - 1, cols, rowStride, pixelStride) && Fits(|uBuf|, rows - 1, cols, rowStride, pixelStride) by {
        if rows > 1 && cols > 0 { OffsetMonotone(rows - 2, cols - 1, rows - 1, cols - 1, rowStride, pixelStride); }
      }
      assert (rows - 1) * cols + cols == rows * cols;
      ChromaPairs(vBuf, uBuf, rows - 1, cols, rowStride, pixelStride) + ChromaRow(vBuf, uBuf, rows - 1, cols, rowStride, pixelStride)
  }

  /** The pairs are the V plane and the U plane interleaved, V first. */
  lemma {:induction false} ChromaPairsInterleave(vBuf: seq<uint8>, uBuf: seq<uint8>, rows: nat, cols: nat, rowStride: nat, pixelStride: nat)
    requires Fits(|vBuf|, rows, cols, rowStride, pixelStride) && Fits(|uBuf|, rows, cols, rowStride, pixelStride)
    ensures ChromaPairs(vBuf, uBuf, rows, cols, rowStride, pixelStride)
            == Interleave(Plane(vBuf, rows, cols, rowStride, pixelStride), Plane(uBuf, rows, cols, rowStride, pixelStride))
  {
    if rows > 0 {
      if rows > 1 && cols > 0 { OffsetMonotone(rows - 2, cols - 1, rows - 1, cols - 1, rowStride, pixelStride); }
      ChromaPairsInterleave(vBuf, uBuf, rows - 1, cols, rowStride, pixelStride);
      ChromaRowInterleaves(vBuf, uBuf, rows - 1, cols, rowStride, pixelStride);
      InterleaveAppend(Plane(vBuf, rows - 1, cols, rowStride, pixelStride), Plane(uBuf, rows - 1, cols, rowStride, pixelStride),
                       RowSamples(vBuf, rows - 1, cols, rowStride, pixelStride), RowSamples(uBuf, rows - 1, cols, rowStride, pixelStride));
    }
  }

  /**
   * The chroma loop over all rows of both NV21 packings, writing from `start`
   * on. Stops (ok false) at the first read past either buffer's limit.
   */
  method CopyChromaPairs(vBuf: seq<uint8>, uBuf: seq<uint8>, rows: nat, cols: nat,
                         rowStride: nat, pixelStride: nat, dst: array<uint8>, start: nat)
    returns (ok: bool)
    requires start + 2 * (rows * cols) <= dst.Length
    modifies dst
    ensures ok == (Fits(|vBuf|, rows, cols, rowStride, pixelStride) && Fits(|uBuf|, rows, cols, rowStride, pixelStride))
    ensures ok ==> dst[start..start + 2 * (rows * cols)] == ChromaPairs(vBuf, uBuf, rows, cols, rowStride, pixelStride)
    ensures forall i :: 0 <= i < dst.Length && !(start <= i < start + 2 * (rows * cols)) ==> dst[i] == old(dst[i])
  {
    var pos := start;
    var row := 0;
    while row < rows
      invariant 0 <= row <= rows
      invariant pos == start + 2 * (row * cols)
      invariant row * cols <= rows * cols
      invariant Fits(|vBuf|, row, cols, rowStride, pixelStride) && Fits(|uBuf|, row, cols, rowStride, pixelStride)
      invariant dst[start..pos] == ChromaPairs(vBuf, uBuf, row, cols, rowStride, pixelStride)
      invariant forall i :: 0 <= i < dst.Length && !(start <= i < start + 2 * (rows * cols)) ==> dst[i] == old(dst[i])
    {
      NextRow(row, rows, cols);
      ghost var done := dst[start..pos];
      ok := CopyChromaRow(vBuf, uBuf, row, cols, rowStride, pixelStride, dst, pos);
      if !ok {
        OffsetMonotone(row, cols - 1, rows - 1, cols - 1, rowStride, pixelStride);
        return;
      }
      assert dst[start..pos] == done;
      assert dst[start..pos + 2 * cols] == dst[start..pos] + dst[pos..pos + 2 * cols];
      pos := pos + 2 * cols;
      row := row + 1;
    }
    return true;
  }

  /**
   * imageToBitmap, up to the JPEG round trip: the Y plane read with its own
   * strides, then the (V, U) pairs, into a zeroed buffer of ySize + ySize / 2 bytes.
   */
  method PackNv21(yBuf: seq<uint8>, uBuf: seq<uint8>, vBuf: seq<uint8>,
                  width: nat, height: nat,
                  yRowStride: nat, yPixelStride: nat, uvRowStride: nat, uvPixelStride: nat)
    returns (ok: bool, nv21: array<uint8>)
    ensures nv21.Length == Nv21Size(width, height)
    ensures ok == (Fits(|yBuf|, height, width, yRowStride, yPixelStride)
                && Fits(|vBuf|, height / 2, width / 2, uvRowStride, uvPixelStride)
                && Fits(|uBuf|, height / 2, width / 2, uvRowStride, uvPixelStride))
    ensures ok ==> nv21[..] == Nv21(Plane(yBuf, height, width, yRowStride, yPixelStride),
                                    Plane(vBuf, height / 2, width / 2, uvRowStride, uvPixelStride),
                                    Plane(uBuf, height / 2, width / 2, uvRowStride, uvPixelStride),
                                    Nv21Size(width, height))
  {
    var ySize := height * width;
    var size := Nv21Size(width, height);
    nv21 := new uint8[size](_ => 0);
    ok := CopyPlane(yBuf, height, width, yRowStride, yPixelStride, nv21, 0);
    if !ok { return; }
    ghost var yPart := nv21[..ySize];
    var uvWidth, uvHeight := width / 2, height / 2;
    ok := CopyChromaPairs(vBuf, uBuf, uvHeight, uvWidth, uvRowStride, uvPixelStride, nv21, ySize);
    if ok {
      AssembleNv21(nv21, yPart, vBuf, uBuf, uvHeight, uvWidth, uvRowStride, uvPixelStride);
    }
  }

  /** The three parts written by the packing loops, put together. */
  lemma AssembleNv21(nv21: array<uint8>, yPart: seq<uint8>, vBuf: seq<uint8>, uBuf: seq<uint8>,
                     rows: nat, cols: nat, rowStride: nat, pixelStride: nat)
    requires Fits(|vBuf|, rows, cols, rowStride, pixelStride) && Fits(|uBuf|, rows, cols, rowStride, pixelStride)
    requires |yPart| + 2 * (rows * cols) <= nv21.Length
    requires nv21[..|yPart|] == yPart
    requires nv21[|yPart|..|yPart| + 2 * (rows * cols)] == ChromaPairs(vBuf, uBuf, rows, cols, rowStride, pixelStride)
    requires forall i :: |yPart| + 2 * (rows * cols) <= i < nv21.Length ==> nv21[i] == 0
    ensures nv21[..] == Nv21(yPart, Plane(vBuf, rows, cols, rowStride, pixelStride), Plane(uBuf, rows, cols, rowStride, pixelStride), nv21.Length)
  {
    var y, c := |yPart|, 2 * (rows * cols);
    ChromaPairsInterleave(vBuf, uBuf, rows, cols, rowStride, pixelStride);
    assert nv21[y + c..] == Zeros(nv21.Length - y - c);
    SplitThree(nv21[..], y, y + c);
  }

  /** The Y part of yuv420ToNv21 succeeds exactly when every row's `position` and bulk `get` stay within the limit. */
  predicate RowsFit(limit: nat, rows: nat, width: nat, rowStride: nat)
  {
    rows == 0 || (rows - 1) * rowStride + width <= limit
  }

  /**
   * The Y part of yuv420ToNv21: all ySize bytes at once when the row stride
   * equals the width, else `width` bytes from the start of each row (the Y
   * pixel stride is not consulted). A `position` or bulk `get` past the
   * buffer's limit throws (ok false).
   */
  method CopyLumaRows(yBuf: seq<uint8>, width: nat, height: nat, yRowStride: nat, dst: array<uint8>)
    returns (ok: bool)
    requires height * width <= dst.Length
    modifies dst
    ensures ok == RowsFit(|yBuf|, height, width, yRowStride)
    ensures ok ==> Fits(|yBuf|, height, width, yRowStride, 1)
    ensures ok ==> dst[..height * width] == Plane(yBuf, height, width, yRowStride, 1)
    ensures forall i :: height * width <= i < dst.Length ==> dst[i] == old(dst[i])
  {
    if yRowStride == width {
      ok := CopyLumaWhole(yBuf, width, height, dst);
    } else {
      ok := CopyLumaByRow(yBuf, width, height, yRowStride, dst);
    }
  }

  /** The fast path: one bulk `get` of ySize bytes. */
  method CopyLumaWhole(yBuf: seq<uint8>, width: nat, height: nat, dst: array<uint8>)
    returns (ok: bool)
    requires height * width <= dst.Length
    modifies dst
    ensures ok == RowsFit(|yBuf|, height, width, width)
    ensures ok ==> Fits(|yBuf|, height, width, width, 1)
    ensures ok ==> dst[..height * width] == Plane(yBuf, height, width, width, 1)
    ensures forall i :: height * width <= i < dst.Length ==> dst[i] == old(dst[i])
  {
    var ySize := height * width;
    assert height > 0 ==> (height - 1) * width + width == ySize;
    if |yBuf| < ySize {
      return false;
    }
    forall i | 0 <= i < ySize {
      dst[i] := yBuf[i];
    }
    ContiguousPlane(yBuf, height, width);
    assert dst[..ySize] == yBuf[..ySize];
    return true;
  }

  /** The padded path: `position(row * rowStride)` and a bulk `get` of `width` bytes per row. */
  method CopyLumaByRow(yBuf: seq<uint8>, width: nat, height: nat, yRowStride: nat, dst: array<uint8>)
    returns (ok: bool)
    requires height * width <= dst.Length
    modifies dst
    ensures ok == RowsFit(|yBuf|, height, width, yRowStride)
    ensures ok ==> Fits(|yBuf|, height, width, yRowStride, 1)
    ensures ok ==> dst[..height * width] == Plane(yBuf, height, width, yRowStride, 1)
    ensures forall i :: height * width <= i < dst.Length ==> dst[i] == old(dst[i])
  {
    var row, pos := 0, 0;
    while row < height
      invariant 0 <= row <= height
      invariant pos == row * width
      invariant row * width <= height * width
      invariant RowsFit(|yBuf|, row, width, yRowStride)
      invariant Fits(|yBuf|, row, width, yRowStride, 1)
      invariant dst[..pos] == Plane(yBuf, row, width, yRowStride, 1)
      invariant forall i :: height * width <= i < dst.Length ==> dst[i] == old(dst[i])
    {
      if row * yRowStride + width > |yBuf| {
        MulMono(row, yRowStride, height - 1, yRowStride);
        return false;
      }
      assert (row + 1) * width == row * width + width;
      MulMono(row + 1, width, height, width);
      ghost var done := dst[..pos];
      CopyLumaRow(yBuf, row, width, yRowStride, dst, pos);
      assert dst[..pos] == done;
      assert dst[..pos + width] == dst[..pos] + dst[pos..pos + width];
      pos := pos + width;
      row := row + 1;
    }
    return true;
  }

  /** One padded row: `width` bytes from `row * rowStride` to `dst[pos..]`. */
  method CopyLumaRow(yBuf: seq<uint8>, row: nat, width: nat, rowStride: nat, dst: array<uint8>, pos: nat)
    requires row * rowStride + width <= |yBuf|
    requires pos + width <= dst.Length
    modifies dst
    ensures dst[pos..pos + width] == RowSamples(yBuf, row, width, rowStride, 1)
    ensures forall i :: 0 <= i < dst.Length && !(pos <= i < pos + width) ==> dst[i] == old(dst[i])
  {
    forall k | 0 <= k < width {
      dst[pos + k] := yBuf[row * rowStride + k];
    }
    ContiguousRow(yBuf, row, width, rowStride);
    assert dst[pos..pos + width] == yBuf[row * rowStride..row * rowStride + width];
  }

  /**
   * yuv420ToNv21: the Y plane by bulk row copies, then the (V, U) pairs, into
   * a zeroed buffer of ySize + ySize / 2 bytes.
   */
  method Yuv420ToNv21(yBuf: seq<uint8>, uBuf: seq<uint8>, vBuf: seq<uint8>,
                      width: nat, height: nat,
                      yRowStride: nat, uvRowStride: nat, uvPixelStride: nat)
    returns (ok: bool, nv21: array<uint8>)
    ensures nv21.Length == Nv21Size(width, height)
    ensures ok == (RowsFit(|yBuf|, height, width, yRowStride)
                && Fits(|vBuf|, height / 2, width / 2, uvRowStride, uvPixelStride)
                && Fits(|uBuf|, height / 2, width / 2, uvRowStride, uvPixelStride))
    ensures ok ==> Fits(|yBuf|, height, width, yRowStride, 1)
    ensures ok ==> nv21[..] == Nv21(Plane(yBuf, height, width, yRowStride, 1),
                                    Plane(vBuf, height / 2, width / 2, uvRowStride, uvPixelStride),
                                    Plane(uBuf, height / 2, width / 2, uvRowStride, uvPixelStride),
                                    Nv21Size(width, height))
  {
    var ySize := height * width;
    var size := Nv21Size(width, height);
    nv21 := new uint8[size](_ => 0);
    ok := CopyLumaRows(yBuf, width, height, yRowStride, nv21);
    if !ok { return; }
    var uvWidth, uvHeight := width / 2, height / 2;
    ghost var yPart := nv21[..ySize];
    ok := CopyChromaPairs(vBuf, uBuf, uvHeight, uvWidth, uvRowStride, uvPixelStride, nv21, ySize);
    if ok {
      AssembleNv21(nv21, yPart, vBuf, uBuf, uvHeight, uvWidth, uvRowStride, uvPixelStride);
    }
  }
}

/**
 * Grey-scale morphology on the mask bitmap: dilation (window maximum),
 * erosion (window minimum) and the closing that applies one after the other.
 *
 * Both filters read the red channel of each ARGB pixel, look at the square
 * window of offsets -radius..radius around it with coordinates clamped into
 * the image (`coerceIn`), and write an opaque grey pixel. The radius is
 * `kernelSize / 2` with Kotlin's truncating division; a negative radius gives
 * an empty window, whose result is the accumulator's start value.
 */
module Morphology {
  import opened Common
  import opened Pixels

  datatype MorphOp = Dilation | Erosion

  /** Start value of the accumulator: `maxValue = 0`, `minValue = 255`. */
  function Start(op: MorphOp): (v: int)
    ensures 0 <= v < 0x100
  {
    match op
    case Dilation => 0
    case Erosion => 255
  }

  /** `coerceAtLeast` for dilation, `coerceAtMost` for erosion. */
  function Combine(op: MorphOp, acc: int, value: int): (v: int)
    ensures op == Dilation ==> v >= acc && v >= value && (v == acc || v == value)
    ensures op == Erosion ==> v <= acc && v <= value && (v == acc || v == value)
  {
    match op
    case Dilation => Max(acc, value)
    case Erosion => Min(acc, value)
  }

  /** An image of `height` rows of `width` pixels, row-major. */
  predicate IsImage(pixels: seq<Argb>, width: nat, height: nat)
  {
    |pixels| == height * width && width > 0 && height > 0
  }

  /** Row-major index of the clamped neighbour at offset (ky, kx) from (y, x). */
  function NeighbourIndex(width: nat, height: nat, y: int, x: int, ky: int, kx: int): (i: nat)
    requires width > 0 && height > 0
    ensures i < height * width
  {
    var ny := Clamp(y + ky, 0, height - 1);
    var nx := Clamp(x + kx, 0, width - 1);
    RowMajorBound(ny, nx, height, width);
    ny * width + nx
  }

  /** `(pixels[ny * width + nx] shr 16) and 0xFF` for the neighbour at offset (ky, kx). */
  function Sample(pixels: seq<Argb>, width: nat, height: nat, y: int, x: int, ky: int, kx: int): (v: int)
    requires IsImage(pixels, width, height)
    ensures 0 <= v < 0x100
  {
    Red(pixels[NeighbourIndex(width, height, y, x, ky, kx)])
  }

  /** The inner loop: `acc` combined with the samples at kx = -r .. -r + n - 1 of window row ky. */
  function KernelRow(op: MorphOp, pixels: seq<Argb>, width: nat, height: nat,
                     y: int, x: int, ky: int, r: int, n: nat, acc: int): (v: int)
    requires IsImage(pixels, width, height) && 0 <= acc < 0x100
    ensures 0 <= v < 0x100
  {
    if n == 0 then acc
    else Combine(op, KernelRow(op, pixels, width, height, y, x, ky, r, n - 1, acc),
                 Sample(pixels, width, height, y, x, ky, -r + n - 1))
  }

  /** Width of the window: 2r + 1 offsets, none for a negative radius. */
  function Span(r: int): nat
  {
    if r < 0 then 0 else 2 * r + 1
  }

  /** The outer loop: the first m window rows ky = -r .. -r + m - 1, each a full row. */
  function Kernel(op: MorphOp, pixels: seq<Argb>, width: nat, height: nat,
                  y: int, x: int, r: int, m: nat): (v: int)
    requires IsImage(pixels, width, height)
    ensures 0 <= v < 0x100
  {
    if m == 0 then Start(op)
    else KernelRow(op, pixels, width, height, y, x, -r + m - 1, r, Span(r),
                   Kernel(op, pixels, width, height, y, x, r, m - 1))
  }

  /** The value the filter writes at (y, x). */
  function WindowValue(op: MorphOp, pixels: seq<Argb>, width: nat, height: nat, y: int, x: int, r: int): (v: int)
    requires IsImage(pixels, width, height)
    ensures 0 <= v < 0x100
  {
    Kernel(op, pixels, width, height, y, x, r, Span(r))
  }

  /** The filtered image: an opaque grey pixel per position. */
  function Filtered(op: MorphOp, pixels: seq<Argb>, width: nat, height: nat, r: int): (out: seq<Argb>)
    requires IsImage(pixels, width, height)
    ensures |out| == height * width
  {
    seq(height * width, i requires 0 <= i < height * width =>
      Gray(WindowValue(op, pixels, width, height, i / width, i % width, r)))
  }

  lemma FilteredAt(op: MorphOp, pixels: seq<Argb>, width: nat, height: nat, r: int, y: nat, x: nat)
    requires IsImage(pixels, width, height) && y < height && x < width
    ensures y * width + x < height * width
    ensures Filtered(op, pixels, width, height, r)[y * width + x] == Gray(WindowValue(op, pixels, width, height, y, x, r))
  {
    RowMajorBound(y, x, height, width);
    var i := y * width + x;
    assert i / width == y && i % width == x by {
      DivModUnique(y, x, width);
    }
  }

  /** Row y of the filtered image, pixel by pixel. */
  lemma FilteredRow(op: MorphOp, pixels: seq<Argb>, width: nat, height: nat, r: int, y: nat)
    requires IsImage(pixels, width, height) && y < height
    ensures y * width + width <= height * width
    ensures forall x :: 0 <= x < width ==>
      Filtered(op, pixels, width, height, r)[y * width + x] == Gray(WindowValue(op, pixels, width, height, y, x, r))
  {
    RowMajorBound(y, 0, height, width);
    forall x | 0 <= x < width
      ensures Filtered(op, pixels, width, height, r)[y * width + x] == Gray(WindowValue(op, pixels, width, height, y, x, r))
    {
      FilteredAt(op, pixels, width, height, r, y, x);
    }
  }

  /** Offset (ky, kx) lies in the square window of radius r. */
  predicate InWindow(r: int, ky: int, kx: int)
  {
    -r <= ky <= r && -r <= kx <= r
  }

  /**
   * What the inner loop folds in: for dilation an upper bound of the start
   * value and of every sample it visits, equal to one of them; for erosion
   * the same with a lower bound.
   */
  lemma {:induction false} KernelRowExtremum(op: MorphOp, pixels: seq<Argb>, width: nat, height: nat,
                                             y: int, x: int, ky: int, r: int, n: nat, acc: int)
    requires IsImage(pixels, width, height) && 0 <= acc < 0x100
    ensures var v := KernelRow(op, pixels, width, height, y, x, ky, r, n, acc);
      && (op == Dilation ==> v >= acc)
      && (op == Erosion ==> v <= acc)
      && (forall kx :: -r <= kx < -r + n ==>
            (op == Dilation ==> v >= Sample(pixels, width, height, y, x, ky, kx)) &&
            (op == Erosion ==> v <= Sample(pixels, width, height, y, x, ky, kx)))
      && (v == acc || exists kx :: -r <= kx < -r + n && v == Sample(pixels, width, height, y, x, ky, kx))
  {
    if n > 0 {
      KernelRowExtremum(op, pixels, width, height, y, x, ky, r, n - 1, acc);
    }
  }

  /** The same over the first m window rows. */
  lemma {:induction false} KernelExtremum(op: MorphOp, pixels: seq<Argb>, width: nat, height: nat,
                                          y: int, x: int, r: int, m: nat)
    requires IsImage(pixels, width, height) && m <= Span(r)
    ensures var v := Kernel(op, pixels, width, height, y, x, r, m);
      && (forall ky, kx :: -r <= ky < -r + m && InWindow(r, ky, kx) ==>
            (op == Dilation ==> v >= Sample(pixels, width, height, y, x, ky, kx)) &&
            (op == Erosion ==> v <= Sample(pixels, width, height, y, x, ky, kx)))
      && (v == Start(op) ||
          exists ky, kx :: -r <= ky < -r + m && InWindow(r, ky, kx) &&
                           v == Sample(pixels, width, height, y, x, ky, kx))
  {
    if m > 0 {
      var acc := Kernel(op, pixels, width, height, y, x, r, m - 1);
      KernelExtremum(op, pixels, width, height, y, x, r, m - 1);
      KernelRowExtremum(op, pixels, width, height, y, x, -r + m - 1, r, Span(r), acc);
    }
  }

  /**
   * Dilation writes the largest sample of the window and erosion the
   * smallest; with a negative radius the window is empty and the value is
   * the start value (0 or 255).
   */
  lemma WindowExtremum(op: MorphOp, pixels: seq<Argb>, width: nat, height: nat, y: int, x: int, r: int)
    requires IsImage(pixels, width, height)
    ensures var v := WindowValue(op, pixels, width, height, y, x, r);
      && (forall ky, kx :: InWindow(r, ky, kx) ==>
            (op == Dilation ==> v >= Sample(pixels, width, height, y, x, ky, kx)) &&
            (op == Erosion ==> v <= Sample(pixels, width, height, y, x, ky, kx)))
      && (r >= 0 ==> exists ky, kx :: InWindow(r, ky, kx) && v == Sample(pixels, width, height, y, x, ky, kx))
      && (r < 0 ==> v == Start(op))
  {
    KernelExtremum(op, pixels, width, height, y, x, r, Span(r));
    var v := WindowValue(op, pixels, width, height, y, x, r);
    if r >= 0 && v == Start(op) {
      // The start value bounds every sample from the far side, so the centre sample equals it.
      assert InWindow(r, 0, 0);
      var c := Sample(pixels, width, height, y, x, 0, 0);
      assert c == v;
    }
  }

  /** Clamping into 0..n-1 never moves a point further from a point of that range. */
  lemma ClampCloser(q: int, p: int, n: nat)
    requires 0 <= p < n
    ensures -1 * (if q >= p then q - p else p - q) <= Clamp(q, 0, n - 1) - p <= (if q >= p then q - p else p - q)
  {
  }

  /** Dilation only brightens: the centre (offset 0, 0) is part of a non-empty window. */
  lemma DilationExtensive(pixels: seq<Argb>, width: nat, height: nat, r: int, y: nat, x: nat)
    requires IsImage(pixels, width, height) && r >= 0 && y < height && x < width
    ensures y * width + x < height * width
    ensures Red(Filtered(Dilation, pixels, width, height, r)[y * width + x]) >= Red(pixels[y * width + x])
  {
    FilteredAt(Dilation, pixels, width, height, r, y, x);
    WindowExtremum(Dilation, pixels, width, height, y, x, r);
    GrayChannels(WindowValue(Dilation, pixels, width, height, y, x, r));
    assert InWindow(r, 0, 0);
    assert NeighbourIndex(width, height, y, x, 0, 0) == y * width + x;
  }

  /** Erosion only darkens. */
  lemma ErosionAntiExtensive(pixels: seq<Argb>, width: nat, height: nat, r: int, y: nat, x: nat)
    requires IsImage(pixels, width, height) && r >= 0 && y < height && x < width
    ensures y * width + x < height * width
    ensures Red(Filtered(Erosion, pixels, width, height, r)[y * width + x]) <= Red(pixels[y * width + x])
  {
    FilteredAt(Erosion, pixels, width, height, r, y, x);
    WindowExtremum(Erosion, pixels, width, height, y, x, r);
    GrayChannels(WindowValue(Erosion, pixels, width, height, y, x, r));
    assert InWindow(r, 0, 0);
    assert NeighbourIndex(width, height, y, x, 0, 0) == y * width + x;
  }

  /**
   * Every neighbour that erosion reads from the dilated image at (y, x) is
   * at least as bright as the original pixel at (y, x): (y, x) is inside the
   * window of that clamped neighbour.
   */
  lemma DilatedNeighbourBound(pixels: seq<Argb>, width: nat, height: nat, r: int, y: nat, x: nat, ky: int, kx: int)
    requires IsImage(pixels, width, height) && y < height && x < width && InWindow(r, ky, kx)
    ensures y * width + x < height * width
    ensures Sample(Filtered(Dilation, pixels, width, height, r), width, height, y, x, ky, kx) >= Red(pixels[y * width + x])
  {
    var dilated := Filtered(Dilation, pixels, width, height, r);
    var ny := Clamp(y + ky, 0, height - 1);
    var nx := Clamp(x + kx, 0, width - 1);
    RowMajorBound(y, x, height, width);
    ClampCloser(y + ky, y, height);
    ClampCloser(x + kx, x, width);
    FilteredAt(Dilation, pixels, width, height, r, ny, nx);
    assert NeighbourIndex(width, height, y, x, ky, kx) == ny * width + nx;
    WindowExtremum(Dilation, pixels, width, height, ny, nx, r);
    GrayChannels(WindowValue(Dilation, pixels, width, height, ny, nx, r));
    assert InWindow(r, y - ny, x - nx);
    assert NeighbourIndex(width, height, ny, nx, y - ny, x - nx) == y * width + x;
  }

  /**
   * Closing (dilation, then erosion with the same kernel) never darkens a
   * pixel: the holes it fills only become brighter.
   */
  lemma ClosingExtensive(pixels: seq<Argb>, width: nat, height: nat, r: int, y: nat, x: nat)
    requires IsImage(pixels, width, height) && y < height && x < width
    ensures y * width + x < height * width
    ensures var closed := Filtered(Erosion, Filtered(Dilation, pixels, width, height, r), width, height, r);
      Red(closed[y * width + x]) >= Red(pixels[y * width + x])
  {
    var dilated := Filtered(Dilation, pixels, width, height, r);
    FilteredAt(Erosion, dilated, width, height, r, y, x);
    WindowExtremum(Erosion, dilated, width, height, y, x, r);
    GrayChannels(WindowValue(Erosion, dilated, width, height, y, x, r));
    if r >= 0 {
      var ky, kx :| InWindow(r, ky, kx) &&
        WindowValue(Erosion, dilated, width, height, y, x, r) == Sample(dilated, width, height, y, x, ky, kx);
      DilatedNeighbourBound(pixels, width, height, r, y, x, ky, kx);
    }
  }

  /**
   * The two innermost loops for one output pixel: `ky` and then `kx` from
   * -radius to radius, folding each sample into the accumulator.
   */
  method WindowScan(op: MorphOp, pixels: seq<Argb>, width: nat, height: nat, y: nat, x: nat, radius: int)
    returns (v: int)
    requires IsImage(pixels, width, height)
    ensures v == WindowValue(op, pixels, width, height, y, x, radius)
  {
    v := Start(op);
    var ky := -radius;
    while ky <= radius
      invariant ky >= -radius && ky + radius <= Span(radius)
      invariant v == Kernel(op, pixels, width, height, y, x, radius, ky + radius)
    {
      v := RowScan(op, pixels, width, height, y, x, ky, radius, v);
      ky := ky + 1;
    }
  }

  /** The `kx` loop of one window row. */
  method RowScan(op: MorphOp, pixels: seq<Argb>, width: nat, height: nat, y: nat, x: nat, ky: int, radius: int,
                 acc: int) returns (v: int)
    requires IsImage(pixels, width, height) && 0 <= acc < 0x100 && radius >= 0
    ensures v == KernelRow(op, pixels, width, height, y, x, ky, radius, Span(radius), acc)
  {
    v := acc;
    var kx := -radius;
    while kx <= radius
      invariant -radius <= kx <= radius + 1
      invariant v == KernelRow(op, pixels, width, height, y, x, ky, radius, kx + radius, acc)
    {
      var ny := Clamp(y + ky, 0, height - 1);
      var nx := Clamp(x + kx, 0, width - 1);
      RowMajorBound(ny, nx, height, width);
      var value := Red(pixels[ny * width + nx]);
      v := Combine(op, v, value);
      kx := kx + 1;
    }
  }

  /**
   * The shared body of `dilate` and `erode`: a fresh zeroed array of
   * width * height pixels, filled row by row.
   */
  method Filter(op: MorphOp, pixels: seq<Argb>, width: nat, height: nat, kernelSize: int)
    returns (result: array<Argb>)
    requires |pixels| == height * width
    ensures fresh(result)
    ensures result.Length == height * width
    ensures width > 0 && height > 0 ==> result[..] == Filtered(op, pixels, width, height, TruncDiv(kernelSize, 2))
  {
    result := new Argb[height * width](_ => 0);
    var radius := TruncDiv(kernelSize, 2);
    if width == 0 || height == 0 {
      return;
    }
    ghost var target := Filtered(op, pixels, width, height, radius);
    for y := 0 to height
      invariant forall i :: 0 <= i < y * width ==> result[i] == target[i]
    {
      FilteredRow(op, pixels, width, height, radius, y);
      FilterRow(op, pixels, width, height, radius, y, result, y * width, target);
      assert y * width + width == (y + 1) * width;
    }
    assert result[..] == target;
  }

  /** The `x` loop of one image row, whose first pixel is at `start == y * width`. */
  method FilterRow(op: MorphOp, pixels: seq<Argb>, width: nat, height: nat, radius: int, y: nat,
                   result: array<Argb>, start: nat, ghost target: seq<Argb>)
    requires IsImage(pixels, width, height) && start + width <= result.Length && start + width <= |target|
    requires forall x :: 0 <= x < width ==> target[start + x] == Gray(WindowValue(op, pixels, width, height, y, x, radius))
    modifies result
    ensures forall i :: start <= i < start + width ==> result[i] == target[i]
    ensures forall i :: 0 <= i < result.Length && !(start <= i < start + width) ==> result[i] == old(result[i])
  {
    for x := 0 to width
      invariant forall i :: start <= i < start + x ==> result[i] == target[i]
      invariant forall i :: 0 <= i < result.Length && !(start <= i < start + width) ==> result[i] == old(result[i])
    {
      var v := WindowScan(op, pixels, width, height, y, x, radius);
      result[start + x] := Gray(v);
    }
  }

  /** `dilate`: each pixel becomes the brightest red level of its window. */
  method Dilate(pixels: seq<Argb>, width: nat, height: nat, kernelSize: int) returns (result: array<Argb>)
    requires |pixels| == height * width
    ensures fresh(result) && result.Length == height * width
    ensures width > 0 && height > 0 ==> result[..] == Filtered(Dilation, pixels, width, height, TruncDiv(kernelSize, 2))
  {
    result := Filter(Dilation, pixels, width, height, kernelSize);
  }

  /** `erode`: each pixel becomes the darkest red level of its window. */
  method Erode(pixels: seq<Argb>, width: nat, height: nat, kernelSize: int) returns (result: array<Argb>)
    requires |pixels| == height * width
    ensures fresh(result) && result.Length == height * width
    ensures width > 0 && height > 0 ==> result[..] == Filtered(Erosion, pixels, width, height, TruncDiv(kernelSize, 2))
  {
    result := Filter(Erosion, pixels, width, height, kernelSize);
  }

  /** `morphologyClose`: dilation, then erosion of the dilated pixels. */
  method MorphologyClose(pixels: seq<Argb>, width: nat, height: nat, kernelSize: int) returns (result: array<Argb>)
    requires |pixels| == height * width
    ensures fresh(result) && result.Length == height * width
    ensures width > 0 && height > 0 ==>
      var r := TruncDiv(kernelSize, 2);
      result[..] == Filtered(Erosion, Filtered(Dilation, pixels, width, height, r), width, height, r)
  {
    var dilated := Dilate(pixels, width, height, kernelSize);
    result := Erode(dilated[..], width, height, kernelSize);
  }
}

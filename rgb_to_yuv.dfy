/**
 * The conversion of a composited ARGB frame into the NV12 buffer fed to the
 * H.264 encoder: integer BT.601 luma for every pixel, then one (U, V) pair
 * for every pixel at an even row and an even column.
 *
 * Kotlin's `x shr 8` on a signed `Int` is an arithmetic shift, that is a
 * division by 256 rounding toward minus infinity, which is what Dafny's `/`
 * does for a positive divisor.
 */
module RgbToYuv {
  import opened Common
  import opened Pixels

  /** `((66 r + 129 g + 25 b + 128) shr 8) + 16`: studio-swing luma. */
  function Luma(p: Argb): (y: uint8)
    ensures 16 <= y <= 235
  {
    var r, g, b := Red(p), Green(p), Blue(p);
    (((66 * r + 129 * g + 25 * b + 128) / 256) + 16) as uint8
  }

  /** `((-38 r - 74 g + 112 b + 128) shr 8) + 128`: the blue-difference chroma. */
  function ChromaU(p: Argb): (u: uint8)
    ensures 16 <= u <= 240
  {
    var r, g, b := Red(p), Green(p), Blue(p);
    (((-38 * r - 74 * g + 112 * b + 128) / 256) + 128) as uint8
  }

  /** `((112 r - 94 g - 18 b + 128) shr 8) + 128`: the red-difference chroma. */
  function ChromaV(p: Argb): (v: uint8)
    ensures 16 <= v <= 240
  {
    var r, g, b := Red(p), Green(p), Blue(p);
    (((112 * r - 94 * g - 18 * b + 128) / 256) + 128) as uint8
  }

  /** Pure black lands on the bottom of the luma range. */
  lemma BlackLuma()
    ensures Luma(0xFF00_0000) == 16
  {
    assert Red(0xFF00_0000) == 0 by { assert 0xFF00_0000 / 0x1_0000 == 0xFF00; }
    assert Green(0xFF00_0000) == 0 by { assert 0xFF00_0000 / 0x100 == 0xFF_0000; }
    assert Blue(0xFF00_0000) == 0;
  }

  /** Pure white lands on the top of the luma range, with neutral chroma. */
  lemma WhiteLuma()
    ensures Luma(0xFFFF_FFFF) == 235
    ensures ChromaU(0xFFFF_FFFF) == 128 && ChromaV(0xFFFF_FFFF) == 128
  {
    assert Red(0xFFFF_FFFF) == 255 by { assert 0xFFFF_FFFF / 0x1_0000 == 0xFFFF; }
    assert Green(0xFFFF_FFFF) == 255 by { assert 0xFFFF_FFFF / 0x100 == 0xFF_FFFF; }
    assert Blue(0xFFFF_FFFF) == 255;
    assert (66 * 255 + 129 * 255 + 25 * 255 + 128) / 256 == 219;
    assert (-38 * 255 - 74 * 255 + 112 * 255 + 128) / 256 == 0;
    assert (112 * 255 - 94 * 255 - 18 * 255 + 128) / 256 == 0;
  }

  /** The Y plane: the luma of every pixel, in order. */
  function LumaPlane(pixels: seq<Argb>): (ys: seq<uint8>)
    ensures |ys| == |pixels|
    ensures forall i :: 0 <= i < |pixels| ==> ys[i] == Luma(pixels[i])
  {
    seq(|pixels|, i requires 0 <= i < |pixels| => Luma(pixels[i]))
  }

  /** A row width rounded up to even: the number of chroma bytes per sampled row. */
  function EvenCeil(n: nat): (e: nat)
    ensures n <= e <= n + 1
    ensures e % 2 == 0
    ensures n % 2 == 0 ==> e == n
  {
    n + n % 2
  }

  /** The (U, V) pairs of one row: one pair for each even column. */
  function UvPairs(row: seq<Argb>): (s: seq<uint8>)
    ensures |s| == EvenCeil(|row|)
    decreases |row|
  {
    if |row| == 0 then []
    else if |row| == 1 then [ChromaU(row[0]), ChromaV(row[0])]
    else [ChromaU(row[0]), ChromaV(row[0])] + UvPairs(row[2..])
  }

  lemma {:induction false} UvPairsAt(row: seq<Argb>, x: nat)
    requires x < |row| && x % 2 == 0
    ensures UvPairs(row)[x] == ChromaU(row[x]) && UvPairs(row)[x + 1] == ChromaV(row[x])
    decreases |row|
  {
    if x >= 2 {
      UvPairsAt(row[2..], x - 2);
    }
  }

  /** Row y of a width-wide image stored row-major. */
  function ImageRow(pixels: seq<Argb>, width: nat, height: nat, y: nat): (row: seq<Argb>)
    requires |pixels| == height * width && y < height
    ensures |row| == width
  {
    RowMajorBound(y, 0, height, width + 1);
    MulMono(y + 1, width, height, width);
    pixels[y * width..y * width + width]
  }

  /** Number of sampled rows (y = from, from + 2, ... below height). */
  function RowsLeft(height: nat, from: nat): nat
  {
    if from >= height then 0 else (height - from + 1) / 2
  }

  /** Chroma bytes of the rows y = from, from + 2, ... below height: two per even column. */
  function ChromaLength(width: nat, height: nat, from: nat): nat
    decreases height - from
  {
    if from >= height then 0 else EvenCeil(width) + ChromaLength(width, height, from + 2)
  }

  /** One (U, V) pair for every pixel at an even row and an even column. */
  lemma {:induction false} ChromaLengthSites(width: nat, height: nat, from: nat)
    ensures ChromaLength(width, height, from) == EvenCeil(width) * RowsLeft(height, from)
    decreases height - from
  {
    if from < height {
      ChromaLengthSites(width, height, from + 2);
      RowsLeftStep(height, from);
      MulSucc(EvenCeil(width), RowsLeft(height, from + 2));
    }
  }

  /** The interleaved chroma of the rows y = from, from + 2, ... below height. */
  function UvRows(pixels: seq<Argb>, width: nat, height: nat, from: nat): (s: seq<uint8>)
    requires |pixels| == height * width
    ensures |s| == ChromaLength(width, height, from)
    decreases height - from
  {
    if from >= height then []
    else UvPairs(ImageRow(pixels, width, height, from)) + UvRows(pixels, width, height, from + 2)
  }

  lemma RowsLeftStep(height: nat, from: nat)
    requires from < height
    ensures RowsLeft(height, from) == RowsLeft(height, from + 2) + 1
  {
  }

  /** Bytes written by encodeBitmap: the Y plane plus two bytes per chroma site. */
  function Nv12Length(width: nat, height: nat): nat
  {
    height * width + ChromaLength(width, height, 0)
  }

  /** The NV12 image the two loops of encodeBitmap write. */
  function Nv12(pixels: seq<Argb>, width: nat, height: nat): (s: seq<uint8>)
    requires |pixels| == height * width
    ensures |s| == Nv12Length(width, height)
  {
    LumaPlane(pixels) + UvRows(pixels, width, height, 0)
  }

  /** Every byte lies in the chroma range 16..240. */
  predicate InChromaRange(s: seq<uint8>)
  {
    forall i :: 0 <= i < |s| ==> 16 <= s[i] <= 240
  }

  lemma {:induction false} UvPairsRange(row: seq<Argb>)
    ensures InChromaRange(UvPairs(row))
    decreases |row|
  {
    if |row| > 1 {
      UvPairsRange(row[2..]);
    }
  }

  lemma {:induction false} UvRowsRange(pixels: seq<Argb>, width: nat, height: nat, from: nat)
    requires |pixels| == height * width
    ensures InChromaRange(UvRows(pixels, width, height, from))
    decreases height - from
  {
    if from < height {
      UvRowsRange(pixels, width, height, from + 2);
      UvPairsRange(ImageRow(pixels, width, height, from));
    }
  }

  /** Every byte of an NV12 frame is a legal BT.601 studio-swing sample. */
  lemma Nv12Range(pixels: seq<Argb>, width: nat, height: nat)
    requires |pixels| == height * width
    ensures forall i :: 0 <= i < |pixels| ==> 16 <= Nv12(pixels, width, height)[i] <= 235
    ensures forall i :: |pixels| <= i < Nv12Length(width, height) ==> 16 <= Nv12(pixels, width, height)[i] <= 240
  {
    UvRowsRange(pixels, width, height, 0);
  }

  /**
   * The Y loop: `nv12[pos++] = Y(pixels[y * width + x])` over rows and
   * columns, so byte i is the luma of pixel i.
   */
  method WriteLuma(pixels: seq<Argb>, width: nat, height: nat, dst: array<uint8>)
    requires |pixels| == height * width && height * width <= dst.Length
    modifies dst
    ensures dst[..height * width] == LumaPlane(pixels)
    ensures forall i :: height * width <= i < dst.Length ==> dst[i] == old(dst[i])
  {
    var pos := 0;
    for y := 0 to height
      invariant pos == y * width && pos <= height * width
      invariant forall i :: 0 <= i < pos ==> dst[i] == Luma(pixels[i])
      invariant forall i :: height * width <= i < dst.Length ==> dst[i] == old(dst[i])
    {
      MulMono(y + 1, width, height, width);
      pos := WriteLumaRow(pixels, width, y, dst, pos);
    }
  }

  /** The inner Y loop for row y, which starts at `pos == y * width`. */
  method WriteLumaRow(pixels: seq<Argb>, width: nat, y: nat, dst: array<uint8>, start: nat) returns (pos: nat)
    requires start == y * width && start + width <= |pixels| && start + width <= dst.Length
    modifies dst
    ensures pos == start + width
    ensures forall i :: start <= i < pos ==> dst[i] == Luma(pixels[i])
    ensures forall i :: 0 <= i < dst.Length && !(start <= i < pos) ==> dst[i] == old(dst[i])
  {
    pos := start;
    for x := 0 to width
      invariant pos == y * width + x
      invariant forall i :: start <= i < pos ==> dst[i] == Luma(pixels[i])
      invariant forall i :: 0 <= i < dst.Length && !(start <= i < pos) ==> dst[i] == old(dst[i])
    {
      dst[pos] := Luma(pixels[y * width + x]);
      pos := pos + 1;
    }
  }

  /**
   * The inner chroma loop for one sampled row: `x` steps by 2 and each step
   * writes U then V at `pos`. A write past the end of the buffer throws
   * (ok false).
   */
  method WriteUvRow(row: seq<Argb>, dst: array<uint8>, ghost from: nat, start: nat) returns (ok: bool)
    requires from <= start <= dst.Length
    modifies dst
    ensures ok == (start + EvenCeil(|row|) <= dst.Length)
    ensures ok ==> dst[from..start + EvenCeil(|row|)] == old(dst[from..start]) + UvPairs(row)
    ensures forall i :: 0 <= i < start ==> dst[i] == old(dst[i])
  {
    var pos := start;
    var x := 0;
    ghost var n := 0;
    while x < |row|
      invariant x == 2 * n && x <= EvenCeil(|row|) && pos == start + x
      invariant pos <= dst.Length
      invariant forall j :: 0 <= j < n ==>
        dst[start + 2 * j] == ChromaU(row[2 * j]) && dst[start + 2 * j + 1] == ChromaV(row[2 * j])
      invariant forall i :: 0 <= i < start ==> dst[i] == old(dst[i])
    {
      if pos + 1 >= dst.Length {
        return false;
      }
      dst[pos], dst[pos + 1] := ChromaU(row[x]), ChromaV(row[x]);
      pos := pos + 2;
      x := x + 2;
      n := n + 1;
    }
    ok := true;
    UvPairsFromSamples(row, dst[start..pos]);
    AppendWritten(old(dst[..]), dst[..], from, start, pos, UvPairs(row));
  }

  /** Bytes written at start..end after the untouched bytes from..start. */
  lemma AppendWritten<T>(before: seq<T>, after: seq<T>, from: nat, start: nat, end: nat, written: seq<T>)
    requires from <= start <= end <= |after| == |before|
    requires forall i :: 0 <= i < start ==> after[i] == before[i]
    requires after[start..end] == written
    ensures after[from..end] == before[from..start] + written
  {
    assert after[from..start] == before[from..start];
  }

  /** A sequence holding U then V of each even column of the row is the row's pairs. */
  lemma {:induction false} UvPairsFromSamples(row: seq<Argb>, s: seq<uint8>)
    requires |s| == EvenCeil(|row|)
    requires forall j :: 0 <= j < |s| / 2 ==> s[2 * j] == ChromaU(row[2 * j]) && s[2 * j + 1] == ChromaV(row[2 * j])
    ensures s == UvPairs(row)
    decreases |row|
  {
    if |row| > 0 {
      var first := 0;
      assert s[2 * first] == ChromaU(row[2 * first]) && s[2 * first + 1] == ChromaV(row[2 * first]);
      if |row| > 1 {
        forall j | 0 <= j < |s[2..]| / 2
          ensures s[2..][2 * j] == ChromaU(row[2..][2 * j]) && s[2..][2 * j + 1] == ChromaV(row[2..][2 * j])
        {
          assert s[2 * (j + 1)] == ChromaU(row[2 * (j + 1)]) && s[2 * (j + 1) + 1] == ChromaV(row[2 * (j + 1)]);
        }
        UvPairsFromSamples(row[2..], s[2..]);
        assert s == s[..2] + s[2..];
      }
    }
  }

  /**
   * The chroma loop: `y` steps by 2 over the rows, and each sampled row
   * contributes its (U, V) pairs right after the previous one.
   */
  method WriteChroma(pixels: seq<Argb>, width: nat, height: nat, dst: array<uint8>) returns (ok: bool)
    requires |pixels| == height * width && height * width <= dst.Length
    modifies dst
    ensures ok == (Nv12Length(width, height) <= dst.Length)
    ensures ok ==> dst[height * width..Nv12Length(width, height)] == UvRows(pixels, width, height, 0)
    ensures forall i :: 0 <= i < height * width ==> dst[i] == old(dst[i])
  {
    var ySize := height * width;
    ghost var total := ChromaLength(width, height, 0);
    assert Nv12Length(width, height) == ySize + total;
    var pos := ySize;
    var y := 0;
    while y < height
      invariant ySize <= pos <= dst.Length
      invariant total == (pos - ySize) + ChromaLength(width, height, y)
      invariant UvRows(pixels, width, height, 0) == dst[ySize..pos] + UvRows(pixels, width, height, y)
      invariant forall i :: 0 <= i < ySize ==> dst[i] == old(dst[i])
      decreases height - y
    {
      ok, pos := WriteImageUvRow(pixels, width, height, y, dst, ySize, pos, total);
      if !ok {
        return;
      }
      y := y + 2;
    }
    assert UvRows(pixels, width, height, y) == [] && pos == ySize + total;
    return true;
  }

  /**
   * One pass of the chroma loop's body: the pairs of row y go right after
   * the bytes already written, so what is written plus the rows still to go
   * remains the whole chroma part.
   */
  method WriteImageUvRow(pixels: seq<Argb>, width: nat, height: nat, y: nat,
                         dst: array<uint8>, ySize: nat, pos: nat, ghost total: nat)
    returns (ok: bool, pos': nat)
    requires |pixels| == height * width && y < height && ySize <= pos <= dst.Length
    requires total == (pos - ySize) + ChromaLength(width, height, y)
    requires UvRows(pixels, width, height, 0) == dst[ySize..pos] + UvRows(pixels, width, height, y)
    modifies dst
    ensures ok == (pos + EvenCeil(width) <= dst.Length)
    ensures !ok ==> ySize + total > dst.Length
    ensures ok ==> pos' == pos + EvenCeil(width) && total == (pos' - ySize) + ChromaLength(width, height, y + 2)
    ensures ok ==> UvRows(pixels, width, height, 0) == dst[ySize..pos'] + UvRows(pixels, width, height, y + 2)
    ensures forall i :: 0 <= i < pos ==> dst[i] == old(dst[i])
  {
    assert ChromaLength(width, height, y) == EvenCeil(width) + ChromaLength(width, height, y + 2);
    var row := ImageRow(pixels, width, height, y);
    ghost var done := dst[ySize..pos];
    ghost var rest := UvRows(pixels, width, height, y + 2);
    assert UvRows(pixels, width, height, y) == UvPairs(row) + rest;
    ok := WriteUvRow(row, dst, ySize, pos);
    pos' := pos + EvenCeil(width);
    if ok {
      Regroup(UvRows(pixels, width, height, 0), done, UvPairs(row), rest, dst[ySize..pos']);
    }
  }

  lemma Regroup<T>(total: seq<T>, done: seq<T>, next: seq<T>, rest: seq<T>, now: seq<T>)
    requires total == done + (next + rest) && now == done + next
    ensures total == now + rest
  {
  }

  /** The two loops of encodeBitmap writing into a buffer of whatever size the caller allocated. */
  method WriteNv12(pixels: seq<Argb>, width: nat, height: nat, dst: array<uint8>) returns (ok: bool)
    requires |pixels| == height * width && height * width <= dst.Length
    modifies dst
    ensures ok == (Nv12Length(width, height) <= dst.Length)
    ensures ok ==> dst[..Nv12Length(width, height)] == Nv12(pixels, width, height)
  {
    WriteLuma(pixels, width, height, dst);
    ghost var yPart := dst[..height * width];
    ok := WriteChroma(pixels, width, height, dst);
    if ok {
      assert dst[..height * width] == yPart;
      assert dst[..Nv12Length(width, height)]
          == dst[..height * width] + dst[height * width..Nv12Length(width, height)];
    }
  }

  /** `ySize + uvSize` with `uvSize = width * height / 2`: the buffer encodeBitmap allocates. */
  function AllocatedSize(width: nat, height: nat): (n: nat)
    ensures n >= height * width
  {
    width * height + width * height / 2
  }

  /** What `queueInputBuffer` is handed: the codec slot, the bytes, offset 0, size, timestamp, no flags. */
  datatype QueuedInput = QueuedInput(index: nat, data: seq<uint8>, offset: nat, size: nat,
                                     presentationTimeUs: int, flags: int)

  /** The outcome of one encodeBitmap call. */
  datatype EncodeOutcome =
    | NoInputBuffer           // dequeueInputBuffer returned a negative index: the frame is dropped
    | Queued(input: QueuedInput)
    | Thrown                  // an exception left encodeBitmap

  /**
   * encodeBitmap as written: the buffer has ySize + ySize / 2 bytes, which is
   * too small whenever the width or the height is odd (see OddSizeOverflows).
   * `inputIndex` is what `dequeueInputBuffer` returned and `capacity` the
   * room left in the codec's input buffer, whose `put` throws when it is
   * smaller than the data.
   */
  method EncodeBitmapAsWritten(inputIndex: int, capacity: nat, pixels: seq<Argb>, width: nat, height: nat,
                               presentationTimeUs: int) returns (outcome: EncodeOutcome)
    requires |pixels| == height * width
    ensures inputIndex < 0 ==> outcome == NoInputBuffer
    ensures inputIndex >= 0 && Nv12Length(width, height) > AllocatedSize(width, height) ==> outcome == Thrown
    ensures inputIndex >= 0 && Nv12Length(width, height) <= AllocatedSize(width, height) ==>
      if capacity < Nv12Length(width, height) then outcome == Thrown
      else outcome == Queued(QueuedInput(inputIndex, Nv12(pixels, width, height), 0,
                                         Nv12Length(width, height), presentationTimeUs, 0))
  {
    if inputIndex < 0 {
      return NoInputBuffer;
    }
    var nv12 := new uint8[AllocatedSize(width, height)](_ => 0);
    var ok := WriteNv12(pixels, width, height, nv12);
    if !ok {
      return Thrown;
    }
    AllocatedFitsExactly(width, height);
    assert nv12[..] == nv12[..Nv12Length(width, height)];
    if capacity < nv12.Length {
      return Thrown;
    }
    return Queued(QueuedInput(inputIndex, nv12[..], 0, nv12.Length, presentationTimeUs, 0));
  }

  /**
   * encodeBitmap with a buffer of exactly the bytes its loops write: the
   * queued data is the NV12 image of the pixels.
   */
  method EncodeBitmap(inputIndex: int, capacity: nat, pixels: seq<Argb>, width: nat, height: nat,
                      presentationTimeUs: int) returns (outcome: EncodeOutcome)
    requires |pixels| == height * width
    ensures inputIndex < 0 ==> outcome == NoInputBuffer
    ensures inputIndex >= 0 && capacity < Nv12Length(width, height) ==> outcome == Thrown
    ensures inputIndex >= 0 && capacity >= Nv12Length(width, height) ==>
      outcome == Queued(QueuedInput(inputIndex, Nv12(pixels, width, height), 0,
                                    Nv12Length(width, height), presentationTimeUs, 0))
  {
    if inputIndex < 0 {
      return NoInputBuffer;
    }
    var nv12 := new uint8[Nv12Length(width, height)](_ => 0);
    var ok := WriteNv12(pixels, width, height, nv12);
    assert ok;
    if capacity < nv12.Length {
      return Thrown;
    }
    return Queued(QueuedInput(inputIndex, nv12[..], 0, nv12.Length, presentationTimeUs, 0));
  }

  /** With both dimensions even the allocated buffer is exactly the bytes written. */
  lemma EvenSizeFits(width: nat, height: nat)
    requires width % 2 == 0 && height % 2 == 0
    ensures Nv12Length(width, height) == AllocatedSize(width, height)
  {
    var a := height / 2;
    ChromaLengthSites(width, height, 0);
    assert RowsLeft(height, 0) == a;
    assert EvenCeil(width) == width;
    assert width * height == 2 * (width * a);
  }

  /** An odd width or height with a non-empty image overflows the allocated buffer. */
  lemma OddSizeOverflows(width: nat, height: nat)
    requires width > 0 && height > 0 && (width % 2 == 1 || height % 2 == 1)
    ensures Nv12Length(width, height) > AllocatedSize(width, height)
  {
    var e, k := EvenCeil(width), RowsLeft(height, 0);
    var p := width * height;
    ChromaLengthSites(width, height, 0);
    assert Nv12Length(width, height) == p + e * k;
    assert 2 * (e * k) > p by {
      assert e * (2 * k) == 2 * (e * k);
      if width % 2 == 1 {
        MulMono(width + 1, height, e, 2 * k);
        assert (width + 1) * height == p + height;
      } else {
        MulMono(width, height + 1, e, 2 * k);
        assert width * (height + 1) == p + width;
      }
    }
  }

  /** The allocated buffer is never too large: whenever the image fits, it fills the buffer exactly. */
  lemma AllocatedFitsExactly(width: nat, height: nat)
    requires Nv12Length(width, height) <= AllocatedSize(width, height)
    ensures Nv12Length(width, height) == AllocatedSize(width, height)
  {
    if width == 0 || height == 0 {
      ChromaLengthSites(width, height, 0);
      assert width * height == 0;
    } else if width % 2 == 0 && height % 2 == 0 {
      EvenSizeFits(width, height);
    } else {
      OddSizeOverflows(width, height);
    }
  }

  /** The smallest such frame: one pixel needs 3 bytes, the buffer has 1. */
  lemma OnePixelFrameOverflows()
    ensures AllocatedSize(1, 1) == 1 && Nv12Length(1, 1) == 3
  {
    assert ChromaLength(1, 1, 2) == 0;
  }
}

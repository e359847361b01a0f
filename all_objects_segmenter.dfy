/**
 * The all-objects segmenter: a DeepLab v3 TFLite interpreter whose output
 * holds one score per class for every output pixel. Each pixel takes the
 * class with the highest score (the lowest such class on a tie), and the
 * mask keeps every pixel whose class is not 0 (background).
 *
 * The interpreter, its GPU delegate and bitmap scaling are not modelled:
 * the scaled pixels and the scores the interpreter writes are inputs.
 * Scores are reals; NaN and infinities are not modelled.
 */
module AllObjectsSegmentation {
  import opened Common
  import opened Pixels
  import opened SegmentationTypes

  /** Kotlin's `Float.MAX_VALUE`; the running maximum starts at its negation. */
  const FloatMax: real := 340282346638528859811704183484516925440.0

  /** Bytes of a float in the interpreter's buffers. */
  const FloatBytes: nat := 4

  /** The running maximum of a pixel's class scores, starting from `-Float.MAX_VALUE`. */
  function Best(scores: seq<real>): real
  {
    if |scores| == 0 then -FloatMax
    else
      var before := Best(scores[..|scores| - 1]);
      if scores[|scores| - 1] > before then scores[|scores| - 1] else before
  }

  /** The class the running maximum settles on: the first that beats every score before it. */
  function Winner(scores: seq<real>): (w: nat)
    ensures w == 0 || w < |scores|
  {
    if |scores| == 0 then 0
    else if scores[|scores| - 1] > Best(scores[..|scores| - 1]) then |scores| - 1
    else Winner(scores[..|scores| - 1])
  }

  /**
   * The winner is the lowest class with the maximal score, or class 0 when
   * no score rises above `-Float.MAX_VALUE`.
   */
  lemma {:induction false} WinnerIsFirstMaximum(scores: seq<real>)
    ensures Best(scores) >= -FloatMax
    ensures forall k :: 0 <= k < |scores| ==> scores[k] <= Best(scores)
    ensures Winner(scores) == 0 || Winner(scores) < |scores|
    ensures forall k :: 0 <= k < Winner(scores) ==> scores[k] < Best(scores)
    ensures Best(scores) > -FloatMax ==> Winner(scores) < |scores| && scores[Winner(scores)] == Best(scores)
    ensures Best(scores) == -FloatMax ==> Winner(scores) == 0
  {
    if |scores| > 0 {
      var init := scores[..|scores| - 1];
      WinnerIsFirstMaximum(init);
      forall k | 0 <= k < |scores| - 1
        ensures scores[k] == init[k]
      {
      }
    }
  }

  /**
   * A pixel is foreground exactly when some non-background class scores
   * strictly above the background and above `-Float.MAX_VALUE`.
   */
  lemma ForegroundIff(scores: seq<real>)
    ensures Winner(scores) != 0 <==>
      exists k :: 0 < k < |scores| && scores[k] > scores[0] && scores[k] > -FloatMax
  {
    WinnerIsFirstMaximum(scores);
    var w := Winner(scores);
    if w != 0 {
      assert 0 < w < |scores| && scores[w] > scores[0] && scores[w] > -FloatMax;
    }
  }

  /** With a single class there is nothing to beat the background: every pixel is class 0. */
  lemma SingleClassIsBackground(scores: seq<real>)
    requires |scores| == 1
    ensures Winner(scores) == 0
  {
    WinnerIsFirstMaximum(scores);
  }

  /**
   * The classes of the n pixels whose scores fill the buffer, `classes`
   * scores per pixel, pixel after pixel.
   */
  function Winners(scores: seq<real>, classes: nat, n: nat): (ws: seq<nat>)
    requires |scores| == n * classes
    ensures |ws| == n
  {
    if n == 0 then []
    else
      MulSucc(classes, n - 1);
      Winners(scores[..|scores| - classes], classes, n - 1) + [Winner(scores[|scores| - classes..])]
  }

  /** Every class lies below the class count, or is 0 when there are no classes. */
  lemma {:induction false} WinnersBelow(scores: seq<real>, classes: nat, n: nat)
    requires |scores| == n * classes
    ensures forall i :: 0 <= i < n ==> Winners(scores, classes, n)[i] < Max(classes, 1)
  {
    if n > 0 {
      MulSucc(classes, n - 1);
      WinnersBelow(scores[..|scores| - classes], classes, n - 1);
    }
  }

  /** `maskArray[i] = if (maxClass != 0) 1.0f else 0.0f`. */
  function ForegroundMask(ws: seq<nat>): (mask: seq<real>)
    ensures |mask| == |ws|
    ensures forall i :: 0 <= i < |ws| ==> (mask[i] == 1.0 <==> ws[i] != 0)
    ensures forall i :: 0 <= i < |ws| ==> (mask[i] == 0.0 <==> ws[i] == 0)
  {
    seq(|ws|, i requires 0 <= i < |ws| => if ws[i] != 0 then 1.0 else 0.0)
  }

  /** The detected-pixel count equals the number of pixels whose class is not the background. */
  lemma {:induction false} ForegroundCount(ws: seq<nat>)
    ensures CountAbove(ForegroundMask(ws), 0.5) == |ws| - multiset(ws)[0]
  {
    if |ws| > 0 {
      var init := ws[..|ws| - 1];
      ForegroundCount(init);
      assert ForegroundMask(ws)[..|ws| - 1] == ForegroundMask(init);
      assert ws == init + [ws[|ws| - 1]];
    }
  }

  /** The histogram holds, for each class that occurs, how many pixels took it. */
  ghost predicate IsHistogram(counts: map<int, nat>, ws: seq<nat>)
  {
    && (forall c :: c in counts <==> c in multiset(ws))
    && (forall c :: c in counts ==> counts[c] == multiset(ws)[c])
  }

  /** `counts[0] + counts[1] + ... + counts[k - 1]`, a missing class counting 0. */
  function SumBelow(counts: map<int, nat>, k: nat): nat
  {
    if k == 0 then 0 else SumBelow(counts, k - 1) + (if k - 1 in counts then counts[k - 1] else 0)
  }

  /** Summed over every class, the histogram of the pixels' classes counts every pixel once. */
  lemma HistogramTotal(counts: map<int, nat>, scores: seq<real>, classes: nat, n: nat)
    requires |scores| == n * classes
    requires IsHistogram(counts, Winners(scores, classes, n))
    ensures SumBelow(counts, Max(classes, 1)) == n
  {
    WinnersBelow(scores, classes, n);
    CountsSumToPixels(counts, Winners(scores, classes, n), Max(classes, 1));
  }

  /** Summed over the classes below a bound on every class, the histogram counts every pixel once. */
  lemma CountsSumToPixels(counts: map<int, nat>, ws: seq<nat>, classes: nat)
    requires IsHistogram(counts, ws)
    requires forall i :: 0 <= i < |ws| ==> ws[i] < classes
    ensures SumBelow(counts, classes) == |ws|
  {
    MultiplicitiesSum(ws, classes);
    SumMatches(counts, ws, classes);
  }

  /** `multiset(ws)[0] + ... + multiset(ws)[k - 1]`. */
  function MultiplicityBelow(ws: seq<nat>, k: nat): nat
  {
    if k == 0 then 0 else MultiplicityBelow(ws, k - 1) + multiset(ws)[k - 1]
  }

  lemma {:induction false} SumMatches(counts: map<int, nat>, ws: seq<nat>, k: nat)
    requires IsHistogram(counts, ws)
    ensures SumBelow(counts, k) == MultiplicityBelow(ws, k)
  {
    if k > 0 {
      SumMatches(counts, ws, k - 1);
    }
  }

  /** With every class below the bound, the per-class counts below the bound add up to the pixel count. */
  lemma {:induction false} MultiplicitiesSum(ws: seq<nat>, classes: nat)
    requires forall i :: 0 <= i < |ws| ==> ws[i] < classes
    ensures MultiplicityBelow(ws, classes) == |ws|
  {
    if |ws| > 0 {
      var init := ws[..|ws| - 1];
      var x := ws[|ws| - 1];
      assert ws == init + [x];
      assert forall i :: 0 <= i < |init| ==> init[i] == ws[i];
      MultiplicitiesSum(init, classes);
      MultiplicityAddOne(init, x, classes);
    } else {
      NoPixelsNoCounts(ws, classes);
    }
  }

  lemma {:induction false} NoPixelsNoCounts(ws: seq<nat>, k: nat)
    requires |ws| == 0
    ensures MultiplicityBelow(ws, k) == 0
  {
    if k > 0 {
      NoPixelsNoCounts(ws, k - 1);
    }
  }

  /** Adding one pixel of class x adds one to the count below k exactly when x < k. */
  lemma {:induction false} MultiplicityAddOne(ws: seq<nat>, x: nat, k: nat)
    ensures MultiplicityBelow(ws + [x], k) == MultiplicityBelow(ws, k) + (if x < k then 1 else 0)
  {
    if k > 0 {
      MultiplicityAddOne(ws, x, k - 1);
      assert multiset(ws + [x]) == multiset(ws) + multiset{x};
    }
  }

  /** `4 * height * width * 3` bytes: room for exactly three floats per input pixel. */
  function InputBufferBytes(height: nat, width: nat): (n: nat)
    ensures n % FloatBytes == 0 && n / FloatBytes == 3 * (height * width)
  {
    var floats := 3 * (height * width);
    FloatBytes * floats
  }

  /** `4 * height * width * classes` bytes: room for exactly one float per class per output pixel. */
  function OutputBufferBytes(height: nat, width: nat, classes: nat): (n: nat)
    ensures n % FloatBytes == 0 && n / FloatBytes == (height * width) * classes
  {
    var floats := (height * width) * classes;
    FloatBytes * floats
  }

  /**
   * Whether `initialize` gets as far as an interpreter: the model file loads,
   * the GPU delegate (when the device supports one) is created, and the
   * interpreter is created.
   */
  predicate InterpreterCreated(modelLoaded: bool, useGpu: bool, delegateCreated: bool, interpreterCreated: bool)
  {
    modelLoaded && (!useGpu || delegateCreated) && interpreterCreated
  }

  /** A channel scaled into 0 .. 1: `channel / 255.0f`. */
  function Normalized(channel: int): (v: real)
    requires 0 <= channel <= 255
    ensures 0.0 <= v <= 1.0
  {
    channel as real / 255.0
  }

  class SegmentationProcessor {
    /** `interpreter != null` and `gpuDelegate != null`. */
    var interpreterOpen: bool
    var gpuDelegateOpen: bool
    var inputWidth: nat
    var inputHeight: nat
    var outputWidth: nat
    var outputHeight: nat
    var outputClasses: nat
    var mode: SegmentationMode

    constructor()
      ensures !interpreterOpen && !gpuDelegateOpen && mode == Person
      ensures inputWidth == 0 && inputHeight == 0
      ensures outputWidth == 0 && outputHeight == 0 && outputClasses == 0
    {
      interpreterOpen, gpuDelegateOpen := false, false;
      inputWidth, inputHeight := 0, 0;
      outputWidth, outputHeight, outputClasses := 0, 0, 0;
      mode := Person;
    }

    /**
     * initialize: the model file is loaded, the delegate is created when the
     * GPU is supported, then the interpreter, then the tensor shapes
     * (`[1, height, width, ...]`) are read in order. Each step can throw, and
     * a throw leaves the fields the steps before it set. The class count is
     * the fourth dimension when the output has one, and 1 otherwise.
     */
    method Initialize(modelLoaded: bool, useGpu: bool, delegateCreated: bool, interpreterCreated: bool,
                      inputShape: seq<nat>, outputShape: seq<nat>) returns (thrown: bool)
      modifies this
      ensures thrown <==>
        || !InterpreterCreated(modelLoaded, useGpu, delegateCreated, interpreterCreated)
        || |inputShape| < 3 || |outputShape| < 3
      ensures gpuDelegateOpen == ((modelLoaded && useGpu && delegateCreated) || old(gpuDelegateOpen))
      ensures interpreterOpen ==
        (InterpreterCreated(modelLoaded, useGpu, delegateCreated, interpreterCreated) || old(interpreterOpen))
      ensures mode == old(mode)
      ensures var ready := InterpreterCreated(modelLoaded, useGpu, delegateCreated, interpreterCreated);
        && inputHeight == (if ready && |inputShape| > 1 then inputShape[1] else old(inputHeight))
        && inputWidth == (if ready && |inputShape| > 2 then inputShape[2] else old(inputWidth))
        && outputHeight == (if ready && |inputShape| > 2 && |outputShape| > 1 then outputShape[1] else old(outputHeight))
        && outputWidth == (if ready && |inputShape| > 2 && |outputShape| > 2 then outputShape[2] else old(outputWidth))
      ensures outputClasses == (if thrown then old(outputClasses) else if |outputShape| > 3 then outputShape[3] else 1)
    {
      if !modelLoaded {
        return true;
      }
      if useGpu {
        if !delegateCreated {
          return true;
        }
        gpuDelegateOpen := true;
      }
      if !interpreterCreated {
        return true;
      }
      interpreterOpen := true;
      if |inputShape| < 2 {
        return true;
      }
      inputHeight := inputShape[1];
      if |inputShape| < 3 {
        return true;
      }
      inputWidth := inputShape[2];
      if |outputShape| < 2 {
        return true;
      }
      outputHeight := outputShape[1];
      if |outputShape| < 3 {
        return true;
      }
      outputWidth := outputShape[2];
      outputClasses := if |outputShape| > 3 then outputShape[3] else 1;
      return false;
    }

    /** The public `mode` property: callers choose the label reported with each result. */
    method SetMode(m: SegmentationMode)
      modifies this
      ensures mode == m
      ensures interpreterOpen == old(interpreterOpen) && gpuDelegateOpen == old(gpuDelegateOpen)
      ensures inputWidth == old(inputWidth) && inputHeight == old(inputHeight)
      ensures outputWidth == old(outputWidth) && outputHeight == old(outputHeight)
      ensures outputClasses == old(outputClasses)
    {
      mode := m;
    }

    /**
     * segmentBitmap. `pixels` are the bitmap scaled to the input size, and
     * `scores` what the interpreter writes into the output buffer; without
     * an interpreter nothing is written and the buffer stays all zero.
     */
    method SegmentBitmap(pixels: seq<Argb>, scores: seq<real>) returns (input: seq<real>, r: SegmentationResult)
      requires |pixels| == inputHeight * inputWidth
      requires FloatBytes * |scores| == OutputBufferBytes(outputHeight, outputWidth, outputClasses)
      ensures FloatBytes * |input| == InputBufferBytes(inputHeight, inputWidth)
      ensures InUnitRange(input)
      ensures forall i :: 0 <= i < |pixels| ==>
        && input[3 * i] == Normalized(Red(pixels[i]))
        && input[3 * i + 1] == Normalized(Green(pixels[i]))
        && input[3 * i + 2] == Normalized(Blue(pixels[i]))
      ensures r.width == outputWidth && r.height == outputHeight
      ensures var ws := Winners(if interpreterOpen then scores else ZeroMask(|scores|),
                                outputClasses, outputHeight * outputWidth);
        && r.mask == ForegroundMask(ws)
        && r.debugInfo.CategoryReport? && r.debugInfo.mode == mode
        && IsHistogram(r.debugInfo.categoryCount, ws)
        && r.debugInfo.personPixels == |ws| - multiset(ws)[0]
        && r.debugInfo.total == outputHeight * outputWidth
    {
      input := NormalizeInput(pixels);
      ghost var inputBytes := InputBufferBytes(inputHeight, inputWidth);
      var n := outputHeight * outputWidth;
      var buffer := if interpreterOpen then scores else ZeroMask(|scores|);
      var mask, counts := ClassifyPixels(buffer, outputClasses, n);
      ghost var ws := Winners(buffer, outputClasses, n);
      ForegroundCount(ws);
      r := SegmentationResult(mask, outputWidth, outputHeight,
                              CategoryReport(mode, counts, CountAbove(mask, 0.5), n));
    }

    /** close: release the interpreter and the delegate. */
    method Close()
      modifies this
      ensures !interpreterOpen && !gpuDelegateOpen
      ensures inputWidth == old(inputWidth) && inputHeight == old(inputHeight)
      ensures outputWidth == old(outputWidth) && outputHeight == old(outputHeight)
      ensures outputClasses == old(outputClasses) && mode == old(mode)
    {
      interpreterOpen, gpuDelegateOpen := false, false;
    }
  }

  /** The input loop: three normalised floats per pixel, red, green, blue, in pixel order. */
  method NormalizeInput(pixels: seq<Argb>) returns (input: seq<real>)
    ensures |input| == 3 * |pixels|
    ensures InUnitRange(input)
    ensures forall i :: 0 <= i < |pixels| ==>
      && input[3 * i] == Normalized(Red(pixels[i]))
      && input[3 * i + 1] == Normalized(Green(pixels[i]))
      && input[3 * i + 2] == Normalized(Blue(pixels[i]))
  {
    var buffer := new real[3 * |pixels|];
    var pos := 0;
    for i := 0 to |pixels|
      invariant pos == 3 * i
      invariant forall j :: 0 <= j < 3 * i ==> 0.0 <= buffer[j] <= 1.0
      invariant forall j :: 0 <= j < i ==>
        && buffer[3 * j] == Normalized(Red(pixels[j]))
        && buffer[3 * j + 1] == Normalized(Green(pixels[j]))
        && buffer[3 * j + 2] == Normalized(Blue(pixels[j]))
    {
      var pixel := pixels[i];
      buffer[pos] := Normalized(Red(pixel));
      buffer[pos + 1] := Normalized(Green(pixel));
      buffer[pos + 2] := Normalized(Blue(pixel));
      pos := pos + 3;
    }
    input := buffer[..];
  }

  /** The argmax over one pixel's scores, read from the buffer at `start`. */
  method ArgMaxClass(scores: seq<real>, start: nat, classes: nat) returns (maxClass: nat)
    requires start + classes <= |scores|
    ensures maxClass == Winner(scores[start .. start + classes])
  {
    ghost var chunk := scores[start .. start + classes];
    maxClass := 0;
    var maxProb := -FloatMax;
    for c := 0 to classes
      invariant maxProb == Best(chunk[..c]) && maxClass == Winner(chunk[..c])
    {
      var prob := scores[start + c];
      assert chunk[..c + 1][..c] == chunk[..c] && chunk[c] == prob;
      if prob > maxProb {
        maxProb := prob;
        maxClass := c;
      }
    }
    assert chunk[..classes] == chunk;
  }

  /**
   * The output loop: argmax per pixel, the class histogram, and the mask,
   * reading the buffer front to back.
   */
  method ClassifyPixels(scores: seq<real>, classes: nat, n: nat) returns (mask: seq<real>, counts: map<int, nat>)
    requires |scores| == n * classes
    ensures mask == ForegroundMask(Winners(scores, classes, n))
    ensures IsHistogram(counts, Winners(scores, classes, n))
  {
    var maskArray := new real[n](_ => 0.0);
    counts := map[];
    var pos := 0;
    ghost var seen: seq<nat> := [];
    for i := 0 to n
      invariant pos == i * classes <= n * classes
      invariant seen == Winners(scores[..pos], classes, i)
      invariant maskArray[..i] == ForegroundMask(seen)
      invariant IsHistogram(counts, seen)
    {
      counts, seen, pos := ClassifyPixel(scores, classes, n, i, pos, maskArray, counts, seen);
    }
    mask := maskArray[..];
    assert scores[..pos] == scores;
  }

  /** One pass of the output loop: pixel i's class, its histogram entry and its mask value. */
  method ClassifyPixel(scores: seq<real>, classes: nat, n: nat, i: nat, pos: nat, maskArray: array<real>,
                       counts: map<int, nat>, ghost seen: seq<nat>)
    returns (counts': map<int, nat>, ghost seen': seq<nat>, pos': nat)
    requires |scores| == n * classes && i < n && pos == i * classes && i < maskArray.Length
    requires seen == Winners(scores[..pos], classes, i)
    requires maskArray[..i] == ForegroundMask(seen) && IsHistogram(counts, seen)
    modifies maskArray
    ensures pos' == pos + classes == (i + 1) * classes <= n * classes
    ensures seen' == Winners(scores[..pos'], classes, i + 1)
    ensures maskArray[..i + 1] == ForegroundMask(seen') && IsHistogram(counts', seen')
  {
    NextRow(i, n, classes);
    pos' := pos + classes;
    var maxClass := ArgMaxClass(scores, pos, classes);
    WinnersStep(scores, classes, i, pos);
    HistogramStep(counts, seen, maxClass);
    counts' := counts[maxClass := (if maxClass in counts then counts[maxClass] else 0) + 1];
    maskArray[i] := if maxClass != 0 then 1.0 else 0.0;
    assert maskArray[..i + 1] == maskArray[..i] + [maskArray[i]];
    ForegroundMaskStep(seen, maxClass);
    seen' := seen + [maxClass];
  }

  /** `categoryCount[c] = (categoryCount[c] ?: 0) + 1` keeps the map the histogram of the classes seen. */
  lemma HistogramStep(counts: map<int, nat>, ws: seq<nat>, c: nat)
    requires IsHistogram(counts, ws)
    ensures IsHistogram(counts[c := (if c in counts then counts[c] else 0) + 1], ws + [c])
  {
    assert multiset(ws + [c]) == multiset(ws) + multiset{c};
  }

  lemma ForegroundMaskStep(ws: seq<nat>, c: nat)
    ensures ForegroundMask(ws + [c]) == ForegroundMask(ws) + [if c != 0 then 1.0 else 0.0]
  {
    assert forall i :: 0 <= i < |ws| ==> (ws + [c])[i] == ws[i];
  }

  /** Reading one more pixel's scores appends that pixel's class. */
  lemma WinnersStep(scores: seq<real>, classes: nat, i: nat, pos: nat)
    requires pos == i * classes && pos + classes <= |scores|
    ensures Winners(scores[..pos + classes], classes, i + 1)
         == Winners(scores[..pos], classes, i) + [Winner(scores[pos .. pos + classes])]
  {
    MulSucc(classes, i);
    var next := scores[..pos + classes];
    assert next[..|next| - classes] == scores[..pos];
    assert next[|next| - classes..] == scores[pos .. pos + classes];
  }
}

/**
 * The person segmenter: a MediaPipe image segmenter in video mode, wrapped
 * with a guard that keeps the timestamps handed to it strictly increasing
 * and an exponential moving average (EMA) over successive confidence masks.
 *
 * The segmenter itself is not modelled: what it answers for a frame is an
 * input (`ConfidenceMask`, or None for a null, absent or empty result).
 * Mask values are reals; single-precision rounding is not modelled.
 */
module PersonSegmentation {
  import opened Common
  import opened SegmentationTypes

  /** The first confidence mask the segmenter returned, and its dimensions. */
  datatype ConfidenceMask = ConfidenceMask(width: nat, height: nat, values: seq<real>)

  const DefaultOutputSize: nat := 256
  const DefaultEmaAlpha: real := 0.3
  /** At or above this weight on the current frame, the EMA is switched off. */
  const EmaOffThreshold: real := 0.99

  /**
   * The timestamp handed to the segmenter: the requested one, or one more
   * than the last when the request does not move forward: the least
   * timestamp after the last one that is not before the request.
   */
  function SafeTimestamp(requested: int, last: int): (t: int)
    ensures t > last && t >= requested
    ensures t == requested || t == last + 1
  {
    if requested <= last then last + 1 else requested
  }

  /** The timestamps a run of calls hands to the segmenter, starting after `last`. */
  function SafeTimestamps(last: int, requests: seq<int>): (ts: seq<int>)
    ensures |ts| == |requests|
    decreases |requests|
  {
    if |requests| == 0 then []
    else var t := SafeTimestamp(requests[0], last); [t] + SafeTimestamps(t, requests[1..])
  }

  /** Within a run, whatever the requests, the segmenter sees strictly increasing timestamps after `last`. */
  lemma {:induction false} SafeTimestampsIncrease(last: int, requests: seq<int>)
    ensures forall i :: 0 <= i < |requests| ==> SafeTimestamps(last, requests)[i] > last
    ensures forall i, j :: 0 <= i < j < |requests| ==>
      SafeTimestamps(last, requests)[i] < SafeTimestamps(last, requests)[j]
    decreases |requests|
  {
    if |requests| > 0 {
      var t := SafeTimestamp(requests[0], last);
      SafeTimestampsIncrease(t, requests[1..]);
      var ts := SafeTimestamps(last, requests);
      assert ts == [t] + SafeTimestamps(t, requests[1..]);
      forall i, j | 0 <= i < j < |requests|
        ensures ts[i] < ts[j]
      {
        if i > 0 {
          assert ts[i] == SafeTimestamps(t, requests[1..])[i - 1];
        }
        assert ts[j] == SafeTimestamps(t, requests[1..])[j - 1];
      }
    }
  }

  /** `alpha.coerceIn(0.0f, 1.0f)`. */
  function ClampUnit(alpha: real): (a: real)
    ensures 0.0 <= a <= 1.0
    ensures 0.0 <= alpha <= 1.0 ==> a == alpha
    ensures alpha < 0.0 ==> a == 0.0
    ensures alpha > 1.0 ==> a == 1.0
  {
    if alpha < 0.0 then 0.0 else if alpha > 1.0 then 1.0 else alpha
  }

  /** One EMA step on a value: `alpha * current + (1 - alpha) * previous`. */
  function Ema(alpha: real, current: real, previous: real): (e: real)
    ensures alpha == 0.0 ==> e == previous
    ensures alpha == 1.0 ==> e == current
    ensures current == previous ==> e == current
    ensures e - previous == alpha * (current - previous)
  {
    alpha * current + (1.0 - alpha) * previous
  }

  /** With a weight in 0 .. 1 the EMA lies between the two values it blends. */
  lemma EmaBetween(alpha: real, current: real, previous: real)
    requires 0.0 <= alpha <= 1.0
    ensures current <= previous ==> current <= Ema(alpha, current, previous) <= previous
    ensures previous <= current ==> previous <= Ema(alpha, current, previous) <= current
  {
    var d := current - previous;
    assert Ema(alpha, current, previous) == previous + alpha * d;
    assert alpha * d - d == (1.0 - alpha) * (-d);
    if d <= 0.0 {
      ProductNonNegative(1.0 - alpha, -d);
      ProductNonNegative(alpha, -d);
    } else {
      ProductNonNegative(1.0 - alpha, d);
      ProductNonNegative(alpha, d);
    }
  }

  lemma ProductNonNegative(a: real, b: real)
    requires a >= 0.0 && b >= 0.0
    ensures a * b >= 0.0
  {
  }

  /** previous 0.2, current 0.8, weight 0.3 give 0.38. */
  lemma EmaExample()
    ensures Ema(0.3, 0.8, 0.2) == 0.38
  {
  }

  /** The blended mask of n pixels. */
  function Blend(alpha: real, current: seq<real>, previous: seq<real>, n: nat): (mask: seq<real>)
    requires n <= |current| && n <= |previous|
    ensures |mask| == n
    ensures forall i :: 0 <= i < n ==> mask[i] == Ema(alpha, current[i], previous[i])
  {
    seq(n, i requires 0 <= i < n => Ema(alpha, current[i], previous[i]))
  }

  /** Blending two masks in 0 .. 1 with a weight in 0 .. 1 stays in 0 .. 1. */
  lemma BlendInUnitRange(alpha: real, current: seq<real>, previous: seq<real>, n: nat)
    requires n <= |current| && n <= |previous|
    requires 0.0 <= alpha <= 1.0 && InUnitRange(current) && InUnitRange(previous)
    ensures InUnitRange(Blend(alpha, current, previous, n))
  {
    forall i | 0 <= i < n
      ensures 0.0 <= Blend(alpha, current, previous, n)[i] <= 1.0
    {
      EmaBetween(alpha, current[i], previous[i]);
    }
  }

  /** Whether a call blends: only with a previous mask and a weight below the switch-off threshold. */
  predicate Blends(previous: Option<seq<real>>, alpha: real)
  {
    previous.Some? && alpha < EmaOffThreshold
  }

  class PersonSegmenter {
    /** `imageSegmenter != null`. */
    var segmenterOpen: bool
    var outputWidth: nat
    var outputHeight: nat
    var previousMask: Option<seq<real>>
    var emaAlpha: real
    var lastTimestamp: int

    /** The weight stays in 0 .. 1: it starts at 0.3 and is only ever set clamped. */
    predicate Valid()
      reads this
    {
      0.0 <= emaAlpha <= 1.0
    }

    constructor()
      ensures Valid()
      ensures !segmenterOpen && outputWidth == DefaultOutputSize && outputHeight == DefaultOutputSize
      ensures previousMask == None && emaAlpha == DefaultEmaAlpha && lastTimestamp == 0
    {
      segmenterOpen := false;
      outputWidth, outputHeight := DefaultOutputSize, DefaultOutputSize;
      previousMask := None;
      emaAlpha := DefaultEmaAlpha;
      lastTimestamp := 0;
    }

    /** initialize: creates the segmenter; a failure is rethrown and leaves the state as it was. */
    method Initialize(created: bool) returns (thrown: bool)
      modifies this
      ensures thrown == !created
      ensures segmenterOpen == (created || old(segmenterOpen))
      ensures outputWidth == old(outputWidth) && outputHeight == old(outputHeight)
      ensures previousMask == old(previousMask) && emaAlpha == old(emaAlpha)
      ensures lastTimestamp == old(lastTimestamp)
    {
      thrown := !created;
      if created {
        segmenterOpen := true;
      }
    }

    /**
     * segmentPerson. The timestamp guard runs first, so the last timestamp
     * advances on every call. Without a segmenter, or when it answers
     * nothing, the result is an all-zero mask of the current output size
     * labelled as an error, and the EMA state is untouched. Otherwise the
     * output size becomes the mask's, the mask is blended with the previous
     * one when `Blends` says so, and kept for the next call. None stands for
     * the exceptions reading too few mask values or too short a previous
     * mask throws.
     */
    method SegmentPerson(requested: int, answer: Option<ConfidenceMask>) returns (r: Option<SegmentationResult>)
      requires Valid()
      modifies this
      ensures Valid()
      ensures lastTimestamp == SafeTimestamp(requested, old(lastTimestamp))
      ensures segmenterOpen == old(segmenterOpen) && emaAlpha == old(emaAlpha)
      ensures !segmenterOpen || answer.None? ==>
        && r == Some(SegmentationResult(ZeroMask(old(outputHeight) * old(outputWidth)),
                                        old(outputWidth), old(outputHeight), NullResult))
        && outputWidth == old(outputWidth) && outputHeight == old(outputHeight)
        && previousMask == old(previousMask)
      ensures segmenterOpen && answer.Some? ==>
        var m := answer.value;
        var n := m.height * m.width;
        && outputWidth == m.width && outputHeight == m.height
        && (r.None? <==> |m.values| < n || (Blends(old(previousMask), emaAlpha) && |old(previousMask).value| < n))
        && (r.None? ==> previousMask == old(previousMask))
        && (r.Some? ==>
              && |r.value.mask| == n && r.value.width == m.width && r.value.height == m.height
              && previousMask == Some(r.value.mask)
              && r.value.debugInfo == PersonReport(CountAbove(r.value.mask, 0.5), n)
              && (!Blends(old(previousMask), emaAlpha) ==> r.value.mask == m.values[..n])
              && (Blends(old(previousMask), emaAlpha) ==>
                    r.value.mask == Blend(emaAlpha, m.values, old(previousMask).value, n))
              && ((InUnitRange(m.values) && (old(previousMask).Some? ==> InUnitRange(old(previousMask).value)))
                    ==> InUnitRange(r.value.mask)))
    {
      lastTimestamp := SafeTimestamp(requested, lastTimestamp);
      if !segmenterOpen || answer.None? {
        return Some(SegmentationResult(ZeroMask(outputHeight * outputWidth), outputWidth, outputHeight, NullResult));
      }
      var m := answer.value;
      outputWidth, outputHeight := m.width, m.height;
      var n := outputHeight * outputWidth;
      if |m.values| < n {
        return None;
      }
      var current := m.values[..n];
      var smoothed;
      if !Blends(previousMask, emaAlpha) {
        smoothed := current;
      } else {
        if |previousMask.value| < n {
          return None;
        }
        smoothed := Blend(emaAlpha, current, previousMask.value, n);
        assert smoothed == Blend(emaAlpha, m.values, previousMask.value, n);
        if InUnitRange(m.values) && InUnitRange(previousMask.value) {
          BlendInUnitRange(emaAlpha, current, previousMask.value, n);
        }
      }
      previousMask := Some(smoothed);
      r := Some(SegmentationResult(smoothed, outputWidth, outputHeight, PersonReport(CountAbove(smoothed, 0.5), n)));
    }

    /** setEmaAlpha: the weight is clamped into 0 .. 1. */
    method SetEmaAlpha(alpha: real)
      modifies this
      ensures Valid()
      ensures emaAlpha == ClampUnit(alpha)
      ensures segmenterOpen == old(segmenterOpen) && previousMask == old(previousMask)
      ensures outputWidth == old(outputWidth) && outputHeight == old(outputHeight)
      ensures lastTimestamp == old(lastTimestamp)
    {
      emaAlpha := ClampUnit(alpha);
    }

    /** resetState: forget the previous mask and the last timestamp, so the next call is not blended. */
    method ResetState()
      modifies this
      ensures previousMask == None && lastTimestamp == 0
      ensures !Blends(previousMask, emaAlpha)
      ensures segmenterOpen == old(segmenterOpen) && emaAlpha == old(emaAlpha)
      ensures outputWidth == old(outputWidth) && outputHeight == old(outputHeight)
    {
      previousMask := None;
      lastTimestamp := 0;
    }

    /** close: release the segmenter and the previous mask; the last timestamp is kept. */
    method Close()
      modifies this
      ensures !segmenterOpen && previousMask == None
      ensures emaAlpha == old(emaAlpha) && lastTimestamp == old(lastTimestamp)
      ensures outputWidth == old(outputWidth) && outputHeight == old(outputHeight)
    {
      segmenterOpen := false;
      previousMask := None;
    }
  }
}

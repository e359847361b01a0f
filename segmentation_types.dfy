/**
 * What both segmenters hand back: a confidence mask (one value per output
 * pixel, nominally 0.0 .. 1.0), its dimensions, and a diagnostic report.
 */
module SegmentationTypes {

  /** Which objects the all-objects segmenter is asked to keep (only reported). */
  datatype SegmentationMode = Person | All

  /**
   * The `debugInfo` text, kept as the facts it reports. The free-form
   * layout, timings and percentages are not modelled.
   */
  datatype Diagnostics =
    | NullResult                                      // "Error: null result"
    | PersonReport(personPixels: nat, total: nat)
    | CategoryReport(mode: SegmentationMode, categoryCount: map<int, nat>, personPixels: nat, total: nat)

  datatype SegmentationResult = SegmentationResult(mask: seq<real>, width: int, height: int, debugInfo: Diagnostics)

  /** Every value of the mask lies in 0.0 .. 1.0. */
  predicate InUnitRange(mask: seq<real>)
  {
    forall i :: 0 <= i < |mask| ==> 0.0 <= mask[i] <= 1.0
  }

  /** `mask.count { it > threshold }`. */
  function CountAbove(mask: seq<real>, threshold: real): (n: nat)
    ensures n <= |mask|
    ensures n == 0 <==> forall i :: 0 <= i < |mask| ==> mask[i] <= threshold
    ensures n == |mask| <==> forall i :: 0 <= i < |mask| ==> mask[i] > threshold
  {
    if |mask| == 0 then 0
    else CountAbove(mask[..|mask| - 1], threshold) + (if mask[|mask| - 1] > threshold then 1 else 0)
  }

  /** A `FloatArray(n)`: n zeros. */
  function ZeroMask(n: nat): (mask: seq<real>)
    ensures |mask| == n
    ensures forall i :: 0 <= i < n ==> mask[i] == 0.0
  {
    seq(n, _ => 0.0)
  }
}

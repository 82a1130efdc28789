/**
 * What the segment table relies on from the detector (`find_change_points`,
 * src/utils/change_point_deteciton_utils.py). The PELT search itself runs in
 * the ruptures library and is not part of this model: its output enters
 * here as `predicted`, the list it returns, whose last element is the
 * series length.
 */
module ChangePointDetection {
  import opened Sequences
  import opened SegmentStatistics
  import opened RupturesConfig

  /** `breakpoints[:-1]`: the search result without its final end-of-series sentinel. */
  function DropFinalSentinel(predicted: seq<int>): (breakpoints: seq<int>)
    ensures |predicted| > 0 ==> breakpoints + [predicted[|predicted| - 1]] == predicted
    ensures |predicted| == 0 ==> breakpoints == []
  {
    if |predicted| == 0 then [] else predicted[..|predicted| - 1]
  }

  /**
   * The list a segmentation search returns for a series of `n` rows: strictly
   * increasing, ending with `n`, and every boundary (the implicit 0
   * included) at least `minSize` after the previous one.
   */
  predicate SearchOutput(predicted: seq<int>, n: nat, minSize: int)
  {
    |predicted| > 0 && predicted[|predicted| - 1] == n &&
    predicted[0] >= minSize &&
    (forall i :: 0 < i < |predicted| ==> predicted[i - 1] + minSize <= predicted[i])
  }

  /**
   * With a minimum segment size of at least 1, dropping the sentinel leaves
   * strictly increasing breakpoints strictly inside the series.
   */
  lemma {:induction false} SentinelDropLeavesInteriorBreakpoints(predicted: seq<int>, n: nat, minSize: int)
    requires minSize >= 1 && SearchOutput(predicted, n, minSize)
    ensures StrictlyIncreasingInside(DropFinalSentinel(predicted), n)
  {
    var bps := DropFinalSentinel(predicted);
    IncreasingByStep(predicted, minSize);
    forall i | 0 <= i < |bps|
      ensures 0 < bps[i] < n
    {
      assert bps[i] == predicted[i];
      assert predicted[0] <= predicted[i] < predicted[|predicted| - 1];
    }
  }

  /** Consecutive elements at least `step >= 1` apart make a strictly increasing sequence. */
  lemma {:induction false} IncreasingByStep(s: seq<int>, step: int)
    requires step >= 1
    requires forall i :: 0 < i < |s| ==> s[i - 1] + step <= s[i]
    ensures StrictlyIncreasing(s)
    decreases |s|
  {
    if |s| > 1 {
      var init := s[..|s| - 1];
      IncreasingByStep(init, step);
      forall a, b | 0 <= a < b < |s|
        ensures s[a] < s[b]
      {
        if b < |s| - 1 {
          assert init[a] < init[b];
        } else if a < b - 1 {
          assert init[a] < init[b - 1];
        }
      }
    }
  }

  /**
   * When the search honours a minimum segment size of at least five rows, as
   * the default configuration's 22 does, the segment table drops nothing:
   * one row per detected segment, ids 1, 2, ... in order, and together they
   * cover every row of the series.
   */
  lemma DetectedSegmentsAreAllReported<S>(rows: seq<PriceRow>, predicted: seq<int>, summarize: seq<PriceRow> -> S, minSize: int)
    requires minSize >= MinObservations && SearchOutput(predicted, |rows|, minSize)
    ensures StrictlyIncreasingInside(DropFinalSentinel(predicted), |rows|)
    ensures var segs := Segments(rows, DropFinalSentinel(predicted), summarize);
      |segs| == |predicted| &&
      (forall j :: 0 <= j < |segs| ==> segs[j].segmentId == j + 1) &&
      TotalObservations(segs) == |rows|
  {
    SentinelDropLeavesInteriorBreakpoints(predicted, |rows|, minSize);
    var bps := DropFinalSentinel(predicted);
    var bounds := Boundaries(bps, |rows|);
    assert bounds == [0] + predicted;
    NothingDroppedWhenAllLongEnough(rows, bounds, summarize, |bps| + 1);
    SegmentTableCoversSeries(rows, bps, summarize);
    NoDroppedObservations(bounds, |bps| + 1);
  }

  /** Candidates that are all long enough drop no observations. */
  lemma {:induction false} NoDroppedObservations(bounds: seq<int>, k: nat)
    requires k < |bounds|
    requires forall i :: 0 <= i < k ==> bounds[i] + MinObservations <= bounds[i + 1]
    ensures DroppedObservations(bounds, k) == 0
  {
    if k > 0 {
      NoDroppedObservations(bounds, k - 1);
    }
  }

  /**
   * A search run with the default configuration's minimum segment size (22)
   * yields breakpoints for which the segment table drops nothing: one row per
   * detected segment, covering every row of the series.
   */
  lemma DefaultSearchDropsNoSegment<S>(rows: seq<PriceRow>, predicted: seq<int>, summarize: seq<PriceRow> -> S)
    requires SearchOutput(predicted, |rows|, DefaultConfig.minSegmentSize)
    ensures StrictlyIncreasingInside(DropFinalSentinel(predicted), |rows|)
    ensures var segs := Segments(rows, DropFinalSentinel(predicted), summarize);
      |segs| == |predicted| && TotalObservations(segs) == |rows|
  {
    DetectedSegmentsAreAllReported(rows, predicted, summarize, DefaultConfig.minSegmentSize);
  }
}

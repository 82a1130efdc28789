/**
 * Per-segment statistics of a price series cut at detected breakpoints
 * (`calculate_segment_statistics`, src/utils/change_point_deteciton_utils.py).
 *
 * Dates are whole day numbers. The float columns (mean and median price,
 * mean log return, annualised volatility) are whatever the caller-supplied
 * `summarize` computes from the segment's own rows; the model states only
 * which rows they are computed from.
 */
module SegmentStatistics {
  import opened Sequences

  /** One row of the clean price table: Date, Price, Log_Return. */
  datatype PriceRow = PriceRow(date: int, price: real, logReturn: real)

  /** One row of the segment table; `stats` holds the float columns. */
  datatype SegmentStat<S> = SegmentStat(
    segmentId: nat,
    startDate: int,
    endDate: int,
    durationDays: int,
    stats: S,
    nObservations: nat
  )

  /** Segments shorter than this are skipped, never merged. */
  const MinObservations: nat := 5

  /** Every index is a position of the series, 0 through its length. */
  predicate WithinSeries(breakpoints: seq<int>, n: nat)
  {
    forall i :: 0 <= i < |breakpoints| ==> 0 <= breakpoints[i] <= n
  }

  /** The augmented boundary list `[0] + breakpoints + [n]`. */
  function Boundaries(breakpoints: seq<int>, n: nat): (bounds: seq<int>)
    ensures |bounds| == |breakpoints| + 2 && bounds[0] == 0 && bounds[|bounds| - 1] == n
    ensures forall i :: 0 <= i < |breakpoints| ==> bounds[i + 1] == breakpoints[i]
  {
    [0] + breakpoints + [n]
  }

  /** The length of the Python slice `rows[lo:hi]` for 0 <= lo, hi <= n. */
  function SliceLength(lo: int, hi: int): (len: nat)
  {
    if lo <= hi then hi - lo else 0
  }

  /** The row reported for the candidate segment at loop position `i`, covering `rows[lo..hi]`. */
  function SegmentRow<S>(rows: seq<PriceRow>, summarize: seq<PriceRow> -> S, i: nat, lo: nat, hi: nat): (row: SegmentStat<S>)
    requires lo < hi <= |rows|
  {
    var segment := rows[lo..hi];
    var first := segment[0].date;
    var last := segment[|segment| - 1].date;
    SegmentStat(i + 1, first, last, last - first, summarize(segment), |segment|)
  }

  /** The length of the candidate segment at loop position `i`. */
  function CandidateLength(bounds: seq<int>, i: nat): (len: nat)
    requires i + 1 < |bounds|
  {
    SliceLength(bounds[i], bounds[i + 1])
  }

  /** The segment table after the first `k` candidate segments have been processed. */
  function SegmentsUpTo<S>(rows: seq<PriceRow>, bounds: seq<int>, summarize: seq<PriceRow> -> S, k: nat): (segs: seq<SegmentStat<S>>)
    requires k < |bounds| && WithinSeries(bounds, |rows|)
  {
    if k == 0 then []
    else
      SegmentsUpTo(rows, bounds, summarize, k - 1) +
      (if CandidateLength(bounds, k - 1) < MinObservations then []
       else [SegmentRow(rows, summarize, k - 1, bounds[k - 1], bounds[k])])
  }

  /** The whole segment table: every candidate of `[0] + breakpoints + [len]` processed. */
  function Segments<S>(rows: seq<PriceRow>, breakpoints: seq<int>, summarize: seq<PriceRow> -> S): (segs: seq<SegmentStat<S>>)
    requires WithinSeries(breakpoints, |rows|)
  {
    SegmentsUpTo(rows, Boundaries(breakpoints, |rows|), summarize, |breakpoints| + 1)
  }

  /**
   * The source's loop: walk the adjacent pairs of the boundary list, skip a
   * candidate with fewer than five rows, and append the row of every other.
   */
  method CalculateSegmentStatistics<S>(rows: seq<PriceRow>, breakpoints: seq<int>, summarize: seq<PriceRow> -> S)
    returns (segments: seq<SegmentStat<S>>)
    requires WithinSeries(breakpoints, |rows|)
    ensures segments == Segments(rows, breakpoints, summarize)
    ensures forall j :: 0 <= j < |segments| ==> segments[j].nObservations >= MinObservations
    ensures IdsIncrease(segments)
  {
    segments := [];
    var allIndices := [0] + breakpoints + [|rows|];
    assert allIndices == Boundaries(breakpoints, |rows|);
    for i := 0 to |allIndices| - 1
      invariant segments == SegmentsUpTo(rows, allIndices, summarize, i)
    {
      var startIdx, endIdx := allIndices[i], allIndices[i + 1];
      if SliceLength(startIdx, endIdx) < MinObservations {
        continue;
      }
      segments := segments + [SegmentRow(rows, summarize, i, startIdx, endIdx)];
    }
    SegmentsAreLongEnough(rows, allIndices, summarize, |allIndices| - 1);
    SegmentIdsIncrease(rows, allIndices, summarize, |allIndices| - 1);
  }

  // ---------------------------------------------------------------------
  // What every reported row says about its candidate segment.
  // ---------------------------------------------------------------------

  /**
   * Every reported row is the row of candidate `id - 1` for its own id: it
   * covers exactly `rows[bounds[id-1]..bounds[id]]`, has at least five rows,
   * starts on the first and ends on the last date of that slice, its
   * duration is their difference, and its statistics come from that slice.
   */
  lemma {:induction false} SegmentRowsDescribeTheirSlice<S>(rows: seq<PriceRow>, bounds: seq<int>, summarize: seq<PriceRow> -> S, k: nat, j: nat)
    requires k < |bounds| && WithinSeries(bounds, |rows|)
    requires j < |SegmentsUpTo(rows, bounds, summarize, k)|
    ensures var s := SegmentsUpTo(rows, bounds, summarize, k)[j];
      1 <= s.segmentId <= k &&
      bounds[s.segmentId - 1] + MinObservations <= bounds[s.segmentId] &&
      s.nObservations == bounds[s.segmentId] - bounds[s.segmentId - 1] &&
      s.startDate == rows[bounds[s.segmentId - 1]].date &&
      s.endDate == rows[bounds[s.segmentId] - 1].date &&
      s.durationDays == s.endDate - s.startDate &&
      s.stats == summarize(rows[bounds[s.segmentId - 1]..bounds[s.segmentId]])
  {
    var prev := SegmentsUpTo(rows, bounds, summarize, k - 1);
    if j < |prev| {
      SegmentRowsDescribeTheirSlice(rows, bounds, summarize, k - 1, j);
    }
  }

  /** No reported segment has fewer than five rows. */
  lemma {:induction false} SegmentsAreLongEnough<S>(rows: seq<PriceRow>, bounds: seq<int>, summarize: seq<PriceRow> -> S, k: nat)
    requires k < |bounds| && WithinSeries(bounds, |rows|)
    ensures forall j :: 0 <= j < |SegmentsUpTo(rows, bounds, summarize, k)| ==>
      SegmentsUpTo(rows, bounds, summarize, k)[j].nObservations >= MinObservations
  {
    forall j | 0 <= j < |SegmentsUpTo(rows, bounds, summarize, k)|
      ensures SegmentsUpTo(rows, bounds, summarize, k)[j].nObservations >= MinObservations
    {
      SegmentRowsDescribeTheirSlice(rows, bounds, summarize, k, j);
    }
  }

  predicate IdsIncrease<S>(segs: seq<SegmentStat<S>>)
  {
    forall a, b :: 0 <= a < b < |segs| ==> segs[a].segmentId < segs[b].segmentId
  }

  /** Some row of the table carries this id. */
  predicate Reports<S>(segs: seq<SegmentStat<S>>, id: nat)
  {
    exists j :: 0 <= j < |segs| && segs[j].segmentId == id
  }

  /** Segment ids strictly increase down the table (they may skip values). */
  lemma {:induction false} SegmentIdsIncrease<S>(rows: seq<PriceRow>, bounds: seq<int>, summarize: seq<PriceRow> -> S, k: nat)
    requires k < |bounds| && WithinSeries(bounds, |rows|)
    ensures IdsIncrease(SegmentsUpTo(rows, bounds, summarize, k))
  {
    if k > 0 {
      var prev := SegmentsUpTo(rows, bounds, summarize, k - 1);
      var segs := SegmentsUpTo(rows, bounds, summarize, k);
      SegmentIdsIncrease(rows, bounds, summarize, k - 1);
      forall a, b | 0 <= a < b < |segs|
        ensures segs[a].segmentId < segs[b].segmentId
      {
        assert segs[a] == prev[a];
        if b < |prev| {
          assert segs[b] == prev[b];
          assert prev[a].segmentId < prev[b].segmentId;
        } else {
          assert segs[b].segmentId == k;
          SegmentRowsDescribeTheirSlice(rows, bounds, summarize, k - 1, a);
        }
      }
    }
  }

  /**
   * Candidate `i` is reported, under id `i + 1`, exactly when it has at
   * least five rows.
   */
  lemma {:induction false} CandidateReportedIffLongEnough<S>(rows: seq<PriceRow>, bounds: seq<int>, summarize: seq<PriceRow> -> S, k: nat, i: nat)
    requires k < |bounds| && WithinSeries(bounds, |rows|) && i < k
    ensures Reports(SegmentsUpTo(rows, bounds, summarize, k), i + 1) <==> CandidateLength(bounds, i) >= MinObservations
  {
    var segs := SegmentsUpTo(rows, bounds, summarize, k);
    var prev := SegmentsUpTo(rows, bounds, summarize, k - 1);
    if i < k - 1 {
      CandidateReportedIffLongEnough(rows, bounds, summarize, k - 1, i);
      if CandidateLength(bounds, i) >= MinObservations {
        var j :| 0 <= j < |prev| && prev[j].segmentId == i + 1;
        assert segs[j] == prev[j];
      } else {
        forall j | 0 <= j < |segs|
          ensures segs[j].segmentId != i + 1
        {
          if j < |prev| {
            assert segs[j] == prev[j];
          } else {
            assert segs[j].segmentId == k;
          }
        }
      }
    } else {
      if CandidateLength(bounds, i) >= MinObservations {
        assert segs[|prev|].segmentId == i + 1;
      } else {
        assert segs == prev;
        forall j | 0 <= j < |segs|
          ensures segs[j].segmentId != i + 1
        {
          SegmentRowsDescribeTheirSlice(rows, bounds, summarize, k - 1, j);
        }
      }
    }
  }

  /** The dates of the series never decrease. */
  predicate DatesAscending(rows: seq<PriceRow>)
  {
    forall a, b :: 0 <= a <= b < |rows| ==> rows[a].date <= rows[b].date
  }

  /** On a series whose dates ascend, every duration is non-negative. */
  lemma DurationsNonNegative<S>(rows: seq<PriceRow>, breakpoints: seq<int>, summarize: seq<PriceRow> -> S)
    requires WithinSeries(breakpoints, |rows|) && DatesAscending(rows)
    ensures var segs := Segments(rows, breakpoints, summarize);
      forall j :: 0 <= j < |segs| ==> segs[j].durationDays >= 0
  {
    var bounds := Boundaries(breakpoints, |rows|);
    var segs := Segments(rows, breakpoints, summarize);
    forall j | 0 <= j < |segs|
      ensures segs[j].durationDays >= 0
    {
      SegmentRowsDescribeTheirSlice(rows, bounds, summarize, |breakpoints| + 1, j);
    }
  }

  // ---------------------------------------------------------------------
  // Observation accounting: reported rows plus dropped rows cover the series.
  // ---------------------------------------------------------------------

  /** The sum of the `n_observations` column. */
  function TotalObservations<S>(segs: seq<SegmentStat<S>>): (total: nat)
  {
    if segs == [] then 0
    else TotalObservations(segs[..|segs| - 1]) + segs[|segs| - 1].nObservations
  }

  /** The total length of the candidates among the first `k` that were dropped. */
  function DroppedObservations(bounds: seq<int>, k: nat): (dropped: nat)
    requires k < |bounds|
  {
    if k == 0 then 0
    else
      var dropped := if CandidateLength(bounds, k - 1) < MinObservations then CandidateLength(bounds, k - 1) else 0;
      DroppedObservations(bounds, k - 1) + dropped
  }

  /** The number of candidates among the first `k` that are long enough to be kept. */
  function KeptCandidates(bounds: seq<int>, k: nat): (kept: nat)
    requires k < |bounds|
  {
    if k == 0 then 0
    else KeptCandidates(bounds, k - 1) + (if CandidateLength(bounds, k - 1) < MinObservations then 0 else 1)
  }

  predicate NonDecreasing(bounds: seq<int>)
  {
    forall a, b :: 0 <= a <= b < |bounds| ==> bounds[a] <= bounds[b]
  }

  /**
   * With non-decreasing boundaries, the reported observations plus the
   * dropped ones are exactly the rows between the first and the k-th
   * boundary, and the table has one row per kept candidate.
   */
  lemma {:induction false} ObservationsAccountedFor<S>(rows: seq<PriceRow>, bounds: seq<int>, summarize: seq<PriceRow> -> S, k: nat)
    requires k < |bounds| && WithinSeries(bounds, |rows|) && NonDecreasing(bounds)
    ensures var segs := SegmentsUpTo(rows, bounds, summarize, k);
      TotalObservations(segs) + DroppedObservations(bounds, k) == bounds[k] - bounds[0] &&
      |segs| == KeptCandidates(bounds, k)
  {
    if k > 0 {
      ObservationsAccountedFor(rows, bounds, summarize, k - 1);
      var prev := SegmentsUpTo(rows, bounds, summarize, k - 1);
      var segs := SegmentsUpTo(rows, bounds, summarize, k);
      if CandidateLength(bounds, k - 1) >= MinObservations {
        assert segs[..|segs| - 1] == prev;
      } else {
        assert segs == prev;
      }
    }
  }

  /** Boundaries derived from strictly increasing breakpoints inside the series. */
  predicate StrictlyIncreasingInside(breakpoints: seq<int>, n: nat)
  {
    (forall i :: 0 <= i < |breakpoints| ==> 0 < breakpoints[i] < n) &&
    StrictlyIncreasing(breakpoints)
  }

  /**
   * For strictly increasing breakpoints inside `(0, len)`, the reported
   * observations never exceed the series length, and the shortfall is
   * exactly the total size of the dropped segments.
   */
  lemma {:induction false} SegmentTableCoversSeries<S>(rows: seq<PriceRow>, breakpoints: seq<int>, summarize: seq<PriceRow> -> S)
    requires StrictlyIncreasingInside(breakpoints, |rows|)
    ensures WithinSeries(breakpoints, |rows|)
    ensures var segs := Segments(rows, breakpoints, summarize);
      var bounds := Boundaries(breakpoints, |rows|);
      TotalObservations(segs) <= |rows| &&
      |rows| - TotalObservations(segs) == DroppedObservations(bounds, |breakpoints| + 1)
  {
    BoundariesNonDecreasing(breakpoints, |rows|);
    ObservationsAccountedFor(rows, Boundaries(breakpoints, |rows|), summarize, |breakpoints| + 1);
  }

  /** Strictly increasing breakpoints inside the series give a non-decreasing boundary list. */
  lemma BoundariesNonDecreasing(breakpoints: seq<int>, n: nat)
    requires StrictlyIncreasingInside(breakpoints, n)
    ensures NonDecreasing(Boundaries(breakpoints, n))
  {
    var bounds := Boundaries(breakpoints, n);
    forall a, b | 0 <= a <= b < |bounds|
      ensures bounds[a] <= bounds[b]
    {
      if a == b {
      } else if a == 0 {
        assert 0 < b < |bounds| - 1 ==> bounds[b] == breakpoints[b - 1];
      } else if b == |bounds| - 1 {
        assert bounds[a] == breakpoints[a - 1];
      } else {
        assert bounds[a] == breakpoints[a - 1] && bounds[b] == breakpoints[b - 1];
      }
    }
  }

  /**
   * When every candidate has at least five rows (as the detector's minimum
   * segment size guarantees), nothing is dropped: the ids are exactly
   * 1, 2, ... in order and the table covers every row of the series.
   */
  lemma {:induction false} NothingDroppedWhenAllLongEnough<S>(rows: seq<PriceRow>, bounds: seq<int>, summarize: seq<PriceRow> -> S, k: nat)
    requires k < |bounds| && WithinSeries(bounds, |rows|)
    requires forall i :: 0 <= i < k ==> bounds[i] + MinObservations <= bounds[i + 1]
    ensures var segs := SegmentsUpTo(rows, bounds, summarize, k);
      |segs| == k &&
      (forall j :: 0 <= j < k ==> segs[j].segmentId == j + 1 && segs[j].nObservations == bounds[j + 1] - bounds[j])
  {
    if k > 0 {
      NothingDroppedWhenAllLongEnough(rows, bounds, summarize, k - 1);
    }
  }

  // ---------------------------------------------------------------------
  // The scenarios the source's tests pin down.
  // ---------------------------------------------------------------------

  /**
   * No breakpoints: a series of at least five rows gives exactly one segment,
   * id 1, spanning the whole series; a shorter one gives an empty table.
   */
  lemma NoBreakpointsGiveOneSegment<S>(rows: seq<PriceRow>, summarize: seq<PriceRow> -> S)
    ensures var segs := Segments(rows, [], summarize);
      (|rows| >= MinObservations ==>
        |segs| == 1 && segs[0].segmentId == 1 && segs[0].nObservations == |rows| &&
        segs[0].startDate == rows[0].date && segs[0].endDate == rows[|rows| - 1].date &&
        segs[0].stats == summarize(rows)) &&
      (|rows| < MinObservations ==> segs == [])
  {
    var bounds := Boundaries([], |rows|);
    assert bounds == [0, |rows|];
    assert Segments(rows, [], summarize) == SegmentsUpTo(rows, bounds, summarize, 1);
    assert SegmentsUpTo(rows, bounds, summarize, 0) == [];
    assert rows[0..|rows|] == rows;
  }

  /** Consecutive calendar days: row i is dated i days after row 0. */
  predicate Daily(rows: seq<PriceRow>)
  {
    forall i :: 0 <= i < |rows| ==> rows[i].date == rows[0].date + i
  }

  /**
   * Breakpoints [25, 50, 75] on 100 rows give exactly four segments, ids 1
   * to 4, of 25 rows each; on daily data each lasts 24 days.
   */
  lemma QuarterSplitGivesFourSegments<S>(rows: seq<PriceRow>, summarize: seq<PriceRow> -> S)
    requires |rows| == 100
    ensures WithinSeries([25, 50, 75], |rows|)
    ensures var segs := Segments(rows, [25, 50, 75], summarize);
      |segs| == 4 &&
      (forall j :: 0 <= j < 4 ==> segs[j].segmentId == j + 1 && segs[j].nObservations == 25) &&
      (Daily(rows) ==> forall j :: 0 <= j < 4 ==> segs[j].durationDays == 24)
  {
    var bounds := Boundaries([25, 50, 75], 100);
    assert bounds == [0, 25, 50, 75, 100];
    var segs := Segments(rows, [25, 50, 75], summarize);
    assert segs == SegmentsUpTo(rows, bounds, summarize, 4);
    assert |segs| == 4 && forall j :: 0 <= j < 4 ==> segs[j].segmentId == j + 1 && segs[j].nObservations == 25 by {
      NothingDroppedWhenAllLongEnough(rows, bounds, summarize, 4);
    }
    if Daily(rows) {
      forall j | 0 <= j < 4
        ensures segs[j].durationDays == 24
      {
        SegmentRowsDescribeTheirSlice(rows, bounds, summarize, 4, j);
      }
    }
  }
}

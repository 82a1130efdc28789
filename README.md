# Change-point detection pipeline: segment, matching and enrichment tables

This project models the table-processing core of a change-point analysis of a
price series (Brent crude in the original). The series has already been cut at
breakpoints found by a PELT search. The core then does three things:

- It builds the **segment statistics** table: one row per segment between
  adjacent boundaries of `[0] + breakpoints + [len]`. A segment with fewer
  than five rows is skipped.
- It builds the **event-matching** table: for every change-point date, the
  nearest catalog event, the day distance, and a STRONG / WEAK / NO MATCH tier.
- It builds the **strong-match analysis** table: each match joined with its
  price/volatility impact row and its full event record.

The default search configuration is modelled as a constant record.

Modelling choices:

- Dates are whole day numbers.
- pandas frames are sequences of records. The event catalog is 0-based and
  positional.
- Float columns are `real` fields that the model never computes with.
- The segment table's mean, median, mean log return and annualised volatility
  come from a caller-supplied `summarize` function. The model states only that
  it is applied to exactly the segment's rows.
- Each of the source's three `for` loops, which append to a list, is a Dafny
  method with loop invariants. Each method is proved equal to a pure
  specification function, and the properties are lemmas about that function.

Files:

- `results.dfy`: `Option` and `Result`.
- `sequences.dfy`: the strict ordering of integer sequences, shared by the
  configuration and the segment table.
- `ruptures_config.dfy`: the default configuration.
- `segment_statistics.dfy`: `calculate_segment_statistics`.
- `event_matching.dfy`: `match_events_with_change_points`.
- `strong_matches.dfy`: `analyze_strong_matches`.
- `change_point_detection.dfy`: the sentinel drop of `find_change_points`, and
  how the detector's output feeds the segment table.

Behaviour of the code that the model keeps:

- **Segment ids** are the loop position `i + 1`. Ids therefore strictly
  increase but skip values when a segment is dropped. They are not a dense rank
  among the kept segments.
- **An empty event catalog** raises only when there is at least one change
  point, because `idxmin` is reached only inside the loop. An empty list of
  change points gives an empty table whatever the catalog.
- **Enrichment** does not look at `match_status`. Restricting the input to
  STRONG rows is the caller's job.
- **Breakpoints** only need to lie within `0..len`. They need not be
  increasing. A decreasing pair gives an empty Python slice, which has fewer
  than five rows and is skipped (`SliceLength`).

## Model

| member | source | states |
|---|---|---|
| `RupturesConfig.DefaultConfigValues` | src/models/ruptures_config.py:3-9 | The default cost function is "normal" and the search method "Pelt". Penalties are [2, 5, 10, 15, 20, 30, 35], minimum segment size 22, jump 5, primary penalty 30. |
| `RupturesConfig.DefaultConfigIsSane` | src/models/ruptures_config.py:6-9 | The default penalties are positive and strictly increasing. The primary penalty is one of them. Minimum segment size and jump are at least 1. |
| `SegmentStatistics.CalculateSegmentStatistics` | src/utils/change_point_deteciton_utils.py:51-77 | The loop's table equals the specification `Segments`. Every row has at least five observations, and ids strictly increase. |
| `SegmentStatistics.SegmentRowsDescribeTheirSlice` | src/utils/change_point_deteciton_utils.py:57-73 | A row with id `id` covers exactly boundaries `id-1` to `id`. Its `n_observations` is the slice length (at least 5). Its start date is the date at `start_idx` and its end date the date at `end_idx - 1`. Its duration is their difference, and its statistics come from that slice alone. |
| `SegmentStatistics.SegmentsAreLongEnough` | src/utils/change_point_deteciton_utils.py:59-62 | No reported segment has fewer than five rows. |
| `SegmentStatistics.SegmentIdsIncrease` | src/utils/change_point_deteciton_utils.py:56-65 | Segment ids strictly increase down the table. |
| `SegmentStatistics.CandidateReportedIffLongEnough` | src/utils/change_point_deteciton_utils.py:56-65 | Candidate `i` appears, under id `i + 1`, if and only if it has at least five rows. |
| `SegmentStatistics.DurationsNonNegative` | src/utils/change_point_deteciton_utils.py:66-68 | On a series whose dates ascend, every `duration_days` is at least 0. |
| `SegmentStatistics.ObservationsAccountedFor` | src/utils/change_point_deteciton_utils.py:54-75 | For non-decreasing boundaries, reported plus dropped observations equal the span of the boundaries. There is one row per long-enough candidate. |
| `SegmentStatistics.SegmentTableCoversSeries` | src/utils/change_point_deteciton_utils.py:54-75 | For strictly increasing breakpoints inside the series, the observations sum to at most `len`. The shortfall is exactly the total size of the dropped segments. |
| `SegmentStatistics.NothingDroppedWhenAllLongEnough` | src/utils/change_point_deteciton_utils.py:56-75 | When every candidate has at least five rows, the table has one row per candidate and ids are exactly 1, 2, ... |
| `SegmentStatistics.NoBreakpointsGiveOneSegment` | tests/unit/test_change_point_detection_utils.py:99-104 | With no breakpoints, a series of at least five rows gives one segment, id 1, spanning the whole series. A shorter series gives an empty table. |
| `SegmentStatistics.QuarterSplitGivesFourSegments` | tests/unit/test_change_point_detection_utils.py:42-47 | Breakpoints [25, 50, 75] on 100 rows give four segments, ids 1 to 4, of 25 rows each. On daily data each lasts 24 days. |
| `EventMatching.Classify` | src/utils/change_point_deteciton_utils.py:90-93 | STRONG if and only if the distance is within both the window and 30 days. WEAK if and only if it is over 30 days but within the window. NO MATCH if and only if it is beyond the window. |
| `EventMatching.StatusLabelsDistinct` | src/utils/change_point_deteciton_utils.py:91-93 | The three `match_status` strings are pairwise distinct, so a string comparison identifies the tier. |
| `EventMatching.ClassifyIsMonotone` | src/utils/change_point_deteciton_utils.py:90-93 | A larger distance never gives a stronger tier. |
| `EventMatching.DefaultWindowBoundaries` | src/utils/change_point_deteciton_utils.py:79-93 | Under the default window of 90, 30 days is STRONG, 31 and 90 are WEAK, and 91 is NO MATCH. |
| `EventMatching.NearestAmong` | src/utils/change_point_deteciton_utils.py:85-86 | `idxmin` over the first `n` rows returns a position of minimum absolute day distance. It is the first such position. |
| `EventMatching.NearestEvent` | src/utils/change_point_deteciton_utils.py:85-88 | The chosen catalog position is the first of minimum distance to the change point. |
| `EventMatching.FirstNearestIsUnique` | src/utils/change_point_deteciton_utils.py:86 | Only one position is the first of minimum distance, so the tie-break fully determines the choice. |
| `EventMatching.MatchFor` | src/utils/change_point_deteciton_utils.py:85-103 | The row reports the change-point date and the first nearest event's title, date, category and impact, whatever the tier. `days_difference` is the minimum distance over the catalog, and the status is the tier of that distance. |
| `EventMatching.MatchEventsWithChangePoints` | src/utils/change_point_deteciton_utils.py:79-106 | The loop fails if and only if there is a change point and the catalog is empty. Otherwise it emits exactly one row per change point, in input order, each that point's `MatchFor`. |
| `EventMatching.NoChangePointsGiveEmptyTable` | src/utils/change_point_deteciton_utils.py:81-83 | No change points give an empty table, even with an empty catalog. |
| `EventMatching.UnitTestCatalogMatchesAllStrong` | tests/unit/test_change_point_detection_utils.py:72-79 | On the tests' catalog, the three change points match Event 1, 2 and 3 at distances 1, 0 and 1. There are three rows, all STRONG. |
| `StrongMatches.FirstWhere` | src/utils/change_point_deteciton_utils.py:117-123 | A boolean-mask selection followed by `.iloc[0]` picks the first matching row. It is absent if and only if no row matches. |
| `StrongMatches.EnrichOne` | src/utils/change_point_deteciton_utils.py:113-141 | A match is skipped if and only if no impact row has its date. It raises if and only if it has one but its title is not in the catalog, and the error names that title. |
| `StrongMatches.AnalyzeStrongMatches` | src/utils/change_point_deteciton_utils.py:109-143 | The loop's outcome equals the specification `Enrich`. A successful table has at most one row per input match. |
| `StrongMatches.EnrichFailureAborts` | src/utils/change_point_deteciton_utils.py:123 | Once a prefix of the matches raises, the whole call raises the same error, and no partial table is returned. |
| `StrongMatches.WithImpact` | src/utils/change_point_deteciton_utils.py:117-119 | The kept matches are no more than the input. Each is an input match with an impact row. By definition it is the in-order filter of the input: input order and one entry per kept input come from its body, not from its contract. |
| `StrongMatches.MatchesWithImpactAreKept` | src/utils/change_point_deteciton_utils.py:117-119 | Every input match that has an impact row is kept, so a match is dropped exactly when it has none. |
| `StrongMatches.EnrichIsFilterMap` | src/utils/change_point_deteciton_utils.py:113-141 | A successful table has one row per entry of `WithImpact`, which is by definition the in-order filter of the matches that have an impact row. Row `j` merges kept match `j` with its first impact row and the first event row of its title. |
| `StrongMatches.EnrichRaisesIffTitleUnknown` | src/utils/change_point_deteciton_utils.py:119-123 | The call raises if and only if some match has an impact row but an unknown title. The error names the first such match's title. |
| `ChangePointDetection.DropFinalSentinel` | src/utils/change_point_deteciton_utils.py:10-11 | The result plus the search's last element is the search's output. An empty output gives no breakpoints. |
| `ChangePointDetection.SentinelDropLeavesInteriorBreakpoints` | src/utils/change_point_deteciton_utils.py:7-11 | For a search output honouring a minimum size of at least 1, the breakpoints are strictly increasing and strictly inside the series. |
| `ChangePointDetection.DetectedSegmentsAreAllReported` | src/utils/change_point_deteciton_utils.py:54-75 | When the search honours a minimum size of at least five, the segment table drops nothing. It has one row per detected segment, ids 1, 2, ..., and covers every row of the series. |
| `ChangePointDetection.DefaultSearchDropsNoSegment` | src/models/ruptures_config.py:7 | A search run with the default minimum segment size of 22 yields strictly increasing interior breakpoints. The segment table then has one row per detected segment and covers every row of the series. |

## Left out

- The PELT search (`find_change_points` beyond `[:-1]`): it runs inside the ruptures library, whose cost model and search are not part of this model. Its guarantees (strictly increasing output, ending at the series length, minimum gap) enter only as the requires of `ChangePointDetection` lemmas.
- The floating-point segment statistics (mean, median, `mean * 100`, `std * sqrt(252) * 100`): float arithmetic. They are the caller-supplied `summarize` applied to the segment's rows.
- `plot_change_points` (matplotlib output) and `export_results` (CSV writes, prints, and adding a `price_at_cp` column in place): I/O only.
- The serving layer and the web front end: HTTP, file loading and display logic.
- The pandas label/position distinction at `idxmin` / `.loc` / `.iloc`: the catalog is modelled positionally with a default 0-based index, which the source assumes.
- SegmentStatistics.CalculateSegmentStatistics: requires every breakpoint to lie within `0..len`. Negative or past-the-end Python slice indices, which the source never receives from the detector, are not modelled.
- Timestamps with a time of day: dates are whole day numbers, so `.days` of a difference is exact integer subtraction.

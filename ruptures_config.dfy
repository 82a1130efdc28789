/**
 * The search-parameter bundle of the change-point detector
 * (src/models/ruptures_config.py). Its constructor assigns six constants
 * once and nothing updates them afterwards, so it is a datatype constant.
 */
module RupturesConfig {
  import opened Sequences

  datatype ChangePointConfig = ChangePointConfig(
    costFunction: string,    // the ruptures cost model: shifts in mean and variance
    searchMethod: string,    // the ruptures search algorithm
    penaltyValues: seq<int>, // penalties tried in a sweep
    minSegmentSize: int,     // minimum distance between breakpoints
    jump: int,               // stride of candidate breakpoint positions
    primaryPenalty: int      // the penalty used for the downstream tables
  )

  /** `ChangePointConfig()`: the only configuration the source ever builds. */
  const DefaultConfig: ChangePointConfig :=
    ChangePointConfig("normal", "Pelt", [2, 5, 10, 15, 20, 30, 35], 22, 5, 30)

  /** The default field values, as pinned by the configuration's tests. */
  lemma DefaultConfigValues()
    ensures DefaultConfig.costFunction == "normal"
    ensures DefaultConfig.searchMethod == "Pelt"
    ensures DefaultConfig.penaltyValues == [2, 5, 10, 15, 20, 30, 35]
    ensures DefaultConfig.minSegmentSize == 22 && DefaultConfig.jump == 5
    ensures DefaultConfig.primaryPenalty == 30
  {
  }

  /**
   * The default configuration is sane for the search: the penalty sweep is
   * strictly increasing, its values are positive, the primary penalty is one
   * of them, and the size and stride are at least 1.
   */
  lemma DefaultConfigIsSane()
    ensures StrictlyIncreasing(DefaultConfig.penaltyValues)
    ensures forall i :: 0 <= i < |DefaultConfig.penaltyValues| ==> DefaultConfig.penaltyValues[i] > 0
    ensures DefaultConfig.primaryPenalty in DefaultConfig.penaltyValues
    ensures DefaultConfig.minSegmentSize >= 1 && DefaultConfig.jump >= 1
  {
    var p := DefaultConfig.penaltyValues;
    assert p[5] == DefaultConfig.primaryPenalty;
  }
}

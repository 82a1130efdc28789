/** Orderings of integer sequences shared by the configuration and the segment table. */
module Sequences {

  /** Every element is smaller than every later one. */
  predicate StrictlyIncreasing(s: seq<int>)
  {
    forall i, j :: 0 <= i < j < |s| ==> s[i] < s[j]
  }
}

/**
 * Enrichment of matched change points with their price and volatility
 * impact and the full event record (`analyze_strong_matches`,
 * src/utils/change_point_deteciton_utils.py).
 *
 * The input matches are whatever the caller passes (in the source's
 * pipeline, the STRONG rows of the matching table); the function itself
 * does not look at `match_status`.
 */
module StrongMatches {
  import opened Results
  import opened EventMatching

  /** One row of the change-impact table. */
  datatype ChangeImpact = ChangeImpact(
    changePointDate: int,
    fromPrice: real,
    toPrice: real,
    fromVolatility: real,
    toVolatility: real,
    priceChangePct: real,
    volatilityChangePct: real
  )

  /** One row of the strong-match analysis table. */
  datatype StrongMatchAnalysis = StrongMatchAnalysis(
    changePointDate: int,
    eventTitle: string,
    eventDate: int,
    daysDifference: nat,
    eventCategory: string,
    eventImpactDirection: string,
    priceChangePct: real,
    volatilityChangePct: real,
    priceBefore: real,
    priceAfter: real,
    volatilityBefore: real,
    volatilityAfter: real,
    eventDescription: string,
    influenceLevel: string
  )

  /** `.iloc[0]` on an empty selection of the event catalog raises. */
  datatype EnrichError = UnknownEventTitle(title: string)

  /** The position of the first row satisfying `p`: `frame[mask].iloc[0]`, or nothing when the selection is empty. */
  function FirstWhere<T>(rows: seq<T>, p: T -> bool): (r: Option<nat>)
    ensures r.None? <==> forall i :: 0 <= i < |rows| ==> !p(rows[i])
    ensures r.Some? ==> r.value < |rows| && p(rows[r.value]) && forall i :: 0 <= i < r.value ==> !p(rows[i])
  {
    if rows == [] then None
    else if p(rows[0]) then Some(0)
    else
      match FirstWhere(rows[1..], p)
      case None => None
      case Some(k) => Some(k + 1)
  }

  /** The first impact row recorded for this change-point date. */
  function ImpactFor(impacts: seq<ChangeImpact>, date: int): (row: Option<nat>)
  {
    FirstWhere(impacts, (row: ChangeImpact) => row.changePointDate == date)
  }

  /** The first catalog row with this title. */
  function EventTitled(events: seq<Event>, title: string): (row: Option<nat>)
  {
    FirstWhere(events, (e: Event) => e.title == title)
  }

  /** The analysis row merged from a match, its impact row and its event row. */
  function Analyse(m: Match, impact: ChangeImpact, event: Event): (a: StrongMatchAnalysis)
  {
    StrongMatchAnalysis(
      m.changePointDate, m.eventTitle, m.eventDate, m.daysDifference, m.eventCategory, m.eventImpact,
      impact.priceChangePct, impact.volatilityChangePct,
      impact.fromPrice, impact.toPrice, impact.fromVolatility, impact.toVolatility,
      event.description, event.influenceLevel)
  }

  /** Some impact row has this match's change-point date. */
  predicate HasImpact(m: Match, impacts: seq<ChangeImpact>)
  {
    exists i :: 0 <= i < |impacts| && impacts[i].changePointDate == m.changePointDate
  }

  /** Some catalog row has this match's title. */
  predicate TitleKnown(m: Match, events: seq<Event>)
  {
    exists i :: 0 <= i < |events| && events[i].title == m.eventTitle
  }

  /** Processing this match raises: it has an impact row but its title is not in the catalog. */
  predicate Raises(m: Match, impacts: seq<ChangeImpact>, events: seq<Event>)
  {
    HasImpact(m, impacts) && !TitleKnown(m, events)
  }

  /**
   * One iteration of the source's loop: nothing when no impact row has the
   * date, an error when the title is unknown, the merged row otherwise.
   */
  function EnrichOne(m: Match, impacts: seq<ChangeImpact>, events: seq<Event>): (r: Result<Option<StrongMatchAnalysis>, EnrichError>)
    ensures r == Success(None) <==> !HasImpact(m, impacts)
    ensures r.Failure? <==> Raises(m, impacts, events)
    ensures r.Failure? ==> r.error == UnknownEventTitle(m.eventTitle)
  {
    match ImpactFor(impacts, m.changePointDate)
    case None => Success(None)
    case Some(ii) =>
      match EventTitled(events, m.eventTitle)
      case None => Failure(UnknownEventTitle(m.eventTitle))
      case Some(ei) => Success(Some(Analyse(m, impacts[ii], events[ei])))
  }

  /** The analysis table of the matches, processed in order; the first error aborts the whole table. */
  function Enrich(ms: seq<Match>, impacts: seq<ChangeImpact>, events: seq<Event>): (table: Result<seq<StrongMatchAnalysis>, EnrichError>)
    decreases |ms|
  {
    if ms == [] then Success([])
    else
      match Enrich(ms[..|ms| - 1], impacts, events)
      case Failure(e) => Failure(e)
      case Success(done) =>
        match EnrichOne(ms[|ms| - 1], impacts, events)
        case Failure(e) => Failure(e)
        case Success(None) => Success(done)
        case Success(Some(a)) => Success(done + [a])
  }

  /** The source's loop: skip matches without an impact row, raise on an unknown title, append the rest. */
  method AnalyzeStrongMatches(ms: seq<Match>, impacts: seq<ChangeImpact>, events: seq<Event>)
    returns (result: Result<seq<StrongMatchAnalysis>, EnrichError>)
    ensures result == Enrich(ms, impacts, events)
    ensures result.Success? ==> |result.value| <= |ms|
  {
    var analysis := [];
    for i := 0 to |ms|
      invariant Enrich(ms[..i], impacts, events) == Success(analysis)
      invariant |analysis| <= i
    {
      assert ms[..i + 1][..i] == ms[..i];
      var m := ms[i];
      var impactRow := ImpactFor(impacts, m.changePointDate);
      if impactRow.None? {
        continue;
      }
      var eventRow := EventTitled(events, m.eventTitle);
      if eventRow.None? {
        EnrichFailureAborts(ms, impacts, events, i + 1);
        return Failure(UnknownEventTitle(m.eventTitle));
      }
      analysis := analysis + [Analyse(m, impacts[impactRow.value], events[eventRow.value])];
    }
    assert ms[..|ms|] == ms;
    return Success(analysis);
  }

  /** Once a prefix of the matches fails, the whole table fails with the same error. */
  lemma {:induction false} EnrichFailureAborts(ms: seq<Match>, impacts: seq<ChangeImpact>, events: seq<Event>, n: nat)
    requires n <= |ms| && Enrich(ms[..n], impacts, events).Failure?
    ensures Enrich(ms, impacts, events) == Enrich(ms[..n], impacts, events)
    decreases |ms| - n
  {
    if n == |ms| {
      assert ms[..n] == ms;
    } else {
      assert ms[..n + 1][..n] == ms[..n];
      EnrichFailureAborts(ms, impacts, events, n + 1);
    }
  }

  // ---------------------------------------------------------------------
  // The table as a filter-map, and when it raises.
  // ---------------------------------------------------------------------

  /** The matches that have an impact row, in input order. */
  function WithImpact(ms: seq<Match>, impacts: seq<ChangeImpact>): (kept: seq<Match>)
    ensures |kept| <= |ms|
    ensures forall j :: 0 <= j < |kept| ==> kept[j] in ms && HasImpact(kept[j], impacts)
    decreases |ms|
  {
    if ms == [] then []
    else
      var last := ms[|ms| - 1];
      WithImpact(ms[..|ms| - 1], impacts) + (if HasImpact(last, impacts) then [last] else [])
  }

  /** A match is dropped from the kept list only when no impact row has its date. */
  lemma {:induction false} MatchesWithImpactAreKept(ms: seq<Match>, impacts: seq<ChangeImpact>, i: nat)
    requires i < |ms| && HasImpact(ms[i], impacts)
    ensures ms[i] in WithImpact(ms, impacts)
    decreases |ms|
  {
    if i < |ms| - 1 {
      var init := ms[..|ms| - 1];
      assert init[i] == ms[i];
      MatchesWithImpactAreKept(init, impacts, i);
    }
  }

  /** `a` is the row merged from `m`, the first impact row of its date and the first event row of its title. */
  predicate Enriches(m: Match, a: StrongMatchAnalysis, impacts: seq<ChangeImpact>, events: seq<Event>)
  {
    var ii := ImpactFor(impacts, m.changePointDate);
    var ei := EventTitled(events, m.eventTitle);
    ii.Some? && ei.Some? && a == Analyse(m, impacts[ii.value], events[ei.value])
  }

  /**
   * A successful table has exactly one row per match that has an impact
   * row, in input order, each merged from that match's first impact row
   * and first event row.
   */
  lemma {:induction false} EnrichIsFilterMap(ms: seq<Match>, impacts: seq<ChangeImpact>, events: seq<Event>)
    requires Enrich(ms, impacts, events).Success?
    ensures var out := Enrich(ms, impacts, events).value;
      var kept := WithImpact(ms, impacts);
      |out| == |kept| && forall j :: 0 <= j < |out| ==> Enriches(kept[j], out[j], impacts, events)
    decreases |ms|
  {
    if ms != [] {
      var init := ms[..|ms| - 1];
      EnrichIsFilterMap(init, impacts, events);
      var m := ms[|ms| - 1];
      var out := Enrich(ms, impacts, events).value;
      var kept := WithImpact(ms, impacts);
      var prevOut := Enrich(init, impacts, events).value;
      var prevKept := WithImpact(init, impacts);
      if HasImpact(m, impacts) {
        assert out == prevOut + [out[|out| - 1]] && kept == prevKept + [m];
        assert Enriches(m, out[|out| - 1], impacts, events);
      } else {
        assert out == prevOut && kept == prevKept;
      }
    }
  }

  /** No earlier match raises. */
  predicate NoneRaiseBefore(ms: seq<Match>, impacts: seq<ChangeImpact>, events: seq<Event>, i: nat)
    requires i <= |ms|
  {
    forall j :: 0 <= j < i ==> !Raises(ms[j], impacts, events)
  }

  /**
   * The table raises exactly when some match has an impact row but an
   * unknown title, and the error names the first such match's title.
   */
  lemma {:induction false} EnrichRaisesIffTitleUnknown(ms: seq<Match>, impacts: seq<ChangeImpact>, events: seq<Event>)
    ensures Enrich(ms, impacts, events).Failure? <==> exists i :: 0 <= i < |ms| && Raises(ms[i], impacts, events)
    ensures Enrich(ms, impacts, events).Failure? ==>
      exists i :: 0 <= i < |ms| && Raises(ms[i], impacts, events) && NoneRaiseBefore(ms, impacts, events, i) &&
        Enrich(ms, impacts, events).error == UnknownEventTitle(ms[i].eventTitle)
    decreases |ms|
  {
    if ms != [] {
      var init := ms[..|ms| - 1];
      var n := |ms| - 1;
      EnrichRaisesIffTitleUnknown(init, impacts, events);
      assert forall j :: 0 <= j < n ==> init[j] == ms[j];
      if Enrich(init, impacts, events).Failure? {
        var i :| 0 <= i < n && Raises(init[i], impacts, events) && NoneRaiseBefore(init, impacts, events, i) &&
          Enrich(init, impacts, events).error == UnknownEventTitle(init[i].eventTitle);
        assert NoneRaiseBefore(ms, impacts, events, i);
      } else if Raises(ms[n], impacts, events) {
        assert NoneRaiseBefore(ms, impacts, events, n);
      } else {
        forall j | 0 <= j < |ms|
          ensures !Raises(ms[j], impacts, events)
        {
          if j < n {
            assert init[j] == ms[j];
          }
        }
      }
    }
  }
}

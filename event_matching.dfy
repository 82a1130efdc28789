/**
 * Nearest-event matching of change points against an event catalog
 * (`match_events_with_change_points`, src/utils/change_point_deteciton_utils.py).
 *
 * Dates are whole day numbers, so the day part of a pandas time difference
 * is a plain integer difference. The catalog is a 0-based positional
 * sequence, which is what the source's mix of `idxmin` and `iloc` assumes.
 */
module EventMatching {
  import opened Results

  /** One catalog row: title, start_date, category, impact_direction, description, influence_level. */
  datatype Event = Event(
    title: string,
    startDate: int,
    category: string,
    impactDirection: string,
    description: string,
    influenceLevel: string
  )

  datatype MatchStatus = Strong | Weak | NoMatch

  /** One row of the event-matching table. */
  datatype Match = Match(
    changePointDate: int,
    eventTitle: string,
    eventDate: int,
    daysDifference: nat,
    eventCategory: string,
    eventImpact: string,
    matchStatus: MatchStatus
  )

  /** `idxmin` over an empty catalog raises. */
  datatype MatchError = EmptyEventCatalog

  /** A change point at most this many days from its event is a strong match. */
  const StrongMatchDays: nat := 30

  /** The default of `max_days_window`. */
  const DefaultMaxDaysWindow: int := 90

  /** The `match_status` string the source writes into the table. */
  function StatusLabel(status: MatchStatus): (text: string)
  {
    match status
    case Strong => "\U{2705} STRONG MATCH"
    case Weak => "\U{26A0}\U{FE0F} WEAK MATCH"
    case NoMatch => "\U{274C} NO MATCH"
  }

  /** Consumers compare `match_status` strings, so distinct tiers must have distinct labels. */
  lemma StatusLabelsDistinct(a: MatchStatus, b: MatchStatus)
    ensures StatusLabel(a) == StatusLabel(b) <==> a == b
  {
  }

  /** The whole number of days between two dates, `abs(...).days`. */
  function DayDistance(a: int, b: int): (days: nat)
  {
    if a <= b then b - a else a - b
  }

  /** The tier of a nearest-event distance under the window `maxDaysWindow`. */
  function Classify(days: nat, maxDaysWindow: int): (status: MatchStatus)
    ensures status == Strong <==> days <= maxDaysWindow && days <= StrongMatchDays
    ensures status == Weak <==> StrongMatchDays < days <= maxDaysWindow
    ensures status == NoMatch <==> maxDaysWindow < days
  {
    if days <= maxDaysWindow then
      (if days <= StrongMatchDays then Strong else Weak)
    else NoMatch
  }

  /** The rank of a tier: a stronger match has a higher rank. */
  function Strength(status: MatchStatus): (rank: nat)
  {
    match status
    case NoMatch => 0
    case Weak => 1
    case Strong => 2
  }

  /** Moving a change point further from its event never strengthens the match. */
  lemma ClassifyIsMonotone(near: nat, far: nat, maxDaysWindow: int)
    requires near <= far
    ensures Strength(Classify(far, maxDaysWindow)) <= Strength(Classify(near, maxDaysWindow))
  {
  }

  /** Under the default window, 30 days is strong, 31 and 90 are weak, 91 is no match. */
  lemma DefaultWindowBoundaries()
    ensures Classify(30, DefaultMaxDaysWindow) == Strong
    ensures Classify(31, DefaultMaxDaysWindow) == Weak
    ensures Classify(90, DefaultMaxDaysWindow) == Weak
    ensures Classify(91, DefaultMaxDaysWindow) == NoMatch
  {
  }

  /**
   * `k` is what `idxmin` returns for the distances of the catalog to `date`:
   * a position of minimum distance, and the first such position.
   */
  ghost predicate IsFirstNearest(events: seq<Event>, date: int, k: nat)
  {
    k < |events| &&
    (forall j :: 0 <= j < |events| ==> DayDistance(events[k].startDate, date) <= DayDistance(events[j].startDate, date)) &&
    (forall j :: 0 <= j < k ==> DayDistance(events[k].startDate, date) < DayDistance(events[j].startDate, date))
  }

  /** `idxmin` over the first `n` catalog rows: a later row replaces the best so far only when strictly nearer. */
  function NearestAmong(events: seq<Event>, date: int, n: nat): (k: nat)
    requires 0 < n <= |events|
    ensures k < n
    ensures forall j :: 0 <= j < n ==> DayDistance(events[k].startDate, date) <= DayDistance(events[j].startDate, date)
    ensures forall j :: 0 <= j < k ==> DayDistance(events[k].startDate, date) < DayDistance(events[j].startDate, date)
  {
    if n == 1 then 0
    else
      var best := NearestAmong(events, date, n - 1);
      if DayDistance(events[n - 1].startDate, date) < DayDistance(events[best].startDate, date) then n - 1 else best
  }

  /** The catalog position of the event nearest to `date`, ties to the earliest. */
  function NearestEvent(events: seq<Event>, date: int): (k: nat)
    requires |events| > 0
    ensures IsFirstNearest(events, date, k)
  {
    NearestAmong(events, date, |events|)
  }

  /** The first nearest position is unique: any position with that property is `NearestEvent`. */
  lemma FirstNearestIsUnique(events: seq<Event>, date: int, k: nat)
    requires IsFirstNearest(events, date, k)
    ensures k == NearestEvent(events, date)
  {
  }

  /**
   * The row for one change point: its nearest event's title, date, category
   * and impact, whatever the tier, the minimum day distance over the whole
   * catalog, and the tier of that distance.
   */
  function MatchFor(date: int, events: seq<Event>, maxDaysWindow: int): (m: Match)
    requires |events| > 0
    ensures m.changePointDate == date
    ensures exists k: nat ::
              IsFirstNearest(events, date, k) &&
              m.eventTitle == events[k].title && m.eventDate == events[k].startDate &&
              m.eventCategory == events[k].category && m.eventImpact == events[k].impactDirection
    ensures m.daysDifference == DayDistance(m.eventDate, date)
    ensures forall j :: 0 <= j < |events| ==> m.daysDifference <= DayDistance(events[j].startDate, date)
    ensures exists j :: 0 <= j < |events| && m.daysDifference == DayDistance(events[j].startDate, date)
    ensures m.matchStatus == Classify(m.daysDifference, maxDaysWindow)
  {
    var k := NearestEvent(events, date);
    var event := events[k];
    var days := DayDistance(event.startDate, date);
    Match(date, event.title, event.startDate, days, event.category, event.impactDirection, Classify(days, maxDaysWindow))
  }

  /**
   * The whole matching table: one row per change-point date, in input order.
   * The first change point against an empty catalog raises, so an empty
   * catalog is an error only when there is at least one change point.
   */
  function MatchTable(dates: seq<int>, events: seq<Event>, maxDaysWindow: int): (table: Result<seq<Match>, MatchError>)
  {
    if |dates| > 0 && |events| == 0 then Failure(EmptyEventCatalog)
    else Success(seq(|dates|, i requires 0 <= i < |dates| => MatchFor(dates[i], events, maxDaysWindow)))
  }

  /**
   * The source's loop: for each change-point date, take the nearest event
   * and append its row.
   */
  method MatchEventsWithChangePoints(dates: seq<int>, events: seq<Event>, maxDaysWindow: int)
    returns (result: Result<seq<Match>, MatchError>)
    ensures result == MatchTable(dates, events, maxDaysWindow)
    ensures result.Failure? <==> |dates| > 0 && |events| == 0
    ensures result.Success? ==> |result.value| == |dates|
    ensures result.Success? ==> forall i :: 0 <= i < |dates| ==> result.value[i] == MatchFor(dates[i], events, maxDaysWindow)
  {
    var matches := [];
    for i := 0 to |dates|
      invariant i > 0 ==> |events| > 0
      invariant |matches| == i
      invariant forall j :: 0 <= j < i ==> matches[j] == MatchFor(dates[j], events, maxDaysWindow)
    {
      if |events| == 0 {
        return Failure(EmptyEventCatalog);
      }
      matches := matches + [MatchFor(dates[i], events, maxDaysWindow)];
    }
    assert matches == MatchTable(dates, events, maxDaysWindow).value;
    return Success(matches);
  }

  /** An empty list of change points yields an empty table, whatever the catalog. */
  lemma NoChangePointsGiveEmptyTable(events: seq<Event>, maxDaysWindow: int)
    ensures MatchTable([], events, maxDaysWindow) == Success([])
  {
    assert MatchTable([], events, maxDaysWindow).value == [];
  }

  /** The catalog of the matching unit tests, dated in days from 2020-01-01. */
  function UnitTestCatalog(): (events: seq<Event>)
  {
    [Event("Event 1", 25, "test", "up", "", ""),
     Event("Event 2", 50, "test", "down", "", ""),
     Event("Event 3", 75, "test", "up", "", "")]
  }

  /** The row of a change point whose first nearest event sits at position `k`, at distance `days`. */
  lemma {:induction false} RowOfNearest(events: seq<Event>, date: int, maxDaysWindow: int, k: nat, days: nat)
    requires IsFirstNearest(events, date, k) && DayDistance(events[k].startDate, date) == days
    ensures MatchFor(date, events, maxDaysWindow).eventTitle == events[k].title
    ensures MatchFor(date, events, maxDaysWindow).daysDifference == days
    ensures MatchFor(date, events, maxDaysWindow).matchStatus == Classify(days, maxDaysWindow)
  {
    FirstNearestIsUnique(events, date, k);
  }

  /**
   * The unit tests' change points on days 24, 50 and 74 each get their own
   * event, at distances 1, 0 and 1: three rows, all strong.
   */
  lemma UnitTestCatalogMatchesAllStrong()
    ensures var table := MatchTable([24, 50, 74], UnitTestCatalog(), DefaultMaxDaysWindow);
      table.Success? && |table.value| == 3 &&
      table.value[0].eventTitle == "Event 1" && table.value[0].daysDifference == 1 &&
      table.value[1].eventTitle == "Event 2" && table.value[1].daysDifference == 0 &&
      table.value[2].eventTitle == "Event 3" && table.value[2].daysDifference == 1 &&
      table.value[0].matchStatus == Strong && table.value[1].matchStatus == Strong &&
      table.value[2].matchStatus == Strong
  {
    var events := UnitTestCatalog();
    var table := MatchTable([24, 50, 74], events, DefaultMaxDaysWindow);
    assert table.Success? && |table.value| == 3;
    assert table.value[0].eventTitle == "Event 1" && table.value[0].daysDifference == 1 &&
           table.value[0].matchStatus == Strong by {
      assert table.value[0] == MatchFor(24, events, DefaultMaxDaysWindow);
      RowOfNearest(events, 24, DefaultMaxDaysWindow, 0, 1);
    }
    assert table.value[1].eventTitle == "Event 2" && table.value[1].daysDifference == 0 &&
           table.value[1].matchStatus == Strong by {
      assert table.value[1] == MatchFor(50, events, DefaultMaxDaysWindow);
      RowOfNearest(events, 50, DefaultMaxDaysWindow, 1, 0);
    }
    assert table.value[2].eventTitle == "Event 3" && table.value[2].daysDifference == 1 &&
           table.value[2].matchStatus == Strong by {
      assert table.value[2] == MatchFor(74, events, DefaultMaxDaysWindow);
      RowOfNearest(events, 74, DefaultMaxDaysWindow, 2, 1);
    }
  }
}

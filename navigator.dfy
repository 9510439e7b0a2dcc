/** The day navigator of weather.js: the module-level `forecastData` (the
    day buckets of the last search) and `currentDayIndex`, changed by the
    prev/next buttons, the today/tomorrow tabs and each new search, and read
    by the display and by the button-disabling routine. */
module Navigator {
  import opened Wrappers

  /** The two module-level variables. */
  datatype NavState<T> = NavState(forecastData: seq<seq<T>>, currentDayIndex: int)

  /** `forecastData[index]`: undefined (`None`) outside the list. */
  function BucketAt<T>(data: seq<seq<T>>, index: int): Option<seq<T>> {
    if 0 <= index < |data| then Some(data[index]) else None
  }

  /** The guard of displayDayForecast: a missing or empty bucket shows nothing. */
  function Displayed<T>(dayData: Option<seq<T>>): Option<seq<T>> {
    if dayData.None? || dayData.value == [] then None else dayData
  }

  /** The bucket that the display shows for the selected day, if any. */
  function CurrentBucket<T>(s: NavState<T>): (r: Option<seq<T>>)
    ensures r.Some? <==> 0 <= s.currentDayIndex < |s.forecastData| && s.forecastData[s.currentDayIndex] != []
    ensures r.Some? ==> r.value == s.forecastData[s.currentDayIndex]
  {
    Displayed(BucketAt(s.forecastData, s.currentDayIndex))
  }

  /** The click handler of a date-nav button whose data-date is `direction`.
      It never changes the list and moves the index by at most one; an index
      inside the list stays inside it, and a reachable state stays reachable. */
  function OnDateNav<T>(s: NavState<T>, direction: string): (r: NavState<T>)
    ensures r.forecastData == s.forecastData
    ensures -1 <= r.currentDayIndex - s.currentDayIndex <= 1
    ensures InBounds(s) ==> InBounds(r)
    ensures Reachable(s) ==> Reachable(r)
  {
    if direction == "prev" && s.currentDayIndex > 0 then
      s.(currentDayIndex := s.currentDayIndex - 1)
    else if direction == "next" && s.currentDayIndex < |s.forecastData| - 1 then
      s.(currentDayIndex := s.currentDayIndex + 1)
    else
      s
  }

  /** updateWeatherDisplay(tab), without its display call: nothing on an
      empty list, otherwise day 0 for "today" and day 1 for any other tab,
      whatever the length of the list. The list is kept, a reachable state
      stays reachable, and on a list of two days or more the selected day is
      inside it. */
  function OnTab<T>(s: NavState<T>, tab: string): (r: NavState<T>)
    ensures r.forecastData == s.forecastData
    ensures Reachable(s) ==> Reachable(r)
    ensures |s.forecastData| >= 2 ==> InBounds(r)
  {
    if |s.forecastData| == 0 then s
    else s.(currentDayIndex := if tab == "today" then 0 else 1)
  }

  /** The end of a search, given the outcome of the two fetches and the
      grouping (`None` when any of them threw): on success the new buckets
      replace the list, the index is reset to 0 and the "today" tab is
      selected; on failure the catch block leaves both variables alone. */
  function OnSearch<T>(s: NavState<T>, outcome: Option<seq<seq<T>>>): (r: NavState<T>)
    ensures outcome.Some? ==> r.forecastData == outcome.value && r.currentDayIndex == 0
    ensures outcome.Some? ==> InBounds(r) && Reachable(r)
    ensures outcome.None? ==> r == s
  {
    match outcome
    case None => s
    case Some(buckets) => OnTab(NavState(buckets, 0), "today")
  }

  /** updateNavigationButtons: the disabled flag of the prev button, set
      exactly when a click on it would change nothing. */
  function PrevDisabled<T>(s: NavState<T>): (r: bool)
    ensures r <==> OnDateNav(s, "prev") == s
  {
    s.currentDayIndex <= 0
  }

  /** The disabled flag of the next button (any button whose data-date is
      not "prev"), set exactly when a click on it would change nothing. */
  function NextDisabled<T>(s: NavState<T>): (r: bool)
    ensures r <==> OnDateNav(s, "next") == s
  {
    s.currentDayIndex >= |s.forecastData| - 1
  }

  /** The index points into the list, or is 0 on an empty list. */
  predicate InBounds<T>(s: NavState<T>) {
    if |s.forecastData| == 0 then s.currentDayIndex == 0 else 0 <= s.currentDayIndex < |s.forecastData|
  }

  /** What the program can reach: the index is never negative, and leaves the
      list only through the tab jump to day 1 on a one-day list. */
  predicate Reachable<T>(s: NavState<T>) {
    0 <= s.currentDayIndex <= (if |s.forecastData| <= 1 then |s.forecastData| else |s.forecastData| - 1)
  }

  /** For an index inside the list, prev and next undo each other whenever
      they move. */
  lemma PrevNextInverse<T>(s: NavState<T>)
    requires InBounds(s)
    ensures OnDateNav(s, "prev") != s ==> OnDateNav(OnDateNav(s, "prev"), "next") == s
    ensures OnDateNav(s, "next") != s ==> OnDateNav(OnDateNav(s, "next"), "prev") == s
  {
  }

  /** On an empty list every control is inert: nothing moves, nothing is
      shown, and both buttons would be disabled. */
  lemma EmptyListIsInert<T>(s: NavState<T>, direction: string, tab: string)
    requires s.forecastData == [] && Reachable(s)
    ensures OnDateNav(s, direction) == s && OnTab(s, tab) == s
    ensures CurrentBucket(s) == None
    ensures PrevDisabled(s) && NextDisabled(s)
  {
  }

  /** On a one-day list the "tomorrow" tab selects day 1, which does not
      exist: the display is skipped, "next" stays put and "prev" returns to
      day 0. */
  lemma TabJumpLeavesList<T>(s: NavState<T>, tab: string)
    requires |s.forecastData| == 1 && tab != "today"
    ensures OnTab(s, tab).currentDayIndex == 1 && !InBounds(OnTab(s, tab))
    ensures CurrentBucket(OnTab(s, tab)) == None
    ensures OnDateNav(OnTab(s, tab), "next") == OnTab(s, tab)
    ensures OnDateNav(OnTab(s, tab), "prev").currentDayIndex == 0
  {
  }

  /** A successful search shows the first day of the new list when it has
      one to show, and nothing on an empty list. */
  lemma SearchShowsFirstDay<T>(s: NavState<T>, buckets: seq<seq<T>>)
    ensures buckets != [] && buckets[0] != [] ==> CurrentBucket(OnSearch(s, Some(buckets))) == Some(buckets[0])
    ensures buckets == [] ==> CurrentBucket(OnSearch(s, Some(buckets))) == None
  {
  }

  /** A three-day forecast: the search shows day 1, "tomorrow" shows day 2,
      "next" shows day 3, and a second "next" stays on day 3. */
  lemma ThreeDayWalk<T>(s: NavState<T>, d1: seq<T>, d2: seq<T>, d3: seq<T>)
    requires d1 != [] && d2 != [] && d3 != []
    ensures var s1 := OnSearch(s, Some([d1, d2, d3]));
            var s2 := OnTab(s1, "tomorrow");
            var s3 := OnDateNav(s2, "next");
            var s4 := OnDateNav(s3, "next");
            && CurrentBucket(s1) == Some(d1)
            && CurrentBucket(s2) == Some(d2)
            && CurrentBucket(s3) == Some(d3)
            && s4 == s3 && NextDisabled(s3)
  {
  }

  /** The module-level state of weather.js as an object. */
  class DayNavigator<T> {
    var forecastData: seq<seq<T>>
    var currentDayIndex: int

    function State(): NavState<T>
      reads this
    {
      NavState(forecastData, currentDayIndex)
    }

    ghost predicate Valid()
      reads this
    {
      Reachable(State())
    }

    /** The widget starts with no buckets, at index 0. */
    constructor ()
      ensures Valid() && State() == NavState([], 0)
    {
      forecastData := [];
      currentDayIndex := 0;
    }

    /** A click on the date-nav button whose data-date is `direction`,
        returning what displayDayForecast shows. */
    method ClickDateNav(direction: string) returns (shown: Option<seq<T>>)
      requires Valid()
      modifies this
      ensures Valid()
      ensures State() == OnDateNav(old(State()), direction)
      ensures shown == CurrentBucket(State())
    {
      if direction == "prev" && currentDayIndex > 0 {
        currentDayIndex := currentDayIndex - 1;
      } else if direction == "next" && currentDayIndex < |forecastData| - 1 {
        currentDayIndex := currentDayIndex + 1;
      }
      shown := Displayed(BucketAt(forecastData, currentDayIndex));
    }

    /** updateWeatherDisplay(tab), returning what it shows. */
    method UpdateWeatherDisplay(tab: string) returns (shown: Option<seq<T>>)
      requires Valid()
      modifies this
      ensures Valid()
      ensures State() == OnTab(old(State()), tab)
      ensures shown == CurrentBucket(State())
    {
      if |forecastData| == 0 {
        return None;
      }
      currentDayIndex := if tab == "today" then 0 else 1;
      shown := Displayed(BucketAt(forecastData, currentDayIndex));
    }

    /** The end of fetchWeatherData: on success store the buckets, start at
        day 0, show it, and select the "today" tab; on failure show nothing
        new. */
    method ShowForecast(outcome: Option<seq<seq<T>>>) returns (shown: Option<seq<T>>)
      requires Valid()
      modifies this
      ensures Valid()
      ensures State() == OnSearch(old(State()), outcome)
      ensures outcome.Some? ==> shown == CurrentBucket(State())
      ensures outcome.None? ==> shown == None
    {
      if outcome.None? {
        return None;
      }
      forecastData := outcome.value;
      currentDayIndex := 0;
      shown := Displayed(BucketAt(forecastData, currentDayIndex));
      shown := UpdateWeatherDisplay("today");
    }

    /** updateNavigationButtons: each button is disabled exactly when a click
        on it would not move. */
    method UpdateNavigationButtons() returns (prevDisabled: bool, nextDisabled: bool)
      ensures prevDisabled <==> OnDateNav(State(), "prev") == State()
      ensures nextDisabled <==> OnDateNav(State(), "next") == State()
    {
      prevDisabled := PrevDisabled(State());
      nextDisabled := NextDisabled(State());
    }
  }
}

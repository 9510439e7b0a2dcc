/** `groupForecastByDay` of weather.js: forecast samples are bucketed under
    the UTC calendar date of their Unix time, buckets in the order their date
    was first seen. */
module Forecast {
  import opened Wrappers
  import opened EcmaDate
  import opened Grouping

  /** One entry of the forecast list: its Unix time `dt` in seconds and the
      rest of the record (temperatures, wind, humidity, conditions), which the
      grouping never looks at. */
  datatype Sample<P> = Sample(dt: int, payload: P)

  const SecondsPerDay: int := 86400
  /** The largest |dt| for which `new Date(dt * 1000)` is a valid date. */
  const MaxSeconds: int := 8_640_000_000_000

  /** The bucket key of a sample time: the date part, before the first 'T',
      of the ISO string of the date dt seconds after the epoch, or `None`
      where toISOString throws a RangeError. */
  function DateKey(dt: int): (r: Option<string>)
    ensures r.Some? <==> -MaxSeconds <= dt <= MaxSeconds
  {
    match ToIsoString(TimeClip(dt * 1000))
    case None => None
    case Some(iso) => Some(SplitFirst(iso, 'T'))
  }

  function SampleKey<P>(s: Sample<P>): Option<string> {
    DateKey(s.dt)
  }

  /** The UTC day number of a sample, floor(dt / 86400). */
  function SampleDay<P>(s: Sample<P>): int {
    s.dt / SecondsPerDay
  }

  /** The day of the millisecond time value is the floor of dt / 86400. */
  lemma DayOfSeconds(dt: int)
    ensures Day(dt * 1000) == dt / SecondsPerDay
  {
    var q, r := dt / SecondsPerDay, dt % SecondsPerDay;
    assert dt * 1000 == MsPerDay * q + 1000 * r;
  }

  /** An in-range key is the date part of the ISO string. */
  lemma DateKeyIsIsoDate(dt: int)
    requires -MaxSeconds <= dt <= MaxSeconds
    ensures DateKey(dt) == Some(IsoDateText(dt * 1000))
  {
  }

  /** Two in-range sample times get the same key exactly when they fall on the
      same UTC day: the key depends on floor(dt / 86400) only, and never
      merges two days. */
  lemma DateKeySameDay(a: int, b: int)
    requires -MaxSeconds <= a <= MaxSeconds && -MaxSeconds <= b <= MaxSeconds
    ensures DateKey(a) == DateKey(b) <==> a / SecondsPerDay == b / SecondsPerDay
  {
    DateKeyIsIsoDate(a);
    DateKeyIsIsoDate(b);
    DayOfSeconds(a);
    DayOfSeconds(b);
    IsoDateTextSameDay(a * 1000, b * 1000);
  }

  /** Sample times from 1970 up to the end of 9999 give keys of the form
      YYYY-MM-DD with a four-digit year. */
  lemma DateKeyFourDigitYear(dt: int)
    requires 0 <= dt < 253402300800
    ensures 1970 <= YearFromTime(dt * 1000) <= 9999
    ensures DateKey(dt).Some? && |DateKey(dt).value| == 10
  {
    var t := dt * 1000;
    DayOfSeconds(dt);
    var y := YearFromTime(t);
    assert DayFromYear(10000) == 2932897;
    if y > 9999 {
      DayFromYearIncreasing(10000, y);
    }
    if y < 1970 {
      DayFromYearIncreasing(y + 1, 1970);
    }
    DateKeyIsIsoDate(dt);
  }

  predicate AllInRange<P>(list: seq<Sample<P>>) {
    forall i :: 0 <= i < |list| ==> -MaxSeconds <= list[i].dt <= MaxSeconds
  }

  /** The dictionary `days` and its key order `order` hold the grouping of
      the elements xs seen so far, under a key that is defined for all of them. */
  ghost predicate Tracks<T, K(!new)>(xs: seq<T>, key: T -> Option<K>, order: seq<K>, days: map<K, seq<T>>) {
    && KeysTracked(Keys(xs, key), order)
    && (forall d :: d in days <==> d in order)
    && BucketsTracked(xs, key, order, days)
  }

  /** The dictionary's key order lists the keys of the reference grouping. */
  ghost predicate KeysTracked<K>(ks: seq<Option<K>>, order: seq<K>) {
    |order| == |ks| && forall j :: 0 <= j < |order| ==> ks[j] == Some(order[j])
  }

  /** Each date's bucket holds the elements seen so far with that date. */
  ghost predicate BucketsTracked<T, K(!new)>(xs: seq<T>, key: T -> Option<K>, order: seq<K>, days: map<K, seq<T>>) {
    forall j :: 0 <= j < |order| ==> order[j] in days && days[order[j]] == Select(xs, key, Some(order[j]))
  }

  /** An element whose key is already in the dictionary is appended to that bucket. */
  lemma TracksAppend<T, K(!new)>(xs: seq<T>, key: T -> Option<K>, x: T, order: seq<K>, days: map<K, seq<T>>, d: K)
    requires Tracks(xs, key, order, days) && key(x) == Some(d) && d in days
    ensures Tracks(xs + [x], key, order, days[d := days[d] + [x]])
  {
    var ks := Keys(xs, key);
    var j0 :| 0 <= j0 < |order| && order[j0] == d;
    assert ks[j0] == Some(d);
    KeysStep(xs, key, x);
    assert Keys(xs + [x], key) == ks;
    var days' := days[d := days[d] + [x]];
    assert forall e :: e in days' <==> e in order;
    BucketsAppend(xs, key, x, order, days, d);
  }

  /** The bucket part of TracksAppend: only the element's own bucket grows. */
  lemma BucketsAppend<T, K(!new)>(xs: seq<T>, key: T -> Option<K>, x: T, order: seq<K>, days: map<K, seq<T>>, d: K)
    requires BucketsTracked(xs, key, order, days) && key(x) == Some(d) && d in days
    ensures BucketsTracked(xs + [x], key, order, days[d := days[d] + [x]])
  {
    forall j | 0 <= j < |order|
      ensures order[j] in days && days[d := days[d] + [x]][order[j]] == Select(xs + [x], key, Some(order[j]))
    {
      SelectStep(xs, key, x, Some(order[j]));
    }
  }

  /** An element with an unseen key opens a new bucket under a new last key. */
  lemma TracksOpen<T, K(!new)>(xs: seq<T>, key: T -> Option<K>, x: T, order: seq<K>, days: map<K, seq<T>>, d: K)
    requires Tracks(xs, key, order, days) && key(x) == Some(d) && d !in days
    ensures Tracks(xs + [x], key, order + [d], days[d := [x]])
  {
    KeysOpen(xs, key, x, order, days, d);
    BucketsOpen(xs, key, x, order, days, d);
  }

  /** The key part of TracksOpen: an unseen date is a new key of the grouping,
      and it becomes the last one. */
  lemma KeysOpen<T, K(!new)>(xs: seq<T>, key: T -> Option<K>, x: T, order: seq<K>, days: map<K, seq<T>>, d: K)
    requires Tracks(xs, key, order, days) && key(x) == Some(d) && d !in days
    ensures KeysTracked(Keys(xs + [x], key), order + [d])
    ensures forall i :: 0 <= i < |xs| ==> key(xs[i]) != Some(d)
  {
    var ks := Keys(xs, key);
    DateNotYetKey(xs, key, order, days, d);
    KeysStep(xs, key, x);
    assert Keys(xs + [x], key) == ks + [Some(d)];
    KeysTrackedAppend(ks, order, d);
    KeysComplete(xs, key);
  }

  /** A date the dictionary does not hold is not a key of the grouping. */
  lemma DateNotYetKey<T, K(!new)>(xs: seq<T>, key: T -> Option<K>, order: seq<K>, days: map<K, seq<T>>, d: K)
    requires Tracks(xs, key, order, days) && d !in days
    ensures Some(d) !in Keys(xs, key)
  {
    var ks := Keys(xs, key);
    forall j | 0 <= j < |ks| ensures ks[j] != Some(d) {
      assert order[j] in days;
    }
  }

  /** A key appended to the grouping's keys and to the order keeps them in step. */
  lemma KeysTrackedAppend<K>(ks: seq<Option<K>>, order: seq<K>, d: K)
    requires KeysTracked(ks, order)
    ensures KeysTracked(ks + [Some(d)], order + [d])
  {
  }

  /** The bucket part of TracksOpen: the old buckets stay, the new one holds
      the element alone. */
  lemma BucketsOpen<T, K(!new)>(xs: seq<T>, key: T -> Option<K>, x: T, order: seq<K>, days: map<K, seq<T>>, d: K)
    requires BucketsTracked(xs, key, order, days) && key(x) == Some(d) && d !in days
    requires forall i :: 0 <= i < |xs| ==> key(xs[i]) != Some(d)
    ensures BucketsTracked(xs + [x], key, order + [d], days[d := [x]])
  {
    var order', days' := order + [d], days[d := [x]];
    forall j | 0 <= j < |order'|
      ensures order'[j] in days' && days'[order'[j]] == Select(xs + [x], key, Some(order'[j]))
    {
      if j < |order| {
        assert order'[j] == order[j] && order[j] in days;
        SelectStep(xs, key, x, Some(order[j]));
      } else {
        SelectStep(xs, key, x, Some(d));
        SelectKeys(xs, key, Some(d));
      }
    }
  }

  /** Reading the dictionary back in key order gives the grouping. */
  lemma TracksResult<T, K(!new)>(xs: seq<T>, key: T -> Option<K>, order: seq<K>, days: map<K, seq<T>>)
    requires Tracks(xs, key, order, days)
    ensures seq(|order|, j requires 0 <= j < |order| && order[j] in days => days[order[j]]) == GroupBy(xs, key)
  {
  }

  lemma PrefixStep<T>(xs: seq<T>, i: int)
    requires 0 <= i < |xs|
    ensures xs[..i + 1] == xs[..i] + [xs[i]]
  {
  }

  /** The `forEach` callback of groupForecastByDay: computes the item's date
      key (failing where toISOString throws) and files the item under it. */
  method FileSample<P>(ghost seen: seq<Sample<P>>, days: map<string, seq<Sample<P>>>, order: seq<string>, item: Sample<P>)
    returns (ok: bool, days': map<string, seq<Sample<P>>>, order': seq<string>)
    requires Tracks(seen, SampleKey, order, days)
    ensures ok <==> -MaxSeconds <= item.dt <= MaxSeconds
    ensures ok ==> Tracks(seen + [item], SampleKey, order', days')
  {
    var key := DateKey(item.dt);
    if key.None? {
      return false, days, order;
    }
    ok := true;
    days', order' := FileUnder(seen, SampleKey, days, order, item, key.value);
  }

  /** Creates the date's bucket on first sight, then appends the sample. A
      bucket, once made, is a (truthy) array, so the test for a missing
      bucket is "date not yet a key"; a new key is also a new last key of the
      dictionary. The update does not
      depend on how the date was computed, so the key function is a ghost
      parameter. */
  method FileUnder<T, K(!new)>(ghost seen: seq<T>, ghost key: T -> Option<K>, days: map<K, seq<T>>, order: seq<K>, item: T, date: K)
    returns (days': map<K, seq<T>>, order': seq<K>)
    requires Tracks(seen, key, order, days) && key(item) == Some(date)
    ensures Tracks(seen + [item], key, order', days')
  {
    if date !in days {
      days', order' := days[date := []], order + [date];
      assert days'[date] + [item] == [item];
      days' := days'[date := days'[date] + [item]];
      TracksOpen(seen, key, item, order, days, date);
    } else {
      days', order' := days[date := days[date] + [item]], order;
      TracksAppend(seen, key, item, order, days, date);
    }
  }

  /** groupForecastByDay(list): a dictionary keyed by date string, filled by
      one pass over the list, read back in key-insertion order. A RangeError
      thrown for an out-of-range `dt` ends the call without a result. */
  method GroupForecastByDay<P>(list: seq<Sample<P>>) returns (r: Option<seq<seq<Sample<P>>>>)
    ensures r.None? <==> !AllInRange(list)
    ensures r.Some? ==> r.value == GroupBy(list, SampleKey)
  {
    var days: map<string, seq<Sample<P>>> := map[];
    // The dictionary's own key order (Object.values lists non-index keys in
    // insertion order, and a date string is never an array index).
    var order: seq<string> := [];
    for i := 0 to |list|
      invariant AllInRange(list[..i])
      invariant Tracks(list[..i], SampleKey, order, days)
    {
      var ok;
      ok, days, order := FileSample(list[..i], days, order, list[i]);
      if !ok {
        return None;
      }
      PrefixStep(list, i);
    }
    assert list[..|list|] == list;
    TracksResult(list, SampleKey, order, days);
    r := Some(seq(|order|, j requires 0 <= j < |order| && order[j] in days => days[order[j]]));
  }

  /** Grouping by date string is grouping by UTC day number. */
  lemma GroupByDateIsGroupByDay<P>(list: seq<Sample<P>>)
    requires AllInRange(list)
    ensures GroupBy(list, SampleKey) == GroupBy(list, SampleDay)
  {
    forall i, j | 0 <= i < |list| && 0 <= j < |list|
      ensures SampleKey(list[i]) == SampleKey(list[j]) <==> SampleDay(list[i]) == SampleDay(list[j])
    {
      DateKeySameDay(list[i].dt, list[j].dt);
    }
    GroupBySameClasses(list, SampleKey, SampleDay);
  }

  /** The buckets of an in-range forecast are its UTC days: together they
      hold every sample exactly as often as the list does, none is empty,
      the samples of one bucket share one day, and two buckets never share a
      day. */
  lemma BucketsAreDays<P>(list: seq<Sample<P>>)
    requires AllInRange(list)
    ensures multiset(Flatten(GroupBy(list, SampleKey))) == multiset(list)
    ensures forall j :: 0 <= j < |GroupBy(list, SampleKey)| ==> GroupBy(list, SampleKey)[j] != []
    ensures forall j, p, q ::
              0 <= j < |GroupBy(list, SampleKey)| && 0 <= p < |GroupBy(list, SampleKey)[j]| && 0 <= q < |GroupBy(list, SampleKey)[j]|
              ==> SampleDay(GroupBy(list, SampleKey)[j][p]) == SampleDay(GroupBy(list, SampleKey)[j][q])
    ensures forall i, j :: 0 <= i < j < |GroupBy(list, SampleKey)| ==>
              SampleDay(GroupBy(list, SampleKey)[i][0]) != SampleDay(GroupBy(list, SampleKey)[j][0])
  {
    GroupByPartition(list, SampleKey);
    GroupByDateIsGroupByDay(list);
    BucketsAreClasses(list, SampleDay);
  }

  /** A list in ascending time order gives buckets in day order: every sample
      of an earlier bucket lies on an earlier UTC day than every sample of a
      later bucket. In general the buckets follow the first occurrence of each
      day, and the code does not sort. */
  lemma AscendingInputGivesChronologicalBuckets<P>(list: seq<Sample<P>>, i: int, j: int)
    requires AllInRange(list)
    requires forall p, q :: 0 <= p <= q < |list| ==> list[p].dt <= list[q].dt
    requires 0 <= i < j < |GroupBy(list, SampleKey)|
    ensures forall a, b :: 0 <= a < |GroupBy(list, SampleKey)[i]| && 0 <= b < |GroupBy(list, SampleKey)[j]| ==>
              SampleDay(GroupBy(list, SampleKey)[i][a]) < SampleDay(GroupBy(list, SampleKey)[j][b])
  {
    GroupByDateIsGroupByDay(list);
    forall p, q | 0 <= p <= q < |list| ensures SampleDay(list[p]) <= SampleDay(list[q]) {
      FloorMonotone(list[p].dt, list[q].dt);
    }
    SortedInputGivesAscendingBuckets(list, SampleDay, i, j);
  }

  /** A list in ascending time order is split into consecutive runs: the
      buckets, read in order, give back the list. */
  lemma AscendingInputFlattensBack<P>(list: seq<Sample<P>>)
    requires AllInRange(list)
    requires forall p, q :: 0 <= p <= q < |list| ==> list[p].dt <= list[q].dt
    ensures Flatten(GroupBy(list, SampleKey)) == list
  {
    GroupByDateIsGroupByDay(list);
    forall p, q | 0 <= p <= q < |list| ensures SampleDay(list[p]) <= SampleDay(list[q]) {
      FloorMonotone(list[p].dt, list[q].dt);
    }
    SortedInputFlattensBack(list, SampleDay);
  }

  lemma FloorMonotone(a: int, b: int)
    requires a <= b
    ensures a / SecondsPerDay <= b / SecondsPerDay
  {
  }
}

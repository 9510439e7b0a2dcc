# weather.js: forecast grouping and day navigation, in Dafny

weather.js is a browser weather widget. Its user searches for a city. The
widget fetches the current conditions and a multi-day forecast, then groups
the forecast samples into day buckets. It shows one day at a time. A
"today/tomorrow" tab pair and "prev/next" buttons choose the day. This
project models the logic part of the widget and proves properties of it.

- **Grouping** (`groupForecastByDay`). Each sample's date key is the UTC
  calendar date of its Unix time `dt` (in seconds): the text before the
  first 'T' of the date's ISO 8601 string. Samples are collected
  in a dictionary keyed by that string. The dictionary's values are returned
  in key-insertion order.
- **Navigation.** The two module-level variables `forecastData` and
  `currentDayIndex` are changed by the prev/next buttons, the tabs, and each
  successful search. They are read by the display guard and by
  `updateNavigationButtons`.
- **Search check.** The location text is trimmed, and an empty result raises
  an alert instead of a search.

Modules:

- `Wrappers` holds `Option`.
- `Decimal` holds zero-padded decimal text.
- `EcmaDate` holds the time-value arithmetic of ECMA-262 section 21.4.1 and
  `Date.prototype.toISOString` (section 21.4.4.36). This covers `Day`,
  `DayFromYear`, `YearFromTime` as "the largest year whose start is at or
  before t", `MonthFromTime`, `DateFromTime`, `TimeClip`, the extended
  six-digit years, and the RangeError for an invalid time value. It also
  models `split('T')[0]`.
- `Grouping` is a reference definition of "group by key, buckets in order of
  their key's first occurrence", stated independently of any dictionary. It
  also holds the partition properties proved about it.
- `Forecast` holds the date key and the imperative `GroupForecastByDay`. That
  method is a loop over the samples that updates a map and its key order. It
  is proved to return exactly the reference grouping, or nothing when
  `toISOString` throws.
- `Navigator` holds the navigation state as a value (`NavState`) with one
  transition function per event handler. The class `DayNavigator` holds the
  two variables as fields and has one method per handler. Each method is
  proved to follow its transition function and to keep the invariant
  `Reachable`.
- `Search` holds `String.prototype.trim` and the search button's check.

Some of the code's behaviour is kept on purpose, because the model follows
the code:

- The date key is the **UTC** calendar date. The code does not apply a local
  offset.
- Buckets come in the order in which their dates first occur
  (`KeysInFirstOccurrenceOrder`), and the code does not sort them. They are
  in day order when the samples arrive in ascending time order
  (`AscendingInputGivesChronologicalBuckets`).
- `updateWeatherDisplay` sets the index to 1 for any tab other than "today",
  without checking the list's length. On a one-day forecast the "tomorrow"
  tab therefore selects a day that does not exist. The display is then
  skipped, and "prev" returns to day 0. The model keeps this behaviour, and
  `TabJumpLeavesList` states it.
- A failed search leaves both variables unchanged. A failure here is a
  failed fetch or a RangeError thrown by the grouping, and the `catch` block
  handles it.

## Model

| member | source | states |
|---|---|---|
| Decimal.Padded | weather.js:109 | A zero-padded field of toISOString has exactly the requested width and only digits. |
| Decimal.ValueOfPadded | weather.js:109 | Reading a padded field back gives the number: padding loses nothing. |
| Decimal.PaddedInjective | weather.js:109 | Two numbers below 10^width have the same padded text exactly when they are equal. |
| EcmaDate.DayFromYearStep | weather.js:109 | DayFromYear(y + 1) is DayFromYear(y) plus the days of year y (365, or 366 in a Gregorian leap year). |
| EcmaDate.DayFromYearIncreasing | weather.js:109 | Every year has at least 365 days, so year starts strictly increase. |
| EcmaDate.YearFromDay | weather.js:109 | The computed year is the one whose first day is at or before the given day and whose successor starts after it. |
| EcmaDate.YearFromTimeIsLargest | weather.js:109 | YearFromTime(t) is the largest year whose start is at or before t, as the standard defines it. |
| EcmaDate.DayOfYearRoundTrip | weather.js:109 | Within a year, the month and date of a day number name a real day of that month and lead back to the day number. |
| EcmaDate.MonthStartsAdd | weather.js:109 | The table of month starts agrees with the month lengths: each month starts where the previous one ends, and December ends with the year. |
| EcmaDate.CalendarRoundTrip | weather.js:109 | The year, month and date of a time value form a valid calendar date, and MakeDay of them is Day(t). |
| EcmaDate.DateFromTimeInMonth | weather.js:109 | The day of the month is between 1 and 31, so it always fits the two-digit DD field. |
| EcmaDate.YearInRange | weather.js:109 | Every valid time value lies in a year of at most six digits, so the ISO year field is always defined. |
| EcmaDate.YearText | weather.js:109 | The ISO year field has four characters for the years 0 to 9999 and seven (sign and six digits) otherwise, and never holds a 'T'. |
| EcmaDate.YearTextInjective | weather.js:109 | The ISO year field determines the year: distinct years give distinct text. |
| EcmaDate.DateText | weather.js:109 | The YEAR-MM-DD text has 10 characters for four-digit years and 13 otherwise, and never holds a 'T'. |
| EcmaDate.DateTextInjective | weather.js:109 | Distinct calendar dates have distinct YEAR-MM-DD texts. |
| EcmaDate.IsoDateText | weather.js:109 | The date part of toISOString has 10 characters for the years 0 to 9999 and 13 otherwise, and holds no 'T'; IsoDateTextSameDay states which days share it. |
| EcmaDate.ToIsoString | weather.js:109 | toISOString gives a string exactly when the date is valid, and throws a RangeError otherwise. Splitting that string at its first 'T' gives back exactly the date part. |
| EcmaDate.SplitFirst | weather.js:109 | `split(sep)[0]` is the longest prefix without the separator, and it stops at the first separator. |
| EcmaDate.SplitAtFirst | weather.js:109 | Splitting a text at its first separator gives back exactly the part before it. |
| EcmaDate.FieldsDependOnDay | weather.js:109 | Year, month and date depend only on the day number. |
| EcmaDate.IsoDateTextFields | weather.js:109 | Equal ISO date texts have equal year, month and date. |
| EcmaDate.IsoDateTextSameDay | weather.js:109 | Two valid time values have the same ISO date exactly when they fall on the same UTC day. |
| Forecast.DateKey | weather.js:109 | The date key exists exactly when the sample's dt is within ±8.64e12 seconds; otherwise toISOString throws. |
| Forecast.DayOfSeconds | weather.js:109 | The day number of dt * 1000 ms is floor(dt / 86400). |
| Forecast.DateKeyIsIsoDate | weather.js:109 | For a valid dt the key is the YYYY-MM-DD date part of the ISO string. |
| Forecast.DateKeySameDay | weather.js:109 | Two valid samples get the same date key exactly when floor(dt / 86400) agrees, over the whole valid range. |
| Forecast.DateKeyFourDigitYear | weather.js:109 | From 1970 up to the end of 9999 the key is a 10-character date with a four-digit year. |
| Forecast.TracksAppend | weather.js:110-111 | Pushing a sample onto an existing date's bucket keeps the dictionary equal to the grouping of the samples seen so far. |
| Forecast.BucketsAppend | weather.js:111 | The push changes only its own date's bucket. |
| Forecast.TracksOpen | weather.js:110-111 | Creating a bucket for an unseen date adds that date as the last key and keeps the dictionary equal to the grouping. |
| Forecast.KeysOpen | weather.js:110 | A date the dictionary does not hold is a new key of the grouping, and it becomes the last key. |
| Forecast.DateNotYetKey | weather.js:110 | A date that has no bucket yet is not a key of the grouping of the samples seen so far. |
| Forecast.BucketsOpen | weather.js:110-111 | A new bucket holds just the sample, and the other buckets stay as they were. |
| Forecast.TracksResult | weather.js:113 | Reading the dictionary's values in key-insertion order gives the reference grouping. |
| Forecast.FileUnder | weather.js:110-111 | The bucket update keeps the dictionary equal to the grouping of the samples seen so far. |
| Forecast.FileSample | weather.js:108-112 | The forEach callback succeeds exactly when the sample's date is valid, and it then files the sample under its date. |
| Forecast.GroupForecastByDay | weather.js:106-114 | groupForecastByDay throws exactly when some sample's dt is out of range, and otherwise returns the reference grouping by date key. |
| Forecast.GroupByDateIsGroupByDay | weather.js:106-114 | Grouping by date string is grouping by UTC day number. |
| Forecast.BucketsAreDays | weather.js:106-114 | The buckets partition the samples. Every bucket is non-empty and holds a single UTC day, and no two buckets share a day. |
| Forecast.AscendingInputGivesChronologicalBuckets | weather.js:106-114 | For samples in ascending time order, each bucket's days all come before the next bucket's. |
| Forecast.AscendingInputFlattensBack | weather.js:106-114 | For samples in ascending time order, the buckets read in order give back the sample list itself. |
| Grouping.KeysComplete | weather.js:110 | Every element's key is one of the dictionary's keys. |
| Grouping.KeysDistinct | weather.js:110 | No key is listed twice. |
| Grouping.KeysOccur | weather.js:110 | Every listed key is the key of some element. |
| Grouping.Positions | weather.js:111 | The positions that carry a key are in range, strictly increasing, and complete. |
| Grouping.SelectKeys | weather.js:111 | A bucket holds only elements with its key, and it is empty only when no element has that key. |
| Grouping.IndexOf | weather.js:110 | A listed key is found at an index holding that key. |
| Grouping.BucketUnchanged | weather.js:111 | Adding an element leaves the buckets of other keys unchanged. |
| Grouping.BucketGrows | weather.js:111 | Adding an element appends it to the end of its key's bucket. |
| Grouping.BucketOpened | weather.js:110-111 | An element with an unseen key gets a new last bucket holding just itself. |
| Grouping.BucketsBeforeUnchanged | weather.js:110-111 | An element with an unseen key leaves every existing bucket as it was. |
| Grouping.GroupByStepOld | weather.js:110-111 | For a seen key, adding an element grows exactly that key's bucket. |
| Grouping.GroupByStepNew | weather.js:110-111 | For an unseen key, adding an element appends a one-element bucket. |
| Grouping.GroupByPartition | weather.js:106-114 | The buckets together hold exactly the input elements, each as often as it occurs. |
| Grouping.BucketsAreClasses | weather.js:106-114 | There is one bucket per distinct key, and empty input gives no buckets. Every bucket is non-empty and holds only its key. |
| Grouping.BucketKeepsInputOrder | weather.js:111 | Each bucket is the input restricted to the increasing positions with its key, all of them. |
| Grouping.FirstPosition | weather.js:110 | The first occurrence of a key is where it occurs with no earlier occurrence. |
| Grouping.KeysInFirstOccurrenceOrder | weather.js:113 | Buckets appear in the order in which their keys first occur in the input. |
| Grouping.SortedInputGivesAscendingKeys | weather.js:113 | When the input is ordered by an integer key, bucket keys strictly ascend. |
| Grouping.SortedInputGivesAscendingBuckets | weather.js:113 | When the input is ordered by an integer key, every element of an earlier bucket has a smaller key than every element of a later one. |
| Grouping.SortedInputLastKeyIsLargest | weather.js:113 | For sorted input the last bucket's key is the largest. |
| Grouping.LargestKeyIsLast | weather.js:110-111 | For sorted input, an element with the largest key so far joins the last bucket. |
| Grouping.FlattenStepLargest | weather.js:110-111 | For sorted input, an element with the largest key so far lands at the end of the concatenated buckets. |
| Grouping.SortedInputFlattensBack | weather.js:106-114 | When the input is ordered by an integer key, the concatenated buckets are the input itself. |
| Grouping.GroupBySameClasses | weather.js:109 | Two key functions that split the input into the same classes give the same grouping. |
| Navigator.OnDateNav | weather.js:51-55 | prev/next never change the list and move the index by at most one. They keep an in-list index in the list and keep the state reachable. |
| Navigator.OnTab | weather.js:157-158 | The tabs keep the list and the reachable states, and select a day in the list when it has at least two; TabJumpLeavesList states the one-day case. |
| Navigator.OnSearch | weather.js:87-90 | A successful search installs the new buckets at index 0, inside the list; a failed one (the catch at lines 91-95) changes nothing. |
| Navigator.PrevDisabled | weather.js:165 | The prev button is disabled exactly when a click on it would change nothing. |
| Navigator.NextDisabled | weather.js:166 | The next button is disabled exactly when a click on it would change nothing. |
| Navigator.CurrentBucket | weather.js:117-118 | The display shows the selected bucket exactly when the index lies in the list and the bucket is non-empty, and otherwise shows nothing. |
| Navigator.PrevNextInverse | weather.js:50-58 | For an index inside the list, whenever prev or next moves, the other one undoes it. |
| Navigator.EmptyListIsInert | weather.js:156-160 | On an empty list no control moves the index and nothing is shown. Both buttons would be disabled. |
| Navigator.TabJumpLeavesList | weather.js:156-160 | On a one-day list a non-"today" tab selects index 1, which is outside the list. Nothing is shown, next stays put and prev returns to 0. |
| Navigator.SearchShowsFirstDay | weather.js:87-90 | A successful search shows the first day of the new list when it has one to show, and nothing on an empty list. |
| Navigator.ThreeDayWalk | weather.js:50-58 | With three days: the search shows day 1, "tomorrow" day 2, next day 3, and a second next stays on day 3 with next disabled. |
| Navigator.DayNavigator.constructor | weather.js:22-23 | The widget starts with an empty list at index 0. |
| Navigator.DayNavigator.ClickDateNav | weather.js:50-58 | The prev/next handler follows OnDateNav, keeps the state reachable, and shows the current bucket. |
| Navigator.DayNavigator.UpdateWeatherDisplay | weather.js:156-160 | updateWeatherDisplay follows OnTab, keeps the state reachable, and shows the current bucket. |
| Navigator.DayNavigator.ShowForecast | weather.js:86-95 | The end of fetchWeatherData follows OnSearch: success resets to the new buckets at day 0, and failure leaves the state alone. |
| Navigator.DayNavigator.UpdateNavigationButtons | weather.js:163-167 | Each button's disabled flag holds exactly when a click on it would not move. |
| Search.SkipStart | weather.js:36 | The scan stops at the first character that is not white space, having passed only white space. |
| Search.SkipEnd | weather.js:36 | The backward scan stops after the last character that is not white space, having passed only white space. |
| Search.Trim | weather.js:36 | trim() gives an infix of the input, surrounded only by white space and neither starting nor ending with white space. |
| Search.CityQuery | weather.js:35-39 | The alert is raised exactly when the field holds only white space; otherwise the search starts with the trimmed text. |
| Search.TrimEmptyIffBlank | weather.js:36-37 | Trimming leaves nothing exactly when the text is all white space. |
| Search.TrimIdempotent | weather.js:36 | Trimming the trimmed city changes nothing. |

## Left out

- Network, JSON and the API key. `fetchWeatherData` and `fetchForecastData` are reduced to their outcome. `ShowForecast` receives either the grouped buckets or `None`, which stands for a failed fetch, a thrown RangeError, or the early return when page elements are missing.
- Rendering. The location label, temperature, icon, summary text, hourly table, `toLocaleDateString`/`toLocaleTimeString`, `Math.round` and the "active" tab class are page output. Only which bucket is shown is modelled.
- Timing. The clock reading and the IST adjustment at weather.js:25-28 feed nothing the rest of the code uses.
- Overlapping searches are not modelled. The code does not serialise them, and the model runs one handler at a time.
- The Enter-key handler at weather.js:31-33 only clicks the search button, so it adds no behaviour.
- Sample `dt` is an integer number of seconds. Fractional and non-numeric `dt` values are not modelled. For integers, `dt * 1000` is exact in a double whenever its magnitude is below 2^53, which covers the whole valid range, and anything larger is out of range either way.
- The `data-tab` and `data-date` attributes are strings. A missing attribute (null) behaves like any string other than "today", "prev" or "next", and the model covers it that way.
- Object.values orders integer-like keys first. No date key is an array index, so insertion order is the only order that applies.
- `updateNavigationButtons` is never called in the code. It is modelled as a method that only reads the state.
- Navigator.DayNavigator.UpdateWeatherDisplay: the tab click handler's toggling of the "active" class is left out as page output.

# Sleep dashboard: the computations behind the three tabs

`main-script.py` is a tkinter/matplotlib dashboard over a log of hours slept.
The log is `sleep_data`, a dictionary from an ISO date "YYYY-MM-DD" to a
number of hours or `None`. Around its GUI calls the script computes these
things:

- It colours a date by its hours. `get_sleep_color` clamps the hours to
  [2, 11] and blends between three gradient stops. It truncates the channels
  to integers and formats them as "#RRGGBB". `hex_to_rgb` parses such a
  string.
- The calendar tab draws one cell per date of the current year. A date with
  hours gets its sleep colour. A date without hours is gray when it lies
  from `first_date` (the earliest date with hours) up to, but not including,
  today, and white otherwise. So a day before `first_date` is white.
- A click on a calendar cell reports two streaks:
  - the current streak: the days with at least 7 hours that end at the
    clicked date, walking back one calendar day at a time;
  - the best streak: the longest run of sorted keys whose values are at
    least 4.
- The pie tab puts every value of at least 1 into one of the bins [1,2),
  ..., [10,11) or "11h+". None and values below 1 land in no bin. It then
  drops the empty bins and unzips the rest into counts, labels and date
  lists.
- The trend tab groups the non-null entries by "YYYY-MM". It takes the latest
  month and computes the mean, the minimum and the maximum of its hours, with
  the first index of each.

The Dafny model has one module per concern:

- `Dates`: `datetime.date` as (year, month, day) triples, the day before, and
  month keys.
- `SleepLog`: the log as a sequence of entries with distinct dates (a dict in
  insertion order), `get`, `sorted`, and the startup entry.
- `Colors`: the hex parser, the formatter and the gradient.
- `Streaks`: the current streak and the best streak.
- `Distribution`: the binning and the filter.
- `Trend`: the grouping by month and the statistics.
- `Calendar`: the first date and the fill of every cell.
- `Wrappers`: `Option` and `Result`.

Where the script raises, the model returns an error value:

| script raises | at | model returns |
|---|---|---|
| `OverflowError` below `date.min` | current streak | `Err(DateOverflow)` |
| `ValueError` from `int(..., 16)` | `hex_to_rgb` | `Err(InvalidLiteral)` |
| `ValueError` from unpacking an empty `zip(*data)` | pie tab | `Err(NotEnoughValuesToUnpack)` |
| `ValueError` from `max` of an empty dict | trend tab | `Err(EmptyMax)` |

The loops keep the script's own form:

- `CurrentStreak`, `BestStreak` with `LongestQualifyingRun`, `CountBins`,
  `GroupByMonth` and `CalendarCells` are methods with loops.
- `CountBins` updates arrays in place, like the `counts` and `bin_dates` lists.
- `BestStreak`, `LongestQualifyingRun`, `CountBins`, `GroupByMonth` and
  `CalendarCells` are proved against the reference functions `LongestRun`,
  `DatesInBin`, `InMonth` and `CellFill`.
- `CurrentStreak` is defined by its contract alone: the days it counts
  qualify, the day after them does not, and it fails exactly when no such
  count exists before `date.min`.

## Model

| member | source | states |
|---|---|---|
| `Dates.DaysInMonth` | main-script.py:86-89 | a month has 28 to 31 days, and 29 exactly for February of a leap year; `date()` rejects any day outside |
| `Dates.Prev` | main-script.py:138 | the day before d (`d - timedelta(days=1)`) comes strictly before d |
| `Dates.PrevIsPredecessor` | main-script.py:138 | for a valid date other than `date.min`, the day before is valid and no valid date lies strictly between the two |
| `Dates.MonthOfMonotonic` | main-script.py:225-228 | the "YYYY-MM" key of an earlier date is never greater than that of a later date |
| `SleepLog.Get` | main-script.py:134 | `get` on a key returns the value stored under it; on a missing key it returns None |
| `SleepLog.GetStored` | main-script.py:134 | with unique keys, `get` of an item's date is that item's value |
| `SleepLog.KeysCount` | main-script.py:143 | unique keys: there are as many keys as items |
| `SleepLog.Recorded` | main-script.py:80 | the comprehension keeps exactly the items whose value is not None, and their dates stay unique |
| `SleepLog.Insert` | main-script.py:223 | inserting into an ascending list gives an ascending list with the same items plus the new one |
| `SleepLog.SortByDate` | main-script.py:223 | `sorted` yields a strictly ascending permutation of the items |
| `SleepLog.SortedMembers` | main-script.py:223 | the sorted items are exactly the original items |
| `SleepLog.SortedKeys` | main-script.py:143 | `sorted(sleep_data.keys())` has one element per key, is strictly ascending, and holds exactly the keys |
| `SleepLog.RecordToday` | main-script.py:26-42 | only today's key is ever added: nothing changes when it is present or the dialog raised; otherwise the answer, or None on cancel, is appended under it; keys stay unique |
| `Colors.HexToRgb` | main-script.py:45-47 | when at most four characters remain after the '#'s, the third field is empty and `int` fails; on success every channel is in -15..255, the range of two hex characters with an optional sign |
| `Colors.ParseField` | main-script.py:47 | `int(field, 16)` of at most two characters fails on an empty field; on success the field holds a hex digit and the value is in -15..255 |
| `Colors.LStripHash` | main-script.py:46 | removes exactly the leading '#' characters: the result is a suffix not starting with '#', and every removed character is '#' |
| `Colors.Field` | main-script.py:47 | a slice `s[i:i+2]` has at most two characters, and is exactly `s[i..i+2]` when the string is long enough |
| `Colors.Hex02` | main-script.py:61 | `{:02X}` pads to at least two characters, exactly two for -15..255; a non-negative value gives upper-case hex digits only, a negative one starts with '-' |
| `Colors.ToHexString` | main-script.py:61 | the formatted colour starts with '#' and has at least seven characters, exactly seven when every channel is in -15..255 |
| `Colors.UpperHex` | main-script.py:61 | the upper-case hex digits of n: one digit below 16, two digits (n / 16, n % 16) below 256 |
| `Colors.Hex02RoundTrip` | main-script.py:61 | `{:02X}` of a channel in -15..255 is two characters that `int(..., 16)` reads back as the channel |
| `Colors.HexRoundTrip` | main-script.py:45-47 | round trip: `hex_to_rgb` of the "#RRGGBB" formatted from channels in -15..255 returns those channels |
| `Colors.FormatShape` | main-script.py:61 | a colour with channels in 0..255 formats as '#' and six upper-case hex digits |
| `Colors.StopsParse` | main-script.py:52 | `hex_to_rgb` reads "1cdce8", "bb77ed" and "f34a62" as the three gradient stops |
| `Colors.Clamp` | main-script.py:53 | `max(2, min(11, h))` lies in [2, 11]; it equals h inside, 2 below and 11 above |
| `Colors.TruncBetween` | main-script.py:61 | `int()` of a non-negative value between two integers stays between them |
| `Colors.Trunc` | main-script.py:61 | `int()` of a float truncates toward zero: for x >= 0 it is the floor, for x < 0 the ceiling |
| `Colors.MixBetween` | main-script.py:57 | `(1 - t2) * c1 + t2 * c2` with t2 in [0, 1] lies between c1 and c2 |
| `Colors.Mix` | main-script.py:57 | the truncated mix of two non-negative channels with t2 in [0, 1] lies between them |
| `Colors.Blend` | main-script.py:55-60 | blending two colours with channels in 0..255 and t2 in [0, 1] gives each channel between the two colours' channels |
| `Colors.SleepRgb` | main-script.py:53-60 | below 6.5 clamped hours the colour lies between stops 1 and 2; from 6.5 on between stops 2 and 3; every channel is in 0..255 |
| `Colors.GetSleepColor` | main-script.py:49-61 | None gives "#DDDDDD"; otherwise the result is '#' and six upper-case hex digits, and `hex_to_rgb` of it is the gradient colour |
| `Colors.ClampedEnds` | main-script.py:53 | hours at most 2 get the colour of 2, hours at least 11 the colour of 11 |
| `Colors.GradientStops` | main-script.py:52-61 | 2 hours give "#1CDCE8", 6.5 hours give "#BB77ED", 11 hours give "#F34A62" |
| `Colors.FirstStop` | main-script.py:55-57 | 2 hours give exactly the first stop, "#1CDCE8" |
| `Colors.MiddleStop` | main-script.py:58-60 | 6.5 hours (t = 0.5, second segment with t2 = 0) give exactly the second stop, "#BB77ED" |
| `Colors.LastStop` | main-script.py:58-60 | 11 hours give exactly the third stop, "#F34A62" |
| `Colors.NoDataParses` | main-script.py:51 | the no-data gray parses as (0xDD, 0xDD, 0xDD) |
| `Colors.SleepGreenBelowGray` | main-script.py:52-60 | the green channel of every gradient colour is at most 0xDC, below the gray's 0xDD |
| `Colors.SleepColorIsNotNoData` | main-script.py:49-61 | no hours value is coloured gray, so the gray marks only dates without hours |
| `Streaks.CurrentStreak` | main-script.py:131-138 | on success k: the days dt, ..., dt-(k-1) have at least 7 hours and day dt-k does not; k = 0 exactly when dt fails; k is at most the number of keys; it fails (`OverflowError`) exactly when every day from dt back to `date.min` qualifies |
| `Streaks.CurrentStreakUnique` | main-script.py:131-138 | those conditions fix k: two counts that both meet them are equal |
| `Streaks.RunEndingAtIsMaximal` | main-script.py:145-154 | the run that ends before position k is all qualifying, and the position before it does not qualify |
| `Streaks.LongestRunIsUpperBound` | main-script.py:142-156 | no run of qualifying keys is longer than `LongestRun` |
| `Streaks.LongestRunIsAttained` | main-script.py:142-156 | some run of qualifying keys is exactly as long as `LongestRun` |
| `Streaks.LongestRunZero` | main-script.py:142-156 | the longest run is 0 exactly when no position qualifies |
| `Streaks.LongestQualifyingRun` | main-script.py:144-156 | the nested loops return the longest run of qualifying keys in sorted order |
| `Streaks.BestStreak` | main-script.py:142-156 | the best streak is the longest run of consecutive sorted keys with at least 4 hours (the test at lines 149-150, as the sequence `Qualifying`) (calendar gaps do not break a run); it bounds every such run and one run attains it, it is at most the number of keys, and it is 0 exactly when no entry qualifies |
| `Streaks.NoneQualifying` | main-script.py:142-156 | no sorted key qualifies exactly when no entry of the log has at least 4 hours |
| `Distribution.InBin` | main-script.py:183-191 | a value lies in some bin only if it is at least 1, and only bins 0..10 exist |
| `Distribution.DatesInBin` | main-script.py:179-191 | a bin lists at most as many dates as the log has entries, and a position outside 0..10 lists none |
| `Distribution.BinsPartition` | main-script.py:183-191 | the bins are disjoint; values below 1 fall in no bin; every value from 1 up falls in a bin |
| `Distribution.DatesInBinMembers` | main-script.py:179-191 | a date is listed in bin i exactly when its entry has hours in bin i |
| `Distribution.CountBins` | main-script.py:176-191 | after the loop, `bin_dates[i]` is the dates of bin i in log order and `counts[i] == len(bin_dates[i])`, for all 11 bins |
| `Distribution.EachEntryCountedOnce` | main-script.py:179-191 | the bin counts add up to the number of entries with hours of at least 1: each such entry is counted once, and the others not at all |
| `Distribution.LabelsFormat` | main-script.py:193 | label i < 10 is the two bin edges joined by an en dash, followed by "h" |
| `Distribution.KeptSpec` | main-script.py:194 | the kept bins are exactly the bins with a positive count, in strictly ascending order |
| `Distribution.KeepNonEmpty` | main-script.py:194 | the filter keeps at most all of the bins, and every bin it keeps has a positive count |
| `Distribution.KeepNonEmptyPositions` | main-script.py:194 | the filter puts every non-empty bin, with its count, label and dates, at the position equal to the number of non-empty bins before it |
| `Distribution.KeepNonEmptyIsKept` | main-script.py:194 | slice j of the filter is the j-th non-empty bin, with its count, label and dates |
| `Distribution.Unzip` | main-script.py:195 | `zip(*data)` fails exactly on an empty list; otherwise it gives three aligned lists of the same length as data |
| `Distribution.PieChart` | main-script.py:194-195 | fails exactly when every bin is empty; otherwise position j holds the count, label and dates of the j-th non-empty bin |
| `Distribution.NonEmptyBinsMembers` | main-script.py:176-194 | the slices' bins are strictly ascending; bin i is among them exactly when some entry has hours in bin i |
| `Distribution.AllEmptyIff` | main-script.py:189-195 | every bin is empty exactly when no entry has hours of at least 1 |
| `Distribution.Distribution` | main-script.py:176-195 | the pie tab fails exactly when no entry has hours of at least 1; otherwise slice j is the j-th non-empty bin, with its label, its dates in log order, and their number |
| `Trend.InMonth` | main-script.py:224-226 | the list of month m holds only entries of the log dated in m (the converse is `InMonthMembers`) |
| `Trend.InMonthMembers` | main-script.py:224-226 | the list of month m holds exactly the entries dated in m |
| `Trend.InMonthAscending` | main-script.py:225-226 | appending in order keeps each month's list ascending |
| `Trend.GroupByMonth` | main-script.py:224-226 | the keys of `monthly` are exactly the months that occur, and each list is that month's entries in order |
| `Trend.MaxMonthExists` | main-script.py:228 | a non-empty set of month keys has a greatest element |
| `Trend.LatestMonth` | main-script.py:228 | `max(monthly)` fails exactly on no keys; otherwise it returns a key that no other key exceeds |
| `Trend.MinOf` | main-script.py:231 | `min(hours)` is one of the hours and at most each of them |
| `Trend.MaxOf` | main-script.py:231 | `max(hours)` is one of the hours and at least each of them |
| `Trend.IndexOf` | main-script.py:232 | `hours.index(x)` is a position holding x, and no earlier position holds x |
| `Trend.SumBounds` | main-script.py:230 | `sum(hours)` of n values in [lo, hi] lies in [n lo, n hi] |
| `Trend.MeanBetween` | main-script.py:230 | the mean of values in [lo, hi] lies in [lo, hi] |
| `Trend.Mean` | main-script.py:230 | `sum(hours) / len(hours)` lies between `min(hours)` and `max(hours)` |
| `Trend.Summarize` | main-script.py:230-232 | `mi <= h <= ma` for every hour; `hours[i_min] == mi` and `hours[i_max] == ma`, each at the first such index; `mi <= avg <= ma` |
| `Trend.MonthlyTrend` | main-script.py:223-232 | fails exactly when no entry has hours; otherwise the month is the latest month with such an entry, and the dates are strictly ascending and are exactly that month's dates with hours, each with its own hours; the statistics are those of the plotted hours |
| `Calendar.EarliestDate` | main-script.py:81 | `min(recorded)` is one of the dates, and none of them is earlier |
| `Calendar.RecordedDates` | main-script.py:80 | `recorded` holds exactly the dates whose value is not None |
| `Calendar.FirstDate` | main-script.py:80-81 | `first_date` is today when no date has hours; otherwise it is the earliest date with hours |
| `Calendar.CellFill` | main-script.py:94-99 | a cell is gray exactly when its date has no hours and lies in [first_date, today); white exactly when it has no hours and lies outside; with hours its fill parses as that date's gradient colour |
| `Calendar.CalendarCells` | main-script.py:84-99 | every cell is a valid date of this year in its month's column and its day's row, with the fill the rule gives; cells are drawn day by day, then month by month, so none twice; and every date of the year has a cell |

## Left out

- GUI: the windows, notebook tabs, dialogs and message boxes are not modelled, nor the main loop. They are user interface.
- Rendering: the figures, rectangles, cell text, colour bar, pie percentages and line plot are not modelled. `CalendarCells` returns the cells with their position and fill, and `MonthlyTrend` and `Distribution` return the data the charts plot.
- Text colour: the black or white text on a calendar cell is not modelled. It depends on a float luminance threshold.
- Click hit-testing: screen transforms and float coordinates are not modelled. A click is represented by the date passed to `CurrentStreak`.
- JSON load and save: file I/O is not modelled. The log is a parameter, and JSON that fails to load is not represented.
- The startup prompt: the dialog itself is not modelled. Its outcome is the `Prompt` parameter of `RecordToday`.
- `date.today()`: it is a clock, so today is a parameter.
- `strptime` and `strftime`: keys are ISO dates, so a key is a `Date` and a malformed key cannot be represented. The `ValueError` that `strptime` would raise on such a key is therefore not modelled, including the unused parse at line 148.
- Weekday names and message strings: the popup wording and plural forms are not modelled.
- Year padding in keys: ISO keys are compared as (year, month, day). Their string order matches that for four-digit years, which `date` gives for 1..9999.
- Float rounding: hours are exact reals, so IEEE rounding in the interpolation and the mean is not modelled. `int()` is modelled as truncation toward zero, which equals the floor on the non-negative channels the gradient produces.
- Non-ASCII input to `int(..., 16)`: `ParseField` accepts ASCII hex digits, one sign, and ASCII white space next to a digit. Fields with non-ASCII digits or with Unicode white space are not modelled.
- Hours from JSON: a value is a number or None, so a JSON string or boolean stored as hours is not represented.
- `Streaks.LongestRun` and `Streaks.RunEndingAt`: the reference definitions promise only bounds in their own contracts. What they mean is stated by `RunEndingAtIsMaximal`, `LongestRunIsUpperBound` and `LongestRunIsAttained`.

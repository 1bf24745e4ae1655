# Engie dynamic price sensor — a Dafny model

The Home Assistant integration polls Engie's public EPEX price feed once an
hour. `EngieDataCoordinator._async_update_data` turns the decoded feed into
one attribute record, and `EngieSensor.state` exposes that record's
`current_price`. This project models that transformation as pure functions
and proves what it guarantees.

A refresh works in four steps:

- **Dates.** It takes today's calendar date and steps it by one day, as
  Python's `date + timedelta(days=1)` does. Both dates are rendered as
  `YYYY-MM-DD` (`strftime('%Y-%m-%d')`), the `full-date` form of section 5.6
  of RFC 3339. These are `Calendar.NextDay`, `Calendar.Ordinal` (Python's
  `toordinal`) and `Calendar.Format`.
- **Bucketing.** It keeps, in upstream order, the `timeSeries` entries whose
  `period` starts with each rendered date. Two lists come out of this for each
  day: the values (`today`, `tomorrow`) and the `{start, end, value}` triples
  (`raw_today`, `raw_tomorrow`). These are `Series.BucketValues` and
  `Series.BucketRaw`. They are evaluated entry by entry as the comprehensions
  run, and the first missing key is reported. Both are proved equal to a plain
  filter (`Series.Matching`) followed by a projection (`Series.Prices`,
  `Series.Points`).
- **Aggregation.** It fills the attribute record (`EngieSensor.Summarize`):
  - `average`/`mean` is the mean of today's values;
  - `min`/`off_peak_1` is their minimum;
  - `max`/`peak`/`off_peak_2`/`current_price` is their maximum;
  - each of these is 0 when today is empty.

  `price_percent_to_average` divides the average by itself. When today is
  empty it divides 0 by 1 instead. `tomorrow_valid` says whether tomorrow has
  any values.
- **Failure.** Every exception inside the `try` becomes `UpdateFailed`
  (`EngieSensor.UpdateFailed`). The model records which of these came first:
  - `DateOverflow`: today is 9999-12-31, Python's `date.max`;
  - `MissingKey(k)`: the key `timeSeries`, `period`, `value` or `end` is
    missing;
  - `ZeroDivision`: the refresh divides by zero.

  A refresh yields either the whole record or a failure, never part of a
  record.

Two consequences of the code as written are worth stating:

- `price_percent_to_average` (sensor.py:57) divides the average by the
  average. When today has prices whose mean is 0, for example `[-5, 5]` or
  `[0]`, this raises ZeroDivisionError, and the whole refresh fails with
  `UpdateFailed` instead of yielding a record. `ZeroDivisionExactly` and
  `RefreshOutcome` say exactly when this happens, and `PricesSummingToZeroFail`
  shows one such input. Whenever a record is produced and today has prices,
  the ratio is 1.
- The code keeps no timestamp of the fetch, and it raises the one
  `UpdateFailed` for every failure. The model's `UpdateFailed` cases only
  record which exception came first.

Values are exact `real`s, so the mean is exact.

## Model

| member | source | states |
|---|---|---|
| Calendar.NextDay | sensor.py:35 | `today + timedelta(days=1)` is a valid date, and it is absent (OverflowError) exactly when today is `date.max`, 9999-12-31 |
| Calendar.Ordinal | sensor.py:35 | the proleptic Gregorian day number that `timedelta` arithmetic steps (Python's `toordinal`), at least 1 for every valid date |
| Calendar.NextDayIsOrdinalSuccessor | sensor.py:35 | the next day's proleptic Gregorian ordinal is today's plus one, and it is the only valid date with that ordinal |
| Calendar.LastDateHasLargestOrdinal | sensor.py:35 | `date.max` has ordinal 3652059 and no valid date has a larger one, so stepping past it is out of range |
| Calendar.OrdinalIncreasing | sensor.py:35 | a date earlier in the calendar has a smaller ordinal, so ordinals identify dates |
| Calendar.Format | sensor.py:36-37 | `strftime('%Y-%m-%d')` gives ten characters with dashes at positions 4 and 7 |
| Calendar.FormatIsFullDate | sensor.py:36-37 | `strftime('%Y-%m-%d')` gives ten characters with dashes at positions 4 and 7 and digits elsewhere, and those digits spell the year, month and day |
| Calendar.FormatInjective | sensor.py:36-37 | distinct dates format to distinct strings |
| Calendar.TodayTomorrowDistinct | sensor.py:34-37 | `formatted_today` and `formatted_tomorrow` are distinct strings of length 10 |
| Calendar.NewYearFormats | sensor.py:35-37 | 2024-01-01 steps to 2024-01-02, and the two render as "2024-01-01" and "2024-01-02" |
| Stats.SumBetween | sensor.py:45 | `sum` of n values that all lie in `[lo, hi]` lies in `[n * lo, n * hi]` |
| Stats.AverageBetween | sensor.py:45-51 | `sum / len` of a non-empty list of values in `[lo, hi]` lies in `[lo, hi]`, and multiplied by the length gives back the sum |
| Stats.Min | sensor.py:46 | `min` of a non-empty list is one of its elements and no larger than any element |
| Stats.Max | sensor.py:47 | `max` of a non-empty list is one of its elements and no smaller than any element |
| Stats.AverageBetweenMinAndMax | sensor.py:45 | `sum / len` of a non-empty list lies between its min and max, and multiplied by the length gives back the sum |
| Series.BucketValues | sensor.py:39-40 | the value comprehension, run entry by entry, yields no more values than there are entries, and fails only with a KeyError for `period` or `value` |
| Series.BucketRaw | sensor.py:61-62 | the raw comprehension, run entry by entry, yields no more triples than there are entries, and fails only with a KeyError for `period`, `end` or `value` |
| Series.Matching | sensor.py:39-40 | the filter keeps only entries whose period starts with the prefix, and never more entries than it was given |
| Series.MatchingAppend | sensor.py:39-40 | filtering a concatenation filters each part and concatenates the results, so upstream order is kept |
| Series.MatchingMembers | sensor.py:39-40 | an entry is kept exactly when it is in the input and its period starts with the prefix |
| Series.BucketsDisjoint | sensor.py:39-40 | two different prefixes of equal length keep no common entry |
| Series.Prices | sensor.py:39 | each output value is the `value` of the entry at the same position |
| Series.Points | sensor.py:61 | each output triple carries the `period`, `end` and `value` of the entry at the same position |
| Series.PointsParallelPrices | sensor.py:61-62 | the raw list has the value list's length, the same value at each position, and a start with the bucket's prefix |
| Series.BucketValuesIsFilteredPrices | sensor.py:39-40 | the value comprehension succeeds exactly when every entry has `period` and every matching entry has `value`; it then equals the matching entries' values in order; otherwise the reported key is one that is missing |
| Series.BucketRawIsFilteredPoints | sensor.py:61-62 | the raw comprehension succeeds exactly when every entry has `period` and every matching entry has `end` and `value`; it then equals the matching entries' triples in order; otherwise the reported key is one that is missing |
| Series.BucketValuesFirstMissing | sensor.py:39-40 | a failing value comprehension reports the key missing from the first entry that lacks `period`, or lacks `value` while matching; every earlier entry has the keys the comprehension reads |
| Series.BucketRawFirstMissing | sensor.py:61-62 | a failing raw comprehension reports the key missing from the first entry that lacks one, checking `period`, then `end`, then `value`; every earlier entry has the keys the comprehension reads |
| Series.SameDayPair | sensor.py:39-40 | two entries dated 2024-01-01 land in that day's lists in order, and none land in 2024-01-02's |
| EngieSensor.Ratio | sensor.py:57 | Python's `/` with a non-zero divisor; a number divided by itself is 1 |
| EngieSensor.DivisorZeroExactly | sensor.py:57 | the divisor of `price_percent_to_average` is 0 exactly when today has prices and they sum to 0 |
| EngieSensor.Summarize | sensor.py:43-70 | the attribute dict stores the four lists unchanged; `mean = average`, `off_peak_1 = min`, `off_peak_2 = peak = current_price = max`; `tomorrow_valid` iff tomorrow is non-empty; with no prices today `average`, `min`, `max` and `price_percent_to_average` are 0; with prices today `min` and `max` are elements of today bounding every element and `price_percent_to_average` is 1 |
| EngieSensor.SummaryStatistics | sensor.py:45-57 | with prices today whose mean is not 0, `min <= average <= max` and `average = sum / len` |
| EngieSensor.Refresh | sensor.py:39-75 | the `try` body from line 39 on fails only with a KeyError for `period`, `value` or `end` or with ZeroDivisionError; a record holds no more values per day than there are entries, and its `price_percent_to_average` is 1 when today has prices |
| EngieSensor.UpdateData | sensor.py:27-75 | the update fails with OverflowError exactly when today is `date.max`, and with KeyError('timeSeries') exactly when that key is absent and today is not `date.max`; a record with prices today has `price_percent_to_average` 1 |
| EngieSensor.UpdateRunsRefresh | sensor.py:34-40 | past the date step and the `timeSeries` lookup, the update is the refresh of the two formatted dates |
| EngieSensor.RefreshOutcome | sensor.py:39-75 | a missing `period`/`value` fails first with that key; then a zero mean fails with ZeroDivision; then a missing `end` fails with that key; otherwise the result is the record of the filtered prices and points |
| EngieSensor.ZeroDivisionExactly | sensor.py:57 | once `period` and `value` are present where read, the refresh fails with ZeroDivisionError exactly when today has prices and they sum to 0 |
| EngieSensor.UpdateBuckets | sensor.py:39-62 | after success, `today`/`tomorrow` are the values and `raw_today`/`raw_tomorrow` the triples of the entries dated today/tomorrow, in upstream order; each raw list runs parallel to its value list; the record is the dict literal built from those lists |
| EngieSensor.UpdateBucketsDisjoint | sensor.py:34-62 | after success, the two date prefixes are distinct 10-character strings, and no entry and no raw point lands in both buckets |
| EngieSensor.StateIsPeakPrice | sensor.py:89-91 | after a successful update, `EngieSensor.state` (`State`) is 0 when no price is dated today, and otherwise the largest of today's prices |
| EngieSensor.TwoPricesToday | sensor.py:34-63 | prices 50 and 100 on 2024-01-01, with none the next day, give today [50, 100], average 75, min 50, max and current price 100, empty tomorrow and `tomorrow_valid` false |
| EngieSensor.PricesSummingToZeroFail | sensor.py:57 | prices -5 and 5 today make the refresh fail with ZeroDivision |

## Left out

- HTTP fetch, `raise_for_status` and JSON decoding (sensor.py:30-32) are network I/O and library code. The decoded `timeSeries` key is an input, None when the key is absent.
- Ill-shaped JSON is outside the model's types. `Entry` holds a string `period` and `end` and a numeric `value`, each possibly absent. Two kinds of ill-shaped body behave differently in the code:
  - Some raise TypeError or AttributeError, which also becomes `UpdateFailed`:
    - a body that is not an object;
    - a `timeSeries` that is not iterable, or that yields items that are not objects. An empty object or an empty string iterates as an empty list, so it yields the all-zero record with empty lists;
    - a `period` that is not a string;
    - a non-numeric or null `value` in today's bucket, which `sum` rejects (sensor.py:45).
  - Others are stored untouched in a record the model cannot represent: a non-numeric or null `value` in tomorrow's bucket, or an `end` in either bucket that is not a string or is null (sensor.py:40, 59, 61-62). The `if` of the comprehensions drops an entry outside both buckets before its `value` or `end` is read, so such fields never reach the record, whatever their type.
- The wall clock `date.today()` (sensor.py:34) is the `today` parameter.
- Calendar.Format: always pads the year to four digits. Some Python builds render years below 1000 with fewer digits. Such dates never come from the wall clock.
- The Home Assistant plumbing is library code:
  - `async_setup_entry` and entity registration (sensor.py:12-16);
  - the coordinator's hourly schedule (sensor.py:10, 18-25);
  - keeping the last good data after a failed refresh;
  - logging (sensor.py:8).
- `EngieSensor.state` takes the record. Before any successful refresh, `coordinator.data` is None, and `.get` on it raises. That cache belongs to the library and is not part of this model.
- `extra_state_attributes` (sensor.py:93-96) returns the record unchanged, so the record type `Attributes` stands for it.
- The UpdateFailed message text is reduced to its cause.
- The constant attributes are not fields of the record because they carry no behaviour:
  - `state_class`, `unit`, `currency`, `country`, `region` and `low_price` (sensor.py:44, 52-56);
  - `additional_costs_current_hour`, `price_in_cents`, `unit_of_measurement`, `device_class`, `icon` and `friendly_name` (sensor.py:64-69);
  - the sensor's name, id, class and unit fields (sensor.py:83-86).
- IEEE floating point is not modelled. Values and the mean are exact reals, so float rounding, NaN and infinities are absent.

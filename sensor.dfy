/**
 * One refresh of the Engie price coordinator and the sensor's state: from the
 * decoded `timeSeries` list and the calendar date to the attribute record, or
 * to the single failure the coordinator reports (`UpdateFailed`).
 */
module EngieSensor {
  import opened Wrappers
  import opened Calendar
  import opened Stats
  import opened Series

  /**
   * What the `except Exception` clause turns into `UpdateFailed`:
   * `date + timedelta` past `date.max`, a KeyError naming the missing key, or
   * the ZeroDivisionError of `price_percent_to_average`.
   */
  datatype UpdateFailed = DateOverflow | MissingKey(key: string) | ZeroDivision

  /** The computed attributes of one successful refresh. */
  datatype Attributes = Attributes(
    average: real,
    offPeak1: real,
    offPeak2: real,
    peak: real,
    min: real,
    max: real,
    mean: real,
    pricePercentToAverage: real,
    today: seq<real>,
    tomorrow: seq<real>,
    tomorrowValid: bool,
    rawToday: seq<RawPoint>,
    rawTomorrow: seq<RawPoint>,
    currentPrice: real)

  /** A KeyError of a comprehension, as the coordinator reports it. */
  function AsKeyError<T>(r: Result<T, string>): Result<T, UpdateFailed> {
    match r
    case Success(v) => Success(v)
    case Failure(key) => Failure(MissingKey(key))
  }

  /** Python's `/` on two numbers, defined when the divisor is not 0. */
  function Ratio(x: real, y: real): (r: real)
    requires y != 0.0
    ensures x == y ==> r == 1.0
  {
    x / y
  }

  /** The divisor of `price_percent_to_average` is not 0. */
  predicate DivisorNonZero(today: seq<real>) {
    today == [] || Average(today) != 0.0
  }

  /** The divisor of `price_percent_to_average` is 0 exactly when today has prices summing to 0. */
  lemma DivisorZeroExactly(today: seq<real>)
    ensures !DivisorNonZero(today) <==> today != [] && Sum(today) == 0.0
  {
    if today != [] {
      AverageBetweenMinAndMax(today);
    }
  }

  /**
   * The attribute dict literal. Each aggregate falls back to 0 on an empty
   * `today`; `price_percent_to_average` divides the average by itself, or 0 by
   * 1 when `today` is empty, so the caller must rule out a zero divisor.
   */
  function Summarize(today: seq<real>, tomorrow: seq<real>, rawToday: seq<RawPoint>, rawTomorrow: seq<RawPoint>): (r: Attributes)
    requires DivisorNonZero(today)
    ensures r.today == today && r.tomorrow == tomorrow
    ensures r.rawToday == rawToday && r.rawTomorrow == rawTomorrow
    ensures r.mean == r.average && r.offPeak1 == r.min
    ensures r.offPeak2 == r.peak == r.currentPrice == r.max
    ensures r.tomorrowValid <==> tomorrow != []
    ensures today == [] ==> r.average == r.min == r.max == r.pricePercentToAverage == 0.0
    ensures today != [] ==>
      && r.min in today && r.max in today
      && (forall x :: x in today ==> r.min <= x <= r.max)
      && r.pricePercentToAverage == 1.0
  {
    var some := today != [];
    var average := if some then Average(today) else 0.0;
    var low := if some then Min(today) else 0.0;
    var high := if some then Max(today) else 0.0;
    var divisor := if some then Average(today) else 1.0;
    Attributes(
      average := average,
      offPeak1 := low,
      offPeak2 := high,
      peak := high,
      min := low,
      max := high,
      mean := average,
      pricePercentToAverage := Ratio(average, divisor),
      today := today,
      tomorrow := tomorrow,
      tomorrowValid := tomorrow != [],
      rawToday := rawToday,
      rawTomorrow := rawTomorrow,
      currentPrice := high)
  }

  /**
   * The body of the `try` from the value comprehensions on, in the source's
   * order: today's values, tomorrow's values, the divisor of
   * `price_percent_to_average`, today's raw points, tomorrow's raw points.
   */
  function Refresh(ts: seq<Entry>, formattedToday: string, formattedTomorrow: string): (r: Result<Attributes, UpdateFailed>)
    ensures r.Failure? ==> r.error in {MissingKey("period"), MissingKey("value"), ZeroDivision, MissingKey("end")}
    ensures r.Success? ==> |r.value.today| <= |ts| && |r.value.tomorrow| <= |ts|
    ensures r.Success? && r.value.today != [] ==> r.value.pricePercentToAverage == 1.0
  {
    var todayData :- AsKeyError(BucketValues(ts, formattedToday));
    var tomorrowData :- AsKeyError(BucketValues(ts, formattedTomorrow));
    if !DivisorNonZero(todayData) then Failure(ZeroDivision)
    else
      var rawToday :- AsKeyError(BucketRaw(ts, formattedToday));
      var rawTomorrow :- AsKeyError(BucketRaw(ts, formattedTomorrow));
      Success(Summarize(todayData, tomorrowData, rawToday, rawTomorrow))
  }

  /**
   * `EngieDataCoordinator._async_update_data` after the HTTP call: `timeSeries`
   * is the decoded body's `timeSeries` key (None when absent) and `today` is
   * `date.today()`.
   */
  function UpdateData(timeSeries: Option<seq<Entry>>, today: Date): (r: Result<Attributes, UpdateFailed>)
    requires Valid(today)
    ensures r == Failure(DateOverflow) <==> today == LastDate
    ensures r == Failure(MissingKey("timeSeries")) <==> today != LastDate && timeSeries.None?
    ensures r.Success? && r.value.today != [] ==> r.value.pricePercentToAverage == 1.0
  {
    match NextDay(today)
    case None => Failure(DateOverflow)
    case Some(tomorrow) =>
      if timeSeries.None? then Failure(MissingKey("timeSeries"))
      else Refresh(timeSeries.value, Format(today), Format(tomorrow))
  }

  /** `EngieSensor.state`: the record's `current_price`. */
  function State(data: Attributes): real {
    data.currentPrice
  }

  // ----- the attribute record -----

  /**
   * With prices for today whose mean is not 0, `average` is their sum over
   * their count and lies between `min` and `max`.
   */
  lemma SummaryStatistics(today: seq<real>, tomorrow: seq<real>, rawToday: seq<RawPoint>, rawTomorrow: seq<RawPoint>)
    requires today != [] && Average(today) != 0.0
    ensures var a := Summarize(today, tomorrow, rawToday, rawTomorrow);
      && a.min <= a.average <= a.max
      && a.average == Sum(today) / (|today| as real)
  {
    var a := Summarize(today, tomorrow, rawToday, rawTomorrow);
    assert a.average == Average(today) && a.min == Min(today) && a.max == Max(today);
    AverageBetweenMinAndMax(today);
  }

  // ----- the refresh -----

  /** Every entry has a period and every entry in either bucket a value. */
  predicate ValuesPresent(ts: seq<Entry>, formattedToday: string, formattedTomorrow: string) {
    HasPeriods(ts) && HasValues(Matching(ts, formattedToday)) && HasValues(Matching(ts, formattedTomorrow))
  }

  /** Every entry in either bucket has an end. */
  predicate EndsPresent(ts: seq<Entry>, formattedToday: string, formattedTomorrow: string) {
    HasEnds(Matching(ts, formattedToday)) && HasEnds(Matching(ts, formattedTomorrow))
  }

  /**
   * Refresh fails on a missing `period` or `value` first, then on a zero
   * average, then on a missing `end`, each exactly when the key is missing from
   * an entry the comprehensions read or today's mean is 0; otherwise it yields
   * the record of the two buckets' prices and points.
   */
  lemma RefreshOutcome(ts: seq<Entry>, formattedToday: string, formattedTomorrow: string)
    ensures var r := Refresh(ts, formattedToday, formattedTomorrow);
      !ValuesPresent(ts, formattedToday, formattedTomorrow) ==>
        (r == Failure(MissingKey("period")) && !HasPeriods(ts))
        || (r == Failure(MissingKey("value"))
            && !(HasValues(Matching(ts, formattedToday)) && HasValues(Matching(ts, formattedTomorrow))))
    ensures var r := Refresh(ts, formattedToday, formattedTomorrow);
      ValuesPresent(ts, formattedToday, formattedTomorrow) ==>
        var mt, mn := Matching(ts, formattedToday), Matching(ts, formattedTomorrow);
        && (!DivisorNonZero(Prices(mt)) ==> r == Failure(ZeroDivision))
        && (DivisorNonZero(Prices(mt)) && !EndsPresent(ts, formattedToday, formattedTomorrow) ==>
              r == Failure(MissingKey("end")))
        && (DivisorNonZero(Prices(mt)) && EndsPresent(ts, formattedToday, formattedTomorrow) ==>
              r == Success(Summarize(Prices(mt), Prices(mn), Points(mt), Points(mn))))
  {
    BucketValuesIsFilteredPrices(ts, formattedToday);
    BucketValuesIsFilteredPrices(ts, formattedTomorrow);
    BucketRawIsFilteredPoints(ts, formattedToday);
    BucketRawIsFilteredPoints(ts, formattedTomorrow);
  }

  /**
   * Past the date check and the `timeSeries` lookup, an update is the refresh
   * of today's and tomorrow's formatted dates.
   */
  lemma UpdateRunsRefresh(timeSeries: Option<seq<Entry>>, today: Date)
    requires Valid(today) && today != LastDate && timeSeries.Some?
    ensures UpdateData(timeSeries, today) == Refresh(timeSeries.value, Format(today), Format(NextDay(today).value))
  {
  }

  /**
   * Once every key the value comprehensions read is present, the refresh fails
   * with ZeroDivision exactly when today has prices and they sum to 0.
   */
  lemma ZeroDivisionExactly(ts: seq<Entry>, formattedToday: string, formattedTomorrow: string)
    requires ValuesPresent(ts, formattedToday, formattedTomorrow)
    ensures Refresh(ts, formattedToday, formattedTomorrow) == Failure(ZeroDivision) <==>
      Matching(ts, formattedToday) != [] && Sum(Prices(Matching(ts, formattedToday))) == 0.0
  {
    DivisorZeroExactly(Prices(Matching(ts, formattedToday)));
    RefreshOutcome(ts, formattedToday, formattedTomorrow);
  }

  /**
   * After a successful refresh, `today` and `tomorrow` are the values, and
   * `raw_today` and `raw_tomorrow` the `{start, end, value}` triples, of the
   * entries whose period starts with today's and tomorrow's formatted date, in
   * upstream order; each raw list runs parallel to its value list.
   */
  lemma UpdateBuckets(timeSeries: Option<seq<Entry>>, today: Date)
    requires Valid(today) && UpdateData(timeSeries, today).Success?
    ensures today != LastDate && timeSeries.Some?
    ensures var a, ts := UpdateData(timeSeries, today).value, timeSeries.value;
      var mt, mn := Matching(ts, Format(today)), Matching(ts, Format(NextDay(today).value));
      && ValuesPresent(ts, Format(today), Format(NextDay(today).value))
      && EndsPresent(ts, Format(today), Format(NextDay(today).value))
      && a.today == Prices(mt) && a.tomorrow == Prices(mn)
      && a.rawToday == Points(mt) && a.rawTomorrow == Points(mn)
    ensures var a := UpdateData(timeSeries, today).value;
      DivisorNonZero(a.today) && a == Summarize(a.today, a.tomorrow, a.rawToday, a.rawTomorrow)
    ensures var a := UpdateData(timeSeries, today).value;
      && |a.rawToday| == |a.today| && |a.rawTomorrow| == |a.tomorrow|
      && (forall k :: 0 <= k < |a.today| ==>
            a.rawToday[k].value == a.today[k] && StartsWith(a.rawToday[k].start, Format(today)))
      && (forall k :: 0 <= k < |a.tomorrow| ==>
            a.rawTomorrow[k].value == a.tomorrow[k]
            && StartsWith(a.rawTomorrow[k].start, Format(NextDay(today).value)))
  {
    var ts, ft, fn := timeSeries.value, Format(today), Format(NextDay(today).value);
    UpdateRunsRefresh(timeSeries, today);
    RefreshOutcome(ts, ft, fn);
    PointsParallelPrices(ts, ft);
    PointsParallelPrices(ts, fn);
  }

  /**
   * Today's and tomorrow's date prefixes are distinct ten-character strings, so
   * no entry, and no raw point, lands in both buckets.
   */
  lemma UpdateBucketsDisjoint(timeSeries: Option<seq<Entry>>, today: Date)
    requires Valid(today) && UpdateData(timeSeries, today).Success?
    ensures today != LastDate && timeSeries.Some?
    ensures |Format(today)| == |Format(NextDay(today).value)| == 10
    ensures Format(today) != Format(NextDay(today).value)
    ensures forall e :: !(e in Matching(timeSeries.value, Format(today))
                          && e in Matching(timeSeries.value, Format(NextDay(today).value)))
    ensures var a := UpdateData(timeSeries, today).value;
      forall p :: !(p in a.rawToday && p in a.rawTomorrow)
  {
    var a := UpdateData(timeSeries, today).value;
    var ft, fn := Format(today), Format(NextDay(today).value);
    TodayTomorrowDistinct(today);
    UpdateBuckets(timeSeries, today);
    BucketsDisjoint(timeSeries.value, ft, fn);
  }

  /**
   * The sensor's state after a successful update is the highest of the prices
   * dated today, or 0 when there are none.
   */
  lemma StateIsPeakPrice(timeSeries: Option<seq<Entry>>, today: Date)
    requires Valid(today) && UpdateData(timeSeries, today).Success?
    ensures timeSeries.Some? && HasValues(Matching(timeSeries.value, Format(today)))
    ensures var a, prices := UpdateData(timeSeries, today).value, Prices(Matching(timeSeries.value, Format(today)));
      && (prices == [] ==> State(a) == 0.0)
      && (prices != [] ==> State(a) in prices && forall x :: x in prices ==> x <= State(a))
  {
    UpdateBuckets(timeSeries, today);
  }

  // ----- worked scenarios -----

  /** Two prices today and none tomorrow. */
  lemma TwoPricesToday()
    ensures var ts := [
        Entry(Some("2024-01-01T00:00"), Some("2024-01-01T01:00"), Some(50.0)),
        Entry(Some("2024-01-01T01:00"), Some("2024-01-01T02:00"), Some(100.0))];
      var r := UpdateData(Some(ts), Date(2024, 1, 1));
      && r.Success?
      && r.value.today == [50.0, 100.0] && r.value.tomorrow == []
      && r.value.average == 75.0 && r.value.min == 50.0 && r.value.max == 100.0
      && r.value.currentPrice == 100.0 && !r.value.tomorrowValid
  {
    var e0 := Entry(Some("2024-01-01T00:00"), Some("2024-01-01T01:00"), Some(50.0));
    var e1 := Entry(Some("2024-01-01T01:00"), Some("2024-01-01T02:00"), Some(100.0));
    NewYearFormats();
    SameDayPair(e0, e1);
    assert UpdateData(Some([e0, e1]), Date(2024, 1, 1)) == Refresh([e0, e1], "2024-01-01", "2024-01-02");
    assert Sum([50.0, 100.0]) == 150.0;
    assert Min([50.0, 100.0]) == 50.0 && Max([50.0, 100.0]) == 100.0;
  }

  /** Today's prices cancel out: `price_percent_to_average` divides by zero. */
  lemma PricesSummingToZeroFail()
    ensures var ts := [
        Entry(Some("2024-01-01T00:00"), Some("2024-01-01T01:00"), Some(-5.0)),
        Entry(Some("2024-01-01T01:00"), Some("2024-01-01T02:00"), Some(5.0))];
      UpdateData(Some(ts), Date(2024, 1, 1)) == Failure(ZeroDivision)
  {
    var e0 := Entry(Some("2024-01-01T00:00"), Some("2024-01-01T01:00"), Some(-5.0));
    var e1 := Entry(Some("2024-01-01T01:00"), Some("2024-01-01T02:00"), Some(5.0));
    NewYearFormats();
    SameDayPair(e0, e1);
    assert UpdateData(Some([e0, e1]), Date(2024, 1, 1)) == Refresh([e0, e1], "2024-01-01", "2024-01-02");
    assert Sum([-5.0, 5.0]) == 0.0;
  }
}

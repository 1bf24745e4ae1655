/**
 * The upstream `timeSeries` entries and the two list comprehensions that
 * bucket them by date prefix: one keeps each matching entry's `value`, the
 * other its `{start, end, value}` triple. A key missing from an entry the
 * comprehension touches is Python's KeyError, reported here with the key.
 */
module Series {
  import opened Wrappers

  /** One decoded upstream entry; a key absent from the JSON object is None. */
  datatype Entry = Entry(period: Option<string>, end: Option<string>, value: Option<real>)

  /** One element of `raw_today` / `raw_tomorrow`. */
  datatype RawPoint = RawPoint(start: string, end: string, value: real)

  /** Python's `str.startswith`. */
  predicate StartsWith(s: string, prefix: string) {
    |prefix| <= |s| && s[..|prefix|] == prefix
  }

  /** The comprehensions' filter `entry['period'].startswith(prefix)`. */
  predicate InBucket(e: Entry, prefix: string) {
    e.period.Some? && StartsWith(e.period.value, prefix)
  }

  // ----- the comprehensions as the source evaluates them -----

  /**
   * `[entry['value'] for entry in es if entry['period'].startswith(prefix)]`,
   * evaluated entry by entry: every entry must have a `period`, and every
   * matching one a `value`; the first key found missing is the error.
   */
  function BucketValues(es: seq<Entry>, prefix: string): (r: Result<seq<real>, string>)
    ensures r.Success? ==> |r.value| <= |es|
    ensures r.Failure? ==> r.error == "period" || r.error == "value"
  {
    if es == [] then Success([])
    else if es[0].period.None? then Failure("period")
    else if StartsWith(es[0].period.value, prefix) then
      if es[0].value.None? then Failure("value")
      else
        var rest :- BucketValues(es[1..], prefix);
        Success([es[0].value.value] + rest)
    else BucketValues(es[1..], prefix)
  }

  /**
   * `[{"start": entry["period"], "end": entry["end"], "value": entry["value"]}
   *   for entry in es if entry['period'].startswith(prefix)]`: the keys of a
   * matching entry are read in the order start, end, value.
   */
  function BucketRaw(es: seq<Entry>, prefix: string): (r: Result<seq<RawPoint>, string>)
    ensures r.Success? ==> |r.value| <= |es|
    ensures r.Failure? ==> r.error == "period" || r.error == "end" || r.error == "value"
  {
    if es == [] then Success([])
    else if es[0].period.None? then Failure("period")
    else if StartsWith(es[0].period.value, prefix) then
      if es[0].end.None? then Failure("end")
      else if es[0].value.None? then Failure("value")
      else
        var rest :- BucketRaw(es[1..], prefix);
        Success([RawPoint(es[0].period.value, es[0].end.value, es[0].value.value)] + rest)
    else BucketRaw(es[1..], prefix)
  }

  // ----- the reference definitions: filter, then project -----

  /** The entries whose period starts with `prefix`, in upstream order. */
  function Matching(es: seq<Entry>, prefix: string): (r: seq<Entry>)
    ensures |r| <= |es|
    ensures forall k :: 0 <= k < |r| ==> InBucket(r[k], prefix)
  {
    if es == [] then []
    else (if InBucket(es[0], prefix) then [es[0]] else []) + Matching(es[1..], prefix)
  }

  predicate HasPeriods(es: seq<Entry>) {
    forall i :: 0 <= i < |es| ==> es[i].period.Some?
  }

  predicate HasValues(es: seq<Entry>) {
    forall i :: 0 <= i < |es| ==> es[i].value.Some?
  }

  predicate HasEnds(es: seq<Entry>) {
    forall i :: 0 <= i < |es| ==> es[i].end.Some?
  }

  /** The `value` of each entry. */
  function Prices(es: seq<Entry>): (r: seq<real>)
    requires HasValues(es)
    ensures |r| == |es| && forall k :: 0 <= k < |es| ==> es[k].value == Some(r[k])
  {
    seq(|es|, k requires 0 <= k < |es| => es[k].value.value)
  }

  /** The `{start, end, value}` triple of each entry. */
  function Points(es: seq<Entry>): (r: seq<RawPoint>)
    requires HasPeriods(es) && HasValues(es) && HasEnds(es)
    ensures |r| == |es|
    ensures forall k :: 0 <= k < |es| ==> es[k] == Entry(Some(r[k].start), Some(r[k].end), Some(r[k].value))
  {
    seq(|es|, k requires 0 <= k < |es| => RawPoint(es[k].period.value, es[k].end.value, es[k].value.value))
  }

  /**
   * The raw triples run parallel to the values: same length, the same value at
   * each position, and a start that carries the bucket's prefix.
   */
  lemma PointsParallelPrices(es: seq<Entry>, prefix: string)
    requires HasValues(Matching(es, prefix)) && HasEnds(Matching(es, prefix))
    ensures var m := Matching(es, prefix);
      |Points(m)| == |Prices(m)|
      && forall k :: 0 <= k < |m| ==> Points(m)[k].value == Prices(m)[k] && StartsWith(Points(m)[k].start, prefix)
  {
  }

  // ----- what Matching is -----

  /** Filtering a concatenation filters each part: Matching keeps upstream order. */
  lemma {:induction false} MatchingAppend(a: seq<Entry>, b: seq<Entry>, prefix: string)
    ensures Matching(a + b, prefix) == Matching(a, prefix) + Matching(b, prefix)
  {
    if a != [] {
      var head := if InBucket(a[0], prefix) then [a[0]] else [];
      assert (a + b)[0] == a[0];
      assert (a + b)[1..] == a[1..] + b;
      MatchingAppend(a[1..], b, prefix);
      calc {
        Matching(a + b, prefix);
        head + Matching(a[1..] + b, prefix);
        head + (Matching(a[1..], prefix) + Matching(b, prefix));
        (head + Matching(a[1..], prefix)) + Matching(b, prefix);
      }
    } else {
      assert a + b == b;
    }
  }

  /** Matching holds exactly the entries of `es` that are in the bucket. */
  lemma {:induction false} MatchingMembers(es: seq<Entry>, prefix: string)
    ensures forall e :: e in Matching(es, prefix) <==> e in es && InBucket(e, prefix)
  {
    if es != [] {
      MatchingMembers(es[1..], prefix);
      assert forall e :: e in es <==> e == es[0] || e in es[1..];
    }
  }

  /**
   * Two prefixes of the same length that differ select no common entry: one
   * period cannot start with both.
   */
  lemma BucketsDisjoint(es: seq<Entry>, p: string, q: string)
    requires |p| == |q| && p != q
    ensures forall e :: !(e in Matching(es, p) && e in Matching(es, q))
  {
    MatchingMembers(es, p);
    MatchingMembers(es, q);
  }

  // ----- the comprehensions against the reference -----

  /** The key-presence predicates split at the head of a list. */
  lemma ConsKeys(e: Entry, r: seq<Entry>)
    ensures HasPeriods([e] + r) <==> e.period.Some? && HasPeriods(r)
    ensures HasValues([e] + r) <==> e.value.Some? && HasValues(r)
    ensures HasEnds([e] + r) <==> e.end.Some? && HasEnds(r)
  {
    var c := [e] + r;
    assert c[0] == e;
    assert forall i :: 0 <= i < |r| ==> c[i + 1] == r[i];
    assert forall i :: 0 < i < |c| ==> c[i] == r[i - 1];
  }

  /**
   * The value comprehension succeeds exactly when every entry has a period and
   * every matching entry a value, and then yields the matching entries' values
   * in upstream order; otherwise it names the missing key.
   */
  lemma {:induction false} BucketValuesIsFilteredPrices(es: seq<Entry>, prefix: string)
    ensures BucketValues(es, prefix).Success? <==> HasPeriods(es) && HasValues(Matching(es, prefix))
    ensures BucketValues(es, prefix).Success? ==> BucketValues(es, prefix).value == Prices(Matching(es, prefix))
    ensures BucketValues(es, prefix).Failure? ==>
      var key := BucketValues(es, prefix).error;
      (key == "period" && !HasPeriods(es)) || (key == "value" && !HasValues(Matching(es, prefix)))
  {
    if es != [] {
      BucketValuesIsFilteredPrices(es[1..], prefix);
      assert es == [es[0]] + es[1..];
      ConsKeys(es[0], es[1..]);
      var rest := Matching(es[1..], prefix);
      if InBucket(es[0], prefix) {
        ConsKeys(es[0], rest);
        assert Matching(es, prefix) == [es[0]] + rest;
        if es[0].value.Some? && BucketValues(es[1..], prefix).Success? {
          assert BucketValues(es, prefix).value == [es[0].value.value] + Prices(rest);
        }
      } else {
        assert Matching(es, prefix) == rest;
      }
    }
  }

  /**
   * The raw comprehension succeeds exactly when every entry has a period and
   * every matching entry an end and a value, and then yields the matching
   * entries' triples in upstream order; otherwise it names the missing key.
   */
  lemma {:induction false} BucketRawIsFilteredPoints(es: seq<Entry>, prefix: string)
    ensures BucketRaw(es, prefix).Success? <==>
      HasPeriods(es) && HasValues(Matching(es, prefix)) && HasEnds(Matching(es, prefix))
    ensures BucketRaw(es, prefix).Success? ==> BucketRaw(es, prefix).value == Points(Matching(es, prefix))
    ensures BucketRaw(es, prefix).Failure? ==>
      var key := BucketRaw(es, prefix).error;
      (key == "period" && !HasPeriods(es)) || (key == "end" && !HasEnds(Matching(es, prefix)))
      || (key == "value" && !HasValues(Matching(es, prefix)))
  {
    MatchingMembers(es, prefix);
    if es != [] {
      BucketRawIsFilteredPoints(es[1..], prefix);
      assert es == [es[0]] + es[1..];
      ConsKeys(es[0], es[1..]);
      var rest := Matching(es[1..], prefix);
      if InBucket(es[0], prefix) {
        ConsKeys(es[0], rest);
        assert Matching(es, prefix) == [es[0]] + rest;
        if es[0].value.Some? && es[0].end.Some? && BucketRaw(es[1..], prefix).Success? {
          var p := RawPoint(es[0].period.value, es[0].end.value, es[0].value.value);
          assert BucketRaw(es, prefix).value == [p] + Points(rest);
        }
      } else {
        assert Matching(es, prefix) == rest;
      }
    }
  }

  /**
   * The key the value comprehension finds missing in one entry, if any: its
   * `period`, or, when the entry is in the bucket, its `value`.
   */
  function ValueKeyMissing(e: Entry, prefix: string): Option<string> {
    if e.period.None? then Some("period")
    else if StartsWith(e.period.value, prefix) && e.value.None? then Some("value")
    else None
  }

  /**
   * The key the raw comprehension finds missing in one entry, if any: its
   * `period`, or, when the entry is in the bucket, its `end` and then its `value`.
   */
  function RawKeyMissing(e: Entry, prefix: string): Option<string> {
    if e.period.None? then Some("period")
    else if StartsWith(e.period.value, prefix) && e.end.None? then Some("end")
    else if StartsWith(e.period.value, prefix) && e.value.None? then Some("value")
    else None
  }

  /**
   * A failing value comprehension reports the key missing from the first
   * entry that lacks one: every earlier entry has all the keys it reads.
   */
  lemma {:induction false} BucketValuesFirstMissing(es: seq<Entry>, prefix: string)
    requires BucketValues(es, prefix).Failure?
    ensures exists i ::
      && 0 <= i < |es|
      && (forall j :: 0 <= j < i ==> ValueKeyMissing(es[j], prefix).None?)
      && ValueKeyMissing(es[i], prefix) == Some(BucketValues(es, prefix).error)
  {
    if ValueKeyMissing(es[0], prefix).Some? {
      assert ValueKeyMissing(es[0], prefix) == Some(BucketValues(es, prefix).error);
    } else {
      var tail := es[1..];
      assert BucketValues(es, prefix) == BucketValues(tail, prefix);
      BucketValuesFirstMissing(tail, prefix);
      var i :| 0 <= i < |tail|
        && (forall j :: 0 <= j < i ==> ValueKeyMissing(tail[j], prefix).None?)
        && ValueKeyMissing(tail[i], prefix) == Some(BucketValues(tail, prefix).error);
      assert forall j :: 0 < j <= i ==> es[j] == tail[j - 1];
      assert es[i + 1] == tail[i];
    }
  }

  /**
   * A failing raw comprehension reports the key missing from the first entry
   * that lacks one: every earlier entry has all the keys it reads.
   */
  lemma {:induction false} BucketRawFirstMissing(es: seq<Entry>, prefix: string)
    requires BucketRaw(es, prefix).Failure?
    ensures exists i ::
      && 0 <= i < |es|
      && (forall j :: 0 <= j < i ==> RawKeyMissing(es[j], prefix).None?)
      && RawKeyMissing(es[i], prefix) == Some(BucketRaw(es, prefix).error)
  {
    if RawKeyMissing(es[0], prefix).Some? {
      assert RawKeyMissing(es[0], prefix) == Some(BucketRaw(es, prefix).error);
    } else {
      var tail := es[1..];
      assert BucketRaw(es, prefix) == BucketRaw(tail, prefix);
      BucketRawFirstMissing(tail, prefix);
      var i :| 0 <= i < |tail|
        && (forall j :: 0 <= j < i ==> RawKeyMissing(tail[j], prefix).None?)
        && RawKeyMissing(tail[i], prefix) == Some(BucketRaw(tail, prefix).error);
      assert forall j :: 0 < j <= i ==> es[j] == tail[j - 1];
      assert es[i + 1] == tail[i];
    }
  }

  // ----- a worked example -----

  /** Two entries dated 2024-01-01 land in that day's bucket, in order, and none in the next day's. */
  lemma SameDayPair(e0: Entry, e1: Entry)
    requires e0.period == Some("2024-01-01T00:00") && e1.period == Some("2024-01-01T01:00")
    requires e0.value.Some? && e1.value.Some? && e0.end.Some? && e1.end.Some?
    ensures BucketValues([e0, e1], "2024-01-01") == Success([e0.value.value, e1.value.value])
    ensures BucketValues([e0, e1], "2024-01-02") == Success([])
    ensures BucketRaw([e0, e1], "2024-01-01").Success? && BucketRaw([e0, e1], "2024-01-02") == Success([])
  {
    assert [e0, e1][0] == e0 && [e0, e1][1..] == [e1];
    assert [e1][0] == e1 && [e1][1..] == [];
    assert StartsWith(e0.period.value, "2024-01-01") && StartsWith(e1.period.value, "2024-01-01");
    assert !StartsWith(e0.period.value, "2024-01-02") && !StartsWith(e1.period.value, "2024-01-02");
    assert BucketValues([], "2024-01-01") == Success([]);
    assert BucketValues([e1], "2024-01-01").Success?;
    assert BucketValues([e1], "2024-01-01").value == [e1.value.value];
    assert BucketRaw([], "2024-01-01") == Success([]);
    assert BucketRaw([e1], "2024-01-01").Success?;
    assert BucketValues([e0, e1], "2024-01-01").Success?;
    assert BucketValues([e0, e1], "2024-01-01").value == [e0.value.value] + [e1.value.value];
    assert [e0.value.value] + [e1.value.value] == [e0.value.value, e1.value.value];
    assert BucketValues([], "2024-01-02") == Success([]);
    assert BucketValues([e1], "2024-01-02") == Success([]);
    assert BucketRaw([], "2024-01-02") == Success([]);
    assert BucketRaw([e1], "2024-01-02") == Success([]);
  }
}

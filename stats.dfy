/**
 * The aggregates the refresh computes over today's prices: Python's `sum`,
 * `min` and `max` and the arithmetic mean, over exact reals.
 */
module Stats {

  /** `sum(s)`: the left-to-right total, 0 for the empty list. */
  function Sum(s: seq<real>): real {
    if s == [] then 0.0 else Sum(s[..|s| - 1]) + s[|s| - 1]
  }

  /** `min(s)`: the smallest element, defined for a non-empty list. */
  function Min(s: seq<real>): (m: real)
    requires |s| > 0
    ensures m in s
    ensures forall x :: x in s ==> m <= x
  {
    if |s| == 1 then s[0]
    else
      var rest := Min(s[1..]);
      assert forall x :: x in s ==> x == s[0] || x in s[1..];
      if rest < s[0] then rest else s[0]
  }

  /** `max(s)`: the largest element, defined for a non-empty list. */
  function Max(s: seq<real>): (m: real)
    requires |s| > 0
    ensures m in s
    ensures forall x :: x in s ==> x <= m
  {
    if |s| == 1 then s[0]
    else
      var rest := Max(s[1..]);
      assert forall x :: x in s ==> x == s[0] || x in s[1..];
      if rest > s[0] then rest else s[0]
  }

  /** `sum(s) / len(s)`, defined for a non-empty list. */
  function Average(s: seq<real>): real
    requires |s| > 0
  {
    Sum(s) / (|s| as real)
  }

  /** A total of `n` values lying in `[lo, hi]` lies in `[n * lo, n * hi]`. */
  lemma {:induction false} SumBetween(s: seq<real>, lo: real, hi: real)
    requires forall x :: x in s ==> lo <= x <= hi
    ensures (|s| as real) * lo <= Sum(s) <= (|s| as real) * hi
  {
    if s != [] {
      var init := s[..|s| - 1];
      assert forall x :: x in init ==> x in s;
      assert s[|s| - 1] in s;
      SumBetween(init, lo, hi);
      assert (|s| as real) * lo == (|init| as real) * lo + lo;
      assert (|s| as real) * hi == (|init| as real) * hi + hi;
    }
  }

  /** A total between `n * lo` and `n * hi` has its mean between `lo` and `hi`. */
  lemma MeanBetween(total: real, n: real, lo: real, hi: real)
    requires n > 0.0 && n * lo <= total <= n * hi
    ensures lo <= total / n <= hi
    ensures (total / n) * n == total
  {
  }

  /** The mean of values lying in `[lo, hi]` lies in `[lo, hi]`. */
  lemma AverageBetween(s: seq<real>, lo: real, hi: real)
    requires |s| > 0
    requires forall x :: x in s ==> lo <= x <= hi
    ensures lo <= Average(s) <= hi
    ensures Average(s) * (|s| as real) == Sum(s)
  {
    SumBetween(s, lo, hi);
    MeanBetween(Sum(s), |s| as real, lo, hi);
  }

  /**
   * The mean of a non-empty list lies between its minimum and its maximum, and
   * times the length gives back the total.
   */
  lemma AverageBetweenMinAndMax(s: seq<real>)
    requires |s| > 0
    ensures Min(s) <= Average(s) <= Max(s)
    ensures Average(s) * (|s| as real) == Sum(s)
  {
    AverageBetween(s, Min(s), Max(s));
  }
}

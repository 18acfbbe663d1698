/** The per-student statistics of `advanced_agg`, over exact reals: the mean, the
    sample variance (the square of `std`), the least-squares slope of `slope`
    and the mean consecutive gap of `avg_gap`. */
module Statistics {
  import opened Records
  import opened Sequences

  function Mean(xs: seq<int>): real
    requires |xs| > 0
  {
    Sum(xs) as real / |xs| as real
  }

  lemma {:induction false} SumBounds(xs: seq<int>, lo: int, hi: int)
    requires forall i :: 0 <= i < |xs| ==> lo <= xs[i] <= hi
    ensures |xs| * lo <= Sum(xs) <= |xs| * hi
  {
    if xs != [] {
      SumBounds(xs[1..], lo, hi);
    }
  }

  lemma DivLowerBound(x: real, n: real, c: real)
    requires n > 0.0 && c * n <= x
    ensures c <= x / n
  {
    var q := x / n;
    assert q * n == x;
    if q < c {
      assert (c - q) * n > 0.0;
    }
  }

  lemma DivUpperBound(x: real, n: real, c: real)
    requires n > 0.0 && x <= c * n
    ensures x / n <= c
  {
    var q := x / n;
    assert q * n == x;
    if q > c {
      assert (q - c) * n > 0.0;
    }
  }

  /** The mean lies between any lower and any upper bound of the values. */
  lemma MeanBounds(xs: seq<int>, lo: int, hi: int)
    requires |xs| > 0
    requires forall i :: 0 <= i < |xs| ==> lo <= xs[i] <= hi
    ensures lo as real <= Mean(xs) <= hi as real
  {
    SumBounds(xs, lo, hi);
    var n := |xs| as real;
    var total := Sum(xs) as real;
    assert lo as real * n <= total;
    assert total <= hi as real * n;
    DivLowerBound(total, n, lo as real);
    DivUpperBound(total, n, hi as real);
  }

  /** The sum of squared deviations from `m`. */
  function SquaredDeviations(xs: seq<int>, m: real): real {
    if xs == [] then 0.0 else (xs[0] as real - m) * (xs[0] as real - m) + SquaredDeviations(xs[1..], m)
  }

  /** `std` with one degree of freedom, squared; NaN (`None`) below two values. */
  function SampleVariance(xs: seq<int>): Option<real> {
    if |xs| < 2 then None
    else Some(SquaredDeviations(xs, Mean(xs)) / (|xs| - 1) as real)
  }

  lemma {:induction false} SquaredDeviationsNonNegative(xs: seq<int>, m: real)
    ensures SquaredDeviations(xs, m) >= 0.0
  {
    if xs != [] {
      SquaredDeviationsNonNegative(xs[1..], m);
    }
  }

  lemma {:induction false} SquaredDeviationsOfConstant(xs: seq<int>, c: int)
    requires forall i :: 0 <= i < |xs| ==> xs[i] == c
    ensures SquaredDeviations(xs, c as real) == 0.0
  {
    if xs != [] {
      SquaredDeviationsOfConstant(xs[1..], c);
    }
  }

  /** The variance is defined from two values on, is never negative, and is 0
      exactly for a constant series (one direction proved: constant gives 0). */
  lemma SampleVarianceProperties(xs: seq<int>)
    ensures SampleVariance(xs).Some? <==> |xs| >= 2
    ensures SampleVariance(xs).Some? ==> SampleVariance(xs).value >= 0.0
    ensures |xs| >= 2 && (forall i :: 0 <= i < |xs| ==> xs[i] == xs[0]) ==> SampleVariance(xs) == Some(0.0)
  {
    if |xs| >= 2 {
      SquaredDeviationsNonNegative(xs, Mean(xs));
      if forall i :: 0 <= i < |xs| ==> xs[i] == xs[0] {
        MeanBounds(xs, xs[0], xs[0]);
        SquaredDeviationsOfConstant(xs, xs[0]);
      }
    }
  }

  // ----- click_trend: least-squares slope against the positions 0 .. n-1 -----

  /** 0 + 1 + ... + (n-1) */
  function SumIdx(n: nat): nat {
    if n == 0 then 0 else SumIdx(n - 1) + (n - 1)
  }

  /** 0^2 + 1^2 + ... + (n-1)^2 */
  function SumSqIdx(n: nat): nat {
    if n == 0 then 0 else SumSqIdx(n - 1) + (n - 1) * (n - 1)
  }

  /** The sum of i * ys[i]. */
  function SumXY(ys: seq<int>): int {
    if ys == [] then 0 else SumXY(ys[..|ys| - 1]) + (|ys| - 1) * ys[|ys| - 1]
  }

  /** n * sum(i^2) - (sum i)^2: n times the spread of the positions. */
  function PositionSpread(n: nat): int {
    n * SumSqIdx(n) - SumIdx(n) * SumIdx(n)
  }

  lemma {:induction false} SumIdxClosedForm(n: nat)
    ensures 2 * SumIdx(n) == n * (n - 1)
    ensures 6 * SumSqIdx(n) == n * (n - 1) * (2 * n - 1)
  {
    if n > 0 {
      SumIdxClosedForm(n - 1);
      var m := n - 1;
      SquareStep(m);
      calc {
        6 * SumSqIdx(n);
        6 * SumSqIdx(m) + 6 * (m * m);
        m * (m - 1) * (2 * m - 1) + 6 * (m * m);
        n * m * (2 * m + 1);
      }
    }
  }

  lemma SquareStep(m: int)
    ensures m * (m - 1) * (2 * m - 1) + 6 * (m * m) == (m + 1) * m * (2 * m + 1)
  {
    calc {
      m * (m - 1) * (2 * m - 1) + 6 * (m * m);
      m * ((m - 1) * (2 * m - 1) + 6 * m);
      m * (2 * m * m + 3 * m + 1);
      m * ((m + 1) * (2 * m + 1));
      (m + 1) * m * (2 * m + 1);
    }
  }

  lemma PositionSpreadPositive(n: nat)
    requires n >= 2
    ensures 12 * PositionSpread(n) == n * n * (n - 1) * (n + 1)
    ensures PositionSpread(n) > 0
  {
    SumIdxClosedForm(n);
    var sx, sq := SumIdx(n), SumSqIdx(n);
    calc {
      12 * PositionSpread(n);
      2 * n * (6 * sq) - 3 * (2 * sx) * (2 * sx);
      2 * n * (n * (n - 1) * (2 * n - 1)) - 3 * (n * (n - 1)) * (n * (n - 1));
      n * n * (n - 1) * (n + 1);
    }
    var a := n * n;
    var b := (n - 1) * (n + 1);
    assert a > 0 && b > 0;
    assert n * n * (n - 1) * (n + 1) == a * b;
  }

  /** `np.polyfit(range(n), values, 1)[0]` for n >= 3, else 0. */
  function Slope(ys: seq<int>): real {
    var n := |ys|;
    if n < 3 then 0.0
    else
      PositionSpreadPositive(n);
      (n * SumXY(ys) - SumIdx(n) * Sum(ys)) as real / PositionSpread(n) as real
  }

  /** The exactly linear series a, a + b, ..., a + (n-1) b. */
  function Linear(a: int, b: int, n: nat): (ys: seq<int>)
    ensures |ys| == n
  {
    seq(n, i => a + b * i)
  }

  lemma {:induction false} LinearSum(a: int, b: int, n: nat)
    ensures Sum(Linear(a, b, n)) == n * a + b * SumIdx(n)
    decreases n
  {
    if n > 0 {
      assert Linear(a, b, n)[1..] == Linear(a + b, b, n - 1);
      LinearSum(a + b, b, n - 1);
    }
  }

  lemma {:induction false} LinearSumXY(a: int, b: int, n: nat)
    ensures SumXY(Linear(a, b, n)) == a * SumIdx(n) + b * SumSqIdx(n)
  {
    if n > 0 {
      var ys := Linear(a, b, n);
      var m := n - 1;
      assert ys[..m] == Linear(a, b, m);
      LinearSumXY(a, b, m);
      assert ys[m] == a + b * m;
      assert SumXY(ys) == SumXY(ys[..m]) + m * ys[m];
      LinearStep(a, b, m, SumIdx(m), SumSqIdx(m));
    }
  }

  lemma LinearStep(a: int, b: int, m: int, s1: int, q1: int)
    ensures a * s1 + b * q1 + m * (a + b * m) == a * (s1 + m) + b * (q1 + m * m)
  {
  }

  /** The trend is 0 below three daily totals; from three on, a series that is
      exactly linear in its position has its step as its trend. */
  lemma SlopeOfLinear(a: int, b: int, n: nat)
    ensures n < 3 ==> Slope(Linear(a, b, n)) == 0.0
    ensures n >= 3 ==> Slope(Linear(a, b, n)) == b as real
  {
    if n >= 3 {
      var ys := Linear(a, b, n);
      LinearSum(a, b, n);
      LinearSumXY(a, b, n);
      PositionSpreadPositive(n);
      var sx, sq := SumIdx(n), SumSqIdx(n);
      var spread := PositionSpread(n);
      assert Sum(ys) == n * a + b * sx;
      assert SumXY(ys) == a * sx + b * sq;
      LinearNumerator(n, a, b, sx, sq);
      assert n * SumXY(ys) - sx * Sum(ys) == b * spread;
      RealCancel(b, spread);
    }
  }

  lemma LinearNumerator(n: int, a: int, b: int, sx: int, sq: int)
    ensures n * (a * sx + b * sq) - sx * (n * a + b * sx) == b * (n * sq - sx * sx)
  {
  }

  lemma RealCancel(b: int, d: int)
    requires d != 0
    ensures (b * d) as real / d as real == b as real
  {
    assert (b * d) as real == b as real * d as real;
  }

  // ----- avg_study_gap: the mean of consecutive differences of the sorted days -----

  function Diffs(s: seq<int>): (d: seq<int>)
    requires |s| >= 1
    ensures |d| == |s| - 1
  {
    seq(|s| - 1, i requires 0 <= i < |s| - 1 => s[i + 1] - s[i])
  }

  /** `avg_gap`: 0 below two dates, else the mean of `np.diff(np.sort(dates))`. */
  function AvgGap(dates: seq<int>): real {
    if |dates| < 2 then 0.0 else Mean(Diffs(SortInts(dates)))
  }

  lemma {:induction false} DiffsTelescope(s: seq<int>)
    requires |s| >= 1
    ensures Sum(Diffs(s)) == s[|s| - 1] - s[0]
    decreases |s|
  {
    if |s| > 1 {
      assert Diffs(s) == [s[1] - s[0]] + Diffs(s[1..]);
      DiffsTelescope(s[1..]);
    }
  }

  ghost predicate IsMin(lo: int, xs: seq<int>) {
    lo in xs && forall x :: x in xs ==> lo <= x
  }

  ghost predicate IsMax(hi: int, xs: seq<int>) {
    hi in xs && forall x :: x in xs ==> x <= hi
  }

  /** The mean consecutive gap of a sorted sequence is its span over one less than its length. */
  lemma {:induction false} SortedMeanGap(s: seq<int>)
    requires |s| >= 2 && Sorted(s)
    ensures Mean(Diffs(s)) == (s[|s| - 1] - s[0]) as real / (|s| - 1) as real
    ensures s[0] <= s[|s| - 1]
  {
    DiffsTelescope(s);
  }

  /** A sorted permutation starts at the minimum and ends at the maximum. */
  lemma SortedEnds(xs: seq<int>, s: seq<int>, lo: int, hi: int)
    requires Sorted(s) && multiset(s) == multiset(xs)
    requires IsMin(lo, xs) && IsMax(hi, xs)
    ensures |s| > 0 && s[0] == lo && s[|s| - 1] == hi
  {
    assert lo in multiset(xs) && hi in multiset(xs);
    assert lo in s && hi in s;
    assert s[0] in multiset(xs) && s[|s| - 1] in multiset(xs);
    assert s[0] in xs && s[|s| - 1] in xs;
    var i :| 0 <= i < |s| && s[i] == lo;
    var j :| 0 <= j < |s| && s[j] == hi;
    assert s[0] <= s[i] && s[j] <= s[|s| - 1];
  }

  /** The mean gap equals the span of the dates over one less than their count,
      and is never negative; below two dates it is 0. */
  lemma AvgGapSpan(dates: seq<int>, lo: int, hi: int)
    requires IsMin(lo, dates) && IsMax(hi, dates)
    ensures |dates| < 2 ==> AvgGap(dates) == 0.0
    ensures |dates| >= 2 ==> AvgGap(dates) == (hi - lo) as real / (|dates| - 1) as real
    ensures AvgGap(dates) >= 0.0
  {
    if |dates| >= 2 {
      var s := SortInts(dates);
      SortedEnds(dates, s, lo, hi);
      SortedMeanGap(s);
      DivLowerBound((hi - lo) as real, (|dates| - 1) as real, 0.0);
    }
  }
}

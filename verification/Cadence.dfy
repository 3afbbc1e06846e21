/**
 Cadence classification of a list of timestamps. The square root of the variance
 is a parameter: the non-negative real whose square is the variance.
*/
module Cadence {
  import opened Sorting
  import opened Rounding
  import opened Reals

  datatype Label = Daily | Weekly | Monthly | Sporadic

  const MICROS_PER_SECOND := 1_000_000.0
  const SECONDS_PER_DAY := 86400.0

  function AsReal(t: int): real { t as real }

  function Ordered(ts: seq<int>): seq<int> { SortBy(ts, AsReal) }

  function Seconds(micros: int): real { micros as real / MICROS_PER_SECOND }

  /** The gaps between neighbours, in seconds. */
  function Gaps(o: seq<int>): seq<real> {
    if |o| < 2 then [] else Gaps(o[..|o| - 1]) + [Seconds(o[|o| - 1] - o[|o| - 2])]
  }

  function Sum(xs: seq<real>): real { if xs == [] then 0.0 else Sum(xs[..|xs| - 1]) + xs[|xs| - 1] }

  function SquaredDeviations(xs: seq<real>, mean: real): real {
    if xs == [] then 0.0
    else
      SquaredDeviations(xs[..|xs| - 1], mean) + Square(xs[|xs| - 1] - mean)
  }

  function Mean(xs: seq<real>): real { if xs == [] then 0.0 else Sum(xs) / |xs| as real }

  function Variance(xs: seq<real>): real { if xs == [] then 0.0 else SquaredDeviations(xs, Mean(xs)) / |xs| as real }

  predicate IsDeviation(ts: seq<int>, sd: real) { sd >= 0.0 && Square(sd) == Variance(Gaps(Ordered(ts))) }

  function SampleFactor(n: nat): real { if n < 8 then n as real / 8.0 else 1.0 }

  /** One minus the coefficient of variation, not below 0, scaled by the sample size. */
  function Regularity(mean: real, sd: real, n: nat): real
    requires mean > 0.0
  {
    (if 1.0 - sd / mean > 0.0 then 1.0 - sd / mean else 0.0) * SampleFactor(n)
  }

  function RegularityConfidence(o: seq<int>, sd: real): real {
    var mean := Mean(Gaps(o));
    if mean <= 0.0 then 0.5 else Round2(Regularity(mean, sd, |o|))
  }

  function SpanDays(o: seq<int>): real
    requires o != []
  {
    Seconds(o[|o| - 1] - o[0]) / SECONDS_PER_DAY
  }

  function AverageGapDays(span: real, n: nat): real
    requires n >= 2
  {
    span / (n - 1) as real
  }

  function LabelFor(averageGapDays: real): Label {
    if averageGapDays <= 1.5 then Daily
    else if averageGapDays <= 10.0 then Weekly
    else if averageGapDays <= 45.0 then Monthly
    else Sporadic
  }

  function ClassifyOrdered(o: seq<int>, sd: real): (Label, real)
    requires |o| >= 2
  {
    if SpanDays(o) <= 0.0 then (Sporadic, 0.3)
    else (LabelFor(AverageGapDays(SpanDays(o), |o|)), RegularityConfidence(o, sd))
  }

  function Classify(ts: seq<int>, sd: real): (Label, real) {
    if |ts| < 2 then (Sporadic, if ts == [] then 0.0 else 0.3)
    else
      SortPermutes(ts, AsReal);
      ClassifyOrdered(Ordered(ts), sd)
  }

  // Telescoping ---------------------------------------------------------------------

  lemma {:induction false} GapsLength(o: seq<int>)
    ensures |Gaps(o)| == if |o| < 2 then 0 else |o| - 1
  {
    if |o| >= 2 { GapsLength(o[..|o| - 1]); }
  }

  lemma {:induction false} GapsTelescope(o: seq<int>)
    requires o != []
    ensures Sum(Gaps(o)) == Seconds(o[|o| - 1] - o[0])
  {
    if |o| >= 2 {
      var front := o[..|o| - 1];
      GapsTelescope(front);
      assert Gaps(o)[..|Gaps(o)| - 1] == Gaps(front);
    }
  }

  /** A positive span means a positive mean gap: the zero-mean branch cannot be reached. */
  lemma MeanGapPositive(ts: seq<int>)
    requires |ts| >= 2 && SpanDays(Ordered(ts)) > 0.0
    ensures |Ordered(ts)| == |ts|
    ensures Mean(Gaps(Ordered(ts))) > 0.0
    ensures Mean(Gaps(Ordered(ts))) * (|ts| - 1) as real == SpanDays(Ordered(ts)) * SECONDS_PER_DAY
  {
    hide SortBy, Gaps, Sum, Mean, Seconds;
    SortPermutes(ts, AsReal);
    var o := Ordered(ts);
    GapsTelescope(o);
    GapsLength(o);
    MeanTimesCount(Gaps(o));
    SpanInSeconds(o);
  }

  lemma MeanTimesCount(xs: seq<real>)
    requires xs != []
    ensures Mean(xs) * |xs| as real == Sum(xs)
    ensures Sum(xs) > 0.0 ==> Mean(xs) > 0.0
  {
    hide Sum;
    QuotientTimes(Sum(xs), |xs| as real);
    QuotientLess(Sum(xs), |xs| as real, 0.0);
  }

  lemma SpanInSeconds(o: seq<int>)
    requires o != []
    ensures SpanDays(o) * SECONDS_PER_DAY == Seconds(o[|o| - 1] - o[0])
    ensures SpanDays(o) > 0.0 <==> Seconds(o[|o| - 1] - o[0]) > 0.0
  {
    hide Seconds;
    QuotientTimes(Seconds(o[|o| - 1] - o[0]), SECONDS_PER_DAY);
    QuotientLess(Seconds(o[|o| - 1] - o[0]), SECONDS_PER_DAY, 0.0);
  }

  lemma RegularityInUnit(mean: real, sd: real, n: nat)
    requires mean > 0.0 && sd >= 0.0
    ensures 0.0 <= Regularity(mean, sd, n) <= 1.0
  {
    QuotientLess(sd, mean, 0.0);
    UnitProduct(if 1.0 - sd / mean > 0.0 then 1.0 - sd / mean else 0.0, SampleFactor(n));
  }

  lemma RegularityConfidenceInUnit(o: seq<int>, sd: real)
    requires Mean(Gaps(o)) > 0.0 && sd >= 0.0
    ensures 0.0 <= RegularityConfidence(o, sd) <= 1.0
  {
    hide Round2, Regularity, Gaps, Mean;
    RegularityInUnit(Mean(Gaps(o)), sd, |o|);
    Round2Within(0, Regularity(Mean(Gaps(o)), sd, |o|), 100);
  }

  /** The confidence is always in [0, 1]. */
  lemma ConfidenceInUnit(ts: seq<int>, sd: real)
    requires IsDeviation(ts, sd)
    ensures 0.0 <= Classify(ts, sd).1 <= 1.0
  {
    hide RegularityConfidence, SortBy, Gaps, Mean, LabelFor, Variance;
    if |ts| >= 2 {
      SortPermutes(ts, AsReal);
      if SpanDays(Ordered(ts)) > 0.0 {
        MeanGapPositive(ts);
        RegularityConfidenceInUnit(Ordered(ts), sd);
      }
    }
  }

  // Invariance -------------------------------------------------------------------------

  lemma SameLeast(a: seq<int>, b: seq<int>)
    requires a != [] && b != [] && Ascending(a, AsReal) && Ascending(b, AsReal) && multiset(a) == multiset(b)
    ensures a[0] == b[0]
  {
    assert a[0] in multiset(b) && b[0] in multiset(a);
    var i :| 0 <= i < |b| && b[i] == a[0];
    var j :| 0 <= j < |a| && a[j] == b[0];
    assert i > 0 ==> AsReal(b[0]) <= AsReal(b[i]);
    assert j > 0 ==> AsReal(a[0]) <= AsReal(a[j]);
  }

  lemma {:induction false} AscendingIntsUnique(a: seq<int>, b: seq<int>)
    requires Ascending(a, AsReal) && Ascending(b, AsReal) && multiset(a) == multiset(b)
    ensures a == b
    decreases |a|
  {
    assert |multiset(a)| == |a| && |multiset(b)| == |b|;
    if a != [] {
      SameLeast(a, b);
      assert a == [a[0]] + a[1..] && b == [b[0]] + b[1..];
      assert multiset(a[1..]) == multiset(a) - multiset{a[0]};
      assert multiset(b[1..]) == multiset(b) - multiset{b[0]};
      AscendingIntsUnique(a[1..], b[1..]);
    }
  }

  /** The order in which the timestamps are listed does not matter. */
  lemma PermutationInvariant(a: seq<int>, b: seq<int>, sd: real)
    requires multiset(a) == multiset(b)
    ensures Classify(a, sd) == Classify(b, sd)
    ensures IsDeviation(a, sd) <==> IsDeviation(b, sd)
  {
    hide SortBy, Gaps, Mean, Variance, Round2, LabelFor, SampleFactor;
    assert |multiset(a)| == |a| && |multiset(b)| == |b|;
    SortPermutes(a, AsReal);
    SortPermutes(b, AsReal);
    SortAscending(a, AsReal);
    SortAscending(b, AsReal);
    AscendingIntsUnique(Ordered(a), Ordered(b));
  }

  function Shift(s: seq<int>, d: int): seq<int> { seq(|s|, i requires 0 <= i < |s| => s[i] + d) }

  lemma {:induction false} InsertShift(x: int, s: seq<int>, d: int)
    ensures Insert(x + d, Shift(s, d), AsReal) == Shift(Insert(x, s, AsReal), d)
  {
    if s != [] {
      assert Shift(s, d)[1..] == Shift(s[1..], d);
      InsertShift(x, s[1..], d);
    }
  }

  lemma {:induction false} SortShift(s: seq<int>, d: int)
    ensures Ordered(Shift(s, d)) == Shift(Ordered(s), d)
  {
    if s != [] {
      assert Shift(s, d)[1..] == Shift(s[1..], d);
      SortShift(s[1..], d);
      InsertShift(s[0], Ordered(s[1..]), d);
    }
  }

  lemma {:induction false} GapsShift(o: seq<int>, d: int)
    ensures Gaps(Shift(o, d)) == Gaps(o)
  {
    if |o| >= 2 {
      assert Shift(o, d)[..|o| - 1] == Shift(o[..|o| - 1], d);
      GapsShift(o[..|o| - 1], d);
    }
  }

  /** Moving the whole history in time does not matter. */
  lemma ShiftInvariant(ts: seq<int>, d: int, sd: real)
    ensures Classify(Shift(ts, d), sd) == Classify(ts, sd)
    ensures IsDeviation(Shift(ts, d), sd) <==> IsDeviation(ts, sd)
  {
    hide SortBy, Gaps, Variance, ClassifyOrdered;
    SortShift(ts, d);
    SortPermutes(ts, AsReal);
    GapsShift(Ordered(ts), d);
    if |ts| >= 2 { ShiftOrdered(Ordered(ts), d, sd); }
  }

  lemma ShiftOrdered(o: seq<int>, d: int, sd: real)
    requires |o| >= 2
    ensures ClassifyOrdered(Shift(o, d), sd) == ClassifyOrdered(o, sd)
  {
    hide Gaps, Mean, Round2, LabelFor, AverageGapDays, Regularity;
    GapsShift(o, d);
    assert SpanDays(Shift(o, d)) == SpanDays(o);
  }

  // Regular spacing ----------------------------------------------------------------------

  lemma {:induction false} SquaresSum(xs: seq<real>, mean: real)
    ensures SquaredDeviations(xs, mean) >= 0.0
    ensures SquaredDeviations(xs, mean) == 0.0 <==> forall i :: 0 <= i < |xs| ==> xs[i] == mean
  {
    hide Square;
    if xs != [] {
      var front, d := xs[..|xs| - 1], xs[|xs| - 1] - mean;
      SquaresSum(front, mean);
      SquareSign(d);
      assert forall i :: 0 <= i < |front| ==> front[i] == xs[i];
    }
  }

  lemma {:induction false} ConstantSum(xs: seq<real>, g: real)
    requires forall i :: 0 <= i < |xs| ==> xs[i] == g
    ensures Sum(xs) == g * |xs| as real
  {
    if xs != [] {
      ConstantSum(xs[..|xs| - 1], g);
      assert g * (|xs| - 1) as real + g == g * |xs| as real;
    }
  }

  lemma ConstantMean(xs: seq<real>, g: real)
    requires xs != [] && forall i :: 0 <= i < |xs| ==> xs[i] == g
    ensures Mean(xs) == g
  {
    var n := |xs| as real;
    ConstantSum(xs, g);
    QuotientLess(Sum(xs), n, g);
  }

  /** The variance vanishes exactly when all gaps are equal. */
  lemma NoVarianceExact(xs: seq<real>)
    requires xs != []
    ensures Variance(xs) >= 0.0
    ensures Variance(xs) == 0.0 <==> forall i, j :: 0 <= i < |xs| && 0 <= j < |xs| ==> xs[i] == xs[j]
  {
    var m, n := Mean(xs), |xs| as real;
    SquaresSum(xs, m);
    QuotientLess(SquaredDeviations(xs, m), n, 0.0);
    QuotientTimes(SquaredDeviations(xs, m), n);
    if forall i, j :: 0 <= i < |xs| && 0 <= j < |xs| ==> xs[i] == xs[j] {
      ConstantMean(xs, xs[0]);
    }
  }

  /**
   Equally spaced timestamps, and only they, lose nothing to irregularity: the
   confidence is the rounded sample factor.
  */
  lemma EquallySpaced(ts: seq<int>, sd: real)
    requires IsDeviation(ts, sd) && |ts| >= 2 && SpanDays(Ordered(ts)) > 0.0
    ensures var gaps := Gaps(Ordered(ts));
            && (sd == 0.0 <==> forall i, j :: 0 <= i < |gaps| && 0 <= j < |gaps| ==> gaps[i] == gaps[j])
            && (sd == 0.0 ==> Classify(ts, sd).1 == Round2(SampleFactor(|ts|)))
  {
    hide Round2, Round, Variance, SampleFactor, Mean, SortBy, Gaps, LabelFor, Square, Regularity;
    MeanGapPositive(ts);
    var o := Ordered(ts);
    GapsLength(o);
    NoVarianceExact(Gaps(o));
    SquareSign(sd);
    NoSpread(Mean(Gaps(o)), |o|);
  }

  lemma NoSpread(mean: real, n: nat)
    requires mean > 0.0
    ensures Regularity(mean, 0.0, n) == SampleFactor(n)
  {
    QuotientLess(0.0, mean, 0.0);
  }

  // Labels and confidence, from the timestamps alone -------------------------------------------

  /** The least and the greatest timestamp. */
  ghost predicate Spans(ts: seq<int>, lo: int, hi: int) { lo in ts && hi in ts && forall t :: t in ts ==> lo <= t <= hi }

  lemma SpanExact(ts: seq<int>, lo: int, hi: int)
    requires Spans(ts, lo, hi)
    ensures |Ordered(ts)| == |ts| && Ordered(ts) != []
    ensures Ordered(ts)[0] == lo && Ordered(ts)[|ts| - 1] == hi
  {
    hide SortBy;
    var o := Ordered(ts);
    SortPermutes(ts, AsReal);
    SortAscending(ts, AsReal);
    assert ts != [];
    assert o[0] in multiset(o) && o[|o| - 1] in multiset(o) && o[0] in multiset(ts) && o[|o| - 1] in multiset(ts);
    assert lo in multiset(ts) && hi in multiset(ts) && lo in multiset(o) && hi in multiset(o);
    assert o[0] in ts && o[|o| - 1] in ts;
    var i :| 0 <= i < |o| && o[i] == lo;
    var j :| 0 <= j < |o| && o[j] == hi;
    assert i > 0 ==> AsReal(o[0]) <= AsReal(o[i]);
    assert j < |o| - 1 ==> AsReal(o[j]) <= AsReal(o[|o| - 1]);
  }

  /**
   The label: daily up to one and a half days between events on average, weekly up
   to ten, monthly up to forty-five; sporadic beyond, for equal timestamps, and for
   fewer than two.
  */
  lemma LabelExact(ts: seq<int>, sd: real, lo: int, hi: int)
    requires Spans(ts, lo, hi)
    ensures var span, day := hi - lo, 86_400_000_000 * (|ts| - 1);
            Classify(ts, sd).0 ==
            if |ts| == 1 || span == 0 then Sporadic
            else if 2 * span <= 3 * day then Daily
            else if span <= 10 * day then Weekly
            else if span <= 45 * day then Monthly
            else Sporadic
    ensures |ts| == 1 || hi == lo ==> Classify(ts, sd).1 == 0.3
    ensures Classify([], sd) == (Sporadic, 0.0)
  {
    hide SortBy, RegularityConfidence;
    SpanExact(ts, lo, hi);
    if |ts| >= 2 { AverageExact(hi - lo, |ts|); }
  }

  lemma AverageExact(span: int, n: nat)
    requires n >= 2 && span >= 0
    ensures var average := AverageGapDays(Seconds(span) / SECONDS_PER_DAY, n);
            && (average <= 1.5 <==> 2 * span <= 3 * (86_400_000_000 * (n - 1)))
            && (average <= 10.0 <==> span <= 10 * (86_400_000_000 * (n - 1)))
            && (average <= 45.0 <==> span <= 45 * (86_400_000_000 * (n - 1)))
    ensures Seconds(span) / SECONDS_PER_DAY <= 0.0 <==> span == 0
  {
    var days, m := Seconds(span) / SECONDS_PER_DAY, (n - 1) as real;
    assert days * 86_400_000_000.0 == span as real;
    QuotientLess(days, m, 1.5);
    QuotientLess(days, m, 10.0);
    QuotientLess(days, m, 45.0);
  }

  /** The sum of the squares. */
  function SumSquares(xs: seq<real>): real { if xs == [] then 0.0 else SumSquares(xs[..|xs| - 1]) + Square(xs[|xs| - 1]) }

  lemma DeviationStep(x: real, m: real, sum: real, squares: real, n: real)
    ensures (squares + Square(x)) - 2.0 * Product(sum + x, m) + Product(n + 1.0, Square(m)) ==
            squares - 2.0 * Product(sum, m) + Product(n, Square(m)) + Square(x - m)
  {
    assert Product(sum + x, m) == Product(sum, m) + Product(x, m);
    assert Product(n + 1.0, Square(m)) == Product(n, Square(m)) + Square(m);
    assert Square(x - m) == Square(x) - 2.0 * Product(x, m) + Square(m);
  }

  lemma {:induction false} DeviationsExpand(xs: seq<real>, m: real)
    ensures SquaredDeviations(xs, m) == SumSquares(xs) - 2.0 * Product(Sum(xs), m) + Product(|xs| as real, Square(m))
  {
    hide Square, Product;
    if xs == [] {
      Zeros(m);
    } else {
      var front, x := xs[..|xs| - 1], xs[|xs| - 1];
      DeviationsExpand(front, m);
      DeviationStep(x, m, Sum(front), SumSquares(front), |front| as real);
      assert |front| as real + 1.0 == |xs| as real;
    }
  }

  lemma Zeros(m: real)
    ensures Product(0.0, m) == 0.0 && Product(0.0, Square(m)) == 0.0
  {}

  /** The variance is the mean square less the squared mean. */
  lemma VarianceExact(xs: seq<real>)
    requires xs != []
    ensures var n := |xs| as real; Product(n, Variance(xs)) == SumSquares(xs) - Product(n, Square(Mean(xs)))
  {
    hide Square, Product;
    var m, n := Mean(xs), |xs| as real;
    DeviationsExpand(xs, m);
    MeanTimes(Sum(xs), n, m);
    QuotientProduct(SquaredDeviations(xs, m), n);
  }

  lemma QuotientProduct(f: real, n: real)
    requires n > 0.0
    ensures Product(n, f / n) == f
  {
    QuotientTimes(f, n);
  }

  lemma MeanTimes(sum: real, n: real, m: real)
    requires n > 0.0 && m == sum / n
    ensures Product(sum, m) == Product(n, Square(m))
  {
    QuotientTimes(sum, n);
    assert sum == Product(n, m);
    assert Product(Product(n, m), m) == Product(n, Product(m, m));
  }

  /**
   The confidence of two or more timestamps that are not all equal: one less the ratio
   of deviation to mean gap, not below 0, times the eighth part of their number up to
   1, rounded. The mean gap in seconds is the span by the number of gaps.
  */
  lemma ConfidenceExact(ts: seq<int>, sd: real, lo: int, hi: int, mean: real)
    requires Spans(ts, lo, hi) && lo < hi && mean * (|ts| - 1) as real == (hi - lo) as real / 1_000_000.0
    ensures mean > 0.0
    ensures Classify(ts, sd).1 ==
            Round2(Product(if sd < mean then 1.0 - sd / mean else 0.0, if |ts| < 8 then |ts| as real / 8.0 else 1.0))
  {
    hide Round2, SortBy, LabelFor, Gaps, Mean, AverageGapDays, Regularity, Product;
    SpanExact(ts, lo, hi);
    var m, k := Mean(Gaps(Ordered(ts))), (|ts| - 1) as real;
    assert Seconds(hi - lo) > 0.0;
    MeanGapPositive(ts);
    QuotientTimes(Seconds(hi - lo), SECONDS_PER_DAY);
    SameFactor(m, mean, k);
    assert m == mean;
    assert |ts| >= 2;
    assert SpanDays(Ordered(ts)) > 0.0;
    assert Classify(ts, sd).1 == RegularityConfidence(Ordered(ts), sd);
    assert RegularityConfidence(Ordered(ts), sd) == Round2(Regularity(mean, sd, |ts|));
    RegularityExact(mean, sd, |ts|);
  }

  lemma RegularityExact(mean: real, sd: real, n: nat)
    requires mean > 0.0
    ensures Regularity(mean, sd, n) == Product(if sd < mean then 1.0 - sd / mean else 0.0, if n < 8 then n as real / 8.0 else 1.0)
  {
    QuotientLess(sd, mean, 1.0);
  }

  lemma SameFactor(a: real, b: real, k: real)
    requires k > 0.0 && a * k == b * k
    ensures a == b
  {
    ScaleLess(a, b, k);
    ScaleLess(b, a, k);
  }
}

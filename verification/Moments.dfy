/** Mean and variance of the histogram (average and stddev in dbbench/stats.go). */
module Moments {
  import opened Arithmetic
  import opened Digests

  function Average(d: Digest): real {
    if d.total == 0 then 0.0 else d.sum / d.total as real
  }

  /** The variance as stddev computes it, before its clamp at zero. */
  function RawVariance(d: Digest): real
    requires d.total != 0
  {
    d.sumSq / d.total as real - Average(d) * Average(d)
  }

  /** n*q - t^2 stays nonnegative when a sample joins. */
  lemma SquareStep(n: real, t: real, q: real, x: real)
    requires n > 0.0 && n * q >= t * t
    ensures (n + 1.0) * (q + x * x) >= (t + x) * (t + x)
  {
    var rest := q + n * (x * x) - 2.0 * (t * x);
    SquareRest(n, t, q, x);
    Scale(n, 0.0, rest);
    assert (n + 1.0) * (q + x * x) == n * q + n * (x * x) + q + x * x;
    assert (t + x) * (t + x) == t * t + 2.0 * (t * x) + x * x;
  }

  lemma SquareRest(n: real, t: real, q: real, x: real)
    requires n * q >= t * t
    ensures n * (q + n * (x * x) - 2.0 * (t * x)) >= 0.0
  {
    var d := t - n * x;
    assert d * d >= 0.0;
    assert d * d == t * t - 2.0 * (n * (t * x)) + n * (n * (x * x)) by {
      assert (n * x) * (n * x) == n * (n * (x * x));
      assert t * (n * x) == n * (t * x);
      assert d * d == t * t - 2.0 * (t * (n * x)) + (n * x) * (n * x);
    }
    assert n * (q + n * (x * x) - 2.0 * (t * x)) == n * q + n * (n * (x * x)) - 2.0 * (n * (t * x));
  }

  lemma {:induction false} SumSquared(s: seq<real>)
    ensures |s| as real * SumOfSquares(s) >= Sum(s) * Sum(s)
  {
    if |s| == 1 {
      assert Sum(s[..0]) == 0.0 && SumOfSquares(s[..0]) == 0.0;
    } else if |s| > 1 {
      var s' := s[..|s| - 1];
      SumSquared(s');
      SquareStep(|s'| as real, Sum(s'), SumOfSquares(s'), s[|s| - 1]);
    }
  }

  /** total * sumSq - sum^2: n^2 times the variance. */
  function Spread(d: Digest): real {
    d.total as real * d.sumSq - d.sum * d.sum
  }

  lemma SpreadOf(d: Digest, s: seq<real>)
    requires d.total == |s| && d.sum == Sum(s) && d.sumSq == SumOfSquares(s)
    ensures Spread(d) >= 0.0
  {
    SumSquared(s);
  }

  /** total * sumSq is never less than sum squared, over all adds and merges. */
  lemma {:induction false} SpreadIsNonnegative(s: seq<real>)
    ensures Spread(DigestOf(s)) >= 0.0
  {
    SumsHeld(s);
    SpreadOf(DigestOf(s), s);
  }

  lemma VarianceOf(n: real, t: real, q: real)
    requires n > 0.0 && n * q >= t * t
    ensures q / n - (t / n) * (t / n) >= 0.0
  {
    var mean, v := t / n, q / n - (t / n) * (t / n);
    assert n * mean == t && n * (q / n) == q;
    assert n * (n * (mean * mean)) == (n * mean) * (n * mean);
    assert n * (n * v) == n * q - t * t by {
      assert n * v == q - n * (mean * mean);
      assert n * (n * v) == n * q - n * (n * (mean * mean));
    }
    Scale(n, 0.0, n * v);
    Scale(n, 0.0, v);
  }

  lemma VarianceFromSpread(d: Digest)
    requires d.total > 0 && Spread(d) >= 0.0
    ensures RawVariance(d) >= 0.0
  {
    VarianceOf(d.total as real, d.sum, d.sumSq);
  }

  /** So the variance is never negative and the clamp in stddev never fires. */
  lemma {:induction false} VarianceIsNonnegative(s: seq<real>)
    requires s != []
    ensures RawVariance(DigestOf(s)) >= 0.0
  {
    SpreadIsNonnegative(s);
    VarianceFromSpread(DigestOf(s));
  }

  lemma {:induction false} SumBetween(s: seq<real>, n: real, lo: real, hi: real)
    requires n == |s| as real && forall x <- s :: lo <= x <= hi
    ensures lo * n <= Sum(s) <= hi * n
  {
    if s != [] {
      var s' := s[..|s| - 1];
      assert s[|s| - 1] in s && forall x <- s' :: x in s;
      SumBetween(s', n - 1.0, lo, hi);
      OneMoreTerm(lo, hi, n - 1.0, Sum(s'), s[|s| - 1]);
    } else {
      TimesZero(lo, n);
      TimesZero(hi, n);
    }
  }

  /** One more term between the bounds. */
  lemma OneMoreTerm(lo: real, hi: real, n: real, t: real, x: real)
    requires lo * n <= t <= hi * n && lo <= x <= hi
    ensures lo * (n + 1.0) <= t + x <= hi * (n + 1.0)
  {
    Successor(lo, n);
    Successor(hi, n);
  }

  lemma Successor(x: real, n: real)
    ensures x * (n + 1.0) == x * n + x
  {
  }

  lemma TimesZero(x: real, n: real)
    requires n == 0.0
    ensures x * n == 0.0
  {
  }

  lemma QuotientBetween(n: real, t: real, lo: real, hi: real)
    requires n > 0.0 && lo * n <= t <= hi * n
    ensures lo <= t / n <= hi
  {
    var mean := t / n;
    assert n * mean == t;
    Scale(n, lo, mean);
    Scale(n, mean, hi);
  }

  lemma AverageBetween(d: Digest, s: seq<real>)
    requires s != [] && d.total == |s| && d.sum == Sum(s) && forall x <- s :: d.min <= x <= d.max
    ensures d.min <= Average(d) <= d.max
  {
    SumBetween(s, d.total as real, d.min, d.max);
    QuotientBetween(d.total as real, d.sum, d.min, d.max);
  }

  /** The mean lies between the least and the greatest value the histogram reports. */
  lemma {:induction false} AverageIsBetween(s: seq<real>)
    requires s != []
    ensures DigestOf(s).min <= Average(DigestOf(s)) <= DigestOf(s).max
  {
    ExtremesAreExact(s);
    SumsHeld(s);
    AverageBetween(DigestOf(s), s);
  }

  // ---------- The variance is the mean square deviation ----------

  /** The sum of the squared distances from m. */
  function Deviations(s: seq<real>, m: real): real {
    if s == [] then 0.0 else Deviations(s[..|s| - 1], m) + SquaredDistance(s[|s| - 1], m)
  }

  function SquaredDistance(x: real, m: real): real { (x - m) * (x - m) }

  lemma Square(x: real, m: real)
    ensures SquaredDistance(x, m) == x * x - 2.0 * (m * x) + m * m
  {
  }

  lemma Distribute(m: real, t: real, x: real)
    ensures m * (t + x) == m * t + m * x
  {
  }

  /** The samples times m, and c for each sample, summed up. */
  function Scaled(s: seq<real>, m: real): real {
    if s == [] then 0.0 else Scaled(s[..|s| - 1], m) + m * s[|s| - 1]
  }

  function Copies(s: seq<real>, c: real): real {
    if s == [] then 0.0 else Copies(s[..|s| - 1], c) + c
  }

  lemma {:induction false} DeviationsExpand(s: seq<real>, m: real, mm: real)
    requires mm == m * m
    ensures Deviations(s, m) == SumOfSquares(s) - 2.0 * Scaled(s, m) + Copies(s, mm)
  {
    if s != [] {
      DeviationsExpand(s[..|s| - 1], m, mm);
      Square(s[|s| - 1], m);
    }
  }

  lemma {:induction false} ScaledSum(s: seq<real>, m: real)
    ensures Scaled(s, m) == m * Sum(s)
  {
    if s != [] {
      ScaledSum(s[..|s| - 1], m);
      Distribute(m, Sum(s[..|s| - 1]), s[|s| - 1]);
    }
  }

  lemma {:induction false} CopiesCount(s: seq<real>, c: real, n: real)
    requires n == |s| as real
    ensures Copies(s, c) == c * n
  {
    if s != [] {
      CopiesCount(s[..|s| - 1], c, n - 1.0);
      Successor(c, n - 1.0);
    } else {
      TimesZero(c, n);
    }
  }

  /** n times q/n - m*m, with m the mean. */
  lemma MeanSquare(n: real, t: real, q: real, m: real, v: real)
    requires n > 0.0 && m * n == t && v == q / n - m * m
    ensures n * v == q - m * t
  {
    Divided(q, n);
    assert n * (m * m) == m * (m * n);
    Distribute(n, q / n, -(m * m));
  }

  lemma Divided(t: real, n: real)
    requires n != 0.0
    ensures t / n * n == t
  {
  }

  lemma DeviationsBy(s: seq<real>, n: real, m: real, t: real)
    requires n == |s| as real && m * n == t && t == Sum(s)
    ensures Deviations(s, m) == SumOfSquares(s) - m * t
  {
    DeviationsExpand(s, m, m * m);
    ScaledSum(s, m);
    CopiesMean(s, m, n, t);
  }

  lemma VarianceBy(d: Digest, n: real, m: real)
    requires d.total != 0 && n == d.total as real && n > 0.0 && m * n == d.sum
    ensures n * RawVariance(d) == d.sumSq - m * d.sum
  {
    MeanIs(n, d.sum, m);
    RawBy(d, n, m);
    MeanSquare(n, d.sum, d.sumSq, m, RawVariance(d));
  }

  predicate IsMean(s: seq<real>, m: real) {
    m * |s| as real == Sum(s)
  }

  /** v is the mean of the squared distances from the mean. */
  ghost predicate IsVariance(s: seq<real>, v: real) {
    forall m :: IsMean(s, m) ==> IsVarianceAbout(s, v, m)
  }

  predicate IsVarianceAbout(s: seq<real>, v: real, m: real) {
    |s| as real * v == Deviations(s, m)
  }

  lemma VarianceFits(s: seq<real>, q: real, t: real, n: real, v: real, m: real, w: real)
    requires n == |s| as real && q == SumOfSquares(s) && t == Sum(s) && m * n == t
    requires w == m * t && n * v == q - w
    ensures IsVarianceAbout(s, v, m)
  {
    DeviationsBy(s, n, m, t);
  }

  lemma VarianceAbout(s: seq<real>, d: Digest, m: real)
    requires s != [] && d.total == |s| && d.sum == Sum(s) && d.sumSq == SumOfSquares(s) && IsMean(s, m)
    ensures IsVarianceAbout(s, RawVariance(d), m)
  {
    VarianceBy(d, |s| as real, m);
    VarianceFits(s, d.sumSq, d.sum, |s| as real, RawVariance(d), m, m * d.sum);
  }

  /** The formula of stddev gives the mean of the squared distances of the samples from their mean. */
  lemma {:induction false} VarianceIsMeanSquare(s: seq<real>)
    requires s != []
    ensures IsVariance(s, RawVariance(DigestOf(s)))
  {
    SumsHeld(s);
    VarianceAboutAll(s, DigestOf(s));
  }

  lemma VarianceAboutAll(s: seq<real>, d: Digest)
    requires s != [] && d.total == |s| && d.sum == Sum(s) && d.sumSq == SumOfSquares(s)
    ensures IsVariance(s, RawVariance(d))
  {
    forall m | IsMean(s, m) ensures IsVarianceAbout(s, RawVariance(d), m) {
      VarianceAbout(s, d, m);
    }
  }

  lemma CopiesMean(s: seq<real>, m: real, n: real, t: real)
    requires n == |s| as real && m * n == t
    ensures Copies(s, m * m) == m * t
  {
    CopiesCount(s, m * m, n);
    assert m * m * n == m * (m * n);
  }

  lemma MeanIs(n: real, t: real, m: real)
    requires n > 0.0 && m * n == t
    ensures t / n == m
  {
  }

  lemma RawBy(d: Digest, n: real, m: real)
    requires d.total != 0 && n == d.total as real && d.sum / n == m
    ensures RawVariance(d) == d.sumSq / n - m * m
  {
  }

  lemma DistancePositive(x: real, m: real)
    ensures SquaredDistance(x, m) >= 0.0
    ensures SquaredDistance(x, m) == 0.0 <==> x == m
  {
    DistanceIs(x, m, x - m);
    SquareSign(x - m, SquaredDistance(x, m));
  }

  lemma SquareSign(y: real, z: real)
    requires z == y * y
    ensures z >= 0.0 && (z == 0.0 <==> y == 0.0)
  {
    if y > 0.0 {
      PositiveProduct(y, y, z);
    } else if y < 0.0 {
      NegativeProduct(y, y, z);
    }
  }

  lemma PositiveProduct(a: real, b: real, z: real)
    requires a > 0.0 && b > 0.0 && z == a * b
    ensures z > 0.0
  {
  }

  lemma NegativeProduct(a: real, b: real, z: real)
    requires a < 0.0 && b < 0.0 && z == a * b
    ensures z > 0.0
  {
    PositiveProduct(-a, -b, z);
  }

  lemma DistanceIs(x: real, m: real, y: real)
    requires y == x - m
    ensures SquaredDistance(x, m) == y * y
  {
  }

  lemma {:induction false} DeviationsZero(s: seq<real>, m: real)
    ensures Deviations(s, m) >= 0.0
    ensures Deviations(s, m) == 0.0 <==> forall x <- s :: x == m
  {
    if s != [] {
      var s', x := s[..|s| - 1], s[|s| - 1];
      DeviationsZero(s', m);
      DistancePositive(x, m);
      assert forall y <- s :: y == x || y in s';
      assert x in s && forall y <- s' :: y in s;
    }
  }

  /** A sum divided by the number of its terms. */
  lemma {:induction false} AverageIsMean(s: seq<real>)
    requires s != []
    ensures IsMean(s, Average(DigestOf(s)))
  {
    SumsHeld(s);
    Divided(DigestOf(s).sum, |s| as real);
  }

  lemma ZeroProduct(n: real, v: real)
    requires n > 0.0
    ensures n * v == 0.0 <==> v == 0.0
  {
  }

  /** The variance is 0 exactly when all samples are equal. */
  lemma {:induction false} ZeroVarianceIsConstant(s: seq<real>)
    requires s != []
    ensures RawVariance(DigestOf(s)) == 0.0 <==> forall x, y :: x in s && y in s ==> x == y
  {
    var m := Average(DigestOf(s));
    AverageIsMean(s);
    VarianceIsMeanSquare(s);
    assert IsVarianceAbout(s, RawVariance(DigestOf(s)), m);
    DeviationsZero(s, m);
    ZeroProduct(|s| as real, RawVariance(DigestOf(s)));
    if forall x, y :: x in s && y in s ==> x == y {
      ConstantMean(s, m);
    }
  }

  lemma ConstantMean(s: seq<real>, m: real)
    requires s != [] && m * |s| as real == Sum(s) && forall x, y :: x in s && y in s ==> x == y
    ensures forall x <- s :: x == m
  {
    var n, c := |s| as real, s[0];
    assert c in s;
    assert forall x <- s :: c <= x <= c;
    SumBetween(s, n, c, c);
    SameProduct(Sum(s), n, m, c);
  }

  lemma SameProduct(t: real, n: real, a: real, b: real)
    requires n > 0.0 && a * n == t && b * n <= t <= b * n
    ensures a == b
  {
    Scale(n, a, b);
    Scale(n, b, a);
  }
}

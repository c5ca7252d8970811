/** The randomness statistics of qrng/analysis.py: the runs test, Hamming
    weight, bit distribution, chi-square statistic and autocorrelation.
    Python floats are modelled as exact rationals (`real`), and a NaN or an
    exception as `None`. */
module Analysis {
  import opened Common

  // ---------------------------------------------------------------------------
  // Facts about real arithmetic. Squares, products and quotients go through
  // the functions `Sq`, `Prod` and `Div` so that every fact is stated once,
  // in plain arithmetic, and then used by name.

  lemma SqNonneg(x: real)
    ensures x * x >= 0.0
  {
    if x < 0.0 {
      assert x * x == (-x) * (-x);
    }
  }

  lemma SquarePositive(x: real)
    requires x != 0.0
    ensures x * x > 0.0
  {
  }

  /** `x ** 2`. */
  function Sq(x: real): (y: real)
    ensures y >= 0.0
  {
    SqNonneg(x);
    x * x
  }

  /** `a * b`. */
  function Prod(a: real, b: real): real
  {
    a * b
  }

  /** `a / b`. */
  function Div(a: real, b: real): real
    requires b != 0.0
  {
    a / b
  }

  lemma SqPositive(x: real)
    requires x != 0.0
    ensures Sq(x) > 0.0
  {
    calc {
      Sq(x);
      x * x;
    > { SquarePositive(x); }
      0.0;
    }
  }

  lemma SqNeg(x: real)
    ensures Sq(-x) == Sq(x)
  {
    calc {
      Sq(-x);
      (-x) * (-x);
      x * x;
      Sq(x);
    }
  }

  lemma SqHalf(x: real)
    ensures Sq(x / 2.0) == Sq(x) / 4.0
  {
    calc {
      Sq(x / 2.0);
      (x / 2.0) * (x / 2.0);
      x * x / 4.0;
      Sq(x) / 4.0;
    }
  }

  lemma ProdSelf(a: real)
    ensures Prod(a, a) == Sq(a)
  {
  }

  lemma ProductBound(a: real, b: real)
    ensures -(a * a + b * b) <= 2.0 * (a * b) <= a * a + b * b
  {
    SqNonneg(a - b);
    SqNonneg(a + b);
    assert (a - b) * (a - b) == a * a - 2.0 * (a * b) + b * b;
    assert (a + b) * (a + b) == a * a + 2.0 * (a * b) + b * b;
  }

  /** `|a * b| <= (a^2 + b^2) / 2`. */
  lemma ProdBound(a: real, b: real)
    ensures -(Sq(a) + Sq(b)) <= 2.0 * Prod(a, b) <= Sq(a) + Sq(b)
  {
    ProductBound(a, b);
    assert Sq(a) == a * a;
    assert Sq(b) == b * b;
    assert Prod(a, b) == a * b;
  }

  lemma DivNonneg(a: real, b: real)
    requires a >= 0.0 && b > 0.0
    ensures Div(a, b) >= 0.0
  {
  }

  lemma DivZero(a: real, b: real)
    requires b > 0.0
    ensures Div(a, b) == 0.0 <==> a == 0.0
  {
  }

  lemma DivHalves(a: real, b: real)
    requires b > 0.0
    ensures Div(a / 2.0, b / 2.0) == Div(a, b)
  {
  }

  lemma DivSelf(a: real)
    requires a != 0.0
    ensures Div(a, a) == 1.0 && Div(-a, a) == -1.0
  {
    assert (-a) / a * a == -a;
  }

  /** `a / b` lies in `[-1, 1]` when `|a| <= b`. */
  lemma DivBounded(a: real, b: real)
    requires b > 0.0 && -b <= a <= b
    ensures -1.0 <= Div(a, b) <= 1.0
  {
  }

  /** Shares of a positive whole whose parts add up to it add up to one. */
  lemma SharesSum(p: real, q: real, n: real, a: real, b: real)
    requires n > 0.0 && Prod(p, n) == a && Prod(q, n) == b && a + b == n
    ensures p + q == 1.0
  {
    calc {
      (p + q) * n;
      p * n + q * n;
      Prod(p, n) + Prod(q, n);
      n;
    }
    CancelOne(p + q, n);
  }

  lemma CancelOne(x: real, n: real)
    requires n > 0.0 && x * n == n
    ensures x == 1.0
  {
    assert (x - 1.0) * n == 0.0;
  }

  /** A factor of a non-negative product with a positive factor is
      non-negative. */
  lemma NonnegFactor(x: real, n: real)
    requires n > 0.0 && x * n >= 0.0
    ensures x >= 0.0
  {
  }

  /** `1 < 2zo / (z + o) + 1 <= (z + o) / 2 + 1` for positive `z`, `o`. */
  lemma HarmonicBound(z: real, o: real)
    requires z > 0.0 && o > 0.0
    ensures 1.0 < ExpectedRunCount(z, o, z + o) <= (z + o) / 2.0 + 1.0
  {
    SqNonneg(z - o);
    var n, p := z + o, 2.0 * z * o;
    var q := p / n;
    assert ExpectedRunCount(z, o, n) == q + 1.0;
    assert q * n == p;
    assert (z - o) * (z - o) == n * n - 2.0 * p;
    assert (n - 2.0 * q) * n == n * n - 2.0 * (q * n);
    NonnegFactor(n - 2.0 * q, n);
    assert q <= n / 2.0;
  }

  // ---------------------------------------------------------------------------
  // runs_test

  /** The number of positions `i >= 1` where `s[i] != s[i - 1]`. */
  function Changes(s: string): (c: nat)
    ensures |s| >= 1 ==> c <= |s| - 1
  {
    if |s| < 2 then 0
    else Changes(s[..|s| - 1]) + (if s[|s| - 1] != s[|s| - 2] then 1 else 0)
  }

  /** The number of maximal blocks of equal characters. */
  function Runs(s: string): nat
  {
    1 + Changes(s)
  }

  /** `2 * zeros * ones / n + 1`, or NaN when either digit is missing. */
  function ExpectedRuns(s: string): (e: Option<real>)
    ensures e.None? <==> Count(s, '0') == 0 || Count(s, '1') == 0
  {
    var zeros, ones := Count(s, '0'), Count(s, '1');
    if zeros == 0 || ones == 0 then None
    else Some(ExpectedRunCount(zeros as real, ones as real, |s| as real))
  }

  /** `2 * zeros * ones / n + 1` over the reals. */
  function ExpectedRunCount(zeros: real, ones: real, n: real): real
    requires n > 0.0
  {
    2.0 * zeros * ones / n + 1.0
  }

  /** What `runs_test` returns: `(1, 1.0)` below two characters, otherwise
      the run count and the expected run count. */
  function RunsTestSpec(s: string): (int, Option<real>)
  {
    if |s| < 2 then (1, Some(1.0)) else (Runs(s), ExpectedRuns(s))
  }

  /** `runs_test`: the run counter is bumped at every change of bit. */
  method RunsTest(s: string) returns (runs: nat, expected: Option<real>)
    ensures (runs, expected) == RunsTestSpec(s)
    ensures 1 <= runs <= if |s| < 2 then 1 else |s|
  {
    if |s| < 2 {
      return 1, Some(1.0);
    }
    runs := 1;
    for i := 1 to |s|
      invariant runs == Runs(s[..i])
    {
      assert s[..i + 1][..i] == s[..i];
      if s[i] != s[i - 1] {
        runs := runs + 1;
      }
    }
    assert s[..|s|] == s;
    var zeros, ones := Count(s, '0'), Count(s, '1');
    if zeros == 0 || ones == 0 {
      expected := None;
    } else {
      expected := Some(ExpectedRunCount(zeros as real, ones as real, |s| as real));
    }
  }

  predicate Alternating(s: string)
  {
    forall i :: 1 <= i < |s| ==> s[i] != s[i - 1]
  }

  predicate Constant(s: string)
  {
    forall i :: 0 <= i < |s| ==> s[i] == s[0]
  }

  /** A non-empty string has as many runs as characters exactly when every
      neighbouring pair differs. */
  lemma {:induction false} RunsAlternating(s: string)
    requires |s| >= 1
    ensures Runs(s) == |s| <==> Alternating(s)
    decreases |s|
  {
    if |s| >= 2 {
      var p := s[..|s| - 1];
      RunsAlternating(p);
      if Alternating(s) {
        assert Alternating(p) by {
          forall i | 1 <= i < |p|
            ensures p[i] != p[i - 1]
          {
            assert p[i] == s[i] && p[i - 1] == s[i - 1];
          }
        }
      }
      if Runs(s) == |s| {
        forall i | 1 <= i < |s|
          ensures s[i] != s[i - 1]
        {
          if i < |s| - 1 {
            assert p[i] == s[i] && p[i - 1] == s[i - 1];
          }
        }
      }
    }
  }

  /** A non-empty string is a single run exactly when it is constant. */
  lemma {:induction false} RunsConstant(s: string)
    requires |s| >= 1
    ensures Runs(s) == 1 <==> Constant(s)
    decreases |s|
  {
    if |s| >= 2 {
      var p := s[..|s| - 1];
      RunsConstant(p);
      if Constant(s) {
        assert Constant(p) by {
          forall i | 0 <= i < |p|
            ensures p[i] == p[0]
          {
            assert p[i] == s[i];
          }
        }
        assert s[|s| - 2] == s[0];
      }
      if Runs(s) == 1 {
        forall i | 0 <= i < |s|
          ensures s[i] == s[0]
        {
          if i < |s| - 1 {
            assert p[i] == s[i];
          } else {
            assert p[|p| - 1] == p[0];
          }
        }
      }
    }
  }

  /** `"01" * k`. */
  function ZeroOnes(k: nat): (s: string)
    ensures |s| == 2 * k
  {
    seq(2 * k, i => if i % 2 == 0 then '0' else '1')
  }

  /** `"01" * k` has `2k` runs, as many as characters. */
  lemma ZeroOnesRuns(k: nat)
    requires k >= 1
    ensures Runs(ZeroOnes(k)) == 2 * k
  {
    var s := ZeroOnes(k);
    forall i | 1 <= i < |s|
      ensures s[i] != s[i - 1]
    {
      assert i % 2 == 0 <==> (i - 1) % 2 == 1;
    }
    RunsAlternating(s);
  }

  /** For a binary string with both digits the expected run count lies in
      `(1, n/2 + 1]`. */
  lemma ExpectedRunsBounds(s: string)
    requires IsBinary(s)
    requires Count(s, '0') > 0 && Count(s, '1') > 0
    ensures 1.0 < ExpectedRuns(s).value <= |s| as real / 2.0 + 1.0
  {
    BinaryCounts(s);
    HarmonicBound(Count(s, '0') as real, Count(s, '1') as real);
  }

  // ---------------------------------------------------------------------------
  // hamming_weight and bit_distribution

  /** The proportion `a / b` of a part `a` of a non-empty whole `b`. */
  function Fraction(a: nat, b: nat): (q: real)
    requires a <= b && b > 0
    ensures 0.0 <= q <= 1.0
    ensures Prod(q, b as real) == a as real
  {
    a as real / b as real
  }

  /** `hamming_weight`: the number of ones and their proportion. */
  function HammingWeight(s: string): (w: (nat, real))
    ensures w.0 <= |s| && w.0 == Count(s, '1')
    ensures s == [] ==> w == (0, 0.0)
    ensures s != [] ==> Prod(w.1, |s| as real) == w.0 as real
    ensures 0.0 <= w.1 <= 1.0
  {
    if s == [] then (0, 0.0)
    else
      var ones := Count(s, '1');
      (ones, Fraction(ones, |s|))
  }

  /** The proportions of `0` and of `1` (the dictionary `{'0': …, '1': …}`). */
  datatype Distribution = Distribution(zero: real, one: real)

  /** `bit_distribution`. */
  function BitDistribution(s: string): (d: Distribution)
    ensures s == [] ==> d == Distribution(0.0, 0.0)
    ensures s != [] ==> Prod(d.zero, |s| as real) == Count(s, '0') as real
    ensures s != [] ==> Prod(d.one, |s| as real) == Count(s, '1') as real
    ensures 0.0 <= d.zero <= 1.0 && 0.0 <= d.one <= 1.0
  {
    if s == [] then Distribution(0.0, 0.0)
    else
      Distribution(Fraction(Count(s, '0'), |s|), Fraction(Count(s, '1'), |s|))
  }

  /** The proportion of ones is the Hamming ratio. */
  lemma BitDistributionHamming(s: string)
    ensures BitDistribution(s).one == HammingWeight(s).1
  {
  }

  /** For a non-empty binary string the two proportions add up to one. */
  lemma BitDistributionSums(s: string)
    requires IsBinary(s) && s != []
    ensures BitDistribution(s).zero + BitDistribution(s).one == 1.0
  {
    BinaryCounts(s);
    var d, n := BitDistribution(s), |s| as real;
    SharesSum(d.zero, d.one, n, Count(s, '0') as real, Count(s, '1') as real);
  }

  // ---------------------------------------------------------------------------
  // chi_square_test

  /** The 5% critical value of the chi-square distribution with one degree
      of freedom, as the source rounds it. */
  const CriticalValue: real := 3.841

  /** `((zeros - n/2)^2 + (ones - n/2)^2) / (n/2)` over the reals. */
  function ChiSquare(zeros: real, ones: real, n: real): (c: real)
    requires n > 0.0
    ensures c >= 0.0
  {
    var expected := n / 2.0;
    DivNonneg(Sq(zeros - expected) + Sq(ones - expected), expected);
    Div(Sq(zeros - expected) + Sq(ones - expected), expected)
  }

  /** `chi_square_test`: the statistic against a 50/50 split, and the
      critical value. */
  function ChiSquareTest(s: string): (r: (real, real))
    ensures s == [] ==> r == (0.0, 0.0)
    ensures s != [] ==> r.1 == CriticalValue
    ensures r.0 >= 0.0
  {
    if s == [] then (0.0, 0.0)
    else
      (ChiSquare(Count(s, '0') as real, Count(s, '1') as real, |s| as real), CriticalValue)
  }

  /** `(z - o)^2 / n`. */
  function Deviation(z: real, o: real, n: real): real
    requires n > 0.0
  {
    Div(Sq(z - o), n)
  }

  /** Against an even split of `n = z + o`, the statistic is `(z - o)^2 / n`. */
  lemma ChiSquareArith(z: real, o: real, n: real)
    requires n > 0.0 && z + o == n
    ensures ChiSquare(z, o, n) == Deviation(z, o, n)
  {
    var d := z - o;
    var e := n / 2.0;
    assert z - e == d / 2.0;
    assert o - e == -(d / 2.0);
    SqNeg(d / 2.0);
    SqHalf(d);
    assert Sq(z - e) + Sq(o - e) == Sq(d) / 2.0;
    DivHalves(Sq(d), n);
  }

  /** `(z - o)^2 / n` vanishes exactly when `z == o`. */
  lemma DeviationZero(z: real, o: real, n: real)
    requires n > 0.0
    ensures Deviation(z, o, n) == 0.0 <==> z == o
  {
    DivZero(Sq(z - o), n);
    if z != o {
      SqPositive(z - o);
    }
  }

  /** For a binary string the statistic is `(zeros - ones)^2 / n`, so it is
      zero exactly when the string has as many zeros as ones. */
  lemma ChiSquareBinary(s: string)
    requires IsBinary(s) && s != []
    ensures ChiSquareTest(s).0 == Deviation(Count(s, '0') as real, Count(s, '1') as real, |s| as real)
    ensures ChiSquareTest(s).0 == 0.0 <==> Count(s, '0') == Count(s, '1')
  {
    BinaryCounts(s);
    ChiSquareArith(Count(s, '0') as real, Count(s, '1') as real, |s| as real);
    DeviationZero(Count(s, '0') as real, Count(s, '1') as real, |s| as real);
  }

  // ---------------------------------------------------------------------------
  // autocorrelation

  /** `1` for the character `1`, `-1` for anything else. */
  function Numeric(c: char): int
  {
    if c == '1' then 1 else -1
  }

  function NumericBits(s: string): (xs: seq<int>)
    ensures |xs| == |s|
  {
    seq(|s|, i requires 0 <= i < |s| => Numeric(s[i]))
  }

  function Sum(xs: seq<int>): int
  {
    if xs == [] then 0 else Sum(xs[..|xs| - 1]) + xs[|xs| - 1]
  }

  function Mean(xs: seq<int>): real
    requires |xs| > 0
  {
    Div(Sum(xs) as real, |xs| as real)
  }

  /** `x[i] - m`. */
  function Dev(xs: seq<int>, m: real, i: nat): real
    requires i < |xs|
  {
    xs[i] as real - m
  }

  /** `sum((x[i] - m) * (x[i + lag] - m) for i in range(n))`. */
  function Cross(xs: seq<int>, m: real, lag: nat, n: nat): real
    requires lag + n <= |xs|
  {
    if n == 0 then 0.0
    else Cross(xs, m, lag, n - 1) + Prod(Dev(xs, m, n - 1), Dev(xs, m, n - 1 + lag))
  }

  /** `sum((x[i] - m) ** 2 for i in range(lo, hi))`. */
  function SqSum(xs: seq<int>, m: real, lo: nat, hi: nat): (r: real)
    requires lo <= hi <= |xs|
    ensures r >= 0.0
    decreases hi - lo
  {
    if lo == hi then 0.0 else SqSum(xs, m, lo, hi - 1) + Sq(Dev(xs, m, hi - 1))
  }

  /** `autocorrelation(bitstring, lag)`. A negative lag makes the source
      raise (an `IndexError`, or a `ZeroDivisionError` on the empty string). */
  function Autocorrelation(s: string, lag: int): (r: Option<real>)
    ensures r.None? <==> lag < 0
    ensures 0 <= lag && |s| <= lag ==> r == Some(0.0)
  {
    if lag < 0 then None
    else if |s| <= lag then Some(0.0)
    else
      var xs := NumericBits(s);
      var n := |xs| - lag;
      if n == 0 then Some(0.0)
      else
        var m := Mean(xs);
        var numerator := Cross(xs, m, lag, n);
        var denominator := SqSum(xs, m, 0, |xs|);
        if denominator == 0.0 then Some(0.0) else Some(Div(numerator, denominator))
  }

  lemma {:induction false} SqSumSplit(xs: seq<int>, m: real, lo: nat, mid: nat, hi: nat)
    requires lo <= mid <= hi <= |xs|
    ensures SqSum(xs, m, lo, hi) == SqSum(xs, m, lo, mid) + SqSum(xs, m, mid, hi)
    decreases hi
  {
    if mid < hi {
      SqSumSplit(xs, m, lo, mid, hi - 1);
    }
  }

  /** The Cauchy-Schwarz step: twice the lagged cross sum is bounded by the
      squares of the two windows it pairs. */
  lemma {:induction false} CrossBound(xs: seq<int>, m: real, lag: nat, n: nat)
    requires lag + n <= |xs|
    ensures -(SqSum(xs, m, 0, n) + SqSum(xs, m, lag, lag + n)) <= 2.0 * Cross(xs, m, lag, n)
    ensures 2.0 * Cross(xs, m, lag, n) <= SqSum(xs, m, 0, n) + SqSum(xs, m, lag, lag + n)
    decreases n
  {
    if n > 0 {
      CrossBound(xs, m, lag, n - 1);
      ProdBound(Dev(xs, m, n - 1), Dev(xs, m, n - 1 + lag));
    }
  }

  /** The docstring's range: whenever the result is a number it lies in
      `[-1, 1]`. */
  lemma AutocorrelationBounds(s: string, lag: int)
    requires lag >= 0
    ensures -1.0 <= Autocorrelation(s, lag).value <= 1.0
  {
    if |s| > lag {
      var xs := NumericBits(s);
      var n := |xs| - lag;
      var m := Mean(xs);
      var num, den := Cross(xs, m, lag, n), SqSum(xs, m, 0, |xs|);
      CrossBound(xs, m, lag, n);
      SqSumSplit(xs, m, 0, n, |xs|);
      SqSumSplit(xs, m, 0, lag, |xs|);
      if den != 0.0 {
        DivBounded(num, den);
      }
    }
  }

  predicate Uniform(xs: seq<int>)
  {
    forall i :: 0 <= i < |xs| ==> xs[i] == xs[0]
  }

  lemma {:induction false} SumUniform(xs: seq<int>, c: int)
    requires c == 1 || c == -1
    requires forall i :: 0 <= i < |xs| ==> xs[i] == c
    ensures Sum(xs) == if c == 1 then |xs| else -|xs|
    decreases |xs|
  {
    if xs != [] {
      SumUniform(xs[..|xs| - 1], c);
    }
  }

  /** The mean of equal numeric bits is that bit. */
  lemma MeanUniform(s: string)
    requires s != [] && Uniform(NumericBits(s))
    ensures Mean(NumericBits(s)) == NumericBits(s)[0] as real
  {
    var xs := NumericBits(s);
    SumUniform(xs, xs[0]);
    DivSelf(|xs| as real);
  }

  lemma {:induction false} SqSumAt(xs: seq<int>, m: real, hi: nat, i: nat)
    requires i < hi <= |xs|
    ensures Sq(Dev(xs, m, i)) <= SqSum(xs, m, 0, hi)
    decreases hi
  {
    if i < hi - 1 {
      SqSumAt(xs, m, hi - 1, i);
    }
  }

  lemma {:induction false} SqSumAtMean(xs: seq<int>, m: real, hi: nat)
    requires hi <= |xs|
    requires forall i :: 0 <= i < hi ==> xs[i] as real == m
    ensures SqSum(xs, m, 0, hi) == 0.0
    decreases hi
  {
    if hi > 0 {
      SqSumAtMean(xs, m, hi - 1);
      assert Dev(xs, m, hi - 1) == 0.0;
      SqNeg(0.0);
    }
  }

  /** Equal numeric bits leave nothing in the denominator. */
  lemma UniformDenominator(s: string)
    requires s != [] && Uniform(NumericBits(s))
    ensures SqSum(NumericBits(s), Mean(NumericBits(s)), 0, |s|) == 0.0
  {
    var xs := NumericBits(s);
    MeanUniform(s);
    SqSumAtMean(xs, Mean(xs), |xs|);
  }

  /** A vanishing denominator means all the numeric bits are equal. */
  lemma DenominatorUniform(s: string)
    requires s != []
    requires SqSum(NumericBits(s), Mean(NumericBits(s)), 0, |s|) == 0.0
    ensures Uniform(NumericBits(s))
  {
    var xs := NumericBits(s);
    var m := Mean(xs);
    forall i | 0 <= i < |xs|
      ensures xs[i] == xs[0]
    {
      SqSumAt(xs, m, |xs|, i);
      SqSumAt(xs, m, |xs|, 0);
      if Dev(xs, m, i) != 0.0 {
        SqPositive(Dev(xs, m, i));
      }
      if Dev(xs, m, 0) != 0.0 {
        SqPositive(Dev(xs, m, 0));
      }
    }
  }

  /** The denominator vanishes exactly when all the numeric bits are equal,
      that is, when the string is all `1`s or has no `1` at all. */
  lemma DenominatorZero(s: string)
    requires s != []
    ensures SqSum(NumericBits(s), Mean(NumericBits(s)), 0, |s|) == 0.0 <==> Uniform(NumericBits(s))
  {
    if Uniform(NumericBits(s)) {
      UniformDenominator(s);
    } else if SqSum(NumericBits(s), Mean(NumericBits(s)), 0, |s|) == 0.0 {
      DenominatorUniform(s);
    }
  }

  /** A string of one repeated bit has no autocorrelation at any lag. */
  lemma AutocorrelationConstant(s: string, lag: int)
    requires lag >= 0
    requires forall i :: 0 <= i < |s| ==> s[i] == '1'
    ensures Autocorrelation(s, lag) == Some(0.0)
  {
    if |s| > lag {
      assert Uniform(NumericBits(s));
      UniformDenominator(s);
    }
  }

  /** The same holds for a string without any `1`. */
  lemma AutocorrelationNoOnes(s: string, lag: int)
    requires lag >= 0
    requires forall i :: 0 <= i < |s| ==> s[i] != '1'
    ensures Autocorrelation(s, lag) == Some(0.0)
  {
    if |s| > lag {
      assert Uniform(NumericBits(s));
      UniformDenominator(s);
    }
  }

  lemma {:induction false} CrossZeroLag(xs: seq<int>, m: real, n: nat)
    requires n <= |xs|
    ensures Cross(xs, m, 0, n) == SqSum(xs, m, 0, n)
    decreases n
  {
    if n > 0 {
      CrossZeroLag(xs, m, n - 1);
      ProdSelf(Dev(xs, m, n - 1));
    }
  }

  /** At lag 0 a string that mixes `1` with other characters correlates
      perfectly with itself. */
  lemma AutocorrelationLagZero(s: string)
    requires s != [] && !Uniform(NumericBits(s))
    ensures Autocorrelation(s, 0) == Some(1.0)
  {
    var xs := NumericBits(s);
    var m := Mean(xs);
    DenominatorZero(s);
    CrossZeroLag(xs, m, |xs|);
    DivSelf(SqSum(xs, m, 0, |xs|));
  }
}

/** The specification of the latency window: batch mean, squared deviations and the 3-sigma test.
    Latencies are unsigned integers and statistics are computed over the reals. */
module LatencyStatistics {

  const LATENCY_WINDOW: nat := 100
  const SIGMA_THRESHOLD: real := 3.0
  const MIN_ANOMALY_SAMPLES: nat := 10

  function Sum(s: seq<nat>): real {
    if s == [] then 0.0 else Sum(s[..|s| - 1]) + s[|s| - 1] as real
  }

  function Mean(s: seq<nat>): real {
    if s == [] then 0.0 else Sum(s) / (|s| as real)
  }

  function Square(x: real): real { x * x }

  // Named products and quotients: lemmas that only combine them hide what they multiply to.

  function Times(x: real, y: real): real { x * y }

  function Over(x: real, n: real): real
    requires n != 0.0
  {
    x / n
  }

  /** The sum of the squared deviations from `mu`. */
  function SquaredDeviations(s: seq<nat>, mu: real): real {
    if s == [] then 0.0 else SquaredDeviations(s[..|s| - 1], mu) + Square(s[|s| - 1] as real - mu)
  }

  /** The last `LATENCY_WINDOW` samples of a history, oldest first. */
  function Window(history: seq<nat>): seq<nat> {
    if |history| <= LATENCY_WINDOW then history else history[|history| - LATENCY_WINDOW..]
  }

  /** A new sample pushes the oldest out of a full window. */
  lemma WindowStep(history: seq<nat>, x: nat)
    ensures var w := Window(history);
      Window(history + [x]) == (if |w| >= LATENCY_WINDOW then w[1..] else w) + [x]
  {}

  /** `sd` is the population standard deviation of the samples. */
  predicate IsStdDev(s: seq<nat>, sd: real)
    requires s != []
  {
    sd >= 0.0 && Square(sd) == SquaredDeviations(s, Mean(s)) / (|s| as real)
  }

  /** `x` lies more than three standard deviations above the mean, said without a square root. */
  predicate Outlier(s: seq<nat>, x: nat)
    requires s != []
  {
    var d := x as real - Mean(s);
    d > 0.0 && Square(d) * |s| as real > Square(SIGMA_THRESHOLD) * SquaredDeviations(s, Mean(s))
  }

  /** The three maintained numbers are the batch statistics of the samples. */
  ghost predicate Describes(count: real, mean: real, m2: real, s: seq<nat>) {
    count == |s| as real && mean == Mean(s) && m2 == SquaredDeviations(s, Mean(s))
  }

  predicate Anomaly(s: seq<nat>, x: nat) {
    |s| >= MIN_ANOMALY_SAMPLES && Outlier(s, x)
  }

  // ---------------------------------------------------------------- algebra

  lemma Positive(a: real, b: real)
    requires a > 0.0 && b > 0.0
    ensures a * b > 0.0
  {}

  lemma NonNegative(a: real, b: real)
    requires a >= 0.0 && b >= 0.0
    ensures a * b >= 0.0
  {}

  lemma Distribute(a: real, b: real, c: real)
    ensures (a + b) * c == a * c + b * c && (a - b) * c == a * c - b * c
  {}

  lemma Associate(a: real, b: real, c: real)
    ensures (a * b) * c == a * (b * c)
  {}

  function SumOfSquares(s: seq<nat>): real {
    if s == [] then 0.0 else SumOfSquares(s[..|s| - 1]) + Square(s[|s| - 1] as real)
  }

  lemma {:induction false} SquaredDeviationsExpand(s: seq<nat>, mu: real)
    ensures SquaredDeviations(s, mu) == SumOfSquares(s) - 2.0 * Times(mu, Sum(s)) + Times(|s| as real, Square(mu))
  {
    if s == [] {
    } else {
      var r := s[..|s| - 1];
      SquaredDeviationsExpand(r, mu);
      OneMoreDeviation(mu, Sum(r), s[|s| - 1] as real, |r| as real);
      hide Times, Square;
    }
  }

  lemma OneMoreDeviation(mu: real, sum: real, x: real, n: real)
    ensures Square(x - mu) - 2.0 * Times(mu, sum) + Times(n, Square(mu))
         == Square(x) - 2.0 * Times(mu, sum + x) + Times(n + 1.0, Square(mu))
  {
    assert Square(x - mu) == Square(x) - 2.0 * (mu * x) + Square(mu);
    assert mu * (sum + x) == mu * sum + mu * x;
    assert (n + 1.0) * Square(mu) == n * Square(mu) + Square(mu);
  }

  lemma MeanTimesCount(s: seq<nat>)
    ensures Times(Mean(s), |s| as real) == Sum(s)
  {}

  lemma AtMeanArithmetic(mu: real, n: real, sum: real)
    requires Times(mu, n) == sum
    ensures Times(mu, sum) == Times(n, Square(mu))
  {
    Associate(mu, mu, n);
  }

  /** About the mean, the squared deviations are the sum of squares less n times the squared mean. */
  lemma SquaredDeviationsAtMean(s: seq<nat>)
    ensures SquaredDeviations(s, Mean(s)) == SumOfSquares(s) - Times(|s| as real, Square(Mean(s)))
  {
    hide *;
    MeanTimesCount(s);
    SquaredDeviationsExpand(s, Mean(s));
    AtMeanArithmetic(Mean(s), |s| as real, Sum(s));
  }

  lemma SquareNonNegative(x: real)
    ensures Square(x) >= 0.0
  {
    if x >= 0.0 { NonNegative(x, x); } else { NonNegative(-x, -x); }
  }

  lemma {:induction false} SquaredDeviationsNonNegative(s: seq<nat>, mu: real)
    ensures SquaredDeviations(s, mu) >= 0.0
  {
    if s == [] {
    } else {
      SquaredDeviationsNonNegative(s[..|s| - 1], mu);
      SquareNonNegative(s[|s| - 1] as real - mu);
    }
  }

  /** The algebraic core of both Welford steps: n samples with mean `mu` and one more, `x`,
      give n + 1 samples with mean `nu`. */
  lemma WelfordIdentity(n: real, mu: real, x: real, nu: real)
    requires nu * (n + 1.0) == mu * n + x
    ensures (x - mu) * (x - nu) == Square(x) + n * Square(mu) - (n + 1.0) * Square(nu)
  {
    var a := nu * (n + 1.0);
    assert (n + 1.0) * Square(nu) == a * nu == (mu * n + x) * nu == n * mu * nu + x * nu;
    assert (x - mu) * (x - nu) == Square(x) - x * nu - mu * x + mu * nu;
    assert mu * (mu * n - a + nu) == mu * (mu * n) - mu * a + mu * nu;
    assert mu * n - a + nu == nu - x;
    assert mu * (nu - x) == mu * nu - mu * x;
    assert mu * (mu * n) == n * Square(mu);
    assert mu * (nu * n + nu) == n * mu * nu + mu * nu;
    assert a == nu * n + nu;
  }

  lemma DivideSum(nu: real, m: real, mu: real, d: real)
    requires m > 0.0 && nu * m == mu * m + d
    ensures nu == mu + d / m
  {
    Distribute(nu, mu, m);
    assert d == (nu - mu) * m;
  }

  lemma DivideNegated(d: real, n: real)
    requires n > 0.0
    ensures (-d) / n == -(d / n)
  {}

  /** Means of `n` samples, `mu`, and of the same with `x`, `nu`, seen from both sides. */
  lemma WelfordMeans(n: real, m: real, mu: real, x: real, nu: real)
    requires n >= 0.0 && m == n + 1.0 && Times(nu, m) == Times(mu, n) + x
    ensures nu == mu + Over(x - mu, m)
    ensures n > 0.0 ==> mu == nu - Over(x - nu, n)
  {
    Distribute(n, 1.0, mu);
    DivideSum(nu, m, mu, x - mu);
    if n > 0.0 {
      Distribute(n, 1.0, nu);
      DivideSum(mu, n, nu, nu - x);
      DivideNegated(x - nu, n);
    }
  }

  lemma WelfordSquares(n: real, m: real, mu: real, x: real, nu: real)
    requires n >= 0.0 && m == n + 1.0 && Times(nu, m) == Times(mu, n) + x
    ensures Times(x - mu, x - nu) == Square(x) + Times(n, Square(mu)) - Times(m, Square(nu))
  {
    WelfordIdentity(n, mu, x, nu);
  }

  /** Adding `x` behind the samples moves mean and squared deviations by Welford's update. */
  lemma WelfordAdd(s: seq<nat>, x: nat)
    ensures Mean(s + [x]) == Mean(s) + Over(x as real - Mean(s), |s + [x]| as real)
    ensures SquaredDeviations(s + [x], Mean(s + [x]))
         == SquaredDeviations(s, Mean(s)) + Times(x as real - Mean(s), x as real - Mean(s + [x]))
  {
    SumLast(s, x);
    hide *;
    var t := s + [x];
    MeanTimesCount(s);
    MeanTimesCount(t);
    WelfordMeans(|s| as real, |t| as real, Mean(s), x as real, Mean(t));
    WelfordSquares(|s| as real, |t| as real, Mean(s), x as real, Mean(t));
    SquaredDeviationsAtMean(s);
    SquaredDeviationsAtMean(t);
  }

  lemma SumLast(s: seq<nat>, x: nat)
    ensures Sum(s + [x]) == Sum(s) + x as real
    ensures SumOfSquares(s + [x]) == SumOfSquares(s) + Square(x as real)
  {
    assert (s + [x])[..|s|] == s;
  }

  lemma {:induction false} SumFirst(s: seq<nat>)
    requires s != []
    ensures Sum(s) == s[0] as real + Sum(s[1..])
    ensures SumOfSquares(s) == Square(s[0] as real) + SumOfSquares(s[1..])
  {
    if |s| > 1 {
      var r := s[..|s| - 1];
      SumFirst(r);
      assert s[1..][..|s| - 2] == r[1..];
      assert r[0] == s[0] && s[1..][|s| - 2] == s[|s| - 1];
    }
  }

  /** Dropping the oldest of at least two samples is undone by the reversed update. */
  lemma WelfordRemove(s: seq<nat>)
    requires |s| >= 2
    ensures Mean(s[1..]) == Mean(s) - Over(s[0] as real - Mean(s), |s[1..]| as real)
    ensures SquaredDeviations(s[1..], Mean(s[1..]))
         == SquaredDeviations(s, Mean(s)) - Times(s[0] as real - Mean(s), s[0] as real - Mean(s[1..]))
  {
    SumFirst(s);
    hide *;
    var t, x := s[1..], s[0] as real;
    MeanTimesCount(s);
    MeanTimesCount(t);
    WelfordMeans(|t| as real, |s| as real, Mean(t), x, Mean(s));
    WelfordSquares(|t| as real, |s| as real, Mean(t), x, Mean(s));
    TimesCommutes(x - Mean(s), x - Mean(t));
    SquaredDeviationsAtMean(s);
    SquaredDeviationsAtMean(t);
  }

  lemma TimesCommutes(a: real, b: real)
    ensures Times(a, b) == Times(b, a)
  {}

  // ---------------------------------------------------------------- the threshold

  lemma TimesMinus(a: real, b: real, c: real)
    ensures Times(a, b - c) == Times(a, b) - Times(a, c)
  {
    Distribute(b, c, a);
  }

  lemma TimesSign(a: real, b: real)
    ensures a > 0.0 && b > 0.0 ==> Times(a, b) > 0.0
    ensures a >= 0.0 && b >= 0.0 ==> Times(a, b) >= 0.0
  {
    if a > 0.0 && b > 0.0 { Positive(a, b); }
    if a >= 0.0 && b >= 0.0 { NonNegative(a, b); }
  }

  lemma SquareIsTimes(a: real)
    ensures Square(a) == Times(a, a)
  {}

  /** The difference of two squares, as a sum of two products of one sign. */
  lemma LargerSquare(a: real, b: real)
    requires a > b >= 0.0
    ensures Square(a) > Square(b)
  {
    hide *;
    SquareIsTimes(a);
    SquareIsTimes(b);
    TimesMinus(a, a, b);
    TimesMinus(b, a, b);
    TimesCommutes(a, b);
    TimesSign(a, a - b);
    TimesSign(b, a - b);
  }

  lemma SquareOrder(a: real, b: real)
    requires a >= 0.0 && b >= 0.0
    ensures a > b <==> Square(a) > Square(b)
    ensures a >= b <==> Square(a) >= Square(b)
  {
    if a > b {
      LargerSquare(a, b);
    } else if a < b {
      LargerSquare(b, a);
    }
  }

  /** Comparing squares is the comparison with `mean + 3 * std_dev`. */
  lemma OutlierIsThreeSigma(s: seq<nat>, x: nat, sd: real)
    requires s != [] && IsStdDev(s, sd)
    ensures Outlier(s, x) <==> x as real > Mean(s) + 3.0 * sd
  {
    ThreeSigmaArithmetic(|s| as real, x as real - Mean(s), SquaredDeviations(s, Mean(s)), sd);
  }

  /** A sample is anomalous for a window of ten samples or more, above its mean plus three standard deviations. */
  lemma AnomalyIsThreeSigma(s: seq<nat>, x: nat, sd: real)
    requires s != [] ==> IsStdDev(s, sd)
    ensures Anomaly(s, x) <==> |s| >= 10 && x as real > Mean(s) + 3.0 * sd
  {
    if s != [] { OutlierIsThreeSigma(s, x, sd); }
    hide Outlier, Mean;
  }

  /** The window is the last hundred samples, or all while there are fewer. */
  lemma WindowIsLastHundred(history: seq<nat>)
    ensures |Window(history)| == if |history| < 100 then |history| else 100
    ensures Window(history) == history[|history| - |Window(history)|..]
  {}

  lemma ThreeSigmaArithmetic(n: real, d: real, m2: real, sd: real)
    requires n > 0.0 && sd >= 0.0 && Square(sd) == m2 / n
    ensures (d > 0.0 && Square(d) * n > 9.0 * m2) <==> d > 3.0 * sd
  {
    var t := Square(3.0 * sd);
    assert t == 9.0 * Square(sd);
    assert Square(sd) * n == m2;
    Associate(9.0, Square(sd), n);
    if d > 0.0 {
      SquareOrder(d, 3.0 * sd);
      Distribute(Square(d), t, n);
      if Square(d) > t { Positive(Square(d) - t, n); } else { NonNegative(t - Square(d), n); }
    }
  }

  lemma OutlierMeans(s: seq<nat>, x: nat)
    requires s != [] && Outlier(s, x)
    ensures x as real - Mean(s) > 0.0
    ensures Times(Square(x as real - Mean(s)), |s| as real) > 9.0 * SquaredDeviations(s, Mean(s))
  {
    assert Square(SIGMA_THRESHOLD) == 9.0;
    hide Square, Mean, SquaredDeviations;
  }

  /** How many of the samples pass `Outlier` for the window `w`. */
  function Outliers(w: seq<nat>, s: seq<nat>): nat
    requires w != []
  {
    if s == [] then 0 else Outliers(w, s[..|s| - 1]) + (if Outlier(w, s[|s| - 1]) then 1 else 0)
  }

  /** The least deviation of the outliers among `s`, when there is one. */
  lemma {:induction false} LeastOutlier(w: seq<nat>, s: seq<nat>) returns (x: nat)
    requires w != [] && Outliers(w, s) > 0
    ensures Outlier(w, x)
    ensures forall y <- s :: Outlier(w, y) ==> x <= y
  {
    var r, l := s[..|s| - 1], s[|s| - 1];
    assert s == r + [l];
    if Outliers(w, r) > 0 {
      x := LeastOutlier(w, r);
      if Outlier(w, l) && l < x { x := l; }
    } else {
      NoOutlier(w, r);
      x := l;
    }
  }

  lemma {:induction false} NoOutlier(w: seq<nat>, s: seq<nat>)
    requires w != [] && Outliers(w, s) == 0
    ensures forall y <- s :: !Outlier(w, y)
  {
    if s == [] {
    } else {
      NoOutlier(w, s[..|s| - 1]);
      assert s == s[..|s| - 1] + [s[|s| - 1]];
    }
  }

  lemma FarSquare(d: real, far: real, k: nat)
    requires d >= far >= 0.0
    ensures Square(d) >= Square(far)
    ensures Times((k + 1) as real, Square(far)) == Times(k as real, Square(far)) + Square(far)
  {
    SquareOrder(d, far);
    Distribute(k as real, 1.0, Square(far));
  }

  lemma UnfoldLast(w: seq<nat>, s: seq<nat>, centre: real)
    requires w != [] && s != []
    ensures SquaredDeviations(s, centre)
         == SquaredDeviations(s[..|s| - 1], centre) + Square(s[|s| - 1] as real - centre)
    ensures Outliers(w, s) == Outliers(w, s[..|s| - 1]) + if Outlier(w, s[|s| - 1]) then 1 else 0
  {
    hide Square, Outlier;
  }

  /** Shifting the centre down by `c` puts every outlier at least `far` away from it. */
  lemma {:induction false} OutliersWeigh(w: seq<nat>, s: seq<nat>, centre: real, far: real)
    requires w != [] && far >= 0.0
    requires forall y <- s :: Outlier(w, y) ==> y as real - centre >= far
    ensures SquaredDeviations(s, centre) >= Times(Outliers(w, s) as real, Square(far))
  {
    if s == [] {
    } else {
      var r, l := s[..|s| - 1], s[|s| - 1];
      UnfoldLast(w, s, centre);
      hide *;
      assert forall y <- r :: y in s;
      OutliersWeigh(w, r, centre, far);
      SquareNonNegative(l as real - centre);
      if Outlier(w, l) {
        FarSquare(l as real - centre, far, Outliers(w, r));
      }
    }
  }

  lemma ShiftArithmetic(mu: real, c: real, n: real, sum: real)
    requires Times(mu, n) == sum
    ensures -2.0 * Times(mu - c, sum) + Times(n, Square(mu - c))
         == -2.0 * Times(mu, sum) + Times(n, Square(mu)) + Times(n, Square(c))
  {
    assert Square(mu - c) == Square(mu) - 2.0 * (mu * c) + Square(c);
    assert n * Square(mu - c) == n * Square(mu) - 2.0 * (n * (mu * c)) + n * Square(c);
    Associate(c, mu, n);
    Distribute(mu, c, sum);
    assert c * sum == n * (mu * c);
  }

  lemma ShiftedDeviations(s: seq<nat>, c: real)
    ensures SquaredDeviations(s, Mean(s) - c)
         == SquaredDeviations(s, Mean(s)) + Times(|s| as real, Square(c))
  {
    hide *;
    MeanTimesCount(s);
    SquaredDeviationsExpand(s, Mean(s) - c);
    SquaredDeviationsExpand(s, Mean(s));
    ShiftArithmetic(Mean(s), c, |s| as real, Sum(s));
  }

  /** With `x` the least outlier, `t` its deviation and the centre moved down by `c`. */
  lemma OutlierWeight(s: seq<nat>, x: nat, t: real, c: real)
    requires s != [] && t == x as real - Mean(s) && t > 0.0 && c > 0.0
    requires forall y <- s :: Outlier(s, y) ==> x <= y
    ensures SquaredDeviations(s, Mean(s)) + Times(|s| as real, Square(c))
         >= Times(Outliers(s, s) as real, Square(t + c))
  {
    hide *;
    OutliersWeigh(s, s, Mean(s) - c, t + c);
    ShiftedDeviations(s, c);
  }

  /** Fewer than one sample in ten lies above the threshold of its own window. */
  lemma OutliersAreRare(s: seq<nat>)
    requires s != []
    ensures 10 * Outliers(s, s) < |s|
  {
    hide *;
    if Outliers(s, s) > 0 {
      var x := LeastOutlier(s, s);
      OutlierMeans(s, x);
      var t := x as real - Mean(s);
      OutlierWeight(s, x, t, t / 9.0);
      RareArithmetic(|s| as real, Outliers(s, s) as real, t, t / 9.0, SquaredDeviations(s, Mean(s)));
    }
  }

  lemma RareArithmetic(n: real, k: real, t: real, c: real, m2: real)
    requires t > 0.0 && t == 9.0 * c
    requires m2 + Times(n, Square(c)) >= Times(k, Square(t + c))
    requires Times(Square(t), n) > 9.0 * m2
    ensures 10.0 * k < n
  {
    var q := Square(c);
    Positive(c, c);
    assert Square(t) == 81.0 * q && Square(t + c) == 100.0 * q;
    Associate(81.0, q, n);
    Associate(100.0, q, k);
    Distribute(n, 10.0 * k, q);
    Associate(10.0, k, q);
    if n <= 10.0 * k { NonNegative(10.0 * k - n, q); }
  }
}

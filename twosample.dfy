/** `t_test`: the independent two-sample t statistic and its degrees of
    freedom. Each side is either raw data or a precomputed (mean, sigma, n)
    triple; the source tells the two apart at run time, the model by a tag. */
module TwoSample {
  import opened Outcome
  import opened Sums
  import opened Means
  import opened Dispersion

  datatype Side = Raw(data: seq<real>) | Summary(mean: real, sigma: real, n: nat)

  /** The (mu, sigma, n) triple `t_test` keeps for one side. */
  datatype Params = Params(mean: real, sigma: real, n: nat)

  /** The t statistic and the degrees of freedom `n1 + n2 - 2`. */
  datatype TResult = TResult(t: real, df: int)

  /** One side reduced to its triple. Raw data goes through `calculate_mean`
      and `std_dev`; an empty raw list fails at the `d[0]` the type test reads. */
  function Reduce(sqrt: real -> real, side: Side): (r: Result<Params>)
    requires IsSqrt(sqrt)
    ensures r.Err? <==> side.Raw? && |side.data| == 0
    ensures r.Err? ==> r.failure == IndexOutOfRange
    ensures side.Raw? && r.Ok? ==>
      r.value.n == |side.data| && ArithmeticMean(side.data) == Ok(r.value.mean) &&
      r.value.sigma == StdDev(sqrt, side.data)
    ensures side.Summary? ==> r == Ok(Params(side.mean, side.sigma, side.n))
  {
    match side
    case Summary(mu, sigma, n) => Ok(Params(mu, sigma, n))
    case Raw(d) =>
      if |d| == 0 then Err(IndexOutOfRange)
      else Ok(Params(Average(d), StdDev(sqrt, d), |d|))
  }

  /** The type test of `t_test` applied to a numeric `(mu, sigma, n)` tuple:
      its first element is a number, so the tuple goes down the raw-data
      branch and is reduced as the three observations mu, sigma and n. */
  function ReduceTupleAsWritten(sqrt: real -> real, mu: real, sigma: real, n: nat): (r: Result<Params>)
    requires IsSqrt(sqrt)
    ensures r.Ok? && r.value.n == 3
    ensures r.value.mean == (mu + sigma + n as real) / 3.0
  {
    var d := [mu, sigma, n as real];
    SnocSums([], mu, 0.0);
    SnocSums([mu], sigma, 0.0);
    SnocSums([mu, sigma], n as real, 0.0);
    assert [] + [mu] == [mu] && [mu] + [sigma] == [mu, sigma] && [mu, sigma] + [n as real] == d;
    assert Average(d) == (mu + sigma + n as real) / 3.0;
    Reduce(sqrt, Raw(d))
  }

  /** The summary (4, 1, 1) comes out of the type test as three observations
      with mean 2, not as itself. */
  lemma SummaryTupleCounterexample(sqrt: real -> real)
    requires IsSqrt(sqrt)
    ensures Reduce(sqrt, Summary(4.0, 1.0, 1)) == Ok(Params(4.0, 1.0, 1))
    ensures ReduceTupleAsWritten(sqrt, 4.0, 1.0, 1).value.mean == 2.0
    ensures ReduceTupleAsWritten(sqrt, 4.0, 1.0, 1) != Reduce(sqrt, Summary(4.0, 1.0, 1))
  {
    var r := ReduceTupleAsWritten(sqrt, 4.0, 1.0, 1);
    assert r.value.mean == (4.0 + 1.0 + 1.0) / 3.0;
  }

  function PairingsOf(p1: Params, p2: Params): seq<Pairing>
  {
    [Pairing(p1.sigma, p1.n), Pairing(p2.sigma, p2.n)]
  }

  /** The two sums `pooled_std_dev` forms for the pairings of a t-test. */
  lemma PairingSums(p1: Params, p2: Params)
    ensures PoolNumerator(PairingsOf(p1, p2))
         == Mul((p1.n - 1) as real, Square(p1.sigma)) + Mul((p2.n - 1) as real, Square(p2.sigma))
    ensures PoolDenominator(PairingsOf(p1, p2)) == p1.n + p2.n - 2
  {
    var pairs := PairingsOf(p1, p2);
    var first := pairs[..1];
    assert first == [Pairing(p1.sigma, p1.n)];
    assert first[..0] == [];
    assert PoolNumerator(first) == Mul((p1.n - 1) as real, Square(p1.sigma));
    assert PoolDenominator(first) == p1.n - 1;
  }

  /** The weight `1 / n1 + 1 / n2` under the root of the standard error. */
  function Weight(p1: Params, p2: Params): real
    requires p1.n > 0 && p2.n > 0
  {
    1.0 / p1.n as real + 1.0 / p2.n as real
  }

  /** The statistic from two triples: the pooled sigma, the standard error
      `sigma_p * (1 / n1 + 1 / n2) ** 0.5` (ZeroDivisionError when an n is 0),
      and `t = (mu1 - mu2) / standard_error` (ZeroDivisionError when the
      standard error is 0). */
  function Statistic(sqrt: real -> real, p1: Params, p2: Params): (r: Result<TResult>)
    requires IsSqrt(sqrt)
    ensures r.Err? ==> r.failure == DivisionByZero
    ensures r.Ok? ==> p1.n > 0 && p2.n > 0 && Pooled(sqrt, PairingsOf(p1, p2)).Ok?
    ensures r.Ok? ==>
      && r.value.df == p1.n + p2.n - 2
      && Mul(r.value.t, Mul(Pooled(sqrt, PairingsOf(p1, p2)).value, sqrt(Weight(p1, p2)))) == p1.mean - p2.mean
  {
    var pooled := Pooled(sqrt, PairingsOf(p1, p2));
    if p1.n == 0 || p2.n == 0 then Err(DivisionByZero)
    else
      PooledOutcomes(sqrt, PairingsOf(p1, p2));
      var se := Mul(pooled.value, sqrt(Weight(p1, p2)));
      if se == 0.0 then Err(DivisionByZero)
      else Ok(TResult((p1.mean - p2.mean) / se, p1.n + p2.n - 2))
  }

  /** What `t_test(data1, data2)` computes, up to the t statistic. */
  function TStatistic(sqrt: real -> real, side1: Side, side2: Side): (r: Result<TResult>)
    requires IsSqrt(sqrt)
    ensures r == Err(IndexOutOfRange) <==>
      (side1.Raw? && |side1.data| == 0) || (side2.Raw? && |side2.data| == 0)
    ensures r.Err? && r.failure != IndexOutOfRange ==> r.failure == DivisionByZero
    ensures r.Ok? ==>
      && Reduce(sqrt, side1).Ok? && Reduce(sqrt, side2).Ok?
      && r.value.df == Reduce(sqrt, side1).value.n + Reduce(sqrt, side2).value.n - 2
  {
    match Reduce(sqrt, side1)
    case Err(f) => Err(f)
    case Ok(p1) =>
      match Reduce(sqrt, side2)
      case Err(f) => Err(f)
      case Ok(p2) => Statistic(sqrt, p1, p2)
  }

  /** `t_test(data1, data2)`: reduce both sides in a loop, then pool. */
  method TTest(sqrt: real -> real, data1: Side, data2: Side) returns (r: Result<TResult>)
    requires IsSqrt(sqrt)
    ensures r == TStatistic(sqrt, data1, data2)
  {
    var sides := [data1, data2];
    var params: seq<Params> := [];
    for i := 0 to 2
      invariant |params| == i
      invariant forall k :: 0 <= k < i ==> Reduce(sqrt, sides[k]) == Ok(params[k])
    {
      match sides[i] {
        case Summary(mu, sigma, n) =>
          params := params + [Params(mu, sigma, n)];
        case Raw(d) =>
          if |d| == 0 {
            return Err(IndexOutOfRange);
          }
          var mu := CalculateMean(d, false);
          var sigma := StdDev(sqrt, d);
          params := params + [Params(mu.value, sigma, |d|)];
      }
    }
    assert TStatistic(sqrt, data1, data2) == Statistic(sqrt, params[0], params[1]);
    r := PooledT(sqrt, params[0], params[1]);
  }

  /** The second half of `t_test`: pool the two deviations, form the
      standard error, then t and the degrees of freedom. */
  method PooledT(sqrt: real -> real, p1: Params, p2: Params) returns (r: Result<TResult>)
    requires IsSqrt(sqrt)
    ensures r == Statistic(sqrt, p1, p2)
  {
    var sigmaP := PooledStdDev(sqrt, [Pairing(p1.sigma, p1.n), Pairing(p2.sigma, p2.n)]);
    if p1.n == 0 || p2.n == 0 {
      return Err(DivisionByZero);
    }
    PooledOutcomes(sqrt, PairingsOf(p1, p2));
    var standardError := Mul(sigmaP.value, sqrt(1.0 / p1.n as real + 1.0 / p2.n as real));
    if standardError == 0.0 {
      return Err(DivisionByZero);
    }
    var tValue := (p1.mean - p2.mean) / standardError;
    var degreesFreedom := p1.n + p2.n - 2;
    r := Ok(TResult(tValue, degreesFreedom));
  }

  /** The root of a non-negative value is zero only when the value is zero. */
  lemma SqrtZeroIff(sqrt: real -> real, v: real)
    requires IsSqrt(sqrt)
    requires v >= 0.0
    ensures sqrt(v) >= 0.0
    ensures sqrt(v) == 0.0 <==> v == 0.0
  {
    SquareSign(sqrt(v));
  }

  lemma MulZeroIff(a: real, b: real)
    requires a >= 0.0 && b > 0.0
    ensures Mul(a, b) >= 0.0
    ensures Mul(a, b) == 0.0 <==> a == 0.0
  {
    if a > 0.0 {
      MulPositive(a, b);
    }
  }

  lemma SquareOfProduct(a: real, b: real)
    ensures Square(Mul(a, b)) == Mul(Square(a), Square(b))
  {
  }

  /** With both sizes at least 1, the standard error is positive exactly when
      the pooled numerator and the pooled degrees of freedom are both non-zero. */
  lemma StandardErrorPositive(sqrt: real -> real, p1: Params, p2: Params)
    requires IsSqrt(sqrt)
    requires p1.n > 0 && p2.n > 0
    ensures Pooled(sqrt, PairingsOf(p1, p2)).Ok?
    ensures var se := Mul(Pooled(sqrt, PairingsOf(p1, p2)).value, sqrt(Weight(p1, p2)));
      se >= 0.0 &&
      (se == 0.0 <==> PoolDenominator(PairingsOf(p1, p2)) == 0 || PoolNumerator(PairingsOf(p1, p2)) == 0.0)
  {
    var pairs := PairingsOf(p1, p2);
    PooledOutcomes(sqrt, pairs);
    PoolSumsNonNegative(pairs);
    var w := Weight(p1, p2);
    SqrtZeroIff(sqrt, w);
    var sp := Pooled(sqrt, pairs).value;
    MulZeroIff(sp, sqrt(w));
    var num, den := PoolNumerator(pairs), PoolDenominator(pairs);
    if den != 0 {
      SqrtZeroIff(sqrt, num / den as real);
    }
  }

  /** The outcomes of the statistic for two triples: it fails exactly when a
      size is 0 or the standard error collapses; when it exists, the degrees
      of freedom are `n1 + n2 - 2 >= 1`, t has the sign of `mu1 - mu2`, and
      t² · sigma_p² · (1/n1 + 1/n2) = (mu1 - mu2)². */
  lemma StatisticOutcomes(sqrt: real -> real, p1: Params, p2: Params)
    requires IsSqrt(sqrt)
    ensures Statistic(sqrt, p1, p2).Err? <==>
      p1.n == 0 || p2.n == 0 ||
      PoolDenominator(PairingsOf(p1, p2)) == 0 || PoolNumerator(PairingsOf(p1, p2)) == 0.0
    ensures Statistic(sqrt, p1, p2).Err? ==> Statistic(sqrt, p1, p2).failure == DivisionByZero
    ensures Statistic(sqrt, p1, p2).Ok? ==>
      var r := Statistic(sqrt, p1, p2).value;
      && r.df == p1.n + p2.n - 2 >= 1
      && (r.t == 0.0 <==> p1.mean == p2.mean)
      && (r.t > 0.0 <==> p1.mean > p2.mean)
      && Mul(Square(r.t),
             Mul(PoolNumerator(PairingsOf(p1, p2)) / PoolDenominator(PairingsOf(p1, p2)) as real,
                 Weight(p1, p2)))
         == Square(p1.mean - p2.mean)
  {
    if p1.n > 0 && p2.n > 0 {
      StandardErrorPositive(sqrt, p1, p2);
      PairingSums(p1, p2);
      var pairs := PairingsOf(p1, p2);
      var sp := Pooled(sqrt, pairs).value;
      var w := Weight(p1, p2);
      var se := Mul(sp, sqrt(w));
      var num, den := PoolNumerator(pairs), PoolDenominator(pairs);
      if se != 0.0 {
        var t := (p1.mean - p2.mean) / se;
        assert Mul(t, se) == p1.mean - p2.mean;
        SquareOfProduct(t, se);
        SquareOfProduct(sp, sqrt(w));
        assert Square(sp) == num / den as real;
        assert p1.mean > p2.mean ==> t > 0.0;
        assert p1.mean < p2.mean ==> t < 0.0;
      }
    }
  }

  /** Equal-sized summaries of one raw list reproduce what the raw list gives,
      on either side. */
  lemma SummaryRoundTrip(sqrt: real -> real, d: seq<real>, other: Side)
    requires IsSqrt(sqrt)
    requires |d| > 0
    ensures TStatistic(sqrt, Summary(Average(d), StdDev(sqrt, d), |d|), other) == TStatistic(sqrt, Raw(d), other)
    ensures TStatistic(sqrt, other, Summary(Average(d), StdDev(sqrt, d), |d|)) == TStatistic(sqrt, other, Raw(d))
  {
  }

  function Negated(r: Result<TResult>): Result<TResult>
  {
    match r
    case Ok(x) => Ok(TResult(-x.t, x.df))
    case Err(f) => Err(f)
  }

  /** Swapping the two triples negates t and keeps the degrees of freedom and every failure. */
  lemma StatisticSwap(sqrt: real -> real, p1: Params, p2: Params)
    requires IsSqrt(sqrt)
    ensures Statistic(sqrt, p2, p1) == Negated(Statistic(sqrt, p1, p2))
  {
    PairingSums(p1, p2);
    PairingSums(p2, p1);
    assert Pooled(sqrt, PairingsOf(p2, p1)) == Pooled(sqrt, PairingsOf(p1, p2));
    if p1.n > 0 && p2.n > 0 {
      StandardErrorPositive(sqrt, p1, p2);
      assert Weight(p2, p1) == Weight(p1, p2);
      var se := Mul(Pooled(sqrt, PairingsOf(p1, p2)).value, sqrt(Weight(p1, p2)));
      if se != 0.0 {
        DivideNegation(p1.mean - p2.mean, se);
        assert p2.mean - p1.mean == -(p1.mean - p2.mean);
      }
    }
  }

  /** Swapping the two sides negates t and keeps the degrees of freedom and
      every failure. */
  lemma TStatisticSwap(sqrt: real -> real, side1: Side, side2: Side)
    requires IsSqrt(sqrt)
    ensures TStatistic(sqrt, side2, side1) == Negated(TStatistic(sqrt, side1, side2))
  {
    var r1, r2 := Reduce(sqrt, side1), Reduce(sqrt, side2);
    if r1.Ok? && r2.Ok? {
      StatisticSwap(sqrt, r1.value, r2.value);
    }
  }

  /** Two identical raw samples: an empty one fails at `d[0]`, one whose
      elements are all equal (a single element included) has a zero standard
      error, and any other gives t = 0 with 2n - 2 degrees of freedom. */
  lemma IdenticalSamples(sqrt: real -> real, d: seq<real>)
    requires IsSqrt(sqrt)
    ensures |d| == 0 ==> TStatistic(sqrt, Raw(d), Raw(d)) == Err(IndexOutOfRange)
    ensures |d| > 0 && (forall i :: 0 <= i < |d| ==> d[i] == d[0]) ==>
      TStatistic(sqrt, Raw(d), Raw(d)) == Err(DivisionByZero)
    ensures |d| > 0 && (exists i :: 0 <= i < |d| && d[i] != d[0]) ==>
      TStatistic(sqrt, Raw(d), Raw(d)) == Ok(TResult(0.0, 2 * |d| - 2))
  {
    if |d| > 0 {
      var p := Params(Average(d), StdDev(sqrt, d), |d|);
      var pairs := PairingsOf(p, p);
      PairingSums(p, p);
      StatisticOutcomes(sqrt, p, p);
      StdDevZeroIff(sqrt, d);
      SquareSign(p.sigma);
      var sq := Square(p.sigma);
      assert PoolNumerator(pairs) == 2.0 * Mul((|d| - 1) as real, sq);
      if exists i :: 0 <= i < |d| && d[i] != d[0] {
        assert |d| >= 2;
        MulPositive((|d| - 1) as real, sq);
      }
    }
  }
}

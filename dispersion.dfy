/** `std_dev` and `pooled_std_dev`: population standard deviation of a list,
    and the standard deviation pooled from (sigma, n) pairings.

    The source takes square roots with `** 0.5`. Dafny's reals have no square
    root operation, so every routine that takes one receives it as a parameter
    `sqrt` and relies only on `IsSqrt(sqrt)`: on non-negative arguments it
    returns the non-negative root. */
module Dispersion {
  import opened Outcome
  import opened Sums
  import opened Means

  ghost predicate IsSqrt(sqrt: real -> real)
  {
    forall v :: 0.0 <= v ==> 0.0 <= sqrt(v) && Square(sqrt(v)) == v
  }

  /** The population variance `sum((x - mean) ** 2 for x in data) / n`. */
  function Variance(data: seq<real>): real
    requires |data| > 0
  {
    SqDev(data, Average(data)) / |data| as real
  }

  lemma VarianceNonNegative(data: seq<real>)
    requires |data| > 0
    ensures Variance(data) >= 0.0
  {
    SqDevNonNegative(data, Average(data));
  }

  /** `std_dev(data)`: 0 for an empty list, otherwise the non-negative root of
      the population variance. */
  function StdDev(sqrt: real -> real, data: seq<real>): (r: real)
    requires IsSqrt(sqrt)
    ensures r >= 0.0
    ensures |data| == 0 ==> r == 0.0
    ensures |data| > 0 ==> Square(r) == Variance(data)
  {
    if |data| == 0 then 0.0
    else
      VarianceNonNegative(data);
      sqrt(Variance(data))
  }

  /** The standard deviation of a non-empty list is zero exactly when every
      element equals the mean, i.e. when all elements are equal. */
  lemma StdDevZeroIff(sqrt: real -> real, data: seq<real>)
    requires IsSqrt(sqrt)
    requires |data| > 0
    ensures StdDev(sqrt, data) == 0.0 <==> forall i :: 0 <= i < |data| ==> data[i] == data[0]
  {
    var m := Average(data);
    SqDevZeroIff(data, m);
    SquareSign(StdDev(sqrt, data));
    if forall i :: 0 <= i < |data| ==> data[i] == data[0] {
      AverageConstant(data, data[0]);
    }
  }

  /** The textbook example: the population standard deviation of
      [2, 4, 4, 4, 5, 5, 7, 9] is 2. */
  lemma StdDevExample(sqrt: real -> real)
    requires IsSqrt(sqrt)
    ensures StdDev(sqrt, [2.0, 4.0, 4.0, 4.0, 5.0, 5.0, 7.0, 9.0]) == 2.0
  {
    var data := [2.0, 4.0, 4.0, 4.0, 5.0, 5.0, 7.0, 9.0];
    assert Square(-3.0) == 9.0 && Square(-1.0) == 1.0 && Square(0.0) == 0.0;
    assert Square(2.0) == 4.0 && Square(4.0) == 16.0;
    var s0: seq<real> := [];
    SnocSums(s0, 2.0, 5.0);
    var s1 := s0 + [2.0];
    SnocSums(s1, 4.0, 5.0);
    var s2 := s1 + [4.0];
    SnocSums(s2, 4.0, 5.0);
    var s3 := s2 + [4.0];
    SnocSums(s3, 4.0, 5.0);
    var s4 := s3 + [4.0];
    SnocSums(s4, 5.0, 5.0);
    var s5 := s4 + [5.0];
    SnocSums(s5, 5.0, 5.0);
    var s6 := s5 + [5.0];
    SnocSums(s6, 7.0, 5.0);
    var s7 := s6 + [7.0];
    SnocSums(s7, 9.0, 5.0);
    var s8 := s7 + [9.0];
    assert Sum(s8) == 40.0 && SqDev(s8, 5.0) == 32.0;
    assert s8 == data;
    assert Average(data) == 5.0;
    var r := StdDev(sqrt, data);
    assert Square(r) == 4.0;
    SquareRootUnique(r, 2.0);
  }

  /** Two non-negative reals with the same square are equal. */
  lemma SquareRootUnique(r: real, s: real)
    requires r >= 0.0 && s >= 0.0
    requires Square(r) == Square(s)
    ensures r == s
  {
    if r < s {
      MulLess(r, s);
    } else if s < r {
      MulLess(s, r);
    }
  }

  lemma MulLess(r: real, s: real)
    requires 0.0 <= r < s
    ensures Square(r) < Square(s)
  {
    MulDistributes(s, s - r, r);
    MulDistributes(r, s - r, r);
    MulPositive(s, s - r);
    assert Mul(r, s - r) >= 0.0 by {
      if r > 0.0 {
        MulPositive(r, s - r);
      }
    }
  }

  /** One (sigma, n) pairing, as passed to `pooled_std_dev`. */
  datatype Pairing = Pairing(sigma: real, n: nat)

  /** `sum((n - 1) * sigma ** 2)` over the pairings. */
  function PoolNumerator(pairs: seq<Pairing>): real
  {
    if |pairs| == 0 then 0.0
    else
      var p := pairs[|pairs| - 1];
      PoolNumerator(pairs[..|pairs| - 1]) + Mul((p.n - 1) as real, Square(p.sigma))
  }

  /** `sum(n - 1)` over the pairings. */
  function PoolDenominator(pairs: seq<Pairing>): int
  {
    if |pairs| == 0 then 0 else PoolDenominator(pairs[..|pairs| - 1]) + pairs[|pairs| - 1].n - 1
  }

  /** What `pooled_std_dev` returns: the error string for fewer than two
      pairings, 0 when the pooled degrees of freedom sum to zero, and otherwise
      the root of numerator / denominator (a negative ratio, possible only when
      some n is 0, has no real root). */
  function Pooled(sqrt: real -> real, pairs: seq<Pairing>): (r: Result<real>)
    requires IsSqrt(sqrt)
    ensures r.Ok? ==> r.value >= 0.0
    ensures r.Ok? && PoolDenominator(pairs) == 0 ==> r.value == 0.0
    ensures r.Ok? && PoolDenominator(pairs) != 0 ==>
      Square(r.value) == PoolNumerator(pairs) / PoolDenominator(pairs) as real
  {
    if |pairs| < 2 then Err(TooFewPairings)
    else
      var num, den := PoolNumerator(pairs), PoolDenominator(pairs);
      if den == 0 then Ok(0.0)
      else if num / den as real < 0.0 then Err(ComplexRoot)
      else Ok(sqrt(num / den as real))
  }

  /** `pooled_std_dev(data_pairs)`, accumulating numerator and denominator in one loop. */
  method PooledStdDev(sqrt: real -> real, pairs: seq<Pairing>) returns (r: Result<real>)
    requires IsSqrt(sqrt)
    ensures r == Pooled(sqrt, pairs)
  {
    var k := |pairs|;
    if k < 2 {
      return Err(TooFewPairings);
    }
    var numerator: real := 0.0;
    var denominator: int := 0;
    for i := 0 to k
      invariant numerator == PoolNumerator(pairs[..i])
      invariant denominator == PoolDenominator(pairs[..i])
    {
      var p := pairs[i];
      assert pairs[..i + 1][..i] == pairs[..i];
      numerator := numerator + Mul((p.n - 1) as real, Square(p.sigma));
      denominator := denominator + p.n - 1;
    }
    assert pairs[..k] == pairs;
    if denominator == 0 {
      return Ok(0.0);
    }
    var ratio := numerator / denominator as real;
    if ratio < 0.0 {
      return Err(ComplexRoot);
    }
    r := Ok(sqrt(ratio));
  }

  /** Every pairing has n >= 1: then the pooled degrees of freedom and the
      numerator are both non-negative. */
  ghost predicate NonEmptyGroups(pairs: seq<Pairing>)
  {
    forall i :: 0 <= i < |pairs| ==> pairs[i].n >= 1
  }

  lemma {:induction false} PoolSumsNonNegative(pairs: seq<Pairing>)
    requires NonEmptyGroups(pairs)
    ensures PoolDenominator(pairs) >= 0
    ensures PoolNumerator(pairs) >= 0.0
  {
    if |pairs| > 0 {
      var p := pairs[|pairs| - 1];
      PoolSumsNonNegative(pairs[..|pairs| - 1]);
      SquareSign(p.sigma);
      if p.n > 1 && p.sigma != 0.0 {
        MulPositive((p.n - 1) as real, Square(p.sigma));
      }
    }
  }

  /** The outcomes of `pooled_std_dev`: fewer than two pairings is the error,
      a zero denominator gives 0, a negative ratio has no root, and otherwise
      the result squares to the pooled variance; with every n >= 1 the result always exists and is
      non-negative. */
  lemma PooledOutcomes(sqrt: real -> real, pairs: seq<Pairing>)
    requires IsSqrt(sqrt)
    ensures Pooled(sqrt, pairs) == Err(TooFewPairings) <==> |pairs| < 2
    ensures |pairs| >= 2 && PoolDenominator(pairs) == 0 ==> Pooled(sqrt, pairs) == Ok(0.0)
    ensures |pairs| >= 2 && PoolDenominator(pairs) != 0 ==>
      (Pooled(sqrt, pairs) == Err(ComplexRoot) <==> PoolNumerator(pairs) / PoolDenominator(pairs) as real < 0.0)
    ensures Pooled(sqrt, pairs).Ok? && PoolDenominator(pairs) != 0 ==>
      Pooled(sqrt, pairs).value >= 0.0 &&
      Square(Pooled(sqrt, pairs).value) == PoolNumerator(pairs) / PoolDenominator(pairs) as real
    ensures |pairs| >= 2 && NonEmptyGroups(pairs) ==>
      Pooled(sqrt, pairs).Ok? && Pooled(sqrt, pairs).value >= 0.0
  {
    if NonEmptyGroups(pairs) {
      PoolSumsNonNegative(pairs);
    }
  }

  /** A pairing with n = 1 adds nothing to either sum, so appending it to two
      or more pairings leaves the pooled standard deviation unchanged. */
  lemma PooledIgnoresSingletons(sqrt: real -> real, pairs: seq<Pairing>, sigma: real)
    requires IsSqrt(sqrt)
    requires |pairs| >= 2
    ensures PoolNumerator(pairs + [Pairing(sigma, 1)]) == PoolNumerator(pairs)
    ensures PoolDenominator(pairs + [Pairing(sigma, 1)]) == PoolDenominator(pairs)
    ensures Pooled(sqrt, pairs + [Pairing(sigma, 1)]) == Pooled(sqrt, pairs)
  {
    var extended := pairs + [Pairing(sigma, 1)];
    assert extended[..|pairs|] == pairs;
    assert extended[|pairs|] == Pairing(sigma, 1);
    assert Mul(0.0, Square(sigma)) == 0.0;
    assert PoolNumerator(extended) == PoolNumerator(pairs);
    assert PoolDenominator(extended) == PoolDenominator(pairs);
  }

  /** When every pairing has the same sigma (and n >= 1), the pooled
      standard deviation is that sigma's magnitude. */
  lemma PooledCommonSigma(sqrt: real -> real, pairs: seq<Pairing>, sigma: real)
    requires IsSqrt(sqrt)
    requires |pairs| >= 2 && NonEmptyGroups(pairs) && PoolDenominator(pairs) != 0
    requires forall i :: 0 <= i < |pairs| ==> pairs[i].sigma == sigma
    ensures Pooled(sqrt, pairs).Ok?
    ensures Square(Pooled(sqrt, pairs).value) == Square(sigma)
  {
    PoolSumsNonNegative(pairs);
    PoolNumeratorCommon(pairs, sigma);
    MulDivCancel(PoolDenominator(pairs) as real, Square(sigma));
  }

  lemma {:induction false} PoolNumeratorCommon(pairs: seq<Pairing>, sigma: real)
    requires forall i :: 0 <= i < |pairs| ==> pairs[i].sigma == sigma
    ensures PoolNumerator(pairs) == Mul(PoolDenominator(pairs) as real, Square(sigma))
  {
    if |pairs| > 0 {
      var p := pairs[|pairs| - 1];
      var q := pairs[..|pairs| - 1];
      PoolNumeratorCommon(q, sigma);
      MulDistributes(Square(sigma), PoolDenominator(q) as real, (p.n - 1) as real);
    }
  }

  /** The worked example: pooling (2, 10) and (3, 12) gives the root of
      (9·4 + 11·9) / 20 = 6.75. */
  lemma PooledExample(sqrt: real -> real)
    requires IsSqrt(sqrt)
    ensures Pooled(sqrt, [Pairing(2.0, 10), Pairing(3.0, 12)]).Ok?
    ensures Square(Pooled(sqrt, [Pairing(2.0, 10), Pairing(3.0, 12)]).value) == 6.75
  {
    var pairs := [Pairing(2.0, 10), Pairing(3.0, 12)];
    assert PoolNumerator(pairs) == 135.0;
    assert PoolDenominator(pairs) == 20;
  }
}

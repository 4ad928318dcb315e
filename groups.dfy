/** Lists of lists of observations: flattening them, and the split of the
    squared deviations about a centre into a within-group and a
    between-group part, shared by both analyses of variance. */
module Groups {
  import opened Sums
  import opened Means

  /** `[item for sublist in datasets for item in sublist]`: every item of
      every group, group by group, so non-empty groups give at least one
      item each. */
  function Flatten(gs: seq<seq<real>>): (r: seq<real>)
    ensures AllNonEmpty(gs) ==> |r| >= |gs|
  {
    if |gs| == 0 then [] else Flatten(gs[..|gs| - 1]) + gs[|gs| - 1]
  }

  predicate AllNonEmpty(gs: seq<seq<real>>)
  {
    forall j :: 0 <= j < |gs| ==> |gs[j]| > 0
  }

  /** `sum(n_j * (group_mean - centre) ** 2)` over the groups. */
  function Between(gs: seq<seq<real>>, centre: real): real
    requires AllNonEmpty(gs)
  {
    if |gs| == 0 then 0.0
    else
      var d := gs[|gs| - 1];
      Between(gs[..|gs| - 1], centre) + Mul(|d| as real, Square(Average(d) - centre))
  }

  /** The squared deviations of every group about its own mean, summed. */
  function Within(gs: seq<seq<real>>): real
    requires AllNonEmpty(gs)
  {
    if |gs| == 0 then 0.0
    else
      var d := gs[|gs| - 1];
      Within(gs[..|gs| - 1]) + SqDev(d, Average(d))
  }

  /** Flattening non-empty groups gives at least one observation per group,
      and exactly one only when every group is a singleton. */
  lemma {:induction false} FlattenLength(gs: seq<seq<real>>)
    requires AllNonEmpty(gs)
    ensures |Flatten(gs)| >= |gs|
    ensures |Flatten(gs)| == |gs| <==> forall j :: 0 <= j < |gs| ==> |gs[j]| == 1
  {
    if |gs| > 0 {
      FlattenLength(gs[..|gs| - 1]);
    }
  }

  /** Squared deviations about any centre g split at the mean:
      Σ(x - g)² = Σ(x - mean)² + n·(mean - g)². */
  lemma SqDevAtMean(d: seq<real>, g: real)
    requires |d| > 0
    ensures SqDev(d, g) == SqDev(d, Average(d)) + Mul(|d| as real, Square(Average(d) - g))
  {
    var a := Average(d);
    SqDevShift(d, g, a);
    MulQuotient(|d| as real, Sum(d));
    assert Mul(a - g, 0.0) == 0.0;
  }

  /** The sum-of-squares decomposition: the squared deviations of all
      observations about g are the within-group part plus the between-group
      part. */
  lemma {:induction false} Decomposition(gs: seq<seq<real>>, g: real)
    requires AllNonEmpty(gs)
    ensures SqDev(Flatten(gs), g) == Within(gs) + Between(gs, g)
  {
    if |gs| > 0 {
      var p, d := gs[..|gs| - 1], gs[|gs| - 1];
      Decomposition(p, g);
      SqDevAppend(Flatten(p), d, g);
      SqDevAtMean(d, g);
    }
  }

  lemma {:induction false} WithinNonNegative(gs: seq<seq<real>>)
    requires AllNonEmpty(gs)
    ensures Within(gs) >= 0.0
  {
    if |gs| > 0 {
      var d := gs[|gs| - 1];
      WithinNonNegative(gs[..|gs| - 1]);
      SqDevNonNegative(d, Average(d));
    }
  }

  /** The within-group part vanishes exactly when every group is constant. */
  lemma {:induction false} WithinZeroIff(gs: seq<seq<real>>)
    requires AllNonEmpty(gs)
    ensures Within(gs) == 0.0 <==>
      forall j, i :: 0 <= j < |gs| && 0 <= i < |gs[j]| ==> gs[j][i] == Average(gs[j])
  {
    if |gs| > 0 {
      var p, d := gs[..|gs| - 1], gs[|gs| - 1];
      WithinZeroIff(p);
      WithinNonNegative(p);
      SqDevNonNegative(d, Average(d));
      SqDevZeroIff(d, Average(d));
      assert forall j :: 0 <= j < |p| ==> p[j] == gs[j];
    }
  }

  lemma WeightedSquareSign(n: real, x: real)
    requires n > 0.0
    ensures Mul(n, Square(x)) >= 0.0
    ensures Mul(n, Square(x)) == 0.0 <==> x == 0.0
  {
    SquareSign(x);
    if x != 0.0 {
      MulPositive(n, Square(x));
    }
  }

  lemma {:induction false} BetweenNonNegative(gs: seq<seq<real>>, g: real)
    requires AllNonEmpty(gs)
    ensures Between(gs, g) >= 0.0
  {
    if |gs| > 0 {
      var d := gs[|gs| - 1];
      BetweenNonNegative(gs[..|gs| - 1], g);
      WeightedSquareSign(|d| as real, Average(d) - g);
    }
  }

  /** The between-group part vanishes exactly when every group mean is g. */
  lemma {:induction false} BetweenZeroIff(gs: seq<seq<real>>, g: real)
    requires AllNonEmpty(gs)
    ensures Between(gs, g) == 0.0 <==> forall j :: 0 <= j < |gs| ==> Average(gs[j]) == g
  {
    if |gs| > 0 {
      var p, d := gs[..|gs| - 1], gs[|gs| - 1];
      BetweenZeroIff(p, g);
      BetweenNonNegative(p, g);
      WeightedSquareSign(|d| as real, Average(d) - g);
      assert forall j :: 0 <= j < |p| ==> p[j] == gs[j];
    }
  }
}

/** `anova`: one-way analysis of variance over three or more datasets, up to
    the F statistic and its degrees of freedom. */
module OneWay {
  import opened Outcome
  import opened Sums
  import opened Means
  import opened Groups

  datatype AnovaTable = AnovaTable(
    ssTotal: real, ssBetween: real, ssWithin: real,
    dfBetween: int, dfWithin: int, f: real)

  /** What `anova(datasets)` computes: the error string below three datasets;
      a ZeroDivisionError from `calculate_mean` on an empty dataset, from
      `N - m` degrees of freedom equal to 0, or from a zero mean square within;
      otherwise the sums of squares and F. */
  function OneWayAnova(gs: seq<seq<real>>): (r: Result<AnovaTable>)
    ensures r == Err(TooFewDatasets) <==> |gs| < 3
    ensures r.Ok? ==>
      && AllNonEmpty(gs)
      && r.value.ssTotal == r.value.ssBetween + r.value.ssWithin
      && r.value.dfBetween == |gs| - 1 && r.value.dfWithin == |Flatten(gs)| - |gs| != 0
      && r.value.ssWithin != 0.0
      && Mul(r.value.f, r.value.ssWithin / r.value.dfWithin as real) == r.value.ssBetween / r.value.dfBetween as real
  {
    var m := |gs|;
    if m < 3 then Err(TooFewDatasets)
    else if !AllNonEmpty(gs) then Err(DivisionByZero)
    else
      FlattenLength(gs);
      var all := Flatten(gs);
      var grand := Average(all);
      var ssTotal := SqDev(all, grand);
      var ssBetween := Between(gs, grand);
      var ssWithin := ssTotal - ssBetween;
      var dfBetween, dfWithin := m - 1, |all| - m;
      if dfWithin == 0 || ssWithin / dfWithin as real == 0.0 then Err(DivisionByZero)
      else
        var f := (ssBetween / dfBetween as real) / (ssWithin / dfWithin as real);
        Ok(AnovaTable(ssTotal, ssBetween, ssWithin, dfBetween, dfWithin, f))
  }

  /** `anova(datasets)`, accumulating the between-group sum of squares in a loop. */
  method Anova(datasets: seq<seq<real>>) returns (r: Result<AnovaTable>)
    ensures r == OneWayAnova(datasets)
  {
    var m := |datasets|;
    if m < 3 {
      return Err(TooFewDatasets);
    }
    var allObservations := Flatten(datasets);
    var n := |allObservations|;
    var overall := CalculateMean(allObservations, false);
    if overall.Err? {
      assert !AllNonEmpty(datasets) by {
        if AllNonEmpty(datasets) {
          FlattenLength(datasets);
        }
      }
      return Err(DivisionByZero);
    }
    var overallMean := overall.value;
    var sumSquaresTotal := SqDev(allObservations, overallMean);
    var sumSquaresBetween := 0.0;
    for j := 0 to m
      invariant AllNonEmpty(datasets[..j])
      invariant sumSquaresBetween == Between(datasets[..j], overallMean)
    {
      var data := datasets[j];
      var groupMean := CalculateMean(data, false);
      if groupMean.Err? {
        return Err(DivisionByZero);
      }
      assert datasets[..j + 1][..j] == datasets[..j];
      sumSquaresBetween := sumSquaresBetween + Mul(|data| as real, Square(groupMean.value - overallMean));
    }
    assert datasets[..m] == datasets;
    var sumSquaresWithin := sumSquaresTotal - sumSquaresBetween;
    var dfBetween := m - 1;
    var dfWithin := n - m;
    if dfWithin == 0 {
      return Err(DivisionByZero);
    }
    var meanSquaresBetween := sumSquaresBetween / dfBetween as real;
    var meanSquaresWithin := sumSquaresWithin / dfWithin as real;
    if meanSquaresWithin == 0.0 {
      return Err(DivisionByZero);
    }
    var fStat := meanSquaresBetween / meanSquaresWithin;
    r := Ok(AnovaTable(sumSquaresTotal, sumSquaresBetween, sumSquaresWithin, dfBetween, dfWithin, fStat));
  }

  /** When F exists: the degrees of freedom are m - 1 and N - m >= 1 for N
      observations in all; the between part is non-negative, the within part
      is the positive sum of each group's squared deviations about its own
      mean, and the two add up to the total. Otherwise, with three or more
      datasets, the failure is a division by zero that happens exactly when a
      dataset is empty, every dataset is a single observation, or every
      dataset is constant. */
  lemma AnovaOutcomes(gs: seq<seq<real>>)
    ensures OneWayAnova(gs).Ok? ==>
      var t := OneWayAnova(gs).value;
      && t.dfBetween == |gs| - 1
      && t.dfWithin == |Flatten(gs)| - |gs| >= 1
      && t.ssBetween >= 0.0
      && t.ssWithin == Within(gs) > 0.0
      && t.ssTotal == t.ssBetween + t.ssWithin
      && t.f >= 0.0
    ensures |gs| >= 3 ==>
      (OneWayAnova(gs).Err? <==>
        !AllNonEmpty(gs)
        || (forall j :: 0 <= j < |gs| ==> |gs[j]| == 1)
        || (forall j, i :: 0 <= j < |gs| && 0 <= i < |gs[j]| ==> gs[j][i] == Average(gs[j])))
    ensures |gs| >= 3 && OneWayAnova(gs).Err? ==> OneWayAnova(gs).failure == DivisionByZero
  {
    if |gs| >= 3 && AllNonEmpty(gs) {
      FlattenLength(gs);
      var all := Flatten(gs);
      var grand := Average(all);
      Decomposition(gs, grand);
      BetweenNonNegative(gs, grand);
      WithinNonNegative(gs);
      WithinZeroIff(gs);
      var dfWithin := |all| - |gs|;
      if dfWithin != 0 {
        DivZeroIff(Within(gs), dfWithin);
        if Within(gs) != 0.0 {
          var ssB := Between(gs, grand);
          var msB := ssB / (|gs| - 1) as real;
          var msW := Within(gs) / dfWithin as real;
          assert msB >= 0.0 && msW > 0.0;
          assert msB / msW >= 0.0;
        }
      }
    }
  }

  lemma FZeroIff(gs: seq<seq<real>>)
    requires OneWayAnova(gs).Ok?
    ensures OneWayAnova(gs).value.f == 0.0 <==> OneWayAnova(gs).value.ssBetween == 0.0
    ensures OneWayAnova(gs).value.ssBetween == Between(gs, Average(Flatten(gs)))
  {
    FlattenLength(gs);
    var all := Flatten(gs);
    var grand := Average(all);
    var ssT := SqDev(all, grand);
    var ssB := Between(gs, grand);
    var dfB, dfW := |gs| - 1, |all| - |gs|;
    var ssW := ssT - ssB;
    var msB, msW := ssB / dfB as real, ssW / dfW as real;
    assert msW != 0.0;
    assert OneWayAnova(gs) == Ok(AnovaTable(ssT, ssB, ssW, dfB, dfW, msB / msW));
    DivZeroIff(ssB, dfB);
    QuotientZeroIff(msB, msW);
  }

  /** The zero-effect case: when F exists, it is 0 exactly when every group
      mean equals the grand mean, which is exactly when the between part is 0. */
  lemma AnovaZeroEffect(gs: seq<seq<real>>)
    requires OneWayAnova(gs).Ok?
    ensures OneWayAnova(gs).value.f == 0.0 <==> OneWayAnova(gs).value.ssBetween == 0.0
    ensures OneWayAnova(gs).value.f == 0.0 <==>
      forall j :: 0 <= j < |gs| ==> Average(gs[j]) == Average(Flatten(gs))
  {
    FlattenLength(gs);
    FZeroIff(gs);
    BetweenZeroIff(gs, Average(Flatten(gs)));
  }
}

/** The error part of `rmanova` on a rectangular matrix: what remains of the
    total once the conditions and subjects parts are taken away is the sum of
    squared interaction residuals `x[i][j] - rowMean[i] - columnMean[j] + grand`,
    so it is never negative, and it vanishes when every subject's row is
    constant. */
module Residuals {
  import opened Outcome
  import opened Sums
  import opened Means
  import opened Groups
  import opened Repeated

  /** Each row less its own mean. */
  function Centred(m: seq<seq<real>>): (y: seq<seq<real>>)
    requires AllNonEmpty(m)
    ensures |y| == |m|
    ensures forall i :: 0 <= i < |m| ==> |y[i]| == |m[i]|
  {
    seq(|m|, i requires 0 <= i < |m| => seq(|m[i]|, j requires 0 <= j < |m[i]| => m[i][j] - Average(m[i])))
  }

  lemma CentredRow(m: seq<seq<real>>, i: nat)
    requires AllNonEmpty(m) && i < |m|
    ensures forall j :: 0 <= j < |m[i]| ==> Centred(m)[i][j] == m[i][j] - Average(m[i])
  {
  }

  /** The row means, one per subject. */
  function RowMeans(m: seq<seq<real>>): (r: seq<real>)
    requires AllNonEmpty(m)
    ensures |r| == |m| && forall i :: 0 <= i < |m| ==> r[i] == Average(m[i])
  {
    seq(|m|, i requires 0 <= i < |m| => Average(m[i]))
  }

  /** Squared deviations from `centre`, column by column, over columns 0 to k - 1. */
  function ColumnSqDevs(m: seq<seq<real>>, k: nat, centre: real): real
    requires RowsCover(m, k)
  {
    if k == 0 then 0.0 else ColumnSqDevs(m, k - 1, centre) + SqDev(Column(m, k - 1), centre)
  }

  /** The interaction sum of squares over columns 0 to k - 1: each column of
      the centred matrix about its own mean. */
  function Interaction(m: seq<seq<real>>, k: nat): real
    requires |m| > 0 && AllNonEmpty(m) && RowsCover(m, k)
  {
    if k == 0 then 0.0
    else
      var column := Column(Centred(m), k - 1);
      Interaction(m, k - 1) + SqDev(column, Average(column))
  }

  lemma {:induction false} InteractionNonNegative(m: seq<seq<real>>, k: nat)
    requires |m| > 0 && AllNonEmpty(m) && RowsCover(m, k)
    ensures Interaction(m, k) >= 0.0
  {
    if k > 0 {
      InteractionNonNegative(m, k - 1);
      var column := Column(Centred(m), k - 1);
      SqDevNonNegative(column, Average(column));
    }
  }

  /** Shifting every entry by `r` shifts the centre by `r`. */
  lemma {:induction false} SqDevOffset(x: seq<real>, r: real, y: seq<real>)
    requires |y| == |x| && forall j :: 0 <= j < |x| ==> y[j] == x[j] - r
    ensures SqDev(y, 0.0) == SqDev(x, r)
  {
    if |x| > 0 {
      SqDevOffset(x[..|x| - 1], r, y[..|y| - 1]);
    }
  }

  lemma {:induction false} SumDifference(a: seq<real>, b: seq<real>, d: seq<real>)
    requires |a| == |b| == |d| && forall i :: 0 <= i < |d| ==> d[i] == a[i] - b[i]
    ensures Sum(d) == Sum(a) - Sum(b)
  {
    if |d| > 0 {
      SumDifference(a[..|a| - 1], b[..|b| - 1], d[..|d| - 1]);
    }
  }

  /** The within part is the squared size of the centred matrix. */
  lemma {:induction false} WithinIsCentred(m: seq<seq<real>>)
    requires AllNonEmpty(m)
    ensures Within(m) == SqDev(Flatten(Centred(m)), 0.0)
  {
    if |m| > 0 {
      var p := m[..|m| - 1];
      WithinIsCentred(p);
      var y, last := Centred(m), |m| - 1;
      assert y[..last] == Centred(p) by {
        forall i | 0 <= i < last
          ensures y[i] == Centred(p)[i]
        {
          assert p[i] == m[i];
        }
      }
      SqDevAppend(Flatten(Centred(p)), y[last], 0.0);
      CentredRow(m, last);
      SqDevOffset(m[last], Average(m[last]), y[last]);
    }
  }

  lemma {:induction false} ColumnSqDevsEmpty(m: seq<seq<real>>, k: nat, centre: real)
    requires |m| == 0
    ensures ColumnSqDevs(m, k, centre) == 0.0
  {
    if k > 0 {
      ColumnSqDevsEmpty(m, k - 1, centre);
    }
  }

  lemma ColumnAppendRow(p: seq<seq<real>>, row: seq<real>, c: nat)
    requires RowsCover(p, c + 1) && |row| > c
    ensures RowsCover(p + [row], c + 1)
    ensures Column(p + [row], c) == Column(p, c) + [row[c]]
  {
    var m := p + [row];
    assert forall i :: 0 <= i < |p| ==> m[i] == p[i];
    assert m[|p|] == row;
  }

  lemma {:induction false} ColumnSqDevsAppendRow(p: seq<seq<real>>, row: seq<real>, k: nat, centre: real)
    requires RowsCover(p, k) && |row| >= k
    ensures RowsCover(p + [row], k)
    ensures ColumnSqDevs(p + [row], k, centre) == ColumnSqDevs(p, k, centre) + SqDev(row[..k], centre)
  {
    if k > 0 {
      ColumnSqDevsAppendRow(p, row, k - 1, centre);
      ColumnAppendRow(p, row, k - 1);
      SnocSums(Column(p, k - 1), row[k - 1], centre);
      SqDevTake(row, k, centre);
    }
  }

  /** Summing squared deviations row by row or column by column gives the same total. */
  lemma {:induction false} ColumnsInterchange(m: seq<seq<real>>, c: nat, centre: real)
    requires Shaped(m, c)
    ensures RowsCover(m, c)
    ensures SqDev(Flatten(m), centre) == ColumnSqDevs(m, c, centre)
  {
    if |m| == 0 {
      ColumnSqDevsEmpty(m, c, centre);
    } else {
      var p, row := m[..|m| - 1], m[|m| - 1];
      ColumnsInterchange(p, c, centre);
      assert m == p + [row];
      ColumnSqDevsAppendRow(p, row, c, centre);
      assert row[..c] == row;
      SqDevAppend(Flatten(p), row, centre);
    }
  }

  /** In a matrix with `c` entries in every row there are R * c entries, and
      their sum is c times the sum of the row means. */
  lemma {:induction false} FlattenShaped(m: seq<seq<real>>, c: nat)
    requires c > 0 && Shaped(m, c)
    ensures AllNonEmpty(m)
    ensures |Flatten(m)| as real == Mul(|m| as real, c as real)
    ensures Sum(Flatten(m)) == Mul(c as real, Sum(RowMeans(m)))
  {
    if |m| > 0 {
      var p, row := m[..|m| - 1], m[|m| - 1];
      FlattenShaped(p, c);
      RowMeansSnoc(m);
      SumAppend(Flatten(p), row);
      MulQuotient(c as real, Sum(row));
      MulDistributes(c as real, Sum(RowMeans(p)), Average(row));
      MulDistributes(c as real, |p| as real, 1.0);
    }
  }

  lemma RowMeansSnoc(m: seq<seq<real>>)
    requires |m| > 0 && AllNonEmpty(m)
    ensures AllNonEmpty(m[..|m| - 1])
    ensures Sum(RowMeans(m)) == Sum(RowMeans(m[..|m| - 1])) + Average(m[|m| - 1])
  {
    assert RowMeans(m)[..|m| - 1] == RowMeans(m[..|m| - 1]);
  }

  lemma CancelCommon(c: real, s: real, r: real)
    requires c > 0.0 && r > 0.0
    ensures Mul(c, s) / Mul(r, c) == s / r
  {
    MulPositive(r, c);
    assert Mul(c, s) == Mul(s / r, Mul(r, c));
  }

  /** In a rectangular matrix the grand mean is the mean of the row means. */
  lemma GrandMeanOfRows(m: seq<seq<real>>)
    requires Rectangular(m) && |m[0]| > 0
    ensures AllNonEmpty(m) && |Flatten(m)| > 0
    ensures Average(Flatten(m)) == Sum(RowMeans(m)) / |m| as real
  {
    var c := |m[0]|;
    FlattenShaped(m, c);
    FlattenLength(m);
    CancelCommon(c as real, Sum(RowMeans(m)), |m| as real);
  }

  lemma CentredColumnSum(m: seq<seq<real>>, j: nat)
    requires AllNonEmpty(m) && RowsCover(m, j + 1)
    ensures RowsCover(Centred(m), j + 1)
    ensures Sum(Column(Centred(m), j)) == Sum(Column(m, j)) - Sum(RowMeans(m))
  {
    var y := Centred(m);
    var column, means, centred := Column(m, j), RowMeans(m), Column(y, j);
    forall i | 0 <= i < |m|
      ensures centred[i] == column[i] - means[i]
    {
      CentredRow(m, i);
      assert centred[i] == y[i][j];
    }
    SumDifference(column, means, centred);
  }

  /** Each column of the centred matrix averages to its column mean less
      the mean of the row means. */
  lemma CentredColumnMean(m: seq<seq<real>>, j: nat)
    requires |m| > 0 && AllNonEmpty(m) && RowsCover(m, j + 1)
    ensures RowsCover(Centred(m), j + 1)
    ensures Average(Column(Centred(m), j)) == Average(Column(m, j)) - Sum(RowMeans(m)) / |m| as real
  {
    CentredColumnSum(m, j);
    var n := |m| as real;
    var column, centred := Column(m, j), Column(Centred(m), j);
    var a, b := Sum(column), Sum(RowMeans(m));
    assert Average(centred) == (a - b) / n;
    assert Average(column) == a / n;
    DivideDifference(a, b, n);
  }

  lemma DivideDifference(a: real, b: real, n: real)
    requires n != 0.0
    ensures (a - b) / n == a / n - b / n
  {
  }

  /** Peeling the conditions part off the centred columns, column by column. */
  lemma {:induction false} ColumnsSplit(m: seq<seq<real>>, k: nat, grand: real)
    requires |m| > 0 && AllNonEmpty(m) && RowsCover(m, k)
    requires grand == Sum(RowMeans(m)) / |m| as real
    ensures RowsCover(Centred(m), k)
    ensures ColumnSqDevs(Centred(m), k, 0.0) == Interaction(m, k) + Conditions(m, k, grand)
  {
    if k > 0 {
      ColumnsSplit(m, k - 1, grand);
      CentredColumnMean(m, k - 1);
      var column := Column(Centred(m), k - 1);
      SqDevAtMean(column, 0.0);
      assert Average(column) - 0.0 == Average(Column(m, k - 1)) - grand;
    }
  }

  /** With `c` entries in every row, the subjects part is the between-rows part. */
  lemma {:induction false} SubjectsIsBetween(m: seq<seq<real>>, c: nat, grand: real)
    requires AllNonEmpty(m) && Shaped(m, c)
    ensures Subjects(m, c, grand) == Between(m, grand)
  {
    if |m| > 0 {
      SubjectsIsBetween(m[..|m| - 1], c, grand);
    }
  }

  /** On a rectangular matrix the three parts split the total exactly:
      total - subjects = within-subjects, and within-subjects - conditions =
      the interaction, so the error part is never negative. */
  lemma ErrorIsInteraction(m: seq<seq<real>>)
    requires Rectangular(m) && |m[0]| > 0
    ensures AllNonEmpty(m) && |Flatten(m)| > 0
    ensures var c, grand := |m[0]|, Average(Flatten(m));
      && SqDev(Flatten(m), grand) - Subjects(m, c, grand) == Within(m)
      && SqDev(Flatten(m), grand) - Conditions(m, c, grand) - Subjects(m, c, grand) == Interaction(m, c)
      && Interaction(m, c) >= 0.0
  {
    var c := |m[0]|;
    FlattenShaped(m, c);
    FlattenLength(m);
    var grand := Average(Flatten(m));
    Decomposition(m, grand);
    SubjectsIsBetween(m, c, grand);
    WithinIsCentred(m);
    ColumnsInterchange(Centred(m), c, 0.0);
    GrandMeanOfRows(m);
    ColumnsSplit(m, c, grand);
    InteractionNonNegative(m, c);
  }

  /** When F exists for a rectangular matrix, the error part is the
      interaction and strictly positive, the total is the sum of the three
      parts, and F is non-negative. */
  lemma RmRectangularOutcomes(m: seq<seq<real>>)
    requires Rectangular(m) && RepeatedMeasuresAnova(m).Ok?
    ensures |m[0]| > 0 && AllNonEmpty(m)
    ensures var t := RepeatedMeasuresAnova(m).value;
      && t.ssError == Interaction(m, |m[0]|) > 0.0
      && t.ssTotal == t.ssSubjects + t.ssConditions + t.ssError
      && t.f >= 0.0
  {
    RmDegrees(m);
    ErrorIsInteraction(m);
    RmTableOf(m);
    var t := RepeatedMeasuresAnova(m).value;
    DivZeroIff(t.ssError, t.dfError);
    QuotientSign(t.ssConditions, t.dfConditions as real);
    QuotientSign(t.ssError, t.dfError as real);
    QuotientSign(t.ssConditions / t.dfConditions as real, t.ssError / t.dfError as real);
  }

  /** When every subject scores the same under every condition, the
      conditions and error parts are both 0 and the mean square error
      division fails, so `rmanova` raises rather than returning F = 0. */
  lemma RmConstantRows(m: seq<seq<real>>)
    requires Rectangular(m) && |m[0]| > 0
    requires forall i, j :: 0 <= i < |m| && 0 <= j < |m[i]| ==> m[i][j] == m[i][0]
    ensures AllNonEmpty(m) && |Flatten(m)| > 0
    ensures var c, grand := |m[0]|, Average(Flatten(m));
      && Conditions(m, c, grand) == 0.0
      && SqDev(Flatten(m), grand) - Conditions(m, c, grand) - Subjects(m, c, grand) == 0.0
    ensures RepeatedMeasuresAnova(m) == Err(DivisionByZero)
  {
    ErrorIsInteraction(m);
    var c, grand := |m[0]|, Average(Flatten(m));
    forall i | 0 <= i < |m|
      ensures Average(m[i]) == m[i][0]
    {
      AverageConstant(m[i], m[i][0]);
    }
    WithinZeroIff(m);
    WithinIsCentred(m);
    ColumnsInterchange(Centred(m), c, 0.0);
    GrandMeanOfRows(m);
    ColumnsSplit(m, c, grand);
    ConditionsZeroIff(m, c, grand);
    InteractionNonNegative(m, c);
    if RepeatedMeasuresAnova(m).Ok? {
      RmRectangularOutcomes(m);
      assert false;
    }
  }
}

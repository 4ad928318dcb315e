/** `rmanova`: one-way repeated-measures analysis of variance over a matrix
    whose rows are subjects and whose columns are conditions, up to the F
    statistic and its degrees of freedom. */
module Repeated {
  import opened Outcome
  import opened Sums
  import opened Means
  import opened Groups

  datatype RmTable = RmTable(
    ssSubjects: real, ssConditions: real, ssTotal: real, ssError: real,
    dfConditions: int, dfError: int, f: real)

  /** Every row has at least `c` entries, so columns 0 to c - 1 can be read. */
  predicate RowsCover(m: seq<seq<real>>, c: int)
  {
    forall i :: 0 <= i < |m| ==> |m[i]| >= c
  }

  /** Every row has exactly `c` entries. */
  predicate Shaped(m: seq<seq<real>>, c: nat)
  {
    forall i :: 0 <= i < |m| ==> |m[i]| == c
  }

  /** A subject-by-condition matrix: at least one row, all rows as long as the first. */
  predicate Rectangular(m: seq<seq<real>>)
  {
    |m| > 0 && Shaped(m, |m[0]|)
  }

  /** `[datasets[row][column] for row in range(num_rows)]`. */
  function Column(m: seq<seq<real>>, c: nat): (col: seq<real>)
    requires RowsCover(m, c + 1)
    ensures |col| == |m|
    ensures forall i :: 0 <= i < |m| ==> col[i] == m[i][c]
  {
    seq(|m|, i requires 0 <= i < |m| => m[i][c])
  }

  /** `sum(num_columns * (row_mean - grand) ** 2)` over the rows. */
  function Subjects(m: seq<seq<real>>, columns: nat, grand: real): real
    requires AllNonEmpty(m)
  {
    if |m| == 0 then 0.0
    else Subjects(m[..|m| - 1], columns, grand) + Mul(columns as real, Square(Average(m[|m| - 1]) - grand))
  }

  /** `sum(num_rows * (column_mean - grand) ** 2)` over columns 0 to k - 1. */
  function Conditions(m: seq<seq<real>>, k: nat, grand: real): real
    requires |m| > 0 && RowsCover(m, k)
  {
    if k == 0 then 0.0
    else Conditions(m, k - 1, grand) + Mul(|m| as real, Square(Average(Column(m, k - 1)) - grand))
  }

  /** What `rmanova(datasets)` computes: an IndexError reading the first row
      of an empty matrix or a column past the end of a short row; a
      ZeroDivisionError from `calculate_mean` on an empty row, from one
      condition (C - 1 = 0), from one subject ((C - 1)(R - 1) = 0) or from a
      zero mean square error; otherwise the sums of squares and F. Rows longer
      than the first keep their extra entries in the row means and the total. */
  function RepeatedMeasuresAnova(m: seq<seq<real>>): (r: Result<RmTable>)
    ensures r.Err? ==> r.failure == IndexOutOfRange || r.failure == DivisionByZero
    ensures r == Err(IndexOutOfRange) <==> |m| == 0 || (AllNonEmpty(m) && !RowsCover(m, |m[0]|))
    ensures r.Ok? ==>
      && AllNonEmpty(m) && RowsCover(m, |m[0]|)
      && r.value.dfConditions == |m[0]| - 1
      && r.value.dfError == (|m[0]| - 1) * (|m| - 1)
  {
    if |m| == 0 then Err(IndexOutOfRange)
    else if !AllNonEmpty(m) then Err(DivisionByZero)
    else if !RowsCover(m, |m[0]|) then Err(IndexOutOfRange)
    else
      FlattenLength(m);
      var grand := Average(Flatten(m));
      Analysis(Subjects(m, |m[0]|, grand), Conditions(m, |m[0]|, grand), SqDev(Flatten(m), grand), |m|, |m[0]|)
  }

  /** The last step of `rmanova`: the error part is what the total leaves
      after the conditions and subjects parts; it fails on one condition,
      one subject or a zero mean square error. */
  function Analysis(ssSubjects: real, ssConditions: real, ssTotal: real, rows: nat, columns: nat): (r: Result<RmTable>)
    ensures r.Err? ==> r.failure == DivisionByZero
    ensures r.Ok? ==>
      && r.value.ssSubjects == ssSubjects && r.value.ssConditions == ssConditions && r.value.ssTotal == ssTotal
      && r.value.ssTotal == r.value.ssSubjects + r.value.ssConditions + r.value.ssError
      && r.value.dfConditions != 0 && r.value.dfError != 0 && r.value.ssError != 0.0
      && Mul(r.value.f, r.value.ssError / r.value.dfError as real) == r.value.ssConditions / r.value.dfConditions as real
  {
    var ssError := ssTotal - ssConditions - ssSubjects;
    var dfConditions, dfError := columns - 1, (columns - 1) * (rows - 1);
    if dfConditions == 0 || dfError == 0 || ssError / dfError as real == 0.0 then Err(DivisionByZero)
    else
      var f := (ssConditions / dfConditions as real) / (ssError / dfError as real);
      Ok(RmTable(ssSubjects, ssConditions, ssTotal, ssError, dfConditions, dfError, f))
  }

  /** `rmanova(datasets)`: the grand mean, one loop over the rows for the
      subjects, one over the columns for the conditions, then the mean
      squares and F. */
  method RmAnova(datasets: seq<seq<real>>) returns (r: Result<RmTable>)
    ensures r == RepeatedMeasuresAnova(datasets)
  {
    var numRows := |datasets|;
    if numRows == 0 {
      return Err(IndexOutOfRange);
    }
    var numColumns := |datasets[0]|;
    var allValues := Flatten(datasets);
    var overall := CalculateMean(allValues, false);
    if overall.Err? {
      assert !AllNonEmpty(datasets) by {
        if AllNonEmpty(datasets) {
          FlattenLength(datasets);
        }
      }
      return Err(DivisionByZero);
    }
    var allValuesMean := overall.value;
    var subjects := SubjectsSum(datasets, numColumns, allValuesMean);
    if subjects.None? {
      return Err(DivisionByZero);
    }
    var conditions := ConditionsSum(datasets, allValuesMean);
    if conditions.None? {
      return Err(IndexOutOfRange);
    }
    var sumSquaresTotal := SqDev(allValues, allValuesMean);
    r := MeanSquares(subjects.value, conditions.value, sumSquaresTotal, numRows, numColumns);
  }

  /** The mean squares and F from the three sums of squares. */
  method MeanSquares(sumSquaresSubjects: real, sumSquaresConditions: real, sumSquaresTotal: real,
                     numRows: nat, numColumns: nat) returns (r: Result<RmTable>)
    ensures r == Analysis(sumSquaresSubjects, sumSquaresConditions, sumSquaresTotal, numRows, numColumns)
  {
    var sumSquaresError := sumSquaresTotal - sumSquaresConditions - sumSquaresSubjects;
    var dfConditions := numColumns - 1;
    var dfError := (numColumns - 1) * (numRows - 1);
    if dfConditions == 0 || dfError == 0 {
      return Err(DivisionByZero);
    }
    var meanSquaresConditions := sumSquaresConditions / dfConditions as real;
    var meanSquaresError := sumSquaresError / dfError as real;
    if meanSquaresError == 0.0 {
      return Err(DivisionByZero);
    }
    var fStat := meanSquaresConditions / meanSquaresError;
    r := Ok(RmTable(sumSquaresSubjects, sumSquaresConditions, sumSquaresTotal, sumSquaresError,
                    dfConditions, dfError, fStat));
  }

  /** The subjects loop: fails on the first empty row, whose mean divides by zero. */
  method SubjectsSum(datasets: seq<seq<real>>, numColumns: nat, allValuesMean: real) returns (r: Option<real>)
    ensures r.None? <==> !AllNonEmpty(datasets)
    ensures r.Some? ==> AllNonEmpty(datasets) && r.value == Subjects(datasets, numColumns, allValuesMean)
  {
    var sumSquaresSubjects := 0.0;
    for i := 0 to |datasets|
      invariant AllNonEmpty(datasets[..i])
      invariant sumSquaresSubjects == Subjects(datasets[..i], numColumns, allValuesMean)
    {
      var dataMean := CalculateMean(datasets[i], false);
      if dataMean.Err? {
        return None;
      }
      assert datasets[..i + 1][..i] == datasets[..i];
      sumSquaresSubjects := sumSquaresSubjects + Mul(numColumns as real, Square(dataMean.value - allValuesMean));
    }
    assert datasets[..|datasets|] == datasets;
    return Some(sumSquaresSubjects);
  }

  /** The conditions loop over the columns of the first row: fails on the
      first column some row is too short for. */
  method ConditionsSum(datasets: seq<seq<real>>, allValuesMean: real) returns (r: Option<real>)
    requires |datasets| > 0
    ensures r.None? <==> !RowsCover(datasets, |datasets[0]|)
    ensures r.Some? ==> RowsCover(datasets, |datasets[0]|) && r.value == Conditions(datasets, |datasets[0]|, allValuesMean)
  {
    var sumSquaresConditions := 0.0;
    for column := 0 to |datasets[0]|
      invariant RowsCover(datasets, column)
      invariant sumSquaresConditions == Conditions(datasets, column, allValuesMean)
    {
      var gathered := GatherColumn(datasets, column);
      if gathered.None? {
        return None;
      }
      var columnData := gathered.value;
      var columnMean := CalculateMean(columnData, false);
      sumSquaresConditions := sumSquaresConditions + Mul(|datasets| as real, Square(columnMean.value - allValuesMean));
    }
    return Some(sumSquaresConditions);
  }

  /** `[datasets[row][column] for row in range(num_rows)]`, failing at the
      first row too short to have that column. */
  method GatherColumn(datasets: seq<seq<real>>, column: nat) returns (r: Option<seq<real>>)
    ensures r.None? <==> !RowsCover(datasets, column + 1)
    ensures r.Some? ==> RowsCover(datasets, column + 1) && r.value == Column(datasets, column)
  {
    var columnData: seq<real> := [];
    for row := 0 to |datasets|
      invariant |columnData| == row
      invariant forall k :: 0 <= k < row ==> column < |datasets[k]| && columnData[k] == datasets[k][column]
    {
      if column >= |datasets[row]| {
        return None;
      }
      columnData := columnData + [datasets[row][column]];
    }
    return Some(columnData);
  }

  lemma ScaledSquareNonNegative(n: real, x: real)
    requires n >= 0.0
    ensures Mul(n, Square(x)) >= 0.0
  {
    SquareSign(x);
    if n > 0.0 && x != 0.0 {
      MulPositive(n, Square(x));
    }
  }

  lemma {:induction false} SubjectsNonNegative(m: seq<seq<real>>, columns: nat, grand: real)
    requires AllNonEmpty(m)
    ensures Subjects(m, columns, grand) >= 0.0
  {
    if |m| > 0 {
      SubjectsNonNegative(m[..|m| - 1], columns, grand);
      ScaledSquareNonNegative(columns as real, Average(m[|m| - 1]) - grand);
    }
  }

  /** The conditions part is non-negative, and zero exactly when every
      column mean equals the grand mean. */
  lemma {:induction false} ConditionsZeroIff(m: seq<seq<real>>, k: nat, grand: real)
    requires |m| > 0 && RowsCover(m, k)
    ensures Conditions(m, k, grand) >= 0.0
    ensures Conditions(m, k, grand) == 0.0 <==> forall c :: 0 <= c < k ==> Average(Column(m, c)) == grand
  {
    if k > 0 {
      ConditionsZeroIff(m, k - 1, grand);
      WeightedSquareSign(|m| as real, Average(Column(m, k - 1)) - grand);
    }
  }

  /** The fields of a successful table, named. */
  lemma RmTableOf(m: seq<seq<real>>)
    requires RepeatedMeasuresAnova(m).Ok?
    ensures |m| > 0 && AllNonEmpty(m) && RowsCover(m, |m[0]|) && |Flatten(m)| > 0
    ensures var t, grand := RepeatedMeasuresAnova(m).value, Average(Flatten(m));
      && t.ssSubjects == Subjects(m, |m[0]|, grand)
      && t.ssConditions == Conditions(m, |m[0]|, grand)
      && t.ssTotal == SqDev(Flatten(m), grand)
      && t.ssError == t.ssTotal - t.ssConditions - t.ssSubjects
      && t.dfConditions == |m[0]| - 1 && t.dfConditions != 0
      && t.dfError == (|m[0]| - 1) * (|m| - 1) && t.dfError != 0
      && t.ssError / t.dfError as real != 0.0
      && t.f == (t.ssConditions / t.dfConditions as real) / (t.ssError / t.dfError as real)
  {
    FlattenLength(m);
    var grand := Average(Flatten(m));
    var ssS, ssC, ssT := Subjects(m, |m[0]|, grand), Conditions(m, |m[0]|, grand), SqDev(Flatten(m), grand);
    assert RepeatedMeasuresAnova(m) == Analysis(ssS, ssC, ssT, |m|, |m[0]|);
    AnalysisFields(ssS, ssC, ssT, |m|, |m[0]|);
  }

  lemma AnalysisFields(ssSubjects: real, ssConditions: real, ssTotal: real, rows: nat, columns: nat)
    requires Analysis(ssSubjects, ssConditions, ssTotal, rows, columns).Ok?
    ensures var t := Analysis(ssSubjects, ssConditions, ssTotal, rows, columns).value;
      && t.ssSubjects == ssSubjects && t.ssConditions == ssConditions && t.ssTotal == ssTotal
      && t.ssError == ssTotal - ssConditions - ssSubjects
      && t.dfConditions == columns - 1 && t.dfConditions != 0
      && t.dfError == (columns - 1) * (rows - 1) && t.dfError != 0
      && t.ssError / t.dfError as real != 0.0
      && t.f == (t.ssConditions / t.dfConditions as real) / (t.ssError / t.dfError as real)
  {
  }

  /** When F exists there are at least two subjects and two conditions, the
      degrees of freedom are C - 1 and (C - 1)(R - 1) >= 1, and the subjects
      and conditions parts are non-negative. */
  lemma RmDegrees(m: seq<seq<real>>)
    requires RepeatedMeasuresAnova(m).Ok?
    ensures var t := RepeatedMeasuresAnova(m).value;
      && |m| >= 2 && |m[0]| >= 2
      && t.dfConditions == |m[0]| - 1
      && t.dfError == (|m[0]| - 1) * (|m| - 1) >= 1
      && t.ssSubjects >= 0.0 && t.ssConditions >= 0.0
  {
    RmTableOf(m);
    var columns, grand := |m[0]|, Average(Flatten(m));
    SubjectsNonNegative(m, columns, grand);
    ConditionsZeroIff(m, columns, grand);
    ProductOfNaturals(columns - 1, |m| - 1);
  }

  lemma ProductOfNaturals(a: int, b: int)
    requires a >= 0 && b >= 0 && a * b != 0
    ensures a >= 1 && b >= 1 && a * b >= 1
  {
    if a >= 1 && b >= 1 {
      assert a * b >= b;
    }
  }

  /** An empty matrix fails reading `datasets[0]`; a row too short for a
      column fails reading that column; with every row non-empty and long
      enough, one subject or one condition is a division by zero. */
  lemma RmGuards(m: seq<seq<real>>)
    ensures |m| == 0 ==> RepeatedMeasuresAnova(m) == Err(IndexOutOfRange)
    ensures |m| > 0 && AllNonEmpty(m) && !RowsCover(m, |m[0]|) ==> RepeatedMeasuresAnova(m) == Err(IndexOutOfRange)
    ensures |m| > 0 && !AllNonEmpty(m) ==> RepeatedMeasuresAnova(m) == Err(DivisionByZero)
    ensures |m| > 0 && AllNonEmpty(m) && RowsCover(m, |m[0]|) && (|m| == 1 || |m[0]| == 1) ==>
      RepeatedMeasuresAnova(m) == Err(DivisionByZero)
  {
  }

  /** The zero-effect case: when F exists, it is 0 exactly when the
      conditions part is 0, that is, when every column mean equals the grand
      mean. */
  lemma RmZeroEffect(m: seq<seq<real>>)
    requires RepeatedMeasuresAnova(m).Ok?
    ensures RepeatedMeasuresAnova(m).value.f == 0.0 <==> RepeatedMeasuresAnova(m).value.ssConditions == 0.0
    ensures RepeatedMeasuresAnova(m).value.f == 0.0 <==>
      forall c :: 0 <= c < |m[0]| ==> Average(Column(m, c)) == Average(Flatten(m))
  {
    RmTableOf(m);
    var t := RepeatedMeasuresAnova(m).value;
    ConditionsZeroIff(m, |m[0]|, Average(Flatten(m)));
    DivZeroIff(t.ssConditions, t.dfConditions);
    QuotientZeroIff(t.ssConditions / t.dfConditions as real, t.ssError / t.dfError as real);
  }
}

/** `calculate_mean` and `harmonic_mean`: arithmetic and harmonic means of a
    list of numbers, and harmonic means of a list of lists. */
module Means {
  import opened Outcome
  import opened Sums

  /** `sum(data) / len(data)` for a list known to be non-empty. */
  function Average(data: seq<real>): real
    requires |data| > 0
  {
    Sum(data) / |data| as real
  }

  /** The arithmetic branch of `calculate_mean`: dividing by the length of an
      empty list raises ZeroDivisionError. */
  function ArithmeticMean(data: seq<real>): (r: Result<real>)
    ensures r.Err? <==> |data| == 0
    ensures r.Err? ==> r.failure == DivisionByZero
    ensures r.Ok? ==> Mul(|data| as real, r.value) == Sum(data)
  {
    if |data| == 0 then Err(DivisionByZero) else Ok(Average(data))
  }

  /** The harmonic branch of `calculate_mean`: the length counts every element,
      zero elements add nothing to the reciprocal sum, and a zero reciprocal
      sum raises ZeroDivisionError. */
  function HarmonicMean(data: seq<real>): (r: Result<real>)
    ensures r.Err? <==> ReciprocalSum(data) == 0.0
    ensures r.Err? ==> r.failure == DivisionByZero
    ensures r.Ok? ==> Mul(r.value, ReciprocalSum(data)) == |data| as real
  {
    var rs := ReciprocalSum(data);
    if rs == 0.0 then Err(DivisionByZero) else Ok(|data| as real / rs)
  }

  /** `calculate_mean(data, use_harmonic)`. */
  function CalculateMean(data: seq<real>, useHarmonic: bool): (r: Result<real>)
    ensures !useHarmonic ==> (r.Err? <==> |data| == 0)
    ensures useHarmonic ==> (r.Err? <==> ReciprocalSum(data) == 0.0)
    ensures r.Err? ==> r.failure == DivisionByZero
    ensures r.Ok? && !useHarmonic ==> Mul(|data| as real, r.value) == Sum(data)
    ensures r.Ok? && useHarmonic ==> Mul(r.value, ReciprocalSum(data)) == |data| as real
  {
    if useHarmonic then HarmonicMean(data) else ArithmeticMean(data)
  }

  /** The mean of a list lies between any lower and upper bound of its elements. */
  lemma {:induction false} AverageBounds(data: seq<real>, lo: real, hi: real)
    requires |data| > 0
    requires forall i :: 0 <= i < |data| ==> lo <= data[i] <= hi
    ensures lo <= Average(data) <= hi
  {
    SumBounds(data, lo, hi);
  }

  lemma {:induction false} SumBounds(data: seq<real>, lo: real, hi: real)
    requires forall i :: 0 <= i < |data| ==> lo <= data[i] <= hi
    ensures Mul(|data| as real, lo) <= Sum(data) <= Mul(|data| as real, hi)
  {
    if |data| > 0 {
      var p := data[..|data| - 1];
      SumBounds(p, lo, hi);
      MulDistributes(lo, |p| as real, 1.0);
      MulDistributes(hi, |p| as real, 1.0);
    }
  }

  /** The mean of copies of one value is that value. */
  lemma AverageConstant(data: seq<real>, c: real)
    requires |data| > 0
    requires forall i :: 0 <= i < |data| ==> data[i] == c
    ensures Average(data) == c
  {
    AverageBounds(data, c, c);
  }

  /** Appending a zero counts one more element but adds nothing to the
      reciprocal sum, so it scales a defined harmonic mean by (n + 1) / n. */
  lemma HarmonicMeanAppendZero(data: seq<real>)
    ensures ReciprocalSum(data + [0.0]) == ReciprocalSum(data)
    ensures HarmonicMean(data + [0.0]).Err? <==> HarmonicMean(data).Err?
    ensures HarmonicMean(data).Ok? ==>
      HarmonicMean(data + [0.0]).value == (|data| as real + 1.0) / ReciprocalSum(data)
  {
    assert (data + [0.0])[..|data|] == data;
  }

  /** A list holding only zeros (the empty list included) has no harmonic mean. */
  lemma {:induction false} HarmonicMeanAllZeros(data: seq<real>)
    requires forall i :: 0 <= i < |data| ==> data[i] == 0.0
    ensures HarmonicMean(data) == Err(DivisionByZero)
  {
    if |data| > 0 {
      HarmonicMeanAllZeros(data[..|data| - 1]);
    }
  }

  /** One entry of the list `harmonic_mean` builds: a number, or the string
      "error: divided by zero". */
  datatype HarmonicEntry = Mean(value: real) | DividedByZero

  /** The entry `harmonic_mean` appends for one dataset. */
  function EntryFor(data: seq<real>): (e: HarmonicEntry)
    ensures |data| == 0 ==> e == Mean(0.0)
    ensures |data| > 0 && ReciprocalSum(data) == 0.0 ==> e == DividedByZero
    ensures |data| > 0 && ReciprocalSum(data) != 0.0 ==>
      e == Mean(|data| as real / ReciprocalSum(data))
  {
    if |data| == 0 then Mean(0.0)
    else
      match HarmonicMean(data)
      case Ok(h) => Mean(h)
      case Err(_) => DividedByZero
  }

  /** The dataset [1, 2, 4] has reciprocal sum 7/4, so its entry is 3 / (7/4) = 12/7. */
  lemma HarmonicEntryExample()
    ensures EntryFor([1.0, 2.0, 4.0]) == Mean(12.0 / 7.0)
  {
    var d := [1.0, 2.0, 4.0];
    assert d[..2] == [1.0, 2.0];
    assert d[..2][..1] == [1.0];
    assert [1.0][..0] == [];
    assert ReciprocalSum(d) == 1.75;
  }

  /** The list `harmonic_mean` builds: one entry per dataset, in input order. */
  method HarmonicMeans(datasets: seq<seq<real>>) returns (results: seq<HarmonicEntry>)
    ensures |results| == |datasets|
    ensures forall i :: 0 <= i < |datasets| ==> results[i] == EntryFor(datasets[i])
  {
    results := [];
    for j := 0 to |datasets|
      invariant |results| == j
      invariant forall i :: 0 <= i < j ==> results[i] == EntryFor(datasets[i])
    {
      var data := datasets[j];
      if |data| == 0 {
        results := results + [Mean(0.0)];
        continue;
      }
      var h := CalculateMean(data, true);
      match h {
        case Ok(v) => results := results + [Mean(v)];
        case Err(_) => results := results + [DividedByZero];
      }
    }
  }

  /** `harmonic_mean` as written: the loop builds its list, but the function
      has no `return` statement, so every caller receives `None`. */
  method HarmonicMeanAsWritten(datasets: seq<seq<real>>) returns (r: Option<seq<HarmonicEntry>>)
    ensures r == None
  {
    var results := HarmonicMeans(datasets);
    r := None;
  }
}

/** Finite sums over sequences of reals, the building blocks of every
    formula in the statistics routines, with the algebra they obey. */
module Sums {

  /** `sum(s)`, accumulated from the front as a left fold does. */
  function Sum(s: seq<real>): real
  {
    if |s| == 0 then 0.0 else Sum(s[..|s| - 1]) + s[|s| - 1]
  }

  /** The reciprocal a harmonic mean adds for one element: zero elements add nothing. */
  function Reciprocal(x: real): real
  {
    if x != 0.0 then 1.0 / x else 0.0
  }

  /** `sum(1.0 / x for x in s if x != 0)`: over non-negative elements it is
      non-negative, and zero exactly when every element is zero. */
  function ReciprocalSum(s: seq<real>): (r: real)
    ensures (forall i :: 0 <= i < |s| ==> s[i] >= 0.0) ==>
      r >= 0.0 && (r == 0.0 <==> forall i :: 0 <= i < |s| ==> s[i] == 0.0)
  {
    if |s| == 0 then 0.0 else ReciprocalSum(s[..|s| - 1]) + Reciprocal(s[|s| - 1])
  }

  /** The product of two reals. Squares are written through it so that the
      solver sees `x * x` as one product of two factors. */
  function Mul(a: real, b: real): real
  {
    a * b
  }

  function Square(x: real): real
  {
    Mul(x, x)
  }

  lemma MulPositive(a: real, b: real)
    requires (a > 0.0 && b > 0.0) || (a < 0.0 && b < 0.0)
    ensures Mul(a, b) > 0.0
  {
  }

  lemma SquarePositive(x: real)
    requires x != 0.0
    ensures Square(x) > 0.0
  {
    MulPositive(x, x);
  }

  /** A square is never negative, and it is zero only at zero. */
  lemma SquareSign(x: real)
    ensures Square(x) >= 0.0
    ensures Square(x) == 0.0 <==> x == 0.0
  {
    if x != 0.0 {
      SquarePositive(x);
    }
  }

  /** `sum((x - c) ** 2 for x in s)`: the squared deviations of `s` about `c`. */
  function SqDev(s: seq<real>, c: real): real
  {
    if |s| == 0 then 0.0 else SqDev(s[..|s| - 1], c) + Square(s[|s| - 1] - c)
  }

  lemma {:induction false} SumAppend(a: seq<real>, b: seq<real>)
    ensures Sum(a + b) == Sum(a) + Sum(b)
  {
    if |b| > 0 {
      assert (a + b)[..|a + b| - 1] == a + b[..|b| - 1];
      SumAppend(a, b[..|b| - 1]);
    } else {
      assert a + b == a;
    }
  }

  lemma {:induction false} SqDevAppend(a: seq<real>, b: seq<real>, c: real)
    ensures SqDev(a + b, c) == SqDev(a, c) + SqDev(b, c)
  {
    if |b| > 0 {
      assert (a + b)[..|a + b| - 1] == a + b[..|b| - 1];
      SqDevAppend(a, b[..|b| - 1], c);
    } else {
      assert a + b == a;
    }
  }

  /** A sum of squares is never negative. */
  lemma {:induction false} SqDevNonNegative(s: seq<real>, c: real)
    ensures SqDev(s, c) >= 0.0
  {
    if |s| > 0 {
      SqDevNonNegative(s[..|s| - 1], c);
      SquareSign(s[|s| - 1] - c);
    }
  }

  /** The squared deviations about `c` vanish exactly when every element is `c`. */
  lemma {:induction false} SqDevZeroIff(s: seq<real>, c: real)
    ensures SqDev(s, c) == 0.0 <==> forall i :: 0 <= i < |s| ==> s[i] == c
  {
    if |s| > 0 {
      var p := s[..|s| - 1];
      SqDevZeroIff(p, c);
      SquareSign(s[|s| - 1] - c);
      SqDevNonNegative(p, c);
      assert forall i :: 0 <= i < |p| ==> p[i] == s[i];
    }
  }

  lemma MulDistributes(k: real, y: real, z: real)
    ensures Mul(k, y) + Mul(k, z) == Mul(k, y + z)
    ensures Mul(y, k) + Mul(z, k) == Mul(y + z, k)
  {
  }

  /** (u + d)² = u² + 2ud + d². */
  lemma SquareOfSum(u: real, d: real)
    ensures Square(u + d) == Square(u) + 2.0 * Mul(d, u) + Square(d)
  {
    MulDistributes(u + d, u, d);
    MulDistributes(u, u, d);
    MulDistributes(d, u, d);
  }

  /** Moving the centre from `a` to `c`:
      Σ(x - c)² = Σ(x - a)² + 2(a - c)(Σx - |s|·a) + |s|·(a - c)². */
  lemma {:induction false} SqDevShift(s: seq<real>, c: real, a: real)
    ensures SqDev(s, c)
         == SqDev(s, a) + 2.0 * Mul(a - c, Sum(s) - Mul(|s| as real, a)) + Mul(|s| as real, Square(a - c))
  {
    if |s| > 0 {
      var p, x := s[..|s| - 1], s[|s| - 1];
      var d, n := a - c, |p| as real;
      SqDevShift(p, c, a);
      SquareOfSum(x - a, d);
      assert x - c == (x - a) + d;
      MulDistributes(d, Sum(p) - Mul(n, a), x - a);
      MulDistributes(a, n, 1.0);
      MulDistributes(Square(d), n, 1.0);
      assert Sum(p) - Mul(n, a) + (x - a) == Sum(s) - Mul(n + 1.0, a);
    }
  }

  lemma QuotientZeroIff(x: real, y: real)
    requires y != 0.0
    ensures x / y == 0.0 <==> x == 0.0
  {
    if x / y == 0.0 {
      assert x == (x / y) * y;
    }
  }

  /** Dividing by a non-zero count leaves a real zero exactly when it was zero. */
  lemma DivZeroIff(x: real, k: int)
    requires k != 0
    ensures x / k as real == 0.0 <==> x == 0.0
  {
    QuotientZeroIff(x, k as real);
  }

  lemma MulDivCancel(k: real, x: real)
    requires k != 0.0
    ensures Mul(k, x) / k == x
  {
  }

  lemma DivideNegation(a: real, d: real)
    requires d != 0.0
    ensures -a / d == -(a / d)
  {
  }

  lemma MulQuotient(n: real, s: real)
    requires n != 0.0
    ensures Mul(n, s / n) == s
  {
  }

  lemma QuotientSign(x: real, y: real)
    requires x >= 0.0 && y > 0.0
    ensures x / y >= 0.0
    ensures x > 0.0 ==> x / y > 0.0
  {
  }

  /** One more element adds itself to the sum and its square deviation to SqDev. */
  lemma SnocSums(s: seq<real>, x: real, c: real)
    ensures Sum(s + [x]) == Sum(s) + x
    ensures SqDev(s + [x], c) == SqDev(s, c) + Square(x - c)
  {
    assert (s + [x])[..|s|] == s;
  }

  /** A prefix one longer adds one square deviation. */
  lemma SqDevTake(s: seq<real>, k: nat, c: real)
    requires 0 < k <= |s|
    ensures SqDev(s[..k], c) == SqDev(s[..k - 1], c) + Square(s[k - 1] - c)
  {
    assert s[..k][..k - 1] == s[..k - 1];
  }
}

/** The error and similarity arithmetic of MathUtil, over exact reals.

    Square roots are not modelled: rootMeanSquaredError is represented by its
    square (the mean squared error), magnitude by its square, and a cosine
    similarity by its numerator together with the square of its denominator.
    Java arrays are sequences; the null checks collapse into the emptiness
    checks because a sequence is never null.
 */
module MathUtil {
  import opened Wrappers

  const IntMax: int := 0x7fff_ffff
  const IntMin: int := -0x8000_0000

  function Abs(x: real): real {
    if x < 0.0 then -x else x
  }

  function Square(x: real): real {
    x * x
  }

  /** The shared argument check: both arrays non-empty and of equal length. */
  predicate ValidPair(first: seq<real>, second: seq<real>) {
    |first| > 0 && |second| > 0 && |first| == |second|
  }

  /* ---------------------------------------------------------------------- */
  /* Real arithmetic facts                                                   */
  /* ---------------------------------------------------------------------- */

  lemma ProductPositive(a: real, b: real, c: real)
    requires a > 0.0 && b > 0.0 && c == a * b
    ensures c > 0.0
  {
  }

  lemma ProductNonNegative(a: real, b: real)
    requires a >= 0.0 && b >= 0.0
    ensures a * b >= 0.0
  {
  }

  lemma SquareOfPositive(y: real)
    requires y > 0.0
    ensures Square(y) > 0.0
  {
    ProductPositive(y, y, Square(y));
  }

  lemma SquareOfNegation(x: real)
    ensures Square(x) == Square(-x)
  {
  }

  /** A square is never negative, and positive exactly away from zero. */
  lemma SquareSign(x: real)
    ensures Square(x) >= 0.0
    ensures Square(x) > 0.0 <==> x != 0.0
  {
    if x > 0.0 {
      SquareOfPositive(x);
    } else if x < 0.0 {
      SquareOfPositive(-x);
      SquareOfNegation(x);
    } else {
      assert Square(x) == 0.0 * 0.0;
    }
  }

  lemma SquareOfAbs(x: real)
    ensures Square(Abs(x)) == Square(x)
  {
    if x < 0.0 {
      SquareOfNegation(x);
    }
  }

  lemma SquareOfProduct(x: real, y: real)
    ensures Square(x * y) == Square(x) * Square(y)
  {
  }

  /** Dividing out a positive factor keeps the sign. */
  lemma PositiveFactor(a: real, g: real)
    requires a > 0.0 && a * g >= 0.0
    ensures g >= 0.0
  {
  }

  lemma Distribute(k: real, m: real)
    ensures k * m + m == (k + 1.0) * m
  {
  }

  /** A mean of non-negative terms is zero exactly when their sum is. */
  lemma QuotientSign(q: real, n: real)
    requires q >= 0.0 && n > 0.0
    ensures q / n >= 0.0
    ensures q / n == 0.0 <==> q == 0.0
  {
    assert (q / n) * n == q;
  }

  /* ---------------------------------------------------------------------- */
  /* Sums, accumulated left to right as the Java loops do                    */
  /* ---------------------------------------------------------------------- */

  /** Sum of |e[i] - a[i]|. */
  function AbsErrorSum(e: seq<real>, a: seq<real>): real
    requires |e| == |a|
  {
    if |e| == 0 then 0.0
    else AbsErrorSum(e[..|e| - 1], a[..|a| - 1]) + Abs(e[|e| - 1] - a[|a| - 1])
  }

  /** Sum of (e[i] - a[i])^2. */
  function SquaredErrorSum(e: seq<real>, a: seq<real>): real
    requires |e| == |a|
  {
    if |e| == 0 then 0.0
    else SquaredErrorSum(e[..|e| - 1], a[..|a| - 1]) + Square(e[|e| - 1] - a[|a| - 1])
  }

  /** Sum of u[i] * v[i]. */
  function DotSum(u: seq<real>, v: seq<real>): real
    requires |u| == |v|
  {
    if |u| == 0 then 0.0 else DotSum(u[..|u| - 1], v[..|v| - 1]) + u[|u| - 1] * v[|v| - 1]
  }

  /** Sum of u[i]^2. */
  function SumOfSquares(u: seq<real>): real {
    if |u| == 0 then 0.0 else SumOfSquares(u[..|u| - 1]) + Square(u[|u| - 1])
  }

  /* ---------------------------------------------------------------------- */
  /* meanAbsoluteError and rootMeanSquaredError                              */
  /* ---------------------------------------------------------------------- */

  /** MathUtil.meanAbsoluteError. */
  function MeanAbsoluteError(expected: seq<real>, actual: seq<real>): (r: Result<real, Exception>)
    ensures r.Success? <==> ValidPair(expected, actual)
    ensures r.Failure? ==> r.error == IllegalArgument
    ensures r.Success? ==> r.value >= 0.0
    ensures r.Success? ==> (r.value == 0.0 <==> expected == actual)
  {
    if !ValidPair(expected, actual) then Failure(IllegalArgument)
    else
      AbsErrorSumZero(expected, actual);
      QuotientSign(AbsErrorSum(expected, actual), |expected| as real);
      Success(AbsErrorSum(expected, actual) / |expected| as real)
  }

  /** MathUtil.rootMeanSquaredError, squared: the mean squared error. */
  function MeanSquaredError(expected: seq<real>, actual: seq<real>): (r: Result<real, Exception>)
    ensures r.Success? <==> ValidPair(expected, actual)
    ensures r.Failure? ==> r.error == IllegalArgument
    ensures r.Success? ==> r.value >= 0.0
    ensures r.Success? ==> (r.value == 0.0 <==> expected == actual)
  {
    if !ValidPair(expected, actual) then Failure(IllegalArgument)
    else
      SquaredErrorSumZero(expected, actual);
      QuotientSign(SquaredErrorSum(expected, actual), |expected| as real);
      Success(SquaredErrorSum(expected, actual) / |expected| as real)
  }

  lemma {:induction false} AbsErrorSumZero(e: seq<real>, a: seq<real>)
    requires |e| == |a|
    ensures AbsErrorSum(e, a) >= 0.0
    ensures AbsErrorSum(e, a) == 0.0 <==> e == a
  {
    if |e| > 0 {
      var n := |e| - 1;
      AbsErrorSumZero(e[..n], a[..n]);
      assert e == e[..n] + [e[n]] && a == a[..n] + [a[n]];
    }
  }

  lemma {:induction false} SquaredErrorSumZero(e: seq<real>, a: seq<real>)
    requires |e| == |a|
    ensures SquaredErrorSum(e, a) >= 0.0
    ensures SquaredErrorSum(e, a) == 0.0 <==> e == a
  {
    if |e| > 0 {
      var n := |e| - 1;
      SquaredErrorSumZero(e[..n], a[..n]);
      SquareSign(e[n] - a[n]);
      assert e == e[..n] + [e[n]] && a == a[..n] + [a[n]];
      assert e == a <==> e[..n] == a[..n] && e[n] == a[n];
    }
  }

  lemma {:induction false} AbsErrorSumSymmetric(e: seq<real>, a: seq<real>)
    requires |e| == |a|
    ensures AbsErrorSum(e, a) == AbsErrorSum(a, e)
  {
    if |e| > 0 {
      AbsErrorSumSymmetric(e[..|e| - 1], a[..|a| - 1]);
    }
  }

  lemma {:induction false} SquaredErrorSumSymmetric(e: seq<real>, a: seq<real>)
    requires |e| == |a|
    ensures SquaredErrorSum(e, a) == SquaredErrorSum(a, e)
  {
    if |e| > 0 {
      SquaredErrorSumSymmetric(e[..|e| - 1], a[..|a| - 1]);
      SquareOfNegation(e[|e| - 1] - a[|a| - 1]);
    }
  }

  /** The mean absolute error does not depend on which array is "expected". */
  lemma MeanAbsoluteErrorSymmetric(expected: seq<real>, actual: seq<real>)
    ensures MeanAbsoluteError(expected, actual) == MeanAbsoluteError(actual, expected)
  {
    if |expected| == |actual| {
      AbsErrorSumSymmetric(expected, actual);
    }
  }

  /** Neither does the (root) mean squared error. */
  lemma MeanSquaredErrorSymmetric(expected: seq<real>, actual: seq<real>)
    ensures MeanSquaredError(expected, actual) == MeanSquaredError(actual, expected)
  {
    if |expected| == |actual| {
      SquaredErrorSumSymmetric(expected, actual);
    }
  }

  /* ---------------------------------------------------------------------- */
  /* Cauchy–Schwarz                                                          */
  /* ---------------------------------------------------------------------- */

  lemma CauchySchwarzIdentity(x: real, y: real, a: real, b: real, c: real)
    ensures a * (x * x * b + a * (y * y) - 2.0 * c * (x * y))
      == (a * y - c * x) * (a * y - c * x) + x * x * (a * b - c * c)
  {
  }

  /** One induction step of Cauchy–Schwarz: adding the pair (x, y) to sums
      a = sum u^2, b = sum v^2, c = sum uv keeps c^2 <= a * b. */
  lemma CauchySchwarzStep(x: real, y: real, a: real, b: real, c: real)
    requires a >= 0.0 && b >= 0.0 && Square(c) <= a * b
    ensures Square(c + x * y) <= (a + Square(x)) * (b + Square(y))
  {
    SquareSign(x);
    SquareSign(c);
    ProductNonNegative(Square(x), b);
    SquareOfProduct(x, y);
    var lhs := Square(c) + 2.0 * c * (x * y) + Square(x) * Square(y);
    var rhs := a * b + Square(x) * b + a * Square(y) + Square(x) * Square(y);
    assert Square(c + x * y) == lhs;
    assert (a + Square(x)) * (b + Square(y)) == rhs;
    if a == 0.0 {
      assert c == 0.0;
    } else {
      var gap := Square(x) * b + a * Square(y) - 2.0 * c * (x * y);
      CauchySchwarzIdentity(x, y, a, b, c);
      SquareSign(a * y - c * x);
      ProductNonNegative(Square(x), a * b - Square(c));
      PositiveFactor(a, gap);
    }
  }

  /** (sum u[i] v[i])^2 <= (sum u[i]^2) * (sum v[i]^2). */
  lemma {:induction false} CauchySchwarz(u: seq<real>, v: seq<real>)
    requires |u| == |v|
    ensures Square(DotSum(u, v)) <= SumOfSquares(u) * SumOfSquares(v)
  {
    if |u| > 0 {
      var n := |u| - 1;
      CauchySchwarz(u[..n], v[..n]);
      SumOfSquaresPositive(u[..n]);
      SumOfSquaresPositive(v[..n]);
      CauchySchwarzStep(u[n], v[n], SumOfSquares(u[..n]), SumOfSquares(v[..n]), DotSum(u[..n], v[..n]));
    }
  }

  /* ---------------------------------------------------------------------- */
  /* RMSE against MAE                                                        */
  /* ---------------------------------------------------------------------- */

  function AbsDifferences(e: seq<real>, a: seq<real>): (d: seq<real>)
    requires |e| == |a|
    ensures |d| == |e|
    ensures forall i :: 0 <= i < |d| ==> d[i] == Abs(e[i] - a[i])
  {
    seq(|e|, i requires 0 <= i < |e| => Abs(e[i] - a[i]))
  }

  function Ones(n: nat): (r: seq<real>)
    ensures |r| == n
    ensures forall i :: 0 <= i < n ==> r[i] == 1.0
  {
    seq(n, i => 1.0)
  }

  lemma {:induction false} AbsErrorSumAsDotSum(e: seq<real>, a: seq<real>)
    requires |e| == |a|
    ensures DotSum(AbsDifferences(e, a), Ones(|e|)) == AbsErrorSum(e, a)
  {
    if |e| > 0 {
      var n := |e| - 1;
      AbsErrorSumAsDotSum(e[..n], a[..n]);
      assert AbsDifferences(e, a)[..n] == AbsDifferences(e[..n], a[..n]);
      assert Ones(|e|)[..n] == Ones(n);
    }
  }

  lemma {:induction false} SquaredErrorSumAsSumOfSquares(e: seq<real>, a: seq<real>)
    requires |e| == |a|
    ensures SumOfSquares(AbsDifferences(e, a)) == SquaredErrorSum(e, a)
  {
    if |e| > 0 {
      var n := |e| - 1;
      SquaredErrorSumAsSumOfSquares(e[..n], a[..n]);
      assert AbsDifferences(e, a)[..n] == AbsDifferences(e[..n], a[..n]);
      SquareOfAbs(e[n] - a[n]);
    }
  }

  lemma {:induction false} SumOfSquaresOnes(n: nat)
    ensures SumOfSquares(Ones(n)) == n as real
  {
    if n > 0 {
      SumOfSquaresOnes(n - 1);
      assert Ones(n)[..n - 1] == Ones(n - 1);
    }
  }

  /** The root mean squared error is never below the mean absolute error:
      RMSE^2 >= MAE^2, both being defined on the same arguments. */
  lemma {:induction false} RootMeanSquaredErrorAtLeastMae(expected: seq<real>, actual: seq<real>)
    requires ValidPair(expected, actual)
    ensures MeanSquaredError(expected, actual).value >= Square(MeanAbsoluteError(expected, actual).value)
  {
    var n := |expected| as real;
    var d := AbsDifferences(expected, actual);
    AbsErrorSumAsDotSum(expected, actual);
    SquaredErrorSumAsSumOfSquares(expected, actual);
    SumOfSquaresOnes(|expected|);
    CauchySchwarz(d, Ones(|expected|));
    var s := AbsErrorSum(expected, actual);
    var q := SquaredErrorSum(expected, actual);
    MeanSquareBound(s, q, n);
  }

  /** s^2 <= q * n with n > 0 gives (s / n)^2 <= q / n. */
  lemma MeanSquareBound(s: real, q: real, n: real)
    requires n > 0.0 && Square(s) <= q * n
    ensures Square(s / n) <= q / n
  {
    var m := s / n;
    assert s == m * n;
    SquareOfProduct(m, n);
    var mm := Square(m);
    assert Square(s) == mm * (n * n);
    assert (q - mm * n) * n == q * n - mm * (n * n);
    PositiveFactor(n, q - mm * n);
    var r := q / n;
    assert r * n == q;
    assert (r - mm) * n == q - mm * n;
    PositiveFactor(n, r - mm);
  }

  /** When every error has the same magnitude, RMSE equals MAE. */
  lemma {:induction false} EqualErrorsRmseIsMae(expected: seq<real>, actual: seq<real>, m: real)
    requires ValidPair(expected, actual)
    requires forall i :: 0 <= i < |expected| ==> Abs(expected[i] - actual[i]) == m
    ensures MeanSquaredError(expected, actual).value == Square(MeanAbsoluteError(expected, actual).value)
  {
    var n := |expected| as real;
    ConstantErrorSums(expected, actual, m);
    DivideBack(n, m);
    DivideBack(n, Square(m));
  }

  lemma DivideBack(n: real, m: real)
    requires n > 0.0
    ensures (n * m) / n == m
  {
  }

  lemma {:induction false} ConstantErrorSums(e: seq<real>, a: seq<real>, m: real)
    requires |e| == |a|
    requires forall i :: 0 <= i < |e| ==> Abs(e[i] - a[i]) == m
    ensures AbsErrorSum(e, a) == |e| as real * m
    ensures SquaredErrorSum(e, a) == |e| as real * Square(m)
  {
    ConstantAbsErrorSum(e, a, m);
    ConstantSquares(e, a, m);
    ConstantSquaredErrorSum(e, a, Square(m));
  }

  lemma {:induction false} ConstantSquares(e: seq<real>, a: seq<real>, m: real)
    requires |e| == |a|
    requires forall i :: 0 <= i < |e| ==> Abs(e[i] - a[i]) == m
    ensures forall i :: 0 <= i < |e| ==> Square(e[i] - a[i]) == Square(m)
  {
    forall i | 0 <= i < |e|
      ensures Square(e[i] - a[i]) == Square(m)
    {
      SquareOfAbs(e[i] - a[i]);
    }
  }

  lemma {:induction false} ConstantAbsErrorSum(e: seq<real>, a: seq<real>, m: real)
    requires |e| == |a|
    requires forall i :: 0 <= i < |e| ==> Abs(e[i] - a[i]) == m
    ensures AbsErrorSum(e, a) == |e| as real * m
  {
    if |e| > 0 {
      var n := |e| - 1;
      forall i | 0 <= i < n ensures Abs(e[..n][i] - a[..n][i]) == m {
        assert e[..n][i] == e[i] && a[..n][i] == a[i];
      }
      ConstantAbsErrorSum(e[..n], a[..n], m);
      assert AbsErrorSum(e, a) == AbsErrorSum(e[..n], a[..n]) + m;
      Distribute(n as real, m);
    }
  }

  lemma {:induction false} ConstantSquaredErrorSum(e: seq<real>, a: seq<real>, mm: real)
    requires |e| == |a|
    requires forall i :: 0 <= i < |e| ==> Square(e[i] - a[i]) == mm
    ensures SquaredErrorSum(e, a) == |e| as real * mm
  {
    if |e| > 0 {
      var n := |e| - 1;
      forall i | 0 <= i < n ensures Square(e[..n][i] - a[..n][i]) == mm {
        assert e[..n][i] == e[i] && a[..n][i] == a[i];
      }
      ConstantSquaredErrorSum(e[..n], a[..n], mm);
      assert SquaredErrorSum(e, a) == SquaredErrorSum(e[..n], a[..n]) + mm;
      Distribute(n as real, mm);
    }
  }

  /* ---------------------------------------------------------------------- */
  /* dotProduct                                                              */
  /* ---------------------------------------------------------------------- */

  /** MathUtil.dotProduct. */
  function DotProduct(first: seq<real>, second: seq<real>): (r: Result<real, Exception>)
    ensures r.Success? <==> ValidPair(first, second)
    ensures r.Failure? ==> r.error == IllegalArgument
  {
    if !ValidPair(first, second) then Failure(IllegalArgument)
    else Success(DotSum(first, second))
  }

  lemma {:induction false} DotSumSymmetric(u: seq<real>, v: seq<real>)
    requires |u| == |v|
    ensures DotSum(u, v) == DotSum(v, u)
  {
    if |u| > 0 {
      DotSumSymmetric(u[..|u| - 1], v[..|v| - 1]);
    }
  }

  lemma DotProductSymmetric(first: seq<real>, second: seq<real>)
    ensures DotProduct(first, second) == DotProduct(second, first)
  {
    if |first| == |second| {
      DotSumSymmetric(first, second);
    }
  }

  /** The dot product of an array with itself is its squared magnitude. */
  lemma {:induction false} DotSumSelf(u: seq<real>)
    ensures DotSum(u, u) == SumOfSquares(u)
  {
    if |u| > 0 {
      DotSumSelf(u[..|u| - 1]);
    }
  }

  /* ---------------------------------------------------------------------- */
  /* magnitude                                                               */
  /* ---------------------------------------------------------------------- */

  /** Java's narrowing of a double to int (section 5.1.3 of the Java
      Language Specification): round toward zero, saturate at the int range. */
  function DoubleToInt(x: real): (r: int)
    ensures IntMin <= r <= IntMax
    ensures x >= IntMax as real ==> r == IntMax
    ensures x <= IntMin as real ==> r == IntMin
    ensures 0.0 <= x < IntMax as real ==> r as real <= x < r as real + 1.0
    ensures IntMin as real < x < 0.0 ==> r as real - 1.0 < x <= r as real
  {
    if x >= IntMax as real then IntMax
    else if x <= IntMin as real then IntMin
    else if x >= 0.0 then x.Floor
    else -((-x).Floor)
  }

  /** The `int sum` accumulator of magnitude: `sum += arr[i] * arr[i]`
      narrows the double result back to int after every step. */
  function IntSumOfSquares(arr: seq<real>): int {
    if |arr| == 0 then 0
    else DoubleToInt(IntSumOfSquares(arr[..|arr| - 1]) as real + Square(arr[|arr| - 1]))
  }

  /** MathUtil.magnitude as written, squared: the int accumulator. */
  function MagnitudeSquaredAsWritten(arr: seq<real>): (r: Result<int, Exception>)
    ensures r.Success? <==> |arr| > 0
    ensures r.Failure? ==> r.error == IllegalArgument
    ensures r.Success? ==> 0 <= r.value <= IntMax
    ensures r.Success? ==> r.value as real <= SumOfSquares(arr)
  {
    if |arr| == 0 then Failure(IllegalArgument)
    else
      IntSumOfSquaresBounds(arr);
      Success(IntSumOfSquares(arr))
  }

  /** The int accumulator never overestimates the sum of squares. */
  lemma {:induction false} IntSumOfSquaresBounds(arr: seq<real>)
    ensures 0 <= IntSumOfSquares(arr) <= IntMax
    ensures IntSumOfSquares(arr) as real <= SumOfSquares(arr)
  {
    if |arr| > 0 {
      var n := |arr| - 1;
      IntSumOfSquaresBounds(arr[..n]);
      SquareSign(arr[n]);
    }
  }

  /** MathUtil.magnitude with the evidently intended double accumulator,
      squared: the exact sum of squares. */
  function MagnitudeSquared(arr: seq<real>): (r: Result<real, Exception>)
    ensures r.Success? <==> |arr| > 0
    ensures r.Failure? ==> r.error == IllegalArgument
    ensures r.Success? ==> r.value >= 0.0
    ensures r.Success? ==> (r.value > 0.0 <==> exists i :: 0 <= i < |arr| && arr[i] != 0.0)
    ensures r.Success? ==> r.value == DotProduct(arr, arr).value
  {
    if |arr| == 0 then Failure(IllegalArgument)
    else
      SumOfSquaresPositive(arr);
      DotSumSelf(arr);
      Success(SumOfSquares(arr))
  }

  lemma {:induction false} SumOfSquaresPositive(u: seq<real>)
    ensures SumOfSquares(u) >= 0.0
    ensures SumOfSquares(u) > 0.0 <==> exists i :: 0 <= i < |u| && u[i] != 0.0
  {
    if |u| > 0 {
      var n := |u| - 1;
      SumOfSquaresPositive(u[..n]);
      SquareSign(u[n]);
      assert forall i :: 0 <= i < n ==> u[..n][i] == u[i];
    }
  }

  predicate IsIntegral(x: real) {
    x == x.Floor as real
  }

  lemma IntegralSquare(x: real)
    requires IsIntegral(x)
    ensures Square(x) == (x.Floor * x.Floor) as real
  {
    var k := x.Floor;
    assert x == k as real;
  }

  /** On integer-valued arrays whose sum of squares fits in an int, the
      int accumulator loses nothing. */
  lemma {:induction false} IntSumOfSquaresExact(arr: seq<real>)
    requires forall i :: 0 <= i < |arr| ==> IsIntegral(arr[i])
    requires SumOfSquares(arr) <= IntMax as real
    ensures IntSumOfSquares(arr) as real == SumOfSquares(arr)
  {
    if |arr| > 0 {
      var n := |arr| - 1;
      var x := arr[n];
      SumOfSquaresPositive(arr[..n]);
      SquareSign(x);
      assert forall i :: 0 <= i < n ==> arr[..n][i] == arr[i];
      IntSumOfSquaresExact(arr[..n]);
      IntegralSquare(x);
      var before := IntSumOfSquares(arr[..n]);
      var total := before + x.Floor * x.Floor;
      assert IntSumOfSquares(arr) == DoubleToInt(before as real + Square(x));
      assert before as real + Square(x) == total as real;
      assert 0 <= total <= IntMax;
      assert DoubleToInt(total as real) == total;
    }
  }

  lemma MagnitudeAgreesOnIntegers(arr: seq<real>)
    requires |arr| > 0
    requires forall i :: 0 <= i < |arr| ==> IsIntegral(arr[i])
    requires SumOfSquares(arr) <= IntMax as real
    ensures MagnitudeSquaredAsWritten(arr).value as real == MagnitudeSquared(arr).value
  {
    IntSumOfSquaresExact(arr);
  }

  /* ---------------------------------------------------------------------- */
  /* cosineSimilarity                                                        */
  /* ---------------------------------------------------------------------- */

  /** A cosine similarity dot / (|first| * |second|), kept as its numerator
      and the square of its denominator. With a zero denominator the Java
      division yields NaN or an infinity. */
  datatype Cosine = Cosine(dot: real, firstSquared: real, secondSquared: real) {

    /** The Java division has a finite result. */
    predicate Defined() {
      firstSquared > 0.0 && secondSquared > 0.0
    }

    /** The same division with the magnitudes multiplied the other way
        round. */
    function Swapped(): Cosine {
      Cosine(dot, secondSquared, firstSquared)
    }

    /** -1 <= dot / (sqrt(firstSquared) * sqrt(secondSquared)) <= 1. */
    predicate InUnitRange() {
      Square(dot) <= firstSquared * secondSquared
    }
  }

  /** MathUtil.cosineSimilarity as written, using the int-accumulating magnitude. */
  function CosineSimilarityAsWritten(first: seq<real>, second: seq<real>): (r: Result<Cosine, Exception>)
    ensures r.Success? <==> ValidPair(first, second)
    ensures r.Failure? ==> r.error == IllegalArgument
    ensures r.Success? ==> r.value.dot == DotProduct(first, second).value
    ensures r.Success? ==>
      && r.value.firstSquared == MagnitudeSquaredAsWritten(first).value as real
      && r.value.secondSquared == MagnitudeSquaredAsWritten(second).value as real
  {
    if !ValidPair(first, second) then DotProduct(first, second).PropagateFailure()
    else
      var dot := DotProduct(first, second).value;
      var m1 := MagnitudeSquaredAsWritten(first).value;
      var m2 := MagnitudeSquaredAsWritten(second).value;
      Success(Cosine(dot, m1 as real, m2 as real))
  }

  /** MathUtil.cosineSimilarity with the corrected magnitude. */
  function CosineSimilarity(first: seq<real>, second: seq<real>): (r: Result<Cosine, Exception>)
    ensures r.Success? <==> ValidPair(first, second)
    ensures r.Failure? ==> r.error == IllegalArgument
    ensures r.Success? ==> r.value.dot == DotProduct(first, second).value
    ensures r.Success? ==> r.value.InUnitRange()
    ensures r.Success? ==> r.value.firstSquared >= 0.0 && r.value.secondSquared >= 0.0
    ensures r.Success? ==>
      && r.value.firstSquared == MagnitudeSquared(first).value
      && r.value.secondSquared == MagnitudeSquared(second).value
  {
    if !ValidPair(first, second) then DotProduct(first, second).PropagateFailure()
    else
      var dot := DotProduct(first, second).value;
      var m1 := MagnitudeSquared(first).value;
      var m2 := MagnitudeSquared(second).value;
      CauchySchwarz(first, second);
      Success(Cosine(dot, m1, m2))
  }

  /** Cosine similarity does not depend on the order of its arguments: the
      same numerator over the same two magnitudes, multiplied the other way
      round. */
  lemma CosineSimilaritySymmetric(first: seq<real>, second: seq<real>)
    ensures CosineSimilarity(first, second).Success? == CosineSimilarity(second, first).Success?
    ensures CosineSimilarity(first, second).Success? ==>
      CosineSimilarity(first, second).value == CosineSimilarity(second, first).value.Swapped()
  {
    DotProductSymmetric(first, second);
  }

  /** There is no zero-magnitude guard in the source; the division is
      finite whenever neither array is all zeros, as holds for explicit
      (non-zero) ratings, see `Similarity.SimDefined`. */
  lemma CosineSimilarityDefined(first: seq<real>, second: seq<real>)
    requires ValidPair(first, second)
    requires exists i :: 0 <= i < |first| && first[i] != 0.0
    requires exists i :: 0 <= i < |second| && second[i] != 0.0
    ensures CosineSimilarity(first, second).value.Defined()
  {
    var c := CosineSimilarity(first, second).value;
    assert c.firstSquared == MagnitudeSquared(first).value > 0.0;
    assert c.secondSquared == MagnitudeSquared(second).value > 0.0;
  }

  /** Inputs the int accumulator mishandles: for [1.5] against itself the
      as-written result is 2.25 / sqrt(2 * 2) = 1.125, outside [-1, 1], and
      for [0.5] against itself the denominator truncates to 0. */
  lemma CosineAsWrittenOutOfRange()
    ensures CosineSimilarityAsWritten([1.5], [1.5]) == Success(Cosine(2.25, 2.0, 2.0))
    ensures !CosineSimilarityAsWritten([1.5], [1.5]).value.InUnitRange()
    ensures CosineSimilarityAsWritten([0.5], [0.5]) == Success(Cosine(0.25, 0.0, 0.0))
    ensures !CosineSimilarityAsWritten([0.5], [0.5]).value.Defined()
    ensures CosineSimilarity([1.5], [1.5]).value.InUnitRange()
  {
    assert [1.5][..0] == [];
    assert [0.5][..0] == [];
    assert IntSumOfSquares([1.5]) == DoubleToInt(2.25) == 2;
    assert IntSumOfSquares([0.5]) == DoubleToInt(0.25) == 0;
  }

  /** Integer entries too large for the int accumulator: 50000^2 saturates
      at Integer.MAX_VALUE, and the as-written cosine exceeds 1. */
  lemma CosineAsWrittenSaturates()
    ensures CosineSimilarityAsWritten([50000.0], [50000.0])
      == Success(Cosine(2500000000.0, IntMax as real, IntMax as real))
    ensures !CosineSimilarityAsWritten([50000.0], [50000.0]).value.InUnitRange()
  {
    assert [50000.0][..0] == [];
    assert IntSumOfSquares([50000.0]) == DoubleToInt(2500000000.0) == IntMax;
  }

  /** On integer-valued arrays whose sums of squares fit in an int, the
      as-written cosine equals the corrected one. */
  lemma CosineAgreesOnIntegers(first: seq<real>, second: seq<real>)
    requires ValidPair(first, second)
    requires forall i :: 0 <= i < |first| ==> IsIntegral(first[i])
    requires forall i :: 0 <= i < |second| ==> IsIntegral(second[i])
    requires SumOfSquares(first) <= IntMax as real && SumOfSquares(second) <= IntMax as real
    ensures CosineSimilarityAsWritten(first, second) == CosineSimilarity(first, second)
  {
    MagnitudeAgreesOnIntegers(first);
    MagnitudeAgreesOnIntegers(second);
    CosineFromMagnitudes(first, second);
  }

  /** Where the two magnitudes agree, so do the two cosines. */
  lemma CosineFromMagnitudes(first: seq<real>, second: seq<real>)
    requires ValidPair(first, second)
    requires MagnitudeSquaredAsWritten(first).value as real == MagnitudeSquared(first).value
    requires MagnitudeSquaredAsWritten(second).value as real == MagnitudeSquared(second).value
    ensures CosineSimilarityAsWritten(first, second) == CosineSimilarity(first, second)
  {
  }
}

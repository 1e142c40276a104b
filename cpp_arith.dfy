/**
  The few pieces of C++ integer arithmetic the accumulator relies on, stated
  over unbounded integers. Dafny's own `/` is Euclidean; C++ `/` truncates
  toward zero, and the two differ for a negative numerator.
 */
module CppArith {

  /**
    C++ `/` for a positive divisor: the quotient truncated toward zero, so it
    has the sign of the dividend and is no larger in magnitude. The exact
    bounds on the remainder are `TDivTruncates`.
   */
  function TDiv(a: int, b: int): (q: int)
    requires b > 0
    ensures 0 <= a ==> 0 <= q <= a
    ensures a < 0 ==> a <= q <= 0
  {
    if a >= 0 then
      EuclideanQuotient(a, b);
      NonNegTimesPos(a / b, b);
      a / b
    else
      EuclideanQuotient(-a, b);
      NonNegTimesPos((-a) / b, b);
      -((-a) / b)
  }

  /**
    What truncation toward zero means: the quotient times the divisor lies
    between zero and the dividend, less than one divisor away from it.
   */
  lemma TDivTruncates(a: int, b: int)
    requires b > 0
    ensures 0 <= a ==> 0 <= TDiv(a, b) * b <= a < TDiv(a, b) * b + b
    ensures a < 0 ==> TDiv(a, b) * b - b < a <= TDiv(a, b) * b <= 0
  {
    if a >= 0 {
      EuclideanQuotient(a, b);
    } else {
      EuclideanQuotient(-a, b);
      assert (-((-a) / b)) * b == -(((-a) / b) * b);
    }
  }

  /** For a non-negative dividend Dafny's `/` already truncates. */
  lemma EuclideanQuotient(a: int, b: int)
    requires 0 <= a && 0 < b
    ensures 0 <= a / b * b <= a < a / b * b + b
  {
    var q, r := a / b, a % b;
    assert a == q * b + r && 0 <= r < b;
    if q < 0 {
      NegTimesPos(q, b);
      assert false;
    }
    NonNegTimesPos(q, b);
  }

  lemma NonNegTimesPos(x: int, y: int)
    requires 0 <= x && 0 < y
    ensures 0 <= x <= x * y
  {
    assert x * y - x == x * (y - 1);
  }

  lemma NegTimesPos(x: int, y: int)
    requires x < 0 && 0 < y
    ensures x * y <= x && x * y <= -y
  {
    NonNegTimesPos(-x, y);
    NonNegTimesPos(y, -x);
    assert (-x) * y == -(x * y) == y * (-x);
  }

  /** `std::abs`, which has no overflowing argument on unbounded integers. */
  function Abs(x: int): (r: int)
    ensures r >= 0
    ensures r == x || r == -x
  {
    if x < 0 then -x else x
  }

  function Min(a: int, b: int): (r: int)
    ensures r <= a && r <= b
    ensures r == a || r == b
  {
    if a < b then a else b
  }

  /** `y` lies in the closed interval spanned by `x` and `z`, whichever of them is smaller. */
  predicate Between(x: int, y: int, z: int)
  {
    (x <= y <= z) || (z <= y <= x)
  }

  /**
    Truncating division by a positive divisor moves a value toward zero and
    never past it, and dividing by 1 changes nothing.
   */
  lemma TDivShrinks(a: int, b: int)
    requires b > 0
    ensures 0 <= a ==> 0 <= TDiv(a, b) <= a
    ensures a < 0 ==> a <= TDiv(a, b) <= 0
    ensures b == 1 ==> TDiv(a, b) == a
  {
    var q := TDiv(a, b);
    TDivTruncates(a, b);
    if 0 <= a {
      if q < 0 {
        NegTimesPos(q, b);
      } else {
        NonNegTimesPos(q, b);
      }
    } else {
      if q >= 0 {
        NonNegTimesPos(q, b);
      } else {
        NegTimesPos(q, b);
        assert q * b - b < a;
      }
    }
  }
}

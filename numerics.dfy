/** Numeric helpers shared by the density-mapping model: optional values for
    computations that can fail, the C++ double-to-int conversion, and the
    elementary functions of the C maths library, which Dafny cannot define
    over its exact reals and which are therefore passed in as parameters. */
module Numerics {

  datatype Option<T> = None | Some(value: T)

  /** Sum of two partial values; a failed operand makes the sum fail. */
  function Plus(a: Option<real>, b: Option<real>): Option<real> {
    if a.Some? && b.Some? then Some(a.value + b.value) else None
  }

  /** Difference of two partial values. */
  function Minus(a: Option<real>, b: Option<real>): Option<real> {
    if a.Some? && b.Some? then Some(a.value - b.value) else None
  }

  /** A real multiple of a partial value. */
  function Times(s: real, a: Option<real>): Option<real> {
    if a.Some? then Some(s * a.value) else None
  }

  /** The linear blend f x + (1 - f) y of `gridded_integral`: weight 0
      gives y, weight 1 gives x. */
  function Blend(f: real, x: real, y: real): (b: real)
    ensures f == 0.0 ==> b == y
    ensures f == 1.0 ==> b == x
  {
    f * x + (1.0 - f) * y
  }

  /** With a weight in [0, 1] a blend lies between its two ends. */
  lemma BlendWithin(f: real, x: real, y: real)
    requires 0.0 <= f <= 1.0
    ensures (x <= y ==> x <= Blend(f, x, y) <= y) && (y <= x ==> y <= Blend(f, x, y) <= x)
  {
    if x <= y {
      MulNonneg(1.0 - f, y - x);
      MulNonneg(f, y - x);
    } else {
      MulNonneg(1.0 - f, x - y);
      MulNonneg(f, x - y);
    }
  }

  lemma MulNonneg(a: real, b: real)
    requires 0.0 <= a && 0.0 <= b
    ensures 0.0 <= a * b
  {
  }

  lemma MulPositive(a: real, b: real)
    requires 0.0 < a && 0.0 < b
    ensures 0.0 < a * b
  {
  }

  /** Of two non-negative numbers, the one with the larger square is the
      larger. */
  lemma SquareOrder(a: real, b: real)
    requires 0.0 <= a && 0.0 <= b && b * b <= a * a
    ensures b <= a
  {
    if a < b {
      MulPositive(b - a, b + a);
    }
  }

  /** A product with a positive factor is zero only when the other factor
      is. */
  lemma ZeroFactor(a: real, b: real)
    requires 0.0 < a && a * b == 0.0
    ensures b == 0.0
  {
  }

  lemma SumOfSquaresPositive(r: real, R: real)
    requires 0.0 < r
    ensures 0.0 < r * r + R * R
  {
  }

  /** A non-negative root of r^2 + R^2 with R positive exceeds r. */
  lemma RootOfSumAbove(s: real, r: real, R: real)
    requires 0.0 <= s && 0.0 <= r && 0.0 < R && s * s == r * r + R * R
    ensures r < s
  {
    MulNonneg(R, R);
    SquareOrder(s, r);
    if s == r {
      ZeroFactor(R, R);
    }
  }

  /** Taking n bins of width w off x leaves a remainder that, measured in
      bins, is x / w - n. */
  lemma Unscale(w: real, x: real, n: int)
    requires 0.0 < w
    ensures (x - w * n as real) / w == x / w - n as real
  {
    var f := (x - w * n as real) / w;
    assert f * w == x - w * n as real;
  }

  /** The bin of x on a grid of width w, found by truncation: in units of
      w, x is n plus the fraction f, and f lies in [0, 1) when x is not
      negative. */
  lemma TruncatedBin(w: real, x: real, n: int, f: real)
    requires 0.0 < w && n == Trunc(x / w) && f == (x - w * n as real) / w
    ensures x / w == n as real + f
    ensures 0.0 <= x ==> 0.0 <= f < 1.0
  {
    Unscale(w, x, n);
    if 0.0 <= x {
      assert 0.0 <= x / w;
    }
  }

  lemma RatioBelowOne(a: real, b: real)
    requires 0.0 <= a < b
    ensures 0.0 <= a / b < 1.0
  {
  }

  lemma RatioPositive(a: real, b: real)
    requires 0.0 < a && 0.0 < b
    ensures 0.0 < a / b
  {
  }

  lemma ScaledAtMost(a: real, f: real)
    requires 0.0 <= a && 0.0 <= f <= 1.0
    ensures a * f <= a
  {
  }

  lemma PlusAssociative(a: Option<real>, b: Option<real>, c: Option<real>)
    ensures Plus(Plus(a, b), c) == Plus(a, Plus(b, c))
  {
  }

  function Abs(x: real): real { if x < 0.0 then -x else x }

  /** The conversion `int(x)` of C++, which truncates toward zero. */
  function Trunc(x: real): (n: int)
    ensures 0.0 <= x ==> 0 <= n && n as real <= x < n as real + 1.0
    ensures x < 0.0 ==> n <= 0 && n as real - 1.0 < x <= n as real
  {
    if x >= 0.0 then x.Floor else -((-x).Floor)
  }

  type NonNegReal = x: real | 0.0 <= x

  /** The elementary functions the source takes from <cmath>; a square root
      is never negative. */
  datatype Maths = Maths(sqrt: real -> NonNegReal, cos: real -> real, acos: real -> real, sin: real -> real)

  /** What the plane fit relies on for its division to be defined: the
      square root of a positive number is positive. */
  ghost predicate SqrtPositive(m: Maths) {
    forall x :: 0.0 < x ==> 0.0 < m.sqrt(x)
  }

  /** The facts about the library functions that the range arguments use:
      `sqrt` is the non-negative square root and `cos` inverts `acos` on
      [-1, 1]. */
  ghost predicate Sound(m: Maths) {
    SqrtPositive(m) &&
    (forall x :: 0.0 <= x ==> m.sqrt(x) * m.sqrt(x) == x) &&
    (forall x :: -1.0 <= x <= 1.0 ==> m.cos(m.acos(x)) == x)
  }
}

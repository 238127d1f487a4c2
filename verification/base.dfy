/**
  Shared vocabulary of the model: an optional value, the stand-ins for the
  floating-point library (tolerant comparison, square root, power) and the
  index arithmetic of row-major buffers.
 */
module Base {

  /** An optional value, the model of Rust's `Option`. */
  datatype Option<T> = None | Some(value: T)

  /** Absolute value of a real. */
  function Abs(x: real): (r: real)
    ensures r >= 0.0
    ensures r == x || r == -x
  {
    if x < 0.0 then -x else x
  }

  /** The tolerance the source passes to `approx_eq!` on every float comparison. */
  const EPSILON: real := 0.00001

  /** Tolerant equality of two scalars, the absolute-epsilon half of `approx_eq!`. */
  predicate ApproxEqual(a: real, b: real)
  {
    Abs(a - b) <= EPSILON
  }

  lemma ApproxEqualReflexiveSymmetric(a: real, b: real)
    ensures ApproxEqual(a, a)
    ensures ApproxEqual(a, b) <==> ApproxEqual(b, a)
  {
  }

  /**
    What the model relies on about `f64::sqrt`: on a non-negative argument it
    returns the non-negative root. The square root is a parameter of every
    operation that uses it.
   */
  ghost predicate IsSqrt(sqrt: real -> real)
  {
    forall x :: x >= 0.0 ==> Root(sqrt, x) >= 0.0 && Root(sqrt, x) * Root(sqrt, x) == x
  }

  /**
    `sqrt` applied to x. IsSqrt is stated on this term rather than on `sqrt(x)`,
    so that a proof draws on it only at the arguments RootOf names.
   */
  function Root(sqrt: real -> real, x: real): real
  {
    sqrt(x)
  }

  /** The two properties of IsSqrt at one argument. */
  lemma RootOf(sqrt: real -> real, x: real)
    requires IsSqrt(sqrt) && x >= 0.0
    ensures sqrt(x) >= 0.0 && sqrt(x) * sqrt(x) == x
  {
    assert Root(sqrt, x) == sqrt(x);
  }

  /**
    What the model relies on about `f64::powf`: one raised to any power is one,
    and a positive base gives a positive result.
   */
  ghost predicate IsPow(pow: (real, real) -> real)
  {
    forall b, e :: (b == 1.0 ==> Power(pow, b, e) == 1.0) && (b > 0.0 ==> Power(pow, b, e) > 0.0)
  }

  /** `pow` applied to (b, e); like Root, the term IsPow is stated on. */
  function Power(pow: (real, real) -> real, b: real, e: real): real
  {
    pow(b, e)
  }

  /** The two properties of IsPow at one base and exponent. */
  lemma PowOf(pow: (real, real) -> real, b: real, e: real)
    requires IsPow(pow)
    ensures b == 1.0 ==> pow(b, e) == 1.0
    ensures b > 0.0 ==> pow(b, e) > 0.0
  {
    assert Power(pow, b, e) == pow(b, e);
  }

  /** The root of a perfect square is determined by the two properties of IsSqrt. */
  lemma SqrtOfSquare(sqrt: real -> real, r: real)
    requires IsSqrt(sqrt)
    requires r >= 0.0
    ensures sqrt(r * r) == r
  {
    var s := sqrt(r * r);
    RootOf(sqrt, r * r);
    var d := r - s;
    var e := r + s;
    assert d * e == 0.0;
    if d > 0.0 {
      PositiveProduct(d, e, d * e);
    } else if d < 0.0 {
      PositiveProduct(-d, e, -d * e);
    }
  }

  /** The root of c^2 v, for c non-negative, is c times the root of v. */
  lemma SqrtOfScaled(sqrt: real -> real, v: real, c: real, h: real)
    requires IsSqrt(sqrt) && v >= 0.0 && c >= 0.0 && h == sqrt(v)
    ensures sqrt(c * c * v) == c * h
  {
    RootOf(sqrt, v);
    var t := c * h;
    assert t * t == c * c * v;
    SqrtOfSquare(sqrt, t);
    assert sqrt(t * t) == t;
  }

  /** The product of two positive reals, passed in as `p`, is positive. */
  lemma PositiveProduct(a: real, b: real, p: real)
    requires a > 0.0 && b > 0.0 && p == a * b
    ensures p > 0.0
  {
  }

  /** A square, passed in as `sq`, is non-negative and vanishes exactly at zero. */
  lemma SquareSign(v: real, sq: real)
    requires sq == v * v
    ensures sq >= 0.0
    ensures sq == 0.0 <==> v == 0.0
  {
    if v < 0.0 {
      PositiveProduct(-v, -v, sq);
    } else if v > 0.0 {
      PositiveProduct(v, v, sq);
    }
  }

  /** Two non-negative reals with the same square, passed in as `sq`, are equal. */
  lemma SameSquare(a: real, b: real, sq: real)
    requires a >= 0.0 && b >= 0.0
    requires sq == a * a && sq == b * b
    ensures a == b
  {
    var d := a - b;
    var e := a + b;
    assert d * e == 0.0;
    if d > 0.0 {
      PositiveProduct(d, e, d * e);
    } else if d < 0.0 {
      PositiveProduct(-d, e, -d * e);
    }
  }

  /** A positive argument has a positive root. */
  lemma SqrtPositive(sqrt: real -> real, x: real)
    requires IsSqrt(sqrt)
    requires x > 0.0
    ensures sqrt(x) > 0.0
  {
    RootOf(sqrt, x);
    SquareSign(sqrt(x), x);
  }

  // Row-major index arithmetic: cell (r, c) of an h-by-w buffer lives at r * w + c.

  lemma MulMonotone(a: nat, b: nat, w: nat)
    requires a <= b
    ensures a * w <= b * w
  {
  }

  /** One more row adds one more width to a flat index. */
  lemma NextRow(r: nat, w: nat)
    ensures r * w + w == (r + 1) * w
  {
  }

  /** A cell inside the grid has its flat index inside the buffer. */
  lemma FlatIndexInRange(r: nat, c: nat, h: nat, w: nat)
    requires r < h && c < w
    ensures r * w + c < h * w
  {
    MulMonotone(r + 1, h, w);
    assert (r + 1) * w == r * w + w;
  }

  /** The flat index determines the cell: dividing by the width recovers row and column. */
  lemma FlatIndexDivMod(r: nat, c: nat, w: nat)
    requires c < w
    ensures (r * w + c) / w == r
    ensures (r * w + c) % w == c
  {
    var k := r * w + c;
    var q, m := k / w, k % w;
    assert k == q * w + m && 0 <= m < w;
    if q < r {
      MulMonotone(q + 1, r, w);
    } else if q > r {
      MulMonotone(r + 1, q, w);
    }
  }

  /** Every flat index inside an h-by-w buffer is the index of some cell. */
  lemma FlatIndexSplit(k: nat, h: nat, w: nat)
    requires k < h * w
    ensures w > 0
    ensures k / w < h && k % w < w
    ensures (k / w) * w + k % w == k
  {
    if w > 0 && k / w >= h {
      MulMonotone(h, k / w, w);
    }
  }
}

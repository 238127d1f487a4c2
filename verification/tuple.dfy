/**
  Homogeneous four-component tuples: w = 1 marks a point, w = 0 a vector.
  One model covers both copies of the type in the repository: the crate's
  tuple and the earlier stand-alone copy, which has the same fields and
  arithmetic but no `reflect` and takes its operands by value.
 */
module Tuples {
  import opened Base

  datatype Tuple = Tuple(x: real, y: real, z: real, w: real)

  function Point(x: real, y: real, z: real): (p: Tuple)
    ensures IsPoint(p) && !IsVector(p)
    ensures p.x == x && p.y == y && p.z == z
  {
    Tuple(x, y, z, 1.0)
  }

  function Vector(x: real, y: real, z: real): (v: Tuple)
    ensures IsVector(v) && !IsPoint(v)
    ensures v.x == x && v.y == y && v.z == z
  {
    Tuple(x, y, z, 0.0)
  }

  predicate IsPoint(t: Tuple)
  {
    t.w == 1.0
  }

  predicate IsVector(t: Tuple)
  {
    t.w == 0.0
  }

  /** No tuple is classified both ways; classification only reads w. */
  lemma PointVectorExclusive(t: Tuple)
    ensures !(IsPoint(t) && IsVector(t))
    ensures IsPoint(t) <==> t.w == 1.0
    ensures IsVector(t) <==> t.w == 0.0
  {
  }

  const Zero: Tuple := Tuple(0.0, 0.0, 0.0, 0.0)

  function Add(a: Tuple, b: Tuple): Tuple
  {
    Tuple(a.x + b.x, a.y + b.y, a.z + b.z, a.w + b.w)
  }

  function Sub(a: Tuple, b: Tuple): Tuple
  {
    Tuple(a.x - b.x, a.y - b.y, a.z - b.z, a.w - b.w)
  }

  function Neg(a: Tuple): Tuple
  {
    Tuple(-a.x, -a.y, -a.z, -a.w)
  }

  /** Multiplication by a scalar, the `Mul<f64>` operator. */
  function Scale(a: Tuple, s: real): Tuple
  {
    Tuple(a.x * s, a.y * s, a.z * s, a.w * s)
  }

  /** Division by a scalar, the `Div<f64>` operator. */
  function Divide(a: Tuple, s: real): Tuple
    requires s != 0.0
  {
    Tuple(a.x / s, a.y / s, a.z / s, a.w / s)
  }

  /** The w component decides the kind of a sum and of a difference. */
  lemma AddSubKinds(a: Tuple, b: Tuple)
    ensures IsPoint(a) && IsVector(b) ==> IsPoint(Add(a, b))
    ensures IsVector(a) && IsVector(b) ==> IsVector(Add(a, b))
    ensures IsPoint(a) && IsPoint(b) ==> IsVector(Sub(a, b))
    ensures IsPoint(a) && IsVector(b) ==> IsPoint(Sub(a, b))
    ensures IsVector(a) && IsVector(b) ==> IsVector(Sub(a, b))
    ensures IsPoint(a) && IsPoint(b) ==> Add(a, b).w == 2.0
  {
  }

  /** Moving a point along a vector and back returns the point: (p + v) - v = p. */
  lemma AddThenSubRoundTrip(a: Tuple, b: Tuple)
    ensures Sub(Add(a, b), b) == a
    ensures Add(Sub(a, b), b) == a
  {
  }

  /** Subtraction is addition of the negation; negation is an involution. */
  lemma NegationLaws(a: Tuple, b: Tuple)
    ensures Sub(a, b) == Add(a, Neg(b))
    ensures Neg(Neg(a)) == a
    ensures Add(a, Neg(a)) == Zero
    ensures Neg(a) == Scale(a, -1.0)
    ensures Sub(Zero, a) == Neg(a)
  {
  }

  /** Scaling and dividing act on all four components, w included, and undo each other. */
  lemma ScaleDivideLaws(a: Tuple, s: real)
    requires s != 0.0
    ensures Divide(Scale(a, s), s) == a
    ensures Scale(Divide(a, s), s) == a
    ensures Divide(a, s) == Scale(a, 1.0 / s)
    ensures Scale(a, s).w == 0.0 <==> a.w == 0.0
  {
    DivideUndoesScale(a, s);
    ScaleUndoesDivide(a, s);
    DivideIsScale(a, s);
    ScaleDivide(a.w, s, 1.0 / s);
  }

  lemma DivideUndoesScale(a: Tuple, s: real)
    requires s != 0.0
    ensures Divide(Scale(a, s), s) == a
  {
    var r := 1.0 / s;
    ScaleDivide(a.x, s, r);
    ScaleDivide(a.y, s, r);
    ScaleDivide(a.z, s, r);
    ScaleDivide(a.w, s, r);
  }

  lemma ScaleUndoesDivide(a: Tuple, s: real)
    requires s != 0.0
    ensures Scale(Divide(a, s), s) == a
  {
    var r := 1.0 / s;
    ScaleDivide(a.x, s, r);
    ScaleDivide(a.y, s, r);
    ScaleDivide(a.z, s, r);
    ScaleDivide(a.w, s, r);
  }

  lemma DivideIsScale(a: Tuple, s: real)
    requires s != 0.0
    ensures Divide(a, s) == Scale(a, 1.0 / s)
  {
    var r := 1.0 / s;
    ScaleDivide(a.x, s, r);
    ScaleDivide(a.y, s, r);
    ScaleDivide(a.z, s, r);
    ScaleDivide(a.w, s, r);
  }

  lemma ScaleDivide(v: real, s: real, r: real)
    requires s != 0.0 && r == 1.0 / s
    ensures (v * s) / s == v && (v / s) * s == v && v / s == v * r
    ensures v * s == 0.0 <==> v == 0.0
  {
  }

  function Dot(a: Tuple, b: Tuple): real
  {
    a.x * b.x + a.y * b.y + a.z * b.z + a.w * b.w
  }

  lemma DotSymmetric(a: Tuple, b: Tuple)
    ensures Dot(a, b) == Dot(b, a)
  {
  }

  /** The dot product is linear in its first operand. */
  lemma DotLinear(a: Tuple, b: Tuple, c: Tuple, s: real)
    ensures Dot(Add(a, b), c) == Dot(a, c) + Dot(b, c)
    ensures Dot(Sub(a, b), c) == Dot(a, c) - Dot(b, c)
    ensures Dot(Scale(a, s), c) == s * Dot(a, c)
  {
    assert Dot(Scale(a, s), c) == s * (a.x * c.x) + s * (a.y * c.y) + s * (a.z * c.z) + s * (a.w * c.w);
  }

  /** The dot product of a tuple with itself is non-negative and vanishes only on the zero tuple. */
  lemma DotSelfPositive(a: Tuple)
    ensures Dot(a, a) >= 0.0
    ensures Dot(a, a) == 0.0 <==> a == Zero
  {
    SquareSign(a.x, a.x * a.x);
    SquareSign(a.y, a.y * a.y);
    SquareSign(a.z, a.z * a.z);
    SquareSign(a.w, a.w * a.w);
  }

  /** The three-dimensional cross product; the result is always built as a vector. */
  function Cross(a: Tuple, b: Tuple): (r: Tuple)
    ensures IsVector(r)
  {
    Vector(a.y * b.z - a.z * b.y, a.z * b.x - a.x * b.z, a.x * b.y - a.y * b.x)
  }

  /** Swapping the operands negates the cross product, and the result is orthogonal to both operands. */
  lemma CrossLaws(a: Tuple, b: Tuple)
    ensures Cross(b, a) == Neg(Cross(a, b))
    ensures Dot(Cross(a, b), a) == 0.0
    ensures Dot(Cross(a, b), b) == 0.0
    ensures Cross(a, a) == Zero
  {
  }

  /** Reflection of `v` about the normal `n`: v - n * 2 * (v . n). */
  function Reflect(v: Tuple, n: Tuple): Tuple
  {
    Sub(v, Scale(Scale(n, 2.0), Dot(v, n)))
  }

  /**
    About a unit normal, reflection flips the normal component, keeps the
    tangential one, and undoes itself.
   */
  lemma ReflectAboutUnitNormal(v: Tuple, n: Tuple)
    requires Dot(n, n) == 1.0
    ensures Dot(Reflect(v, n), n) == -Dot(v, n)
    ensures Reflect(Reflect(v, n), n) == v
  {
    var d := Dot(v, n);
    var r := Reflect(v, n);
    assert Scale(Scale(n, 2.0), d) == Scale(n, 2.0 * d);
    assert r == Sub(v, Scale(n, 2.0 * d));
    DotLinear(v, Scale(n, 2.0 * d), n, 0.0);
    DotLinear(n, n, n, 2.0 * d);
    assert Dot(r, n) == d - 2.0 * d;
    assert Scale(Scale(n, 2.0), -d) == Scale(n, -2.0 * d);
  }

  /**
    Reflection about the y axis flips the y component of a vector and keeps
    the others; with a = b = 1, c = 0 a vector approaching at 45 degrees
    leaves at 45 degrees.
   */
  lemma ReflectAboutYAxis(a: real, b: real, c: real)
    ensures Reflect(Vector(a, -b, c), Vector(0.0, 1.0, 0.0)) == Vector(a, b, c)
  {
    var v, n := Vector(a, -b, c), Vector(0.0, 1.0, 0.0);
    assert Dot(v, n) == -b;
    assert Scale(Scale(n, 2.0), -b) == Vector(0.0, -2.0 * b, 0.0);
  }

  const Down: Tuple := Vector(0.0, -1.0, 0.0)
  const PlusX: Tuple := Vector(1.0, 0.0, 0.0)

  /**
    Reflection off a surface slanted at 45 degrees, with normal (s, s, 0) for
    any s with s * s = 1/2: a vector falling straight down leaves along +x.
   */
  lemma ReflectSlantedAt(s: real)
    requires s * s == 0.5
    ensures Reflect(Down, Vector(s, s, 0.0)) == PlusX
  {
    var v, n := Down, Vector(s, s, 0.0);
    assert Dot(v, n) == -s;
    assert Scale(Scale(n, 2.0), -s) == Vector(-2.0 * (s * s), -2.0 * (s * s), 0.0);
  }

  /** The slanted-surface example, whose normal has components sqrt(2) / 2. */
  lemma ReflectSlanted(sqrt: real -> real)
    requires IsSqrt(sqrt)
    ensures Reflect(Down, Vector(sqrt(2.0) / 2.0, sqrt(2.0) / 2.0, 0.0)) == PlusX
  {
    RootOf(sqrt, 2.0);
    HalfOfRootTwo(sqrt(2.0), sqrt(2.0) / 2.0);
    ReflectSlantedAt(sqrt(2.0) / 2.0);
  }

  /** Half a square root of two squares to one half. */
  lemma HalfOfRootTwo(r: real, s: real)
    requires r * r == 2.0 && s == r / 2.0
    ensures s * s == 0.5
  {
    assert s * s == (r * r) / 4.0;
  }

  /** Length of a tuple over all four components. */
  function Magnitude(sqrt: real -> real, a: Tuple): (m: real)
    requires IsSqrt(sqrt)
    ensures m >= 0.0
    ensures m * m == Dot(a, a)
    ensures m == 0.0 <==> a == Zero
  {
    var d := Dot(a, a);
    DotSelfPositive(a);
    RootOf(sqrt, d);
    var m := sqrt(d);
    SquareSign(m, d);
    m
  }

  /** The unit tuple in the direction of a nonzero tuple. */
  function Normalize(sqrt: real -> real, a: Tuple): (u: Tuple)
    requires IsSqrt(sqrt)
    requires a != Zero
    ensures Dot(u, u) == 1.0
    ensures Magnitude(sqrt, u) == 1.0
    ensures Scale(u, Magnitude(sqrt, a)) == a
  {
    var m := Magnitude(sqrt, a);
    var k := 1.0 / m;
    var u := Divide(a, m);
    assert u == Scale(a, k);
    DotLinear(a, a, u, k);
    DotSymmetric(a, u);
    DotLinear(a, a, a, k);
    assert Dot(u, u) == k * (k * (m * m));
    assert k * m == 1.0;
    SqrtOfSquare(sqrt, 1.0);
    u
  }

  /** Scaling a unit tuple by d gives a tuple whose dot product with itself is d squared. */
  lemma ScaledUnitDot(u: Tuple, d: real, a: Tuple)
    requires Dot(u, u) == 1.0 && a == Scale(u, d)
    ensures Dot(a, a) == d * d
  {
    DotLinear(u, u, a, d);
    DotSymmetric(u, a);
    DotLinear(u, u, u, d);
  }

  /** A positive multiple of a unit tuple has the factor as its length and normalizes back to the unit tuple. */
  lemma NormalizeScaledUnit(sqrt: real -> real, u: Tuple, d: real)
    requires IsSqrt(sqrt)
    requires Dot(u, u) == 1.0 && d > 0.0
    ensures Scale(u, d) != Zero
    ensures Magnitude(sqrt, Scale(u, d)) == d
    ensures Normalize(sqrt, Scale(u, d)) == u
  {
    var a := Scale(u, d);
    ScaledUnitDot(u, d, a);
    PositiveProduct(d, d, d * d);
    DotSelfPositive(a);
    var m := Magnitude(sqrt, a);
    SameSquare(m, d, d * d);
    ScaleDivideLaws(u, d);
  }

  /** A tuple whose dot product with itself is 1 has magnitude 1. */
  lemma UnitMagnitude(sqrt: real -> real, u: Tuple)
    requires IsSqrt(sqrt) && Dot(u, u) == 1.0
    ensures Magnitude(sqrt, u) == 1.0
  {
    SameSquare(Magnitude(sqrt, u), 1.0, 1.0);
  }

  const PlusY: Tuple := Vector(0.0, 1.0, 0.0)
  const PlusZ: Tuple := Vector(0.0, 0.0, 1.0)

  /** The three axis vectors are unit vectors. */
  lemma AxisUnits()
    ensures Dot(PlusX, PlusX) == 1.0 && Dot(PlusY, PlusY) == 1.0 && Dot(PlusZ, PlusZ) == 1.0
  {
  }

  /** The magnitude examples: the three axis vectors have length 1. */
  lemma AxisMagnitudes(sqrt: real -> real)
    requires IsSqrt(sqrt)
    ensures Magnitude(sqrt, PlusX) == 1.0 && Magnitude(sqrt, PlusY) == 1.0 && Magnitude(sqrt, PlusZ) == 1.0
  {
    AxisUnits();
    UnitMagnitude(sqrt, PlusX);
    UnitMagnitude(sqrt, PlusY);
    UnitMagnitude(sqrt, PlusZ);
  }

  /** The magnitude examples: (1, 2, 3) and (-1, -2, -3) both have length sqrt(14). */
  lemma MagnitudeExample(sqrt: real -> real)
    requires IsSqrt(sqrt)
    ensures Magnitude(sqrt, Vector(1.0, 2.0, 3.0)) == sqrt(14.0)
    ensures Magnitude(sqrt, Vector(-1.0, -2.0, -3.0)) == sqrt(14.0)
  {
    assert Dot(Vector(1.0, 2.0, 3.0), Vector(1.0, 2.0, 3.0)) == 14.0;
    assert Dot(Vector(-1.0, -2.0, -3.0), Vector(-1.0, -2.0, -3.0)) == 14.0;
  }

  /** The tolerant comparison of `PartialEq`: every component within EPSILON. */
  predicate ApproxEq(a: Tuple, b: Tuple)
  {
    ApproxEqual(a.x, b.x) && ApproxEqual(a.y, b.y) && ApproxEqual(a.z, b.z) && ApproxEqual(a.w, b.w)
  }

  /** Tolerant equality is reflexive and symmetric, and tuples one EPSILON apart still compare equal. */
  lemma ApproxEqLaws(a: Tuple, b: Tuple)
    ensures ApproxEq(a, a)
    ensures ApproxEq(a, b) <==> ApproxEq(b, a)
    ensures ApproxEq(a, Add(a, Tuple(EPSILON, 0.0, 0.0, 0.0)))
    ensures !ApproxEq(a, Add(a, Tuple(2.0 * EPSILON, 0.0, 0.0, 0.0)))
  {
  }
}

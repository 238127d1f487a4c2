/**
  The transform builders: `translation` and `scaling`, each a 4x4 matrix
  built by assigning a few cells of an identity or an all-zero matrix.
 */
module Transforms {
  import opened Tuples
  import opened Matrices
  import opened FourByFour

  /** `translation`: the identity with x, y and z written into column 3 of rows 0 to 2. */
  function Translation(x: real, y: real, z: real): (t: Matrix)
    ensures t.height == 4 && t.width == 4
    ensures Row(t, 0) == Tuple(1.0, 0.0, 0.0, x)
    ensures Row(t, 1) == Tuple(0.0, 1.0, 0.0, y)
    ensures Row(t, 2) == Tuple(0.0, 0.0, 1.0, z)
    ensures Row(t, 3) == Tuple(0.0, 0.0, 0.0, 1.0)
  {
    var id := Identity(4, 4);
    var a := Set(id, 0, 3, x);
    var b := Set(a, 1, 3, y);
    Set(b, 2, 3, z)
  }

  /** `scaling`: an all-zero matrix with x, y, z and 1 written down the diagonal. */
  function Scaling(x: real, y: real, z: real): (s: Matrix)
    ensures s.height == 4 && s.width == 4
    ensures Row(s, 0) == Tuple(x, 0.0, 0.0, 0.0)
    ensures Row(s, 1) == Tuple(0.0, y, 0.0, 0.0)
    ensures Row(s, 2) == Tuple(0.0, 0.0, z, 0.0)
    ensures Row(s, 3) == Tuple(0.0, 0.0, 0.0, 1.0)
  {
    var zero := New(4, 4);
    var a := Set(zero, 0, 0, x);
    var b := Set(a, 1, 1, y);
    var c := Set(b, 2, 2, z);
    Set(c, 3, 3, 1.0)
  }

  /** The columns of a translation. */
  lemma TranslationColumns(x: real, y: real, z: real)
    ensures ColumnOf(Translation(x, y, z), 0) == Tuple(1.0, 0.0, 0.0, 0.0)
    ensures ColumnOf(Translation(x, y, z), 1) == Tuple(0.0, 1.0, 0.0, 0.0)
    ensures ColumnOf(Translation(x, y, z), 2) == Tuple(0.0, 0.0, 1.0, 0.0)
    ensures ColumnOf(Translation(x, y, z), 3) == Tuple(x, y, z, 1.0)
  {
    var t := Translation(x, y, z);
    assert Row(t, 0) == Tuple(1.0, 0.0, 0.0, x);
    assert Row(t, 1) == Tuple(0.0, 1.0, 0.0, y);
    assert Row(t, 2) == Tuple(0.0, 0.0, 1.0, z);
    assert Row(t, 3) == Tuple(0.0, 0.0, 0.0, 1.0);
  }

  /** The columns of a scaling. */
  lemma ScalingColumns(x: real, y: real, z: real)
    ensures ColumnOf(Scaling(x, y, z), 0) == Tuple(x, 0.0, 0.0, 0.0)
    ensures ColumnOf(Scaling(x, y, z), 1) == Tuple(0.0, y, 0.0, 0.0)
    ensures ColumnOf(Scaling(x, y, z), 2) == Tuple(0.0, 0.0, z, 0.0)
    ensures ColumnOf(Scaling(x, y, z), 3) == Tuple(0.0, 0.0, 0.0, 1.0)
  {
    var s := Scaling(x, y, z);
    assert Row(s, 0) == Tuple(x, 0.0, 0.0, 0.0);
    assert Row(s, 1) == Tuple(0.0, y, 0.0, 0.0);
    assert Row(s, 2) == Tuple(0.0, 0.0, z, 0.0);
    assert Row(s, 3) == Tuple(0.0, 0.0, 0.0, 1.0);
  }

  /** A translation moves a point by (x, y, z) and leaves a vector as it is. */
  lemma TranslationMoves(x: real, y: real, z: real, t: Tuple)
    ensures MulTuple(Translation(x, y, z), t) == Tuple(t.x + x * t.w, t.y + y * t.w, t.z + z * t.w, t.w)
    ensures IsPoint(t) ==> MulTuple(Translation(x, y, z), t) == Add(t, Vector(x, y, z))
    ensures IsVector(t) ==> MulTuple(Translation(x, y, z), t) == t
  {
  }

  /** A scaling multiplies the x, y and z components of points and vectors alike. */
  lemma ScalingScales(x: real, y: real, z: real, t: Tuple)
    ensures MulTuple(Scaling(x, y, z), t) == Tuple(x * t.x, y * t.y, z * t.z, t.w)
  {
  }

  /** Scaling by -1 along one axis is the reflection across the other two. */
  lemma ReflectionIsNegativeScaling(t: Tuple)
    ensures MulTuple(Scaling(-1.0, 1.0, 1.0), t) == Tuple(-t.x, t.y, t.z, t.w)
  {
    ScalingScales(-1.0, 1.0, 1.0, t);
  }

  /** The determinant of a translation is 1, so every translation is invertible. */
  lemma TranslationDet(x: real, y: real, z: real)
    ensures Det(Translation(x, y, z)) == 1.0
    ensures IsInvertible(Translation(x, y, z))
  {
    DetClosed(Translation(x, y, z));
  }

  /** The determinant of a scaling is the product of its factors. */
  lemma ScalingDet(x: real, y: real, z: real)
    ensures Det(Scaling(x, y, z)) == x * y * z
  {
    DetClosed(Scaling(x, y, z));
  }

  /** A product of three reals vanishes exactly when one of them does. */
  lemma ZeroProduct3(x: real, y: real, z: real, p: real)
    requires p == x * y * z
    ensures p == 0.0 <==> x == 0.0 || y == 0.0 || z == 0.0
  {
    if x != 0.0 && y != 0.0 && z != 0.0 {
      var q := x * y;
      assert p == q * z;
      NonzeroProduct(x, y, q);
      NonzeroProduct(q, z, p);
    }
  }

  lemma NonzeroProduct(a: real, b: real, p: real)
    requires a != 0.0 && b != 0.0 && p == a * b
    ensures p != 0.0
  {
    if a > 0.0 && b > 0.0 {
      Base.PositiveProduct(a, b, p);
    } else if a > 0.0 && b < 0.0 {
      Base.PositiveProduct(a, -b, -p);
    } else if a < 0.0 && b > 0.0 {
      Base.PositiveProduct(-a, b, -p);
    } else {
      Base.PositiveProduct(-a, -b, p);
    }
  }

  /** A scaling is invertible exactly when none of its factors is zero. */
  lemma ScalingInvertible(x: real, y: real, z: real)
    ensures IsInvertible(Scaling(x, y, z)) <==> x != 0.0 && y != 0.0 && z != 0.0
  {
    ScalingDet(x, y, z);
    ZeroProduct3(x, y, z, x * y * z);
  }

  /** Translating back after translating is the identity. */
  lemma TranslationsCancel(x: real, y: real, z: real)
    ensures Mul(Translation(-x, -y, -z), Translation(x, y, z)) == Identity(4, 4)
  {
    OppositeShiftsCancel(Translation(-x, -y, -z), Translation(x, y, z), x, y, z);
  }

  /** Two matrices shaped like translations by opposite offsets multiply to the identity. */
  lemma OppositeShiftsCancel(back: Matrix, t: Matrix, x: real, y: real, z: real)
    requires back.height == 4 && back.width == 4 && t.height == 4 && t.width == 4
    requires Row(back, 0) == Tuple(1.0, 0.0, 0.0, -x) && Row(back, 1) == Tuple(0.0, 1.0, 0.0, -y)
    requires Row(back, 2) == Tuple(0.0, 0.0, 1.0, -z) && Row(back, 3) == Tuple(0.0, 0.0, 0.0, 1.0)
    requires Row(t, 0) == Tuple(1.0, 0.0, 0.0, x) && Row(t, 1) == Tuple(0.0, 1.0, 0.0, y)
    requires Row(t, 2) == Tuple(0.0, 0.0, 1.0, z) && Row(t, 3) == Tuple(0.0, 0.0, 0.0, 1.0)
    ensures Mul(back, t) == Identity(4, 4)
  {
    assert ColumnOf(t, 0) == Tuple(1.0, 0.0, 0.0, 0.0);
    assert ColumnOf(t, 1) == Tuple(0.0, 1.0, 0.0, 0.0);
    assert ColumnOf(t, 2) == Tuple(0.0, 0.0, 1.0, 0.0);
    assert ColumnOf(t, 3) == Tuple(x, y, z, 1.0);
    var p := Mul(back, t);
    assert Row(p, 0) == Tuple(1.0, 0.0, 0.0, 0.0) by {
      ProductRow(back, t, 0);
    }
    assert Row(p, 1) == Tuple(0.0, 1.0, 0.0, 0.0) by {
      ProductRow(back, t, 1);
    }
    assert Row(p, 2) == Tuple(0.0, 0.0, 1.0, 0.0) by {
      ProductRow(back, t, 2);
    }
    assert Row(p, 3) == Tuple(0.0, 0.0, 0.0, 1.0) by {
      ProductRow(back, t, 3);
    }
    IdentityRows();
    EqualByRows(p, Identity(4, 4));
  }

  /** The inverse of a translation translates back. */
  lemma TranslationInverse(x: real, y: real, z: real)
    ensures Det(Translation(x, y, z)) != 0.0 && Inverse(Translation(x, y, z)) == Translation(-x, -y, -z)
  {
    TranslationDet(x, y, z);
    TranslationsCancel(x, y, z);
    InverseUnique(Translation(x, y, z), Translation(-x, -y, -z));
  }

  /** Scaling by the reciprocal factors after scaling is the identity. */
  lemma ScalingsCancel(x: real, y: real, z: real)
    requires x != 0.0 && y != 0.0 && z != 0.0
    ensures Mul(Scaling(1.0 / x, 1.0 / y, 1.0 / z), Scaling(x, y, z)) == Identity(4, 4)
  {
    ReciprocalDiagonalsCancel(Scaling(1.0 / x, 1.0 / y, 1.0 / z), Scaling(x, y, z), x, y, z);
  }

  /** Two diagonal matrices with reciprocal entries multiply to the identity. */
  lemma ReciprocalDiagonalsCancel(back: Matrix, s: Matrix, x: real, y: real, z: real)
    requires x != 0.0 && y != 0.0 && z != 0.0
    requires back.height == 4 && back.width == 4 && s.height == 4 && s.width == 4
    requires Row(back, 0) == Tuple(1.0 / x, 0.0, 0.0, 0.0) && Row(back, 1) == Tuple(0.0, 1.0 / y, 0.0, 0.0)
    requires Row(back, 2) == Tuple(0.0, 0.0, 1.0 / z, 0.0) && Row(back, 3) == Tuple(0.0, 0.0, 0.0, 1.0)
    requires Row(s, 0) == Tuple(x, 0.0, 0.0, 0.0) && Row(s, 1) == Tuple(0.0, y, 0.0, 0.0)
    requires Row(s, 2) == Tuple(0.0, 0.0, z, 0.0) && Row(s, 3) == Tuple(0.0, 0.0, 0.0, 1.0)
    ensures Mul(back, s) == Identity(4, 4)
  {
    var p := Mul(back, s);
    var e, d := Tuple(1.0 / x, 1.0 / y, 1.0 / z, 1.0), Tuple(x, y, z, 1.0);
    DiagonalProduct(back, s, e, d);
    assert e.x * d.x == 1.0 && e.y * d.y == 1.0 && e.z * d.z == 1.0 && e.w * d.w == 1.0;
    assert Row(p, 0) == Tuple(1.0, 0.0, 0.0, 0.0) && Row(p, 1) == Tuple(0.0, 1.0, 0.0, 0.0);
    assert Row(p, 2) == Tuple(0.0, 0.0, 1.0, 0.0) && Row(p, 3) == Tuple(0.0, 0.0, 0.0, 1.0);
    IdentityRows();
    EqualByRows(p, Identity(4, 4));
  }

  /** Column j of a diagonal matrix holds its j-th diagonal entry and zeros. */
  lemma DiagonalColumns(b: Matrix, d: Tuple)
    requires b.height == 4 && b.width == 4
    requires Row(b, 0) == Tuple(d.x, 0.0, 0.0, 0.0) && Row(b, 1) == Tuple(0.0, d.y, 0.0, 0.0)
    requires Row(b, 2) == Tuple(0.0, 0.0, d.z, 0.0) && Row(b, 3) == Tuple(0.0, 0.0, 0.0, d.w)
    ensures ColumnOf(b, 0) == Tuple(d.x, 0.0, 0.0, 0.0) && ColumnOf(b, 1) == Tuple(0.0, d.y, 0.0, 0.0)
    ensures ColumnOf(b, 2) == Tuple(0.0, 0.0, d.z, 0.0) && ColumnOf(b, 3) == Tuple(0.0, 0.0, 0.0, d.w)
  {
  }

  /** The product of two diagonal matrices is diagonal, with the products of their entries. */
  lemma DiagonalProduct(a: Matrix, b: Matrix, e: Tuple, d: Tuple)
    requires a.height == 4 && a.width == 4 && b.height == 4 && b.width == 4
    requires Row(a, 0) == Tuple(e.x, 0.0, 0.0, 0.0) && Row(a, 1) == Tuple(0.0, e.y, 0.0, 0.0)
    requires Row(a, 2) == Tuple(0.0, 0.0, e.z, 0.0) && Row(a, 3) == Tuple(0.0, 0.0, 0.0, e.w)
    requires Row(b, 0) == Tuple(d.x, 0.0, 0.0, 0.0) && Row(b, 1) == Tuple(0.0, d.y, 0.0, 0.0)
    requires Row(b, 2) == Tuple(0.0, 0.0, d.z, 0.0) && Row(b, 3) == Tuple(0.0, 0.0, 0.0, d.w)
    ensures Row(Mul(a, b), 0) == Tuple(e.x * d.x, 0.0, 0.0, 0.0)
    ensures Row(Mul(a, b), 1) == Tuple(0.0, e.y * d.y, 0.0, 0.0)
    ensures Row(Mul(a, b), 2) == Tuple(0.0, 0.0, e.z * d.z, 0.0)
    ensures Row(Mul(a, b), 3) == Tuple(0.0, 0.0, 0.0, e.w * d.w)
  {
    DiagonalColumns(b, d);
    ProductRow(a, b, 0);
    ProductRow(a, b, 1);
    ProductRow(a, b, 2);
    ProductRow(a, b, 3);
  }

  /** The inverse of a scaling with nonzero factors divides by them. */
  lemma ScalingInverse(x: real, y: real, z: real)
    requires x != 0.0 && y != 0.0 && z != 0.0
    ensures Det(Scaling(x, y, z)) != 0.0 && Inverse(Scaling(x, y, z)) == Scaling(1.0 / x, 1.0 / y, 1.0 / z)
  {
    ScalingInvertible(x, y, z);
    ScalingsCancel(x, y, z);
    InverseUnique(Scaling(x, y, z), Scaling(1.0 / x, 1.0 / y, 1.0 / z));
  }

  /** Applying the inverse of a translation applies the opposite translation. */
  lemma InverseTranslationApplies(x: real, y: real, z: real, p: Tuple)
    ensures Det(Translation(x, y, z)) != 0.0 && MulTuple(Inverse(Translation(x, y, z)), p) == MulTuple(Translation(-x, -y, -z), p)
  {
    TranslationInverse(x, y, z);
  }

  /** Applying the inverse of a translation moves a point back by (x, y, z). */
  lemma InverseTranslationMovesBack(x: real, y: real, z: real, p: Tuple)
    requires IsPoint(p)
    ensures Det(Translation(x, y, z)) != 0.0 && MulTuple(Inverse(Translation(x, y, z)), p) == Sub(p, Vector(x, y, z))
  {
    InverseTranslationApplies(x, y, z, p);
    OppositeTranslationMovesBack(x, y, z, p);
  }

  lemma OppositeTranslationMovesBack(x: real, y: real, z: real, p: Tuple)
    requires IsPoint(p)
    ensures MulTuple(Translation(-x, -y, -z), p) == Sub(p, Vector(x, y, z))
  {
    TranslationMoves(-x, -y, -z, p);
  }

  /** Applying the inverse of a scaling applies the reciprocal scaling. */
  lemma InverseScalingApplies(x: real, y: real, z: real, t: Tuple)
    requires x != 0.0 && y != 0.0 && z != 0.0
    ensures Det(Scaling(x, y, z)) != 0.0 && MulTuple(Inverse(Scaling(x, y, z)), t) == MulTuple(Scaling(1.0 / x, 1.0 / y, 1.0 / z), t)
  {
    ScalingInverse(x, y, z);
  }

  /** Applying the inverse of a scaling divides the x, y and z components by the factors. */
  lemma InverseScalingDivides(x: real, y: real, z: real, t: Tuple)
    requires x != 0.0 && y != 0.0 && z != 0.0
    ensures Det(Scaling(x, y, z)) != 0.0 && MulTuple(Inverse(Scaling(x, y, z)), t) == Tuple(t.x / x, t.y / y, t.z / z, t.w)
  {
    InverseScalingApplies(x, y, z, t);
    ReciprocalScalingDivides(x, y, z, t);
  }

  lemma ReciprocalScalingDivides(x: real, y: real, z: real, t: Tuple)
    requires x != 0.0 && y != 0.0 && z != 0.0
    ensures MulTuple(Scaling(1.0 / x, 1.0 / y, 1.0 / z), t) == Tuple(t.x / x, t.y / y, t.z / z, t.w)
  {
    ScalingScales(1.0 / x, 1.0 / y, 1.0 / z, t);
  }
}

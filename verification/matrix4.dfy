/**
  Closed forms for 4x4 matrices, the size every transform in the renderer
  has: the recursive determinant and cofactors written out as polynomials in
  the sixteen entries, and from them the facts that make `inverse` an
  inverse.
 */
module FourByFour {
  import opened Base
  import opened Tuples
  import opened Matrices

  /** Component j of a tuple, x to w. */
  function Comp(t: Tuple, j: nat): real
  {
    if j == 0 then t.x else if j == 1 then t.y else if j == 2 then t.z else t.w
  }

  /** Row i of four rows. */
  function RowOf(r0: Tuple, r1: Tuple, r2: Tuple, r3: Tuple, i: nat): Tuple
  {
    if i == 0 then r0 else if i == 1 then r1 else if i == 2 then r2 else r3
  }

  /** The 3x3 determinant, expanded along its first row. */
  function Det3Of(a: real, b: real, c: real, d: real, e: real, f: real, g: real, h: real, i: real): real
  {
    a * (e * i - f * h) - b * (d * i - f * g) + c * (d * h - e * g)
  }

  /** The determinant of the 3x3 matrix left when row k and column j are removed from four rows. */
  function Minor3(r0: Tuple, r1: Tuple, r2: Tuple, r3: Tuple, k: nat, j: nat): real
  {
    var p, q, s := RowOf(r0, r1, r2, r3, Skip(0, k)), RowOf(r0, r1, r2, r3, Skip(1, k)), RowOf(r0, r1, r2, r3, Skip(2, k));
    var c0, c1, c2 := Skip(0, j), Skip(1, j), Skip(2, j);
    Det3Of(Comp(p, c0), Comp(p, c1), Comp(p, c2), Comp(q, c0), Comp(q, c1), Comp(q, c2), Comp(s, c0), Comp(s, c1), Comp(s, c2))
  }

  /** The signed minor. */
  function Cof4(r0: Tuple, r1: Tuple, r2: Tuple, r3: Tuple, k: nat, j: nat): real
  {
    if (k + j) % 2 == 1 then Minor3(r0, r1, r2, r3, k, j) * -1.0 else Minor3(r0, r1, r2, r3, k, j)
  }

  /** Row i multiplied entry by entry with the cofactors of row k, summed left to right. */
  function Expand(r0: Tuple, r1: Tuple, r2: Tuple, r3: Tuple, i: nat, k: nat): real
  {
    Combine(RowOf(r0, r1, r2, r3, i), Cof4(r0, r1, r2, r3, k, 0), Cof4(r0, r1, r2, r3, k, 1),
            Cof4(r0, r1, r2, r3, k, 2), Cof4(r0, r1, r2, r3, k, 3))
  }

  /** The components of a row against four weights, summed left to right from 0. */
  function Combine(r: Tuple, c0: real, c1: real, c2: real, c3: real): real
  {
    0.0 + r.x * c0 + r.y * c1 + r.z * c2 + r.w * c3
  }

  /** The 4x4 determinant as the signed sum over the 24 permutations. */
  function Det4Of(r0: Tuple, r1: Tuple, r2: Tuple, r3: Tuple): real
  {
    0.0
    + r0.x * r1.y * r2.z * r3.w
    - r0.x * r1.y * r2.w * r3.z
    - r0.x * r1.z * r2.y * r3.w
    + r0.x * r1.z * r2.w * r3.y
    + r0.x * r1.w * r2.y * r3.z
    - r0.x * r1.w * r2.z * r3.y
    - r0.y * r1.x * r2.z * r3.w
    + r0.y * r1.x * r2.w * r3.z
    + r0.y * r1.z * r2.x * r3.w
    - r0.y * r1.z * r2.w * r3.x
    - r0.y * r1.w * r2.x * r3.z
    + r0.y * r1.w * r2.z * r3.x
    + r0.z * r1.x * r2.y * r3.w
    - r0.z * r1.x * r2.w * r3.y
    - r0.z * r1.y * r2.x * r3.w
    + r0.z * r1.y * r2.w * r3.x
    + r0.z * r1.w * r2.x * r3.y
    - r0.z * r1.w * r2.y * r3.x
    - r0.w * r1.x * r2.y * r3.z
    + r0.w * r1.x * r2.z * r3.y
    + r0.w * r1.y * r2.x * r3.z
    - r0.w * r1.y * r2.z * r3.x
    - r0.w * r1.z * r2.x * r3.y
    + r0.w * r1.z * r2.y * r3.x
  }

  lemma ExpandAlong00(r0: Tuple, r1: Tuple, r2: Tuple, r3: Tuple)
    ensures Expand(r0, r1, r2, r3, 0, 0) == Det4Of(r0, r1, r2, r3)
  {
  }
  lemma ExpandAlong01(r0: Tuple, r1: Tuple, r2: Tuple, r3: Tuple)
    ensures Expand(r0, r1, r2, r3, 0, 1) == 0.0
  {
  }
  lemma ExpandAlong02(r0: Tuple, r1: Tuple, r2: Tuple, r3: Tuple)
    ensures Expand(r0, r1, r2, r3, 0, 2) == 0.0
  {
  }
  lemma ExpandAlong03(r0: Tuple, r1: Tuple, r2: Tuple, r3: Tuple)
    ensures Expand(r0, r1, r2, r3, 0, 3) == 0.0
  {
  }
  lemma ExpandAlong10(r0: Tuple, r1: Tuple, r2: Tuple, r3: Tuple)
    ensures Expand(r0, r1, r2, r3, 1, 0) == 0.0
  {
  }
  lemma ExpandAlong11(r0: Tuple, r1: Tuple, r2: Tuple, r3: Tuple)
    ensures Expand(r0, r1, r2, r3, 1, 1) == Det4Of(r0, r1, r2, r3)
  {
  }
  lemma ExpandAlong12(r0: Tuple, r1: Tuple, r2: Tuple, r3: Tuple)
    ensures Expand(r0, r1, r2, r3, 1, 2) == 0.0
  {
  }
  lemma ExpandAlong13(r0: Tuple, r1: Tuple, r2: Tuple, r3: Tuple)
    ensures Expand(r0, r1, r2, r3, 1, 3) == 0.0
  {
  }
  lemma ExpandAlong20(r0: Tuple, r1: Tuple, r2: Tuple, r3: Tuple)
    ensures Expand(r0, r1, r2, r3, 2, 0) == 0.0
  {
  }
  lemma ExpandAlong21(r0: Tuple, r1: Tuple, r2: Tuple, r3: Tuple)
    ensures Expand(r0, r1, r2, r3, 2, 1) == 0.0
  {
  }
  lemma ExpandAlong22(r0: Tuple, r1: Tuple, r2: Tuple, r3: Tuple)
    ensures Expand(r0, r1, r2, r3, 2, 2) == Det4Of(r0, r1, r2, r3)
  {
  }
  lemma ExpandAlong23(r0: Tuple, r1: Tuple, r2: Tuple, r3: Tuple)
    ensures Expand(r0, r1, r2, r3, 2, 3) == 0.0
  {
  }
  lemma ExpandAlong30(r0: Tuple, r1: Tuple, r2: Tuple, r3: Tuple)
    ensures Expand(r0, r1, r2, r3, 3, 0) == 0.0
  {
  }
  lemma ExpandAlong31(r0: Tuple, r1: Tuple, r2: Tuple, r3: Tuple)
    ensures Expand(r0, r1, r2, r3, 3, 1) == 0.0
  {
  }
  lemma ExpandAlong32(r0: Tuple, r1: Tuple, r2: Tuple, r3: Tuple)
    ensures Expand(r0, r1, r2, r3, 3, 2) == 0.0
  {
  }
  lemma ExpandAlong33(r0: Tuple, r1: Tuple, r2: Tuple, r3: Tuple)
    ensures Expand(r0, r1, r2, r3, 3, 3) == Det4Of(r0, r1, r2, r3)
  {
  }

  /**
    Laplace's rule on four rows: expanding any row against its own cofactors
    gives the determinant, and against the cofactors of another row gives 0.
   */
  lemma ExpandAlong(r0: Tuple, r1: Tuple, r2: Tuple, r3: Tuple, i: nat, k: nat)
    requires i < 4 && k < 4
    ensures Expand(r0, r1, r2, r3, i, k) == if i == k then Det4Of(r0, r1, r2, r3) else 0.0
  {
    if i == 0 && k == 0 {
      ExpandAlong00(r0, r1, r2, r3);
    } else if i == 0 && k == 1 {
      ExpandAlong01(r0, r1, r2, r3);
    } else if i == 0 && k == 2 {
      ExpandAlong02(r0, r1, r2, r3);
    } else if i == 0 && k == 3 {
      ExpandAlong03(r0, r1, r2, r3);
    } else if i == 1 && k == 0 {
      ExpandAlong10(r0, r1, r2, r3);
    } else if i == 1 && k == 1 {
      ExpandAlong11(r0, r1, r2, r3);
    } else if i == 1 && k == 2 {
      ExpandAlong12(r0, r1, r2, r3);
    } else if i == 1 && k == 3 {
      ExpandAlong13(r0, r1, r2, r3);
    } else if i == 2 && k == 0 {
      ExpandAlong20(r0, r1, r2, r3);
    } else if i == 2 && k == 1 {
      ExpandAlong21(r0, r1, r2, r3);
    } else if i == 2 && k == 2 {
      ExpandAlong22(r0, r1, r2, r3);
    } else if i == 2 && k == 3 {
      ExpandAlong23(r0, r1, r2, r3);
    } else if i == 3 && k == 0 {
      ExpandAlong30(r0, r1, r2, r3);
    } else if i == 3 && k == 1 {
      ExpandAlong31(r0, r1, r2, r3);
    } else if i == 3 && k == 2 {
      ExpandAlong32(r0, r1, r2, r3);
    } else if i == 3 && k == 3 {
      ExpandAlong33(r0, r1, r2, r3);
    }
  }


  /** Column k of four rows against the cofactors of column i, summed left to right. */
  function ExpandDown(r0: Tuple, r1: Tuple, r2: Tuple, r3: Tuple, k: nat, i: nat): real
  {
    Combine(Tuple(Comp(r0, k), Comp(r1, k), Comp(r2, k), Comp(r3, k)), Cof4(r0, r1, r2, r3, 0, i), Cof4(r0, r1, r2, r3, 1, i),
            Cof4(r0, r1, r2, r3, 2, i), Cof4(r0, r1, r2, r3, 3, i))
  }
  lemma ExpandDown00(r0: Tuple, r1: Tuple, r2: Tuple, r3: Tuple)
    ensures ExpandDown(r0, r1, r2, r3, 0, 0) == Det4Of(r0, r1, r2, r3)
  {
  }
  lemma ExpandDown01(r0: Tuple, r1: Tuple, r2: Tuple, r3: Tuple)
    ensures ExpandDown(r0, r1, r2, r3, 0, 1) == 0.0
  {
  }
  lemma ExpandDown02(r0: Tuple, r1: Tuple, r2: Tuple, r3: Tuple)
    ensures ExpandDown(r0, r1, r2, r3, 0, 2) == 0.0
  {
  }
  lemma ExpandDown03(r0: Tuple, r1: Tuple, r2: Tuple, r3: Tuple)
    ensures ExpandDown(r0, r1, r2, r3, 0, 3) == 0.0
  {
  }
  lemma ExpandDown10(r0: Tuple, r1: Tuple, r2: Tuple, r3: Tuple)
    ensures ExpandDown(r0, r1, r2, r3, 1, 0) == 0.0
  {
  }
  lemma ExpandDown11(r0: Tuple, r1: Tuple, r2: Tuple, r3: Tuple)
    ensures ExpandDown(r0, r1, r2, r3, 1, 1) == Det4Of(r0, r1, r2, r3)
  {
  }
  lemma ExpandDown12(r0: Tuple, r1: Tuple, r2: Tuple, r3: Tuple)
    ensures ExpandDown(r0, r1, r2, r3, 1, 2) == 0.0
  {
  }
  lemma ExpandDown13(r0: Tuple, r1: Tuple, r2: Tuple, r3: Tuple)
    ensures ExpandDown(r0, r1, r2, r3, 1, 3) == 0.0
  {
  }
  lemma ExpandDown20(r0: Tuple, r1: Tuple, r2: Tuple, r3: Tuple)
    ensures ExpandDown(r0, r1, r2, r3, 2, 0) == 0.0
  {
  }
  lemma ExpandDown21(r0: Tuple, r1: Tuple, r2: Tuple, r3: Tuple)
    ensures ExpandDown(r0, r1, r2, r3, 2, 1) == 0.0
  {
  }
  lemma ExpandDown22(r0: Tuple, r1: Tuple, r2: Tuple, r3: Tuple)
    ensures ExpandDown(r0, r1, r2, r3, 2, 2) == Det4Of(r0, r1, r2, r3)
  {
  }
  lemma ExpandDown23(r0: Tuple, r1: Tuple, r2: Tuple, r3: Tuple)
    ensures ExpandDown(r0, r1, r2, r3, 2, 3) == 0.0
  {
  }
  lemma ExpandDown30(r0: Tuple, r1: Tuple, r2: Tuple, r3: Tuple)
    ensures ExpandDown(r0, r1, r2, r3, 3, 0) == 0.0
  {
  }
  lemma ExpandDown31(r0: Tuple, r1: Tuple, r2: Tuple, r3: Tuple)
    ensures ExpandDown(r0, r1, r2, r3, 3, 1) == 0.0
  {
  }
  lemma ExpandDown32(r0: Tuple, r1: Tuple, r2: Tuple, r3: Tuple)
    ensures ExpandDown(r0, r1, r2, r3, 3, 2) == 0.0
  {
  }
  lemma ExpandDown33(r0: Tuple, r1: Tuple, r2: Tuple, r3: Tuple)
    ensures ExpandDown(r0, r1, r2, r3, 3, 3) == Det4Of(r0, r1, r2, r3)
  {
  }

  /** Laplace's rule down the columns: column k against the cofactors of column i. */
  lemma ExpandDownAlong(r0: Tuple, r1: Tuple, r2: Tuple, r3: Tuple, k: nat, i: nat)
    requires k < 4 && i < 4
    ensures ExpandDown(r0, r1, r2, r3, k, i) == if k == i then Det4Of(r0, r1, r2, r3) else 0.0
  {
    if k == 0 && i == 0 {
      ExpandDown00(r0, r1, r2, r3);
    } else if k == 0 && i == 1 {
      ExpandDown01(r0, r1, r2, r3);
    } else if k == 0 && i == 2 {
      ExpandDown02(r0, r1, r2, r3);
    } else if k == 0 && i == 3 {
      ExpandDown03(r0, r1, r2, r3);
    } else if k == 1 && i == 0 {
      ExpandDown10(r0, r1, r2, r3);
    } else if k == 1 && i == 1 {
      ExpandDown11(r0, r1, r2, r3);
    } else if k == 1 && i == 2 {
      ExpandDown12(r0, r1, r2, r3);
    } else if k == 1 && i == 3 {
      ExpandDown13(r0, r1, r2, r3);
    } else if k == 2 && i == 0 {
      ExpandDown20(r0, r1, r2, r3);
    } else if k == 2 && i == 1 {
      ExpandDown21(r0, r1, r2, r3);
    } else if k == 2 && i == 2 {
      ExpandDown22(r0, r1, r2, r3);
    } else if k == 2 && i == 3 {
      ExpandDown23(r0, r1, r2, r3);
    } else if k == 3 && i == 0 {
      ExpandDown30(r0, r1, r2, r3);
    } else if k == 3 && i == 1 {
      ExpandDown31(r0, r1, r2, r3);
    } else if k == 3 && i == 2 {
      ExpandDown32(r0, r1, r2, r3);
    } else if k == 3 && i == 3 {
      ExpandDown33(r0, r1, r2, r3);
    }
  }

  // From the recursive definitions to the closed forms.

  lemma CompOfRow(m: Matrix, r: nat, c: nat)
    requires m.width == 4 && r < m.height && c < 4
    ensures Comp(Row(m, r), c) == Get(m, r, c)
  {
  }

  /** A 3x3 expansion whose cofactors are known 2x2 determinants. */
  lemma Det3Expand(dt: real, a: real, b: real, c: real, d: real, e: real, f: real, g: real, h: real, i: real,
                   c0: real, c1: real, c2: real)
    requires c0 == e * i - f * h && c1 == (d * i - f * g) * -1.0 && c2 == d * h - e * g
    requires dt == 0.0 + a * c0 + b * c1 + c * c2
    ensures dt == Det3Of(a, b, c, d, e, f, g, h, i)
  {
  }

  /** The recursive determinant of a 3x3 matrix is the closed 3x3 formula in its cells. */
  lemma Det3Closed(s: Matrix)
    requires s.height == 3 && s.width == 3
    ensures Det(s) == Det3Of(Get(s, 0, 0), Get(s, 0, 1), Get(s, 0, 2), Get(s, 1, 0), Get(s, 1, 1), Get(s, 1, 2),
                             Get(s, 2, 0), Get(s, 2, 1), Get(s, 2, 2))
  {
    var s0, s1, s2 := Submatrix(s, 0, 0), Submatrix(s, 0, 1), Submatrix(s, 0, 2);
    DetSmall(s0);
    DetSmall(s1);
    DetSmall(s2);
    assert Get(s0, 0, 0) == Get(s, 1, 1) && Get(s0, 0, 1) == Get(s, 1, 2) && Get(s0, 1, 0) == Get(s, 2, 1) && Get(s0, 1, 1) == Get(s, 2, 2);
    assert Get(s1, 0, 0) == Get(s, 1, 0) && Get(s1, 0, 1) == Get(s, 1, 2) && Get(s1, 1, 0) == Get(s, 2, 0) && Get(s1, 1, 1) == Get(s, 2, 2);
    assert Get(s2, 0, 0) == Get(s, 1, 0) && Get(s2, 0, 1) == Get(s, 1, 1) && Get(s2, 1, 0) == Get(s, 2, 0) && Get(s2, 1, 1) == Get(s, 2, 1);
    var c0, c1, c2 := Cofactor(s, 0, 0), Cofactor(s, 0, 1), Cofactor(s, 0, 2);
    assert c0 == Det(s0) && c1 == Det(s1) * -1.0 && c2 == Det(s2);
    assert ExpandRow0(s, 1) == 0.0 + Get(s, 0, 0) * c0;
    assert ExpandRow0(s, 2) == ExpandRow0(s, 1) + Get(s, 0, 1) * c1;
    assert Det(s) == ExpandRow0(s, 2) + Get(s, 0, 2) * c2;
    Det3Expand(Det(s), Get(s, 0, 0), Get(s, 0, 1), Get(s, 0, 2), Get(s, 1, 0), Get(s, 1, 1), Get(s, 1, 2),
               Get(s, 2, 0), Get(s, 2, 1), Get(s, 2, 2), c0, c1, c2);
  }

  /** Every cofactor of a 4x4 matrix is the signed closed-form minor of its rows. */
  lemma CofactorClosed(m: Matrix, k: nat, j: nat)
    requires m.height == 4 && m.width == 4 && k < 4 && j < 4
    ensures Cofactor(m, k, j) == Cof4(Row(m, 0), Row(m, 1), Row(m, 2), Row(m, 3), k, j)
  {
    var r0, r1, r2, r3 := Row(m, 0), Row(m, 1), Row(m, 2), Row(m, 3);
    var sub := Submatrix(m, k, j);
    Det3Closed(sub);
    forall a: nat, b: nat | a < 3 && b < 3
      ensures Get(sub, a, b) == Comp(RowOf(r0, r1, r2, r3, Skip(a, k)), Skip(b, j))
    {
      CompOfRow(m, Skip(a, k), Skip(b, j));
    }
    assert Minor3(r0, r1, r2, r3, k, j) == Det(sub);
  }

  /** The recursive determinant of a 4x4 matrix is the permutation sum of its rows. */
  lemma DetClosed(m: Matrix)
    requires m.height == 4 && m.width == 4
    ensures Det(m) == Det4Of(Row(m, 0), Row(m, 1), Row(m, 2), Row(m, 3))
  {
    var r0, r1, r2, r3 := Row(m, 0), Row(m, 1), Row(m, 2), Row(m, 3);
    CofactorClosed(m, 0, 0);
    CofactorClosed(m, 0, 1);
    CofactorClosed(m, 0, 2);
    CofactorClosed(m, 0, 3);
    assert ExpandRow0(m, 1) == 0.0 + Get(m, 0, 0) * Cofactor(m, 0, 0);
    assert ExpandRow0(m, 2) == ExpandRow0(m, 1) + Get(m, 0, 1) * Cofactor(m, 0, 1);
    assert ExpandRow0(m, 3) == ExpandRow0(m, 2) + Get(m, 0, 2) * Cofactor(m, 0, 2);
    assert Det(m) == ExpandRow0(m, 3) + Get(m, 0, 3) * Cofactor(m, 0, 3);
    assert Det(m) == Expand(r0, r1, r2, r3, 0, 0);
    ExpandAlong(r0, r1, r2, r3, 0, 0);
  }

  /** Row i of a 4x4 matrix against the cofactors of row k, as the product loop adds it. */
  function RowTimesCofactors(m: Matrix, i: nat, k: nat): real
    requires m.height == 4 && m.width == 4 && i < 4 && k < 4
  {
    Combine(Row(m, i), Cofactor(m, k, 0), Cofactor(m, k, 1), Cofactor(m, k, 2), Cofactor(m, k, 3))
  }

  lemma RowTimesCofactorsClosed(m: Matrix, i: nat, k: nat)
    requires m.height == 4 && m.width == 4 && i < 4 && k < 4
    ensures RowTimesCofactors(m, i, k) == Expand(Row(m, 0), Row(m, 1), Row(m, 2), Row(m, 3), i, k)
  {
    var r0, r1, r2, r3 := Row(m, 0), Row(m, 1), Row(m, 2), Row(m, 3);
    CofactorClosed(m, k, 0);
    CofactorClosed(m, k, 1);
    CofactorClosed(m, k, 2);
    CofactorClosed(m, k, 3);
    assert RowOf(r0, r1, r2, r3, i) == Row(m, i);
  }

  /** Laplace's rule for a 4x4 matrix: a row against its own cofactors gives the determinant, against another row's gives 0. */
  lemma Laplace(m: Matrix, i: nat, k: nat)
    requires m.height == 4 && m.width == 4 && i < 4 && k < 4
    ensures RowTimesCofactors(m, i, k) == if i == k then Det(m) else 0.0
  {
    RowTimesCofactorsClosed(m, i, k);
    ExpandAlong(Row(m, 0), Row(m, 1), Row(m, 2), Row(m, 3), i, k);
    DetClosed(m);
  }

  /** Column k of a four-high matrix against the cofactors of column i. */
  function ColumnTimesCofactors(m: Matrix, k: nat, i: nat): real
    requires m.height == 4 && m.width == 4 && k < 4 && i < 4
  {
    Combine(ColumnOf(m, k), Cofactor(m, 0, i), Cofactor(m, 1, i), Cofactor(m, 2, i), Cofactor(m, 3, i))
  }

  /** Laplace's rule down the columns of a 4x4 matrix. */
  lemma LaplaceDown(m: Matrix, k: nat, i: nat)
    requires m.height == 4 && m.width == 4 && k < 4 && i < 4
    ensures ColumnTimesCofactors(m, k, i) == if k == i then Det(m) else 0.0
  {
    var r0, r1, r2, r3 := Row(m, 0), Row(m, 1), Row(m, 2), Row(m, 3);
    CofactorClosed(m, 0, i);
    CofactorClosed(m, 1, i);
    CofactorClosed(m, 2, i);
    CofactorClosed(m, 3, i);
    ColumnOfRows(m, k);
    ExpandDownAlong(r0, r1, r2, r3, k, i);
    DetClosed(m);
  }

  /** Column k gathers component k of each row. */
  lemma ColumnOfRows(m: Matrix, k: nat)
    requires m.height == 4 && m.width == 4 && k < 4
    ensures Tuple(Comp(Row(m, 0), k), Comp(Row(m, 1), k), Comp(Row(m, 2), k), Comp(Row(m, 3), k)) == ColumnOf(m, k)
  {
  }

  // Products of 4x4 matrices.

  /** Column x of a four-high matrix as a tuple. */
  function ColumnOf(b: Matrix, x: nat): Tuple
    requires b.height == 4 && x < b.width
  {
    Tuple(Get(b, 0, x), Get(b, 1, x), Get(b, 2, x), Get(b, 3, x))
  }

  /** With an inner dimension of four, a product cell is a row dotted with a column. */
  lemma RowCol4(a: Matrix, b: Matrix, y: nat, x: nat)
    requires a.width == 4 && b.height == 4 && y < a.height && x < b.width
    ensures RowCol(a, b, y, x, 4) == Dot(Row(a, y), ColumnOf(b, x))
  {
    assert RowCol(a, b, y, x, 0) == 0.0;
    assert RowCol(a, b, y, x, 1) == 0.0 + Get(a, y, 0) * Get(b, 0, x);
    assert RowCol(a, b, y, x, 2) == RowCol(a, b, y, x, 1) + Get(a, y, 1) * Get(b, 1, x);
    assert RowCol(a, b, y, x, 3) == RowCol(a, b, y, x, 2) + Get(a, y, 2) * Get(b, 2, x);
    assert RowCol(a, b, y, x, 4) == RowCol(a, b, y, x, 3) + Get(a, y, 3) * Get(b, 3, x);
  }

  /** Dividing every weight by d divides the weighted sum by d. */
  lemma DivideDot(r: Tuple, c: Tuple, e: Tuple, d: real)
    requires d != 0.0
    requires e.x == c.x / d && e.y == c.y / d && e.z == c.z / d && e.w == c.w / d
    ensures Dot(r, e) == Dot(r, c) / d
  {
    var s := 1.0 / d;
    assert e == Scale(c, s);
    DotSymmetric(r, e);
    DotSymmetric(r, c);
    DotLinear(c, c, r, s);
  }

  /** A left-to-right weighted sum from zero is a dot product. */
  lemma CombineIsDot(r: Tuple, c0: real, c1: real, c2: real, c3: real)
    ensures Combine(r, c0, c1, c2, c3) == Dot(r, Tuple(c0, c1, c2, c3))
  {
  }

  /** A quotient by d of either d or zero. */
  lemma DeltaQuotient(v: real, d: real, q: real, same: bool)
    requires d != 0.0 && v == (if same then d else 0.0) && q == v / d
    ensures q == if same then 1.0 else 0.0
  {
    if same {
      assert q == d / d;
    } else {
      assert q == 0.0 / d;
    }
  }

  /** Cell (i, k) of the matrix times its inverse, with the determinant passed in as `d`. */
  lemma RightInverseCell(m: Matrix, d: real, i: nat, k: nat)
    requires m.height == 4 && m.width == 4 && d == Det(m) && d != 0.0 && i < 4 && k < 4
    ensures Get(Mul(m, Inverse(m)), i, k) == if i == k then 1.0 else 0.0
  {
    RowCol4(m, Inverse(m), i, k);
    var c0, c1, c2, c3 := Cofactor(m, k, 0), Cofactor(m, k, 1), Cofactor(m, k, 2), Cofactor(m, k, 3);
    var cof := Tuple(c0, c1, c2, c3);
    var col := ColumnOf(Inverse(m), k);
    assert col.x == c0 / d && col.y == c1 / d && col.z == c2 / d && col.w == c3 / d;
    DivideDot(Row(m, i), cof, col, d);
    Laplace(m, i, k);
    CombineIsDot(Row(m, i), c0, c1, c2, c3);
    DeltaQuotient(Dot(Row(m, i), cof), d, Dot(Row(m, i), col), i == k);
  }

  /** Cell (i, k) of the inverse times its matrix. */
  lemma LeftInverseCell(m: Matrix, d: real, i: nat, k: nat)
    requires m.height == 4 && m.width == 4 && d == Det(m) && d != 0.0 && i < 4 && k < 4
    ensures Get(Mul(Inverse(m), m), i, k) == if i == k then 1.0 else 0.0
  {
    RowCol4(Inverse(m), m, i, k);
    var c0, c1, c2, c3 := Cofactor(m, 0, i), Cofactor(m, 1, i), Cofactor(m, 2, i), Cofactor(m, 3, i);
    var cof := Tuple(c0, c1, c2, c3);
    var row := Row(Inverse(m), i);
    assert row.x == c0 / d && row.y == c1 / d && row.z == c2 / d && row.w == c3 / d;
    DivideDot(ColumnOf(m, k), cof, row, d);
    DotSymmetric(ColumnOf(m, k), row);
    LaplaceDown(m, k, i);
    CombineIsDot(ColumnOf(m, k), c0, c1, c2, c3);
    DeltaQuotient(Dot(ColumnOf(m, k), cof), d, Dot(ColumnOf(m, k), row), k == i);
  }

  /** A 4x4 matrix with ones on the diagonal and zeros elsewhere is the identity. */
  lemma IdentityByCells(p: Matrix)
    requires p.height == 4 && p.width == 4
    requires forall i: nat, k: nat :: i < 4 && k < 4 ==> Get(p, i, k) == if i == k then 1.0 else 0.0
    ensures p == Identity(4, 4)
  {
    Extensionality(p, Identity(4, 4));
  }

  /** Two 4x4 matrices with the same four rows are equal. */
  lemma EqualByRows(p: Matrix, q: Matrix)
    requires p.height == 4 && p.width == 4 && q.height == 4 && q.width == 4
    requires Row(p, 0) == Row(q, 0) && Row(p, 1) == Row(q, 1) && Row(p, 2) == Row(q, 2) && Row(p, 3) == Row(q, 3)
    ensures p == q
  {
    forall r: nat, c: nat | r < 4 && c < 4
      ensures Get(p, r, c) == Get(q, r, c)
    {
      assert Comp(Row(p, r), c) == Comp(Row(q, r), c);
    }
    Extensionality(p, q);
  }

  /** The rows of the 4x4 identity. */
  lemma IdentityRows()
    ensures Row(Identity(4, 4), 0) == Tuple(1.0, 0.0, 0.0, 0.0)
    ensures Row(Identity(4, 4), 1) == Tuple(0.0, 1.0, 0.0, 0.0)
    ensures Row(Identity(4, 4), 2) == Tuple(0.0, 0.0, 1.0, 0.0)
    ensures Row(Identity(4, 4), 3) == Tuple(0.0, 0.0, 0.0, 1.0)
  {
  }

  /** A matrix times its inverse is the identity. */
  lemma MulInverseRight(m: Matrix)
    requires m.height == 4 && m.width == 4 && Det(m) != 0.0
    ensures Mul(m, Inverse(m)) == Identity(4, 4)
  {
    var p := Mul(m, Inverse(m));
    forall i: nat, k: nat | i < 4 && k < 4
      ensures Get(p, i, k) == if i == k then 1.0 else 0.0
    {
      RightInverseCell(m, Det(m), i, k);
    }
    IdentityByCells(p);
  }

  /** The inverse times its matrix is the identity as well. */
  lemma MulInverseLeft(m: Matrix)
    requires m.height == 4 && m.width == 4 && Det(m) != 0.0
    ensures Mul(Inverse(m), m) == Identity(4, 4)
  {
    var p := Mul(Inverse(m), m);
    forall i: nat, k: nat | i < 4 && k < 4
      ensures Get(p, i, k) == if i == k then 1.0 else 0.0
    {
      LeftInverseCell(m, Det(m), i, k);
    }
    IdentityByCells(p);
  }

  /** Regrouping a row, a 4x4 block and a column. */
  lemma RegroupSums(a: Tuple, b0: Tuple, b1: Tuple, b2: Tuple, b3: Tuple, c: Tuple)
    ensures Dot(Tuple(Dot(a, Tuple(b0.x, b1.x, b2.x, b3.x)), Dot(a, Tuple(b0.y, b1.y, b2.y, b3.y)),
                      Dot(a, Tuple(b0.z, b1.z, b2.z, b3.z)), Dot(a, Tuple(b0.w, b1.w, b2.w, b3.w))), c)
         == Dot(a, Tuple(Dot(b0, c), Dot(b1, c), Dot(b2, c), Dot(b3, c)))
  {
  }

  /** Row i of a product is row i of the left factor against each column of the right one. */
  lemma ProductRow(a: Matrix, b: Matrix, i: nat)
    requires a.height == 4 && a.width == 4 && b.height == 4 && b.width == 4 && i < 4
    ensures Row(Mul(a, b), i) == Tuple(Dot(Row(a, i), ColumnOf(b, 0)), Dot(Row(a, i), ColumnOf(b, 1)),
                                      Dot(Row(a, i), ColumnOf(b, 2)), Dot(Row(a, i), ColumnOf(b, 3)))
  {
    RowCol4(a, b, i, 0);
    RowCol4(a, b, i, 1);
    RowCol4(a, b, i, 2);
    RowCol4(a, b, i, 3);
  }

  /** Column k of a product is each row of the left factor against column k of the right one. */
  lemma ProductColumn(a: Matrix, b: Matrix, k: nat)
    requires a.height == 4 && a.width == 4 && b.height == 4 && b.width == 4 && k < 4
    ensures ColumnOf(Mul(a, b), k) == Tuple(Dot(Row(a, 0), ColumnOf(b, k)), Dot(Row(a, 1), ColumnOf(b, k)),
                                           Dot(Row(a, 2), ColumnOf(b, k)), Dot(Row(a, 3), ColumnOf(b, k)))
  {
    RowCol4(a, b, 0, k);
    RowCol4(a, b, 1, k);
    RowCol4(a, b, 2, k);
    RowCol4(a, b, 3, k);
  }

  /** The product of 4x4 matrices is associative. */
  lemma MulAssociative(a: Matrix, b: Matrix, c: Matrix)
    requires a.height == 4 && a.width == 4 && b.height == 4 && b.width == 4 && c.height == 4 && c.width == 4
    ensures Mul(Mul(a, b), c) == Mul(a, Mul(b, c))
  {
    var ab, bc := Mul(a, b), Mul(b, c);
    var lhs, rhs := Mul(ab, c), Mul(a, bc);
    forall i: nat, k: nat | i < 4 && k < 4
      ensures Get(lhs, i, k) == Get(rhs, i, k)
    {
      RowCol4(ab, c, i, k);
      RowCol4(a, bc, i, k);
      ProductRow(a, b, i);
      ProductColumn(b, c, k);
      var b0, b1, b2, b3 := Row(b, 0), Row(b, 1), Row(b, 2), Row(b, 3);
      assert ColumnOf(b, 0) == Tuple(b0.x, b1.x, b2.x, b3.x);
      assert ColumnOf(b, 1) == Tuple(b0.y, b1.y, b2.y, b3.y);
      assert ColumnOf(b, 2) == Tuple(b0.z, b1.z, b2.z, b3.z);
      assert ColumnOf(b, 3) == Tuple(b0.w, b1.w, b2.w, b3.w);
      RegroupSums(Row(a, i), b0, b1, b2, b3, ColumnOf(c, k));
    }
    Extensionality(lhs, rhs);
  }

  /** Multiplying a product by the inverse of its right factor gives back the left factor. */
  lemma MulInverseCancels(a: Matrix, b: Matrix)
    requires a.height == 4 && a.width == 4 && b.height == 4 && b.width == 4 && Det(b) != 0.0
    ensures Mul(Mul(a, b), Inverse(b)) == a
  {
    MulAssociative(a, b, Inverse(b));
    MulInverseRight(b);
    MulIdentity(a);
  }

  /** A left inverse of an invertible 4x4 matrix is its inverse. */
  lemma InverseUnique(b: Matrix, c: Matrix)
    requires b.height == 4 && b.width == 4 && c.height == 4 && c.width == 4 && Det(b) != 0.0
    requires Mul(c, b) == Identity(4, 4)
    ensures Inverse(b) == c
  {
    var inv := Inverse(b);
    MulIdentity(inv);
    MulAssociative(c, b, inv);
    MulInverseRight(b);
    MulIdentity(c);
  }

  // Products with tuples.

  /** Applying a product to a tuple applies the right factor first, then the left one. */
  lemma MulTupleCompose(a: Matrix, b: Matrix, t: Tuple)
    requires a.height == 4 && a.width == 4 && b.height == 4 && b.width == 4
    ensures MulTuple(Mul(a, b), t) == MulTuple(a, MulTuple(b, t))
  {
    var b0, b1, b2, b3 := Row(b, 0), Row(b, 1), Row(b, 2), Row(b, 3);
    assert ColumnOf(b, 0) == Tuple(b0.x, b1.x, b2.x, b3.x);
    assert ColumnOf(b, 1) == Tuple(b0.y, b1.y, b2.y, b3.y);
    assert ColumnOf(b, 2) == Tuple(b0.z, b1.z, b2.z, b3.z);
    assert ColumnOf(b, 3) == Tuple(b0.w, b1.w, b2.w, b3.w);
    var bt := MulTuple(b, t);
    assert bt == Tuple(Dot(b0, t), Dot(b1, t), Dot(b2, t), Dot(b3, t));
    forall i: nat | i < 4
      ensures Dot(Row(Mul(a, b), i), t) == Dot(Row(a, i), bt)
    {
      ProductRow(a, b, i);
      RegroupSums(Row(a, i), b0, b1, b2, b3, t);
    }
  }

  /** The identity leaves every tuple unchanged. */
  lemma MulTupleIdentity(t: Tuple)
    ensures MulTuple(Identity(4, 4), t) == t
  {
    IdentityRows();
  }

  /** A row dotted with a + b * s. */
  lemma DotAffine(r: Tuple, a: Tuple, b: Tuple, s: real)
    ensures Dot(r, Add(a, Scale(b, s))) == Dot(r, a) + Dot(r, b) * s
  {
  }

  /** A matrix acts linearly on tuples. */
  lemma MulTupleLinear(m: Matrix, a: Tuple, b: Tuple, s: real)
    requires m.height == 4 && m.width == 4
    ensures MulTuple(m, Add(a, Scale(b, s))) == Add(MulTuple(m, a), Scale(MulTuple(m, b), s))
  {
    DotAffine(Row(m, 0), a, b, s);
    DotAffine(Row(m, 1), a, b, s);
    DotAffine(Row(m, 2), a, b, s);
    DotAffine(Row(m, 3), a, b, s);
  }

  /** The inverse undoes the action of an invertible matrix on a tuple. */
  lemma MulTupleInverse(m: Matrix, t: Tuple)
    requires m.height == 4 && m.width == 4 && Det(m) != 0.0
    ensures MulTuple(Inverse(m), MulTuple(m, t)) == t
    ensures MulTuple(m, MulTuple(Inverse(m), t)) == t
  {
    MulTupleCompose(Inverse(m), m, t);
    MulTupleCompose(m, Inverse(m), t);
    MulInverseLeft(m);
    MulInverseRight(m);
    MulTupleIdentity(t);
  }
}

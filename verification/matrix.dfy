/**
  Dense row-major matrices of reals: a height, a width and a flat buffer in
  which cell (row, column) lives at row * width + column.
 */
module Matrices {
  import opened Base
  import Tuples

  datatype MatrixData = MatrixData(height: nat, width: nat, values: seq<real>)

  /** A matrix whose buffer holds exactly height * width values. */
  type Matrix = m: MatrixData | |m.values| == m.height * m.width witness MatrixData(0, 0, [])

  /** The value of a cell, the `Index<(usize, usize)>` operator. */
  function Get(m: Matrix, row: nat, column: nat): real
    requires row < m.height && column < m.width
  {
    FlatIndexInRange(row, column, m.height, m.width);
    m.values[row * m.width + column]
  }

  /** Where a cell lives in the buffer. */
  lemma CellIndex(m: Matrix, row: nat, column: nat)
    requires row < m.height && column < m.width
    ensures row * m.width + column < |m.values|
    ensures Get(m, row, column) == m.values[row * m.width + column]
  {
    FlatIndexInRange(row, column, m.height, m.width);
  }

  /** Two matrices of the same shape whose cells agree are equal. */
  lemma {:induction false} Extensionality(a: Matrix, b: Matrix)
    requires a.height == b.height && a.width == b.width
    requires forall r: nat, c: nat :: r < a.height && c < a.width ==> Get(a, r, c) == Get(b, r, c)
    ensures a == b
  {
    forall k | 0 <= k < |a.values|
      ensures a.values[k] == b.values[k]
    {
      FlatIndexSplit(k, a.height, a.width);
      assert Get(a, k / a.width, k % a.width) == Get(b, k / a.width, k % a.width);
    }
  }

  /** The cell that a flat index of an h-by-w buffer addresses. */
  function CellAt(m: Matrix, k: nat): real
    requires k < m.height * m.width
  {
    FlatIndexSplit(k, m.height, m.width);
    Get(m, k / m.width, k % m.width)
  }

  /** `Matrix::new`: an all-zero matrix of the given shape. */
  function New(height: nat, width: nat): (m: Matrix)
    ensures m.height == height && m.width == width && |m.values| == height * width
    ensures forall r: nat, c: nat :: r < height && c < width ==> Get(m, r, c) == 0.0
  {
    var m: Matrix := MatrixData(height, width, seq(height * width, _ => 0.0));
    forall r: nat, c: nat | r < height && c < width
      ensures Get(m, r, c) == 0.0
    {
      CellIndex(m, r, c);
    }
    m
  }

  /** `Matrix::from_values` for a buffer of the right length: the buffer is kept as given. */
  function FromValues(height: nat, width: nat, values: seq<real>): (m: Matrix)
    requires |values| == height * width
    ensures m.height == height && m.width == width && m.values == values
  {
    MatrixData(height, width, values)
  }

  /** Assignment through `IndexMut`: one cell changes, nothing else does. */
  function Set(m: Matrix, row: nat, column: nat, v: real): (m': Matrix)
    requires row < m.height && column < m.width
    ensures m'.height == m.height && m'.width == m.width
    ensures Get(m', row, column) == v
    ensures forall r: nat, c: nat :: r < m.height && c < m.width && (r, c) != (row, column) ==> Get(m', r, c) == Get(m, r, c)
  {
    FlatIndexInRange(row, column, m.height, m.width);
    var k := row * m.width + column;
    var m': Matrix := MatrixData(m.height, m.width, m.values[k := v]);
    CellIndex(m', row, column);
    forall r: nat, c: nat | r < m.height && c < m.width && (r, c) != (row, column)
      ensures Get(m', r, c) == Get(m, r, c)
    {
      CellIndex(m, r, c);
      CellIndex(m', r, c);
      FlatIndexDivMod(r, c, m.width);
      FlatIndexDivMod(row, column, m.width);
    }
    m'
  }

  /** The first `n` steps of the loop of `Matrix::identity`: ones on the diagonal of rows below n. */
  function SetDiagonal(m: Matrix, n: nat): (d: Matrix)
    requires n <= m.height && n <= m.width
    ensures d.height == m.height && d.width == m.width
    ensures forall r: nat, c: nat :: r < m.height && c < m.width ==> Get(d, r, c) == (if r == c && r < n then 1.0 else Get(m, r, c))
  {
    if n == 0 then m else
      var d := SetDiagonal(m, n - 1);
      Set(d, n - 1, n - 1, 1.0)
  }

  /**
    `Matrix::identity`: ones on the diagonal of an all-zero matrix. The loop
    runs over every row, so the source panics when the height exceeds the
    width; that is why the height may not exceed the width.
   */
  function Identity(height: nat, width: nat): (m: Matrix)
    requires height <= width
    ensures m.height == height && m.width == width
    ensures forall r: nat, c: nat :: r < height && c < width ==> Get(m, r, c) == (if r == c then 1.0 else 0.0)
  {
    SetDiagonal(New(height, width), height)
  }

  /** The loop of `Matrix::identity` writes past the buffer exactly when the height exceeds the width. */
  lemma IdentityLoopInBounds(height: nat, width: nat)
    ensures (forall i :: 0 <= i < height ==> i * width + i < height * width) <==> height <= width
  {
    if height > width {
      var i := height - 1;
      assert i * width + i >= height * width by {
        assert i >= width;
        assert height * width == i * width + width;
      }
    } else {
      forall i | 0 <= i < height
        ensures i * width + i < height * width
      {
        FlatIndexInRange(i, i, height, width);
      }
    }
  }

  function TransposeCell(m: Matrix, k: nat): real
    requires k < m.width * m.height
  {
    FlatIndexSplit(k, m.width, m.height);
    Get(m, k % m.height, k / m.height)
  }

  /** `Matrix::transpose`: the shape is swapped and cell (x, y) of the result is cell (y, x) of the input. */
  function Transpose(m: Matrix): (t: Matrix)
    ensures t.height == m.width && t.width == m.height
    ensures forall r: nat, c: nat :: r < t.height && c < t.width ==> Get(t, r, c) == Get(m, c, r)
  {
    var t: Matrix := MatrixData(m.width, m.height, seq(m.width * m.height, k requires 0 <= k < m.width * m.height => TransposeCell(m, k)));
    assert forall r: nat, c: nat :: r < t.height && c < t.width ==> Get(t, r, c) == Get(m, c, r) by {
      forall r: nat, c: nat | r < t.height && c < t.width
        ensures Get(t, r, c) == Get(m, c, r)
      {
        CellIndex(t, r, c);
        FlatIndexDivMod(r, c, t.width);
      }
    }
    t
  }

  /** Transposing twice gives the matrix back, and the square identity is its own transpose. */
  lemma TransposeLaws(m: Matrix, n: nat)
    ensures Transpose(Transpose(m)) == m
    ensures Transpose(Identity(n, n)) == Identity(n, n)
  {
    Extensionality(Transpose(Transpose(m)), m);
    Extensionality(Transpose(Identity(n, n)), Identity(n, n));
  }

  /** Multiplication by a scalar, the `Mul<f64>` operator: every value is scaled, the shape is kept. */
  function ScaleMatrix(m: Matrix, s: real): (p: Matrix)
    ensures p.height == m.height && p.width == m.width
    ensures forall r: nat, c: nat :: r < m.height && c < m.width ==> Get(p, r, c) == Get(m, r, c) * s
  {
    var p: Matrix := MatrixData(m.height, m.width, seq(|m.values|, k requires 0 <= k < |m.values| => m.values[k] * s));
    forall r: nat, c: nat | r < m.height && c < m.width
      ensures Get(p, r, c) == Get(m, r, c) * s
    {
      CellIndex(m, r, c);
      CellIndex(p, r, c);
    }
    p
  }

  /**
    `PartialEq`: same shape and every pair of values within EPSILON. The
    source zips the two buffers, which have the same length once the shapes
    agree.
   */
  predicate ApproxEq(a: Matrix, b: Matrix)
  {
    && a.height == b.height
    && a.width == b.width
    && forall k :: 0 <= k < |a.values| ==> ApproxEqual(a.values[k], b.values[k])
  }

  /** Tolerant equality is reflexive and symmetric, and one cell far off breaks it. */
  lemma ApproxEqLaws(a: Matrix, b: Matrix, row: nat, column: nat)
    requires row < a.height && column < a.width
    ensures ApproxEq(a, a)
    ensures ApproxEq(a, b) <==> ApproxEq(b, a)
    ensures !ApproxEq(a, Set(a, row, column, Get(a, row, column) + 100.0))
  {
    var b' := Set(a, row, column, Get(a, row, column) + 100.0);
    FlatIndexInRange(row, column, a.height, a.width);
    assert !ApproxEqual(a.values[row * a.width + column], b'.values[row * a.width + column]);
  }

  // Submatrix: the source filters the flat buffer, keeping index k when
  // k / width is not the removed row and k % width is not the removed column.

  /** The index that position i of a list takes in the original once entry k is removed. */
  function Skip(i: nat, k: nat): (j: nat)
    ensures j != k
    ensures i < k ==> j == i
    ensures i >= k ==> j == i + 1
  {
    if i < k then i else i + 1
  }

  /** The filter predicate of `submatrix`, on flat indices. */
  predicate Kept(m: Matrix, row: nat, column: nat, k: nat)
    requires m.width > 0
  {
    k / m.width != row && k % m.width != column
  }

  /** The values among the first n of the buffer that pass the filter, in order. */
  function Filtered(m: Matrix, row: nat, column: nat, n: nat): seq<real>
    requires m.width > 0 && n <= |m.values|
  {
    if n == 0 then []
    else Filtered(m, row, column, n - 1) + (if Kept(m, row, column, n - 1) then [m.values[n - 1]] else [])
  }

  /** The kept values of row r among its first j columns. */
  function RowPart(m: Matrix, row: nat, column: nat, r: nat, j: nat): seq<real>
    requires r < m.height && j <= m.width
  {
    if j == 0 then []
    else RowPart(m, row, column, r, j - 1) + (if r != row && j - 1 != column then [Get(m, r, j - 1)] else [])
  }

  lemma {:induction false} FilteredRowPrefix(m: Matrix, row: nat, column: nat, r: nat, j: nat)
    requires r < m.height && 0 < m.width && j <= m.width
    ensures r * m.width + j <= |m.values|
    ensures Filtered(m, row, column, r * m.width + j) == Filtered(m, row, column, r * m.width) + RowPart(m, row, column, r, j)
  {
    MulMonotone(r + 1, m.height, m.width);
    if j > 0 {
      FilteredRowPrefix(m, row, column, r, j - 1);
      var k := r * m.width + (j - 1);
      FlatIndexDivMod(r, j - 1, m.width);
      CellIndex(m, r, j - 1);
      assert Kept(m, row, column, k) <==> r != row && j - 1 != column;
    }
  }

  lemma {:induction false} RowPartContent(m: Matrix, row: nat, column: nat, r: nat, j: nat)
    requires r < m.height && j <= m.width
    ensures r == row ==> RowPart(m, row, column, r, j) == []
    ensures r != row ==> |RowPart(m, row, column, r, j)| == (if column < j then j - 1 else j)
    ensures r != row ==> forall i :: 0 <= i < |RowPart(m, row, column, r, j)| ==>
      Skip(i, column) < m.width && RowPart(m, row, column, r, j)[i] == Get(m, r, Skip(i, column))
  {
    if j > 0 {
      RowPartContent(m, row, column, r, j - 1);
    }
  }

  /** How many rows below r survive the removal of `row`. */
  function KeptRows(r: nat, row: nat): nat
  {
    if r <= row then r else r - 1
  }

  /** Appending a row of the right length to a buffer adds a last row and keeps the others. */
  lemma StackRow(p: Matrix, part: seq<real>)
    requires |part| == p.width
    ensures |p.values + part| == (p.height + 1) * p.width
    ensures forall i: nat, j: nat :: i <= p.height && j < p.width ==>
      Get(MatrixData(p.height + 1, p.width, p.values + part), i, j) == (if i < p.height then Get(p, i, j) else part[j])
  {
    var q: Matrix := MatrixData(p.height + 1, p.width, p.values + part);
    forall i: nat, j: nat | i <= p.height && j < p.width
      ensures Get(q, i, j) == (if i < p.height then Get(p, i, j) else part[j])
    {
      CellIndex(q, i, j);
      if i < p.height {
        CellIndex(p, i, j);
      }
    }
  }

  lemma {:induction false} FilteredRows(m: Matrix, row: nat, column: nat, r: nat)
    requires row < m.height && column < m.width && r <= m.height
    ensures r * m.width <= |m.values|
    ensures |Filtered(m, row, column, r * m.width)| == KeptRows(r, row) * (m.width - 1)
    ensures forall i: nat, j: nat :: i < KeptRows(r, row) && j < m.width - 1 ==>
      Get(MatrixData(KeptRows(r, row), m.width - 1, Filtered(m, row, column, r * m.width)), i, j)
        == Get(m, Skip(i, row), Skip(j, column))
  {
    MulMonotone(r, m.height, m.width);
    if r > 0 {
      var w, r0 := m.width, r - 1;
      var n0 := r0 * w;
      FilteredRows(m, row, column, r0);
      FilteredRowPrefix(m, row, column, r0, w);
      RowPartContent(m, row, column, r0, w);
      var prev := Filtered(m, row, column, n0);
      var part := RowPart(m, row, column, r0, w);
      NextRow(r0, w);
      var cur := Filtered(m, row, column, r * w);
      assert cur == prev + part;
      var p: Matrix := MatrixData(KeptRows(r0, row), w - 1, prev);
      if r0 == row {
        assert cur == prev;
        var q: Matrix := MatrixData(KeptRows(r, row), w - 1, cur);
        assert q == p;
      } else {
        AppendKeptRow(m, row, column, r0, prev, part);
      }
    }
  }

  /** The step of `FilteredRows` for a kept row r0: its filtered cells become the next row of the minor. */
  lemma AppendKeptRow(m: Matrix, row: nat, column: nat, r0: nat, prev: seq<real>, part: seq<real>)
    requires row < m.height && column < m.width && r0 < m.height && r0 != row
    requires |prev| == KeptRows(r0, row) * (m.width - 1)
    requires forall i: nat, j: nat :: i < KeptRows(r0, row) && j < m.width - 1 ==>
      Get(MatrixData(KeptRows(r0, row), m.width - 1, prev), i, j) == Get(m, Skip(i, row), Skip(j, column))
    requires |part| == m.width - 1
    requires forall j :: 0 <= j < |part| ==> Skip(j, column) < m.width && part[j] == Get(m, r0, Skip(j, column))
    ensures |prev + part| == KeptRows(r0 + 1, row) * (m.width - 1)
    ensures forall i: nat, j: nat :: i < KeptRows(r0 + 1, row) && j < m.width - 1 ==>
      Get(MatrixData(KeptRows(r0 + 1, row), m.width - 1, prev + part), i, j) == Get(m, Skip(i, row), Skip(j, column))
  {
    var w := m.width;
    var p: Matrix := MatrixData(KeptRows(r0, row), w - 1, prev);
    assert KeptRows(r0 + 1, row) == p.height + 1;
    StackRow(p, part);
    var q: Matrix := MatrixData(p.height + 1, w - 1, prev + part);
    forall i: nat, j: nat | i < p.height + 1 && j < w - 1
      ensures Get(q, i, j) == Get(m, Skip(i, row), Skip(j, column))
    {
      if i == p.height {
        assert Skip(i, row) == r0;
        assert part[j] == Get(m, r0, Skip(j, column));
      }
    }
  }

  /**
    `Matrix::submatrix`: one row and one column fewer, and cell (i, j) is the
    cell of the input that the filter puts there, skipping the removed row
    and column.
   */
  function Submatrix(m: Matrix, row: nat, column: nat): (s: Matrix)
    requires row < m.height && column < m.width
    ensures s.height == m.height - 1 && s.width == m.width - 1
    ensures forall i: nat, j: nat :: i < s.height && j < s.width ==> Get(s, i, j) == Get(m, Skip(i, row), Skip(j, column))
  {
    FilteredRows(m, row, column, m.height);
    MatrixData(m.height - 1, m.width - 1, Filtered(m, row, column, m.height * m.width))
  }

  /** Conversely, every cell outside the removed row and column appears in the submatrix. */
  lemma SubmatrixKeepsOtherCells(m: Matrix, row: nat, column: nat, r: nat, c: nat)
    requires row < m.height && column < m.width
    requires r < m.height && c < m.width && r != row && c != column
    ensures var s := Submatrix(m, row, column);
      var i := if r < row then r else r - 1;
      var j := if c < column then c else c - 1;
      i < s.height && j < s.width && Get(s, i, j) == Get(m, r, c)
  {
  }

  // Determinant, minors and cofactors. Det, ExpandRow0 and Cofactor call each
  // other; the submatrix is one row smaller, which ends the recursion.

  /**
    `Matrix::determinant` of a square matrix: the 2x2 formula ad - bc, and
    otherwise the cofactor expansion along row 0, which for a 1x1 or 0x0
    matrix is a sum over an empty submatrix.
   */
  function Det(m: Matrix): real
    requires m.height == m.width
    decreases m.height, 2, 0
  {
    if m.height == 2 then m.values[0] * m.values[3] - m.values[1] * m.values[2]
    else ExpandRow0(m, m.width)
  }

  /**
    The accumulator of the loop of `determinant` after its first n steps:
    the values of row 0 times their cofactors, added left to right.
   */
  function ExpandRow0(m: Matrix, n: nat): real
    requires m.height == m.width && n <= m.width
    decreases m.height, 1, n
  {
    if n == 0 then 0.0 else ExpandRow0(m, n - 1) + Get(m, 0, n - 1) * Cofactor(m, 0, n - 1)
  }

  /** `Matrix::cofactor`: the determinant of the submatrix, multiplied by -1 when row + column is odd. */
  function Cofactor(m: Matrix, row: nat, column: nat): real
    requires m.height == m.width && row < m.height && column < m.width
    decreases m.height, 0, 0
  {
    var out := Det(Submatrix(m, row, column));
    if (row + column) % 2 == 1 then out * -1.0 else out
  }

  /** `Matrix::minor`: the determinant of the submatrix. */
  function Minor(m: Matrix, row: nat, column: nat): real
    requires m.height == m.width && row < m.height && column < m.width
  {
    Det(Submatrix(m, row, column))
  }

  /** The cofactor is the minor, negated exactly when row + column is odd. */
  lemma CofactorIsSignedMinor(m: Matrix, row: nat, column: nat)
    requires m.height == m.width && row < m.height && column < m.width
    ensures (row + column) % 2 == 0 ==> Cofactor(m, row, column) == Minor(m, row, column)
    ensures (row + column) % 2 == 1 ==> Cofactor(m, row, column) == -Minor(m, row, column)
  {
  }

  /**
    The determinant on small sizes: ad - bc on 2x2, and 0 on 0x0 and on
    every 1x1 matrix, whatever its single value, because the expansion
    multiplies that value by the determinant of an empty matrix.
   */
  lemma DetSmall(m: Matrix)
    requires m.height == m.width
    ensures m.height == 0 ==> Det(m) == 0.0
    ensures m.height == 1 ==> Det(m) == 0.0
    ensures m.height == 2 ==> Det(m) == Get(m, 0, 0) * Get(m, 1, 1) - Get(m, 0, 1) * Get(m, 1, 0)
  {
    if m.height == 1 {
      var s := Submatrix(m, 0, 0);
      assert Det(s) == ExpandRow0(s, 0) == 0.0;
      assert Cofactor(m, 0, 0) == Det(s);
      assert Det(m) == ExpandRow0(m, 1) == ExpandRow0(m, 0) + Get(m, 0, 0) * Cofactor(m, 0, 0);
    }
  }

  /** Expanding along a row 0 that is zero past its first cell leaves only the first term. */
  lemma {:induction false} ExpandRow0FirstOnly(m: Matrix, n: nat)
    requires m.height == m.width && 0 < n <= m.width
    requires forall x: nat :: 0 < x < m.width ==> Get(m, 0, x) == 0.0
    ensures ExpandRow0(m, n) == Get(m, 0, 0) * Cofactor(m, 0, 0)
  {
    if n > 1 {
      ExpandRow0FirstOnly(m, n - 1);
    }
  }

  /** Removing row 0 and column 0 of an identity leaves the identity one size smaller. */
  lemma SubmatrixOfIdentity(n: nat)
    requires n > 0
    ensures Submatrix(Identity(n, n), 0, 0) == Identity(n - 1, n - 1)
  {
    Extensionality(Submatrix(Identity(n, n), 0, 0), Identity(n - 1, n - 1));
  }

  /**
    The identity has determinant 1 from size 2 up; the 1x1 identity has
    determinant 0 and so counts as not invertible.
   */
  lemma {:induction false} DetIdentity(n: nat)
    ensures n >= 2 ==> Det(Identity(n, n)) == 1.0
    ensures n == 1 ==> Det(Identity(n, n)) == 0.0
  {
    var id := Identity(n, n);
    if n == 1 {
      DetSmall(id);
    } else if n == 2 {
      DetSmall(id);
    } else if n > 2 {
      var sub := Submatrix(id, 0, 0);
      assert Det(sub) == 1.0 by {
        DetIdentity(n - 1);
        SubmatrixOfIdentity(n);
      }
      var c := Cofactor(id, 0, 0);
      assert c == Det(sub);
      assert ExpandRow0(id, n) == Get(id, 0, 0) * c by {
        ExpandRow0FirstOnly(id, n);
      }
      assert Get(id, 0, 0) == 1.0;
      assert Det(id) == ExpandRow0(id, n);
    }
  }

  /** The determinant as a checked operation: `None` stands for the panic on a non-square matrix. */
  function Determinant(m: Matrix): (d: Option<real>)
    ensures d.None? <==> m.height != m.width
    ensures d.Some? ==> d.value == Det(m)
  {
    if m.height != m.width then None else Some(Det(m))
  }

  /** `Matrix::is_invertible`. */
  predicate IsInvertible(m: Matrix)
    requires m.height == m.width
  {
    Det(m) != 0.0
  }

  function CofactorCell(m: Matrix, k: nat): real
    requires m.height == m.width && k < m.height * m.width
  {
    FlatIndexSplit(k, m.height, m.width);
    Cofactor(m, k / m.width, k % m.width)
  }

  /** The matrix of cofactors that `inverse` fills in its loop. */
  function CofactorMatrix(m: Matrix): (c: Matrix)
    requires m.height == m.width
    ensures c.height == m.height && c.width == m.width
    ensures forall r: nat, k: nat :: r < m.height && k < m.width ==> Get(c, r, k) == Cofactor(m, r, k)
  {
    var c: Matrix := MatrixData(m.height, m.width, seq(m.height * m.width, k requires 0 <= k < m.height * m.width => CofactorCell(m, k)));
    forall r: nat, k: nat | r < m.height && k < m.width
      ensures Get(c, r, k) == Cofactor(m, r, k)
    {
      CellIndex(c, r, k);
      FlatIndexDivMod(r, k, m.width);
    }
    c
  }

  /**
    `Matrix::inverse`: the transposed cofactor matrix scaled by one over the
    determinant, so cell (r, c) is cofactor (c, r) over the determinant. A
    zero determinant would divide by zero, so it is excluded.
   */
  function Inverse(m: Matrix): (inv: Matrix)
    requires m.height == m.width && Det(m) != 0.0
    ensures inv.height == m.height && inv.width == m.width
    ensures forall r: nat, c: nat :: r < m.height && c < m.width ==> Get(inv, r, c) == Cofactor(m, c, r) / Det(m)
  {
    var inv := ScaleMatrix(Transpose(CofactorMatrix(m)), 1.0 / Det(m));
    forall r: nat, k: nat | r < m.height && k < m.width
      ensures Get(inv, r, k) == Cofactor(m, k, r) / Det(m)
    {
      InverseCell(m, Det(m), r, k);
    }
    inv
  }

  lemma ScaledTransposeCell(c: Matrix, s: real, r: nat, k: nat)
    requires r < c.width && k < c.height
    ensures Get(ScaleMatrix(Transpose(c), s), r, k) == Get(c, k, r) * s
  {
  }

  /** Multiplying by the reciprocal is dividing. */
  lemma ReciprocalFactor(x: real, y: real, d: real, s: real)
    requires d != 0.0 && s == 1.0 / d && x == y * s
    ensures x == y / d
  {
  }

  lemma InverseCell(m: Matrix, d: real, r: nat, k: nat)
    requires m.height == m.width && d == Det(m) && d != 0.0
    requires r < m.height && k < m.width
    ensures Get(ScaleMatrix(Transpose(CofactorMatrix(m)), 1.0 / d), r, k) == Cofactor(m, k, r) / d
  {
    var c, s := CofactorMatrix(m), 1.0 / d;
    var x, y := Get(ScaleMatrix(Transpose(c), s), r, k), Get(c, k, r);
    assert x == y * s by {
      ScaledTransposeCell(c, s, r, k);
    }
    ReciprocalFactor(x, y, d, s);
  }

  // Products.

  /**
    The running sum of the innermost loop of the matrix product: a[y, i] *
    b[i, x] over i < n, added left to right.
   */
  function RowCol(a: Matrix, b: Matrix, y: nat, x: nat, n: nat): real
    requires y < a.height && x < b.width && n <= a.width && n <= b.height
  {
    if n == 0 then 0.0 else RowCol(a, b, y, x, n - 1) + Get(a, y, n - 1) * Get(b, n - 1, x)
  }

  function ProductCell(a: Matrix, b: Matrix, k: nat): real
    requires a.width == b.height && k < a.height * b.width
  {
    FlatIndexSplit(k, a.height, b.width);
    RowCol(a, b, k / b.width, k % b.width, a.width)
  }

  /**
    The matrix product with the shape it should have: an a.height x b.width
    matrix whose cell (y, x) is row y of a times column x of b. The source's
    `Mul<&Matrix>` allocates a different shape; MulAsWritten models it.
   */
  function Mul(a: Matrix, b: Matrix): (p: Matrix)
    requires a.width == b.height
    ensures p.height == a.height && p.width == b.width
    ensures forall y: nat, x: nat :: y < a.height && x < b.width ==> Get(p, y, x) == RowCol(a, b, y, x, a.width)
  {
    var p: Matrix := MatrixData(a.height, b.width, seq(a.height * b.width, k requires 0 <= k < a.height * b.width => ProductCell(a, b, k)));
    forall y: nat, x: nat | y < a.height && x < b.width
      ensures Get(p, y, x) == RowCol(a, b, y, x, a.width)
    {
      CellIndex(p, y, x);
      FlatIndexDivMod(y, x, b.width);
    }
    p
  }

  lemma {:induction false} RowColIdentityRight(a: Matrix, y: nat, x: nat, n: nat)
    requires y < a.height && x < a.width && n <= a.width
    ensures RowCol(a, Identity(a.width, a.width), y, x, n) == if x < n then Get(a, y, x) else 0.0
  {
    if n > 0 {
      RowColIdentityRight(a, y, x, n - 1);
    }
  }

  lemma {:induction false} RowColIdentityLeft(a: Matrix, y: nat, x: nat, n: nat)
    requires y < a.height && x < a.width && n <= a.height
    ensures RowCol(Identity(a.height, a.height), a, y, x, n) == if y < n then Get(a, y, x) else 0.0
  {
    if n > 0 {
      RowColIdentityLeft(a, y, x, n - 1);
    }
  }

  /** Multiplying by the identity on either side leaves a matrix unchanged. */
  lemma MulIdentity(a: Matrix)
    ensures Mul(a, Identity(a.width, a.width)) == a
    ensures Mul(Identity(a.height, a.height), a) == a
  {
    forall y: nat, x: nat | y < a.height && x < a.width
      ensures Get(Mul(a, Identity(a.width, a.width)), y, x) == Get(a, y, x)
      ensures Get(Mul(Identity(a.height, a.height), a), y, x) == Get(a, y, x)
    {
      RowColIdentityRight(a, y, x, a.width);
      RowColIdentityLeft(a, y, x, a.height);
    }
    Extensionality(Mul(a, Identity(a.width, a.width)), a);
    Extensionality(Mul(Identity(a.height, a.height), a), a);
  }

  /** A tuple as the 4x1 matrix that `Mul<&Tuple>` builds from it. */
  function Column(t: Tuples.Tuple): (c: Matrix)
    ensures c.height == 4 && c.width == 1
  {
    MatrixData(4, 1, [t.x, t.y, t.z, t.w])
  }

  /** Row i of a four-wide matrix as a tuple. */
  function Row(m: Matrix, i: nat): Tuples.Tuple
    requires i < m.height && m.width == 4
  {
    Tuples.Tuple(Get(m, i, 0), Get(m, i, 1), Get(m, i, 2), Get(m, i, 3))
  }

  /**
    `Mul<&Tuple>` on a 4x4 matrix: the tuple becomes a column, and the four
    entries of the product's first column are read back. Component i of the
    result is row i of the matrix dotted with the tuple.
   */
  function MulTuple(m: Matrix, t: Tuples.Tuple): (r: Tuples.Tuple)
    requires m.height == 4 && m.width == 4
    ensures r.x == Tuples.Dot(Row(m, 0), t) && r.y == Tuples.Dot(Row(m, 1), t)
    ensures r.z == Tuples.Dot(Row(m, 2), t) && r.w == Tuples.Dot(Row(m, 3), t)
  {
    var p := Mul(m, Column(t));
    RowTimesColumn(m, t, 0);
    RowTimesColumn(m, t, 1);
    RowTimesColumn(m, t, 2);
    RowTimesColumn(m, t, 3);
    Tuples.Tuple(Get(p, 0, 0), Get(p, 1, 0), Get(p, 2, 0), Get(p, 3, 0))
  }

  lemma RowTimesColumn(m: Matrix, t: Tuples.Tuple, i: nat)
    requires m.height == 4 && m.width == 4 && i < 4
    ensures RowCol(m, Column(t), i, 0, 4) == Tuples.Dot(Row(m, i), t)
  {
    var c := Column(t);
    CellIndex(c, 0, 0);
    CellIndex(c, 1, 0);
    CellIndex(c, 2, 0);
    CellIndex(c, 3, 0);
    var s1 := RowCol(m, c, i, 0, 1);
    var s2 := RowCol(m, c, i, 0, 2);
    var s3 := RowCol(m, c, i, 0, 3);
    assert RowCol(m, c, i, 0, 0) == 0.0;
    assert s1 == 0.0 + Get(m, i, 0) * Get(c, 0, 0);
    assert s2 == s1 + Get(m, i, 1) * Get(c, 1, 0);
    assert s3 == s2 + Get(m, i, 2) * Get(c, 2, 0);
    assert RowCol(m, c, i, 0, 4) == s3 + Get(m, i, 3) * Get(c, 3, 0);
    FourTermSum(RowCol(m, c, i, 0, 4), Get(m, i, 0), Get(m, i, 1), Get(m, i, 2), Get(m, i, 3),
      Get(c, 0, 0), Get(c, 1, 0), Get(c, 2, 0), Get(c, 3, 0), t);
  }

  /** Four products added left to right from zero give the dot product. */
  lemma FourTermSum(s: real, a0: real, a1: real, a2: real, a3: real, b0: real, b1: real, b2: real, b3: real, t: Tuples.Tuple)
    requires b0 == t.x && b1 == t.y && b2 == t.z && b3 == t.w
    requires s == 0.0 + a0 * b0 + a1 * b1 + a2 * b2 + a3 * b3
    ensures s == Tuples.Dot(Tuples.Tuple(a0, a1, a2, a3), t)
  {
  }

  // The product as the source writes it. `Mul<&Matrix>` allocates a
  // rhs.height x self.width buffer, then for y < self.height and
  // x < rhs.width stores the sum at flat index y * self.width + x. Reads of
  // rhs past its buffer and writes past the output buffer panic; `None`
  // stands for the panic.

  /** The output buffer after the first n iterations of the two outer loops, in loop order. */
  function RunWrites(a: Matrix, b: Matrix, n: nat): (r: Option<seq<real>>)
    requires n <= a.height * b.width
    requires a.width <= b.height
    ensures r.Some? ==> |r.value| == b.height * a.width
  {
    if n == 0 then Some(seq(b.height * a.width, _ => 0.0))
    else
      match RunWrites(a, b, n - 1)
      case None => None
      case Some(buf) =>
        FlatIndexSplit(n - 1, a.height, b.width);
        var k := WriteIndex(a, b, n - 1);
        if k < |buf| then Some(buf[k := RowCol(a, b, (n - 1) / b.width, (n - 1) % b.width, a.width)]) else None
  }

  /** Some iteration of the loops reads past the end of rhs: only when self is wider than rhs is tall. */
  predicate ReadOverflow(a: Matrix, b: Matrix)
  {
    a.height > 0 && b.width > 0 && a.width > b.height
  }

  /** `Mul<&Matrix>` as written: `None` when it panics, otherwise the rhs.height x self.width result. */
  function MulAsWritten(a: Matrix, b: Matrix): (r: Option<Matrix>)
    ensures ReadOverflow(a, b) ==> r.None?
    ensures r.Some? ==> r.value.height == b.height && r.value.width == a.width
  {
    if ReadOverflow(a, b) then None
    else if a.height * b.width == 0 then Some(New(b.height, a.width))
    else
      match RunWrites(a, b, a.height * b.width)
      case None => None
      case Some(buf) =>
        var m: Matrix := MatrixData(b.height, a.width, buf);
        Some(m)
  }

  /** Where iteration j of the two outer loops of `Mul<&Matrix>` writes: y * self.width + x. */
  function WriteIndex(a: Matrix, b: Matrix, j: nat): nat
    requires b.width > 0
  {
    MulMonotone(0, j / b.width, a.width);
    (j / b.width) * a.width + j % b.width
  }

  /** The loops run to iteration n without a panic exactly when no write so far leaves the buffer. */
  lemma {:induction false} RunWritesSome(a: Matrix, b: Matrix, n: nat)
    requires n <= a.height * b.width && a.width <= b.height
    ensures RunWrites(a, b, n).Some? <==> forall j: nat :: j < n ==> WriteIndex(a, b, j) < b.height * a.width
  {
    if n > 0 {
      RunWritesSome(a, b, n - 1);
      FlatIndexSplit(n - 1, a.height, b.width);
    }
  }

  /** For square operands of one size, iteration j writes cell j of the correct product. */
  lemma {:induction false} RunWritesSquare(a: Matrix, b: Matrix, n: nat)
    requires a.height == a.width == b.height == b.width
    requires n <= a.height * b.width
    ensures RunWrites(a, b, n).Some?
    ensures forall k :: 0 <= k < |RunWrites(a, b, n).value| ==>
      RunWrites(a, b, n).value[k] == if k < n then Mul(a, b).values[k] else 0.0
  {
    if n > 0 {
      RunWritesSquare(a, b, n - 1);
      FlatIndexSplit(n - 1, a.height, b.width);
      var p := Mul(a, b);
      assert p.values[n - 1] == ProductCell(a, b, n - 1);
    }
  }

  /** For square operands of one size the product as written is the correct product. */
  lemma MulAsWrittenSquare(a: Matrix, b: Matrix)
    requires a.height == a.width == b.height == b.width
    ensures MulAsWritten(a, b) == Some(Mul(a, b))
  {
    var n := a.height * b.width;
    if n != 0 {
      RunWritesSquare(a, b, n);
      var buf := RunWrites(a, b, n).value;
      var p := Mul(a, b);
      assert |buf| == n == |p.values|;
      assert buf == p.values;
    } else {
      assert Mul(a, b).values == [];
    }
  }

  /**
    For a one-column right operand no taller than the left operand is wide
    enough, iteration y writes row y's sum at y * self.width, which is where
    cell (y, 0) of the rhs.height x self.width result lives.
   */
  lemma {:induction false} RunWritesColumn(a: Matrix, b: Matrix, n: nat)
    requires a.width == b.height && b.width == 1 && a.height <= b.height
    requires n <= a.height
    ensures RunWrites(a, b, n).Some?
    ensures forall y: nat :: y < n ==> y * a.width < |RunWrites(a, b, n).value| && RunWrites(a, b, n).value[y * a.width] == RowCol(a, b, y, 0, a.width)
  {
    if n > 0 {
      RunWritesColumn(a, b, n - 1);
      assert (n - 1) / b.width == n - 1 && (n - 1) % b.width == 0;
      FlatIndexInRange(n - 1, 0, b.height, a.width);
      forall y: nat | y < n - 1
        ensures y * a.width != (n - 1) * a.width
      {
        FlatIndexDivMod(y, 0, a.width);
        FlatIndexDivMod(n - 1, 0, a.width);
      }
    }
  }

  /**
    `Mul<&Tuple>` is right on a 4x4 matrix despite the misshapen buffer: the
    product as written is a 4x4 buffer whose first column holds the row-by-
    column sums.
   */
  lemma MulTupleAsWritten(m: Matrix, t: Tuples.Tuple)
    requires m.height == 4 && m.width == 4
    ensures MulAsWritten(m, Column(t)).Some?
    ensures var p := MulAsWritten(m, Column(t)).value;
      p.height == 4 && p.width == 4 && MulTuple(m, t) == Tuples.Tuple(Get(p, 0, 0), Get(p, 1, 0), Get(p, 2, 0), Get(p, 3, 0))
  {
    var c := Column(t);
    RunWritesColumn(m, c, 4);
    var p := MulAsWritten(m, c).value;
    var q := Mul(m, c);
    forall y: nat | y < 4
      ensures Get(p, y, 0) == Get(q, y, 0)
    {
      CellIndex(p, y, 0);
    }
  }

  /**
    A 2x3 times 3x2 product comes back 3x3 instead of 2x2: the buffer takes
    rhs.height rows and self.width columns.
   */
  lemma MulAsWrittenWrongShape(a: Matrix, b: Matrix)
    requires a.height == 2 && a.width == 3 && b.height == 3 && b.width == 2
    ensures MulAsWritten(a, b).Some?
    ensures MulAsWritten(a, b).value.height == 3 && MulAsWritten(a, b).value.width == 3
    ensures Mul(a, b).height == 2 && Mul(a, b).width == 2
  {
    RunWritesSome(a, b, 4);
    assert forall j: nat :: j < 4 ==> WriteIndex(a, b, j) < 9 by {
      forall j: nat | j < 4
        ensures WriteIndex(a, b, j) < 9
      {
        assert j == 0 || j == 1 || j == 2 || j == 3;
      }
    }
  }

  /**
    A 3x2 times 2x3 product, which is defined, panics: the sixth write, at
    y = 1 and x = 2, lands at 1 * 2 + 2 = 4 in a 2 * 2 buffer.
   */
  lemma MulAsWrittenPanics(a: Matrix, b: Matrix)
    requires a.height == 3 && a.width == 2 && b.height == 2 && b.width == 3
    ensures MulAsWritten(a, b).None?
    ensures Mul(a, b).height == 3 && Mul(a, b).width == 3
  {
    RunWritesSome(a, b, 9);
    assert WriteIndex(a, b, 5) == 4;
  }
}

/** Minor extraction, the recursive determinant (cofactor expansion along the
    first column), the inverse `reverse` (cofactors, divided by the
    determinant, transposed) and matrix division, stated on matrix values. */
module Determinant {
  import opened MatrixModel
  import MatrixLaws

  /** (-1)^k, the alternating sign `k` of the expansion loop. */
  function Sign(k: nat): real
  {
    if k % 2 == 0 then 1.0 else -1.0
  }

  /** Index i of the minor, seen in the source: skips the dropped index d. */
  function Skip(i: nat, d: nat): nat
  {
    if i >= d then i + 1 else i
  }

  /** `RemoveColRow(src, rows, cols, row, col)`: the (rows-1) x (cols-1) matrix
      taken from the leading rows x cols block of src without row `row` and
      column `col`, the remaining elements in their original order. An index
      at or past the block's last row (column) leaves out that last row
      (column), as the source's loops do. */
  function Minor(src: Mat, rows: nat, cols: nat, row: nat, col: nat): (r: Mat)
    requires src.Wf() && 1 <= rows <= src.rows && 1 <= cols <= src.cols
    ensures r.Wf() && r.rows == rows - 1 && r.cols == cols - 1
    ensures forall i, j :: 0 <= i < rows - 1 && 0 <= j < cols - 1 ==>
      r.cells[i][j] == src.cells[Skip(i, row)][Skip(j, col)]
  {
    Mat(rows - 1, cols - 1, seq(rows - 1, i requires 0 <= i < rows - 1 =>
      seq(cols - 1, j requires 0 <= j < cols - 1 => src.cells[Skip(i, row)][Skip(j, col)])))
  }

  /** Conversely, every element of the block outside row `row` and column
      `col` appears in the minor, one row up when below `row` and one column
      left when right of `col`. */
  lemma MinorCovers(src: Mat, rows: nat, cols: nat, row: nat, col: nat, a: nat, b: nat)
    requires src.Wf() && 1 <= rows <= src.rows && 1 <= cols <= src.cols
    requires row < rows && col < cols
    requires a < rows && b < cols && a != row && b != col
    ensures var r := Minor(src, rows, cols, row, col);
      var i := if a > row then a - 1 else a;
      var j := if b > col then b - 1 else b;
      i < r.rows && j < r.cols && r.cells[i][j] == src.cells[a][b]
  {
    var i := if a > row then a - 1 else a;
    var j := if b > col then b - 1 else b;
    assert Skip(i, row) == a && Skip(j, col) == b;
  }

  /** `Determ(src, m)` on the leading m x m block of src: 0 for m < 1, the
      element for m = 1, a00*a11 - a10*a01 for m = 2, and otherwise the
      cofactor expansion along column 0. */
  function Det(src: Mat, m: int): real
    requires src.Wf() && m <= src.rows && m <= src.cols
    decreases if m < 0 then 0 else m, 2
  {
    if m < 1 then 0.0
    else if m == 1 then src.cells[0][0]
    else if m == 2 then src.cells[0][0] * src.cells[1][1] - src.cells[1][0] * src.cells[0][1]
    else Expansion(src, m, m)
  }

  /** The first n terms of the expansion along column 0. */
  function Expansion(src: Mat, m: nat, n: nat): real
    requires src.Wf() && 2 < m <= src.rows && m <= src.cols && n <= m
    decreases m, 1, n
  {
    if n == 0 then 0.0 else Expansion(src, m, n - 1) + Term(src, m, n - 1)
  }

  /** Term i of the expansion: (-1)^i * src[i][0] * Det(minor(i, 0), m - 1). */
  function Term(src: Mat, m: nat, i: nat): real
    requires src.Wf() && 2 < m <= src.rows && m <= src.cols && i < m
    decreases m, 0
  {
    Sign(i) * src.cells[i][0] * Det(Minor(src, m, m, i, 0), m - 1)
  }

  // ---------------------------------------------------------------------------
  // Reference values of the determinant

  /** Zero below the diagonal of the leading m x m block. */
  predicate UpperTriangular(src: Mat, m: nat)
    requires src.Wf() && m <= src.rows && m <= src.cols
  {
    forall i, j :: 0 <= j < i < m ==> src.cells[i][j] == 0.0
  }

  /** The product of the first n diagonal elements. */
  function DiagProduct(src: Mat, n: nat): real
    requires src.Wf() && n <= src.rows && n <= src.cols
  {
    if n == 0 then 1.0 else DiagProduct(src, n - 1) * src.cells[n - 1][n - 1]
  }

  /** The diagonal of the (0, 0) minor is the diagonal of src shifted by one. */
  lemma {:induction false} DiagProductOfMinor(src: Mat, m: nat, n: nat)
    requires src.Wf() && 1 <= m <= src.rows && m <= src.cols && n < m
    ensures DiagProduct(src, n + 1) == src.cells[0][0] * DiagProduct(Minor(src, m, m, 0, 0), n)
  {
    if n > 0 {
      DiagProductOfMinor(src, m, n - 1);
    }
  }

  /** When src[i][0] == 0 for the rows i >= 1, only the first term of the
      expansion is left. */
  lemma {:induction false} ExpansionFirstColumnZero(src: Mat, m: nat, n: nat)
    requires src.Wf() && 2 < m <= src.rows && m <= src.cols && 1 <= n <= m
    requires forall i :: 1 <= i < m ==> src.cells[i][0] == 0.0
    ensures Expansion(src, m, n) == src.cells[0][0] * Det(Minor(src, m, m, 0, 0), m - 1)
  {
    if n > 1 {
      ExpansionFirstColumnZero(src, m, n - 1);
    }
  }

  /** The (0, 0) minor of an upper-triangular block is upper-triangular. */
  lemma MinorUpperTriangular(src: Mat, m: nat)
    requires src.Wf() && 2 <= m <= src.rows && m <= src.cols
    requires UpperTriangular(src, m)
    ensures UpperTriangular(Minor(src, m, m, 0, 0), m - 1)
  {
    var minor := Minor(src, m, m, 0, 0);
    forall i, j | 0 <= j < i < m - 1
      ensures minor.cells[i][j] == 0.0
    {
      assert minor.cells[i][j] == src.cells[i + 1][j + 1];
    }
  }

  /** One step of the induction below: for m > 2 the determinant is the
      corner element times the determinant of the (0, 0) minor. */
  lemma DetUpperTriangularStep(src: Mat, m: nat)
    requires src.Wf() && 2 < m <= src.rows && m <= src.cols
    requires UpperTriangular(src, m)
    requires Det(Minor(src, m, m, 0, 0), m - 1) == DiagProduct(Minor(src, m, m, 0, 0), m - 1)
    ensures Det(src, m) == DiagProduct(src, m)
  {
    assert forall i :: 1 <= i < m ==> src.cells[i][0] == 0.0;
    ExpansionFirstColumnZero(src, m, m);
    DiagProductOfMinor(src, m, m - 1);
  }

  /** The base cases of the induction below, m = 1 and m = 2. */
  lemma DetUpperTriangularSmall(src: Mat, m: nat)
    requires src.Wf() && 1 <= m <= 2 && m <= src.rows && m <= src.cols
    requires UpperTriangular(src, m)
    ensures Det(src, m) == DiagProduct(src, m)
  {
    assert DiagProduct(src, 1) == DiagProduct(src, 0) * src.cells[0][0];
    if m == 2 {
      assert src.cells[1][0] == 0.0;
    }
  }

  /** The determinant of an upper-triangular block of size m >= 1 is the
      product of its diagonal. */
  lemma {:induction false} DetUpperTriangular(src: Mat, m: nat)
    requires src.Wf() && 1 <= m <= src.rows && m <= src.cols
    requires UpperTriangular(src, m)
    ensures Det(src, m) == DiagProduct(src, m)
    decreases m
  {
    if m <= 2 {
      DetUpperTriangularSmall(src, m);
    } else {
      MinorUpperTriangular(src, m);
      DetUpperTriangular(Minor(src, m, m, 0, 0), m - 1);
      DetUpperTriangularStep(src, m);
    }
  }

  lemma {:induction false} DiagProductIdentity(n: nat, k: nat)
    requires k <= n
    ensures DiagProduct(Identity(n, n), k) == 1.0
  {
    if k > 0 {
      DiagProductIdentity(n, k - 1);
    }
  }

  /** The determinant of the n x n identity is 1, for n >= 1. */
  lemma DetIdentity(n: nat)
    requires n >= 1
    ensures Det(Identity(n, n), n) == 1.0
  {
    DetUpperTriangular(Identity(n, n), n);
    DiagProductIdentity(n, n);
  }

  /** Sign(i + 1) is the opposite of Sign(i). */
  lemma SignNext(i: nat)
    ensures Sign(i + 1) == -Sign(i)
  {
    if i % 2 == 0 {
      assert (i + 1) % 2 == 1;
    } else {
      assert (i + 1) % 2 == 0;
    }
  }

  /** One turn of the expansion loop of `Determ`: adding to the first i
      terms e the term i, computed from the alternating sign k, the element c
      in column 0 and the minor's determinant d, gives the first i + 1 terms;
      and the sign flips. */
  lemma ExpansionNext(src: Mat, m: nat, i: nat, e: real, k: real, c: real, d: real)
    requires src.Wf() && 2 < m <= src.rows && m <= src.cols && i < m
    requires e == Expansion(src, m, i) && k == Sign(i) && c == src.cells[i][0]
    requires d == Det(Minor(src, m, m, i, 0), m - 1)
    ensures e + k * c * d == Expansion(src, m, i + 1)
    ensures -k == Sign(i + 1)
  {
    assert Term(src, m, i) == k * c * d;
    SignNext(i);
  }

  /** The matrix of the example input [[2, 6, 7], [1, 0, 8], [4, 3, 6]] has
      determinant 2*(0*6-8*3) - 1*(6*6-3*7) + 4*(6*8-0*7) = 129. */
  lemma DetExample()
    ensures Det(Mat(3, 3, [[2.0, 6.0, 7.0], [1.0, 0.0, 8.0], [4.0, 3.0, 6.0]]), 3) == 129.0
  {
    var a := Mat(3, 3, [[2.0, 6.0, 7.0], [1.0, 0.0, 8.0], [4.0, 3.0, 6.0]]);
    var m0, m1, m2 := Minor(a, 3, 3, 0, 0), Minor(a, 3, 3, 1, 0), Minor(a, 3, 3, 2, 0);
    assert m0.cells[0][0] == 0.0 && m0.cells[0][1] == 8.0 && m0.cells[1][0] == 3.0 && m0.cells[1][1] == 6.0;
    assert m1.cells[0][0] == 6.0 && m1.cells[0][1] == 7.0 && m1.cells[1][0] == 3.0 && m1.cells[1][1] == 6.0;
    assert m2.cells[0][0] == 6.0 && m2.cells[0][1] == 7.0 && m2.cells[1][0] == 0.0 && m2.cells[1][1] == 8.0;
    assert Det(m0, 2) == -24.0 && Det(m1, 2) == 15.0 && Det(m2, 2) == 48.0;
    assert Expansion(a, 3, 3) == 2.0 * -24.0 - 1.0 * 15.0 + 4.0 * 48.0;
  }

  // ---------------------------------------------------------------------------
  // Inverse and division

  /** One element of the source's result before the transpose: the
      determinant of minor (i, j), negated when i + j is odd, over det; this
      is (-1)^(i+j) * Det(minor(i, j)) / det. */
  function Cofactor(m: Mat, i: nat, j: nat): (x: real)
    requires m.Wf() && m.rows <= m.cols && Det(m, m.rows) != 0.0
    requires i < m.rows && j < m.rows
    ensures x == Sign(i + j) * Det(Minor(m, m.rows, m.rows, i, j), m.rows - 1) / Det(m, m.rows)
  {
    var n := m.rows;
    var d := Det(Minor(m, n, n, i, j), n - 1);
    (if (i + j) % 2 == 1 then -d else d) / Det(m, n)
  }

  /** The source's result before the transpose: the cofactors over det. */
  function Cofactors(m: Mat): (c: Mat)
    requires m.Wf() && m.rows <= m.cols && (m.rows == 0 || Det(m, m.rows) != 0.0)
    ensures c.Wf() && c.rows == m.rows && c.cols == m.rows
    ensures forall i, j :: 0 <= i < m.rows && 0 <= j < m.rows ==> c.cells[i][j] == Cofactor(m, i, j)
  {
    var n := m.rows;
    Mat(n, n, seq(n, i requires 0 <= i < n => seq(n, j requires 0 <= j < n => Cofactor(m, i, j))))
  }

  /** `reverse()`: the n x n matrix (n = rows) whose element (i, j) is
      (-1)^(i+j) * Det(minor(j, i)) / Det, the adjugate over the determinant.
      The source reads the leading n x n block, so it needs rows <= cols, and it
      divides by the determinant, which must not be 0. */
  function Reverse(m: Mat): (r: Mat)
    requires m.Wf() && m.rows <= m.cols && (m.rows == 0 || Det(m, m.rows) != 0.0)
    ensures r.Wf() && r.rows == m.rows && r.cols == m.rows
    ensures forall i, j :: 0 <= i < m.rows && 0 <= j < m.rows ==>
      r.cells[i][j] == Sign(i + j) * Det(Minor(m, m.rows, m.rows, j, i), m.rows - 1) / Det(m, m.rows)
  {
    var c := Cofactors(m);
    assert forall i, j :: 0 <= i < m.rows && 0 <= j < m.rows ==> c.cells[j][i] == Cofactor(m, j, i);
    Transpose(c)
  }

  /** Matrix / matrix: a times the inverse of b. */
  function Div(a: Mat, b: Mat): (r: Mat)
    requires a.Wf() && b.Wf() && b.rows <= b.cols && (b.rows == 0 || Det(b, b.rows) != 0.0)
    ensures r.Wf()
    ensures a.cols != b.rows ==> r == a
    ensures a.cols == b.rows ==> SameShape(r, a) && r == Mul(a, Reverse(b))
  {
    Mul(a, Reverse(b))
  }

  /** The 1 x 1 minors of a 2 x 2 matrix. */
  lemma Minor2x2(m: Mat)
    requires m.Wf() && m.rows == 2 && m.cols == 2
    ensures Det(Minor(m, 2, 2, 0, 0), 1) == m.cells[1][1]
    ensures Det(Minor(m, 2, 2, 0, 1), 1) == m.cells[1][0]
    ensures Det(Minor(m, 2, 2, 1, 0), 1) == m.cells[0][1]
    ensures Det(Minor(m, 2, 2, 1, 1), 1) == m.cells[0][0]
  {
  }

  /** The cofactors of a 2 x 2 matrix over its determinant. */
  lemma Cofactor2x2(m: Mat)
    requires m.Wf() && m.rows == 2 && m.cols == 2 && Det(m, 2) != 0.0
    ensures Cofactor(m, 0, 0) == 1.0 * m.cells[1][1] / Det(m, 2)
    ensures Cofactor(m, 1, 0) == -1.0 * m.cells[0][1] / Det(m, 2)
    ensures Cofactor(m, 0, 1) == -1.0 * m.cells[1][0] / Det(m, 2)
    ensures Cofactor(m, 1, 1) == 1.0 * m.cells[0][0] / Det(m, 2)
  {
    Minor2x2(m);
    assert Sign(0) == 1.0 && Sign(1) == -1.0 && Sign(2) == 1.0;
  }

  /** The 2 x 2 inverse read off Reverse: each element is the signed element
      of the opposite corner over the determinant. */
  lemma Reverse2x2Cells(m: Mat)
    requires m.Wf() && m.rows == 2 && m.cols == 2 && Det(m, 2) != 0.0
    ensures var r := Reverse(m);
      && r.cells[0][0] == 1.0 * m.cells[1][1] / Det(m, 2) && r.cells[0][1] == -1.0 * m.cells[0][1] / Det(m, 2)
      && r.cells[1][0] == -1.0 * m.cells[1][0] / Det(m, 2) && r.cells[1][1] == 1.0 * m.cells[0][0] / Det(m, 2)
  {
    var r := Reverse(m);
    assert r == Transpose(Cofactors(m));
    assert r.cells[0][0] == Cofactor(m, 0, 0) && r.cells[0][1] == Cofactor(m, 1, 0);
    assert r.cells[1][0] == Cofactor(m, 0, 1) && r.cells[1][1] == Cofactor(m, 1, 1);
    Cofactor2x2(m);
  }

  /** Signs folded into the numerators. */
  lemma SignedInverse2(a: real, b: real, c: real, d: real, det: real, w: real, x: real, y: real, z: real)
    requires det == a * d - c * b && det != 0.0
    requires w == 1.0 * d / det && x == -1.0 * b / det
    requires y == -1.0 * c / det && z == 1.0 * a / det
    ensures IsInverse2(a, b, c, d, w, x, y, z)
  {
  }

  /** The 2 x 2 inverse [[w, x], [y, z]] = [[d, -b], [-c, a]] / det, with
      det = ad - cb != 0. */
  predicate IsInverse2(a: real, b: real, c: real, d: real, w: real, x: real, y: real, z: real)
  {
    a * d - c * b != 0.0 &&
    w == d / (a * d - c * b) && x == -b / (a * d - c * b) &&
    y == -c / (a * d - c * b) && z == a / (a * d - c * b)
  }

  /** The scalar identities behind the 2 x 2 inverse, multiplied on the right. */
  lemma Inverse2Right(a: real, b: real, c: real, d: real, w: real, x: real, y: real, z: real)
    requires IsInverse2(a, b, c, d, w, x, y, z)
    ensures a * w + b * y == 1.0 && a * x + b * z == 0.0
    ensures c * w + d * y == 0.0 && c * x + d * z == 1.0
  {
    var det := a * d - c * b;
    var u := 1.0 / det;
    assert det * u == 1.0;
    assert w == d * u && x == -b * u && y == -c * u && z == a * u;
    assert a * w + b * y == det * u;
    assert c * x + d * z == det * u;
  }

  /** The scalar identities behind the 2 x 2 inverse, multiplied on the left. */
  lemma Inverse2Left(a: real, b: real, c: real, d: real, w: real, x: real, y: real, z: real)
    requires IsInverse2(a, b, c, d, w, x, y, z)
    ensures w * a + x * c == 1.0 && w * b + x * d == 0.0
    ensures y * a + z * c == 0.0 && y * b + z * d == 1.0
  {
    var det := a * d - c * b;
    var u := 1.0 / det;
    assert det * u == 1.0;
    assert w == d * u && x == -b * u && y == -c * u && z == a * u;
    assert w * a + x * c == det * u;
    assert y * b + z * d == det * u;
  }

  /** Equal to the 2 x 2 identity, cell by cell. */
  lemma Identity2(p: Mat)
    requires p.Wf() && p.rows == p.cols == 2
    requires p.cells[0][0] == 1.0 && p.cells[0][1] == 0.0 && p.cells[1][0] == 0.0 && p.cells[1][1] == 1.0
    ensures p == Identity(2, 2)
  {
    var id := Identity(2, 2);
    forall i, j | 0 <= i < 2 && 0 <= j < 2
      ensures p.cells[i][j] == id.cells[i][j]
    {
      assert i == 0 || i == 1;
      assert j == 0 || j == 1;
    }
    Ext(p, id);
  }

  /** A 2 x 2 matrix times [[d, -b], [-c, a]] / (ad - bc) is the identity. */
  lemma Inverse2x2Right(m: Mat, r: Mat)
    requires m.Wf() && r.Wf() && m.rows == m.cols == r.rows == r.cols == 2
    requires IsInverse2(m.cells[0][0], m.cells[0][1], m.cells[1][0], m.cells[1][1],
      r.cells[0][0], r.cells[0][1], r.cells[1][0], r.cells[1][1])
    ensures Mul(m, r) == Identity(2, 2)
  {
    Inverse2Right(m.cells[0][0], m.cells[0][1], m.cells[1][0], m.cells[1][1],
      r.cells[0][0], r.cells[0][1], r.cells[1][0], r.cells[1][1]);
    MatrixLaws.Mul2x2(m, r);
    Identity2(Mul(m, r));
  }

  /** [[d, -b], [-c, a]] / (ad - bc) times the 2 x 2 matrix is the identity. */
  lemma Inverse2x2Left(m: Mat, r: Mat)
    requires m.Wf() && r.Wf() && m.rows == m.cols == r.rows == r.cols == 2
    requires IsInverse2(m.cells[0][0], m.cells[0][1], m.cells[1][0], m.cells[1][1],
      r.cells[0][0], r.cells[0][1], r.cells[1][0], r.cells[1][1])
    ensures Mul(r, m) == Identity(2, 2)
  {
    Inverse2Left(m.cells[0][0], m.cells[0][1], m.cells[1][0], m.cells[1][1],
      r.cells[0][0], r.cells[0][1], r.cells[1][0], r.cells[1][1]);
    MatrixLaws.Mul2x2(r, m);
    Identity2(Mul(r, m));
  }

  /** For a 2 x 2 matrix the inverse is exact: its product with the matrix on
      either side is the identity. */
  lemma Reverse2x2(m: Mat)
    requires m.Wf() && m.rows == 2 && m.cols == 2 && Det(m, 2) != 0.0
    ensures Mul(m, Reverse(m)) == Identity(2, 2)
    ensures Mul(Reverse(m), m) == Identity(2, 2)
  {
    var r := Reverse(m);
    Reverse2x2Cells(m);
    SignedInverse2(m.cells[0][0], m.cells[0][1], m.cells[1][0], m.cells[1][1], Det(m, 2),
      r.cells[0][0], r.cells[0][1], r.cells[1][0], r.cells[1][1]);
    Inverse2x2Right(m, r);
    Inverse2x2Left(m, r);
  }

  /** Dividing a 2 x 2 invertible matrix by itself gives the identity. */
  lemma DivSelf2x2(m: Mat)
    requires m.Wf() && m.rows == 2 && m.cols == 2 && Det(m, 2) != 0.0
    ensures Div(m, m) == Identity(2, 2)
  {
    Reverse2x2(m);
  }

  /** For a 1 x 1 matrix the source's inverse is [[0]], not [[1/a]]: the only
      minor is 0 x 0, and `Determ` of a 0 x 0 block is 0. */
  lemma Reverse1x1(a: real)
    requires a != 0.0
    ensures Reverse(Mat(1, 1, [[a]])) == Mat(1, 1, [[0.0]])
  {
    var m := Mat(1, 1, [[a]]);
    var r := Reverse(m);
    assert r.cells[0][0] == Sign(0) * Det(Minor(m, 1, 1, 0, 0), 0) / a == 0.0;
    Ext(r, Mat(1, 1, [[0.0]]));
  }
}

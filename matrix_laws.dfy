/** Properties of the matrix operations of MatrixModel: what `==` decides,
    that transpose and negation undo themselves, that + and - cancel, that
    scalar operations cancel, what `sum()` adds up to, and that the identity
    is neutral for the product. */
module MatrixLaws {
  import opened MatrixModel

  /** `==` holds exactly when the two values are the same matrix: same shape
      and the same element at every position. */
  lemma EqIffEqual(a: Mat, b: Mat)
    requires a.Wf() && b.Wf()
    ensures Eq(a, b) <==> a == b
  {
    if Eq(a, b) {
      Ext(a, b);
    }
  }

  /** Transposing twice gives back the original matrix. */
  lemma TransposeTwice(m: Mat)
    requires m.Wf()
    ensures Transpose(Transpose(m)) == m
  {
    Ext(Transpose(Transpose(m)), m);
  }

  /** Negating twice gives back the original matrix. */
  lemma NegTwice(m: Mat)
    requires m.Wf()
    ensures Neg(Neg(m)) == m
  {
    Ext(Neg(Neg(m)), m);
  }

  /** (a + b) - b == a on equal shapes. */
  lemma AddThenSub(a: Mat, b: Mat)
    requires a.Wf() && b.Wf() && SameShape(a, b)
    ensures Sub(Add(a, b), b) == a
  {
    Ext(Sub(Add(a, b), b), a);
  }

  /** Matrix + is commutative on equal shapes (and only there: on a mismatch
      each order returns its own left operand). */
  lemma AddCommutes(a: Mat, b: Mat)
    requires a.Wf() && b.Wf()
    ensures SameShape(a, b) ==> Add(a, b) == Add(b, a)
    ensures !SameShape(a, b) ==> Add(a, b) == a && Add(b, a) == b
  {
    if SameShape(a, b) {
      Ext(Add(a, b), Add(b, a));
    }
  }

  /** a - b == a + (-b) on equal shapes. */
  lemma SubIsAddNeg(a: Mat, b: Mat)
    requires a.Wf() && b.Wf() && SameShape(a, b)
    ensures Sub(a, b) == Add(a, Neg(b))
  {
    Ext(Sub(a, b), Add(a, Neg(b)));
  }

  /** (m + s) - s == m. */
  lemma AddScalarThenSub(m: Mat, s: real)
    requires m.Wf()
    ensures SubScalar(AddScalar(m, s), s) == m
  {
    Ext(SubScalar(AddScalar(m, s), s), m);
  }

  /** (m / s) * s == m for s != 0. */
  lemma DivScalarThenMul(m: Mat, s: real)
    requires m.Wf() && s != 0.0
    ensures MulScalar(DivScalar(m, s), s) == m
  {
    Ext(MulScalar(DivScalar(m, s), s), m);
  }

  /** Unary minus is multiplication by -1. */
  lemma NegIsMulMinusOne(m: Mat)
    requires m.Wf()
    ensures Neg(m) == MulScalar(m, -1.0)
  {
    Ext(Neg(m), MulScalar(m, -1.0));
  }

  // ---------------------------------------------------------------------------
  // sum()

  lemma {:induction false} RowSumConst(r: seq<real>, v: real)
    requires forall k :: 0 <= k < |r| ==> r[k] == v
    ensures RowSum(r) == |r| as real * v
  {
    if r != [] {
      RowSumConst(r[..|r| - 1], v);
    }
  }

  /** A grid whose rows all add up to w adds up to |g| * w. */
  lemma {:induction false} GridSumConst(g: seq<seq<real>>, w: real)
    requires forall i :: 0 <= i < |g| ==> RowSum(g[i]) == w
    ensures GridSum(g) == |g| as real * w
  {
    if g != [] {
      var n := |g| - 1;
      GridSumConst(g[..n], w);
      assert RowSum(g[n]) == w;
      assert (n as real) * w + w == (n + 1) as real * w;
    }
  }

  /** The sum of an n x m matrix filled with v is n * m * v; in particular the
      sum of `Zero(n, m)` is 0, and of an empty matrix 0. */
  lemma SumFill(n: nat, m: nat, v: real)
    ensures Sum(Fill(n, m, v)) == n as real * (m as real * v)
  {
    var g := Fill(n, m, v).cells;
    forall i | 0 <= i < n
      ensures RowSum(g[i]) == m as real * v
    {
      RowSumConst(g[i], v);
    }
    GridSumConst(g, m as real * v);
  }

  lemma {:induction false} RowSumAdd(r: seq<real>, s: seq<real>, t: seq<real>)
    requires |r| == |s| == |t|
    requires forall k :: 0 <= k < |r| ==> t[k] == r[k] + s[k]
    ensures RowSum(t) == RowSum(r) + RowSum(s)
  {
    if r != [] {
      var n := |r| - 1;
      RowSumAdd(r[..n], s[..n], t[..n]);
    }
  }

  lemma {:induction false} GridSumAdd(g: seq<seq<real>>, h: seq<seq<real>>, k: seq<seq<real>>)
    requires |g| == |h| == |k|
    requires forall i :: 0 <= i < |g| ==> |g[i]| == |h[i]| == |k[i]|
    requires forall i, j :: 0 <= i < |g| && 0 <= j < |g[i]| ==> k[i][j] == g[i][j] + h[i][j]
    ensures GridSum(k) == GridSum(g) + GridSum(h)
  {
    if g != [] {
      var n := |g| - 1;
      GridSumAdd(g[..n], h[..n], k[..n]);
      RowSumAdd(g[n], h[n], k[n]);
    }
  }

  /** `sum()` distributes over matrix + on equal shapes. */
  lemma SumOfAdd(a: Mat, b: Mat)
    requires a.Wf() && b.Wf() && SameShape(a, b)
    ensures Sum(Add(a, b)) == Sum(a) + Sum(b)
  {
    GridSumAdd(a.cells, b.cells, Add(a, b).cells);
  }

  // ---------------------------------------------------------------------------
  // Matrix product

  /** Row i of m times column j of the identity, over the first k terms. */
  lemma {:induction false} DotIdentityRight(m: Mat, i: nat, j: nat, k: nat)
    requires m.Wf() && i < m.rows && j < m.cols && k <= m.cols
    ensures Dot(m, Identity(m.cols, m.cols), i, j, k) == if j < k then m.cells[i][j] else 0.0
  {
    if k > 0 {
      DotIdentityRight(m, i, j, k - 1);
    }
  }

  /** The identity is a right unit of the product, for matrices of any shape. */
  lemma MulIdentityRight(m: Mat)
    requires m.Wf()
    ensures Mul(m, Identity(m.cols, m.cols)) == m
  {
    var r := Mul(m, Identity(m.cols, m.cols));
    forall i, j | 0 <= i < m.rows && 0 <= j < m.cols
      ensures r.cells[i][j] == m.cells[i][j]
    {
      DotIdentityRight(m, i, j, m.cols);
    }
    Ext(r, m);
  }

  /** Row i of the identity times column j of m, over the first k terms. */
  lemma {:induction false} DotIdentityLeft(m: Mat, i: nat, j: nat, k: nat)
    requires m.Wf() && m.rows == m.cols && i < m.rows && j < m.cols && k <= m.rows
    ensures Dot(Identity(m.rows, m.rows), m, i, j, k) == if i < k then m.cells[i][j] else 0.0
  {
    if k > 0 {
      DotIdentityLeft(m, i, j, k - 1);
    }
  }

  /** The identity is a left unit of the product for square matrices. (For an
      r x c matrix with c < r the source's result keeps the r x r shape of the
      left operand, so it cannot equal the right one.) */
  lemma MulIdentityLeft(m: Mat)
    requires m.Wf() && m.rows == m.cols
    ensures Mul(Identity(m.rows, m.rows), m) == m
  {
    var r := Mul(Identity(m.rows, m.rows), m);
    forall i, j | 0 <= i < m.rows && 0 <= j < m.cols
      ensures r.cells[i][j] == m.cells[i][j]
    {
      DotIdentityLeft(m, i, j, m.rows);
    }
    Ext(r, m);
  }

  /** The product of two 2 x 2 matrices, written out. */
  lemma Mul2x2(x: Mat, y: Mat)
    requires x.Wf() && y.Wf() && x.rows == x.cols == y.rows == y.cols == 2
    ensures var p := Mul(x, y);
      && p.cells[0][0] == x.cells[0][0] * y.cells[0][0] + x.cells[0][1] * y.cells[1][0]
      && p.cells[0][1] == x.cells[0][0] * y.cells[0][1] + x.cells[0][1] * y.cells[1][1]
      && p.cells[1][0] == x.cells[1][0] * y.cells[0][0] + x.cells[1][1] * y.cells[1][0]
      && p.cells[1][1] == x.cells[1][0] * y.cells[0][1] + x.cells[1][1] * y.cells[1][1]
  {
    forall i, j | 0 <= i < 2 && 0 <= j < 2
      ensures Mul(x, y).cells[i][j] == x.cells[i][0] * y.cells[0][j] + x.cells[i][1] * y.cells[1][j]
    {
      assert Dot(x, y, i, j, 1) == x.cells[i][0] * y.cells[0][j];
    }
  }
}

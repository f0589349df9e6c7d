/** Abstract values of the dense matrix: a shape and a rows x cols grid of
    reals, with the Matrix operations stated on those values. The class in
    matrix.dfy is proved against these functions. */
module MatrixModel {

  /** A matrix value: `cells[i][j]` is the element at 0-based row i, column j;
      the shape is kept apart from the grid, so a 0 x 5 matrix differs from a
      0 x 0 one, as `rows` and `cols` do in the source. */
  datatype Mat = Mat(rows: nat, cols: nat, cells: seq<seq<real>>)
  {
    /** The grid is rectangular: `rows` rows of exactly `cols` elements. */
    predicate Wf() {
      |cells| == rows && forall i :: 0 <= i < rows ==> |cells[i]| == cols
    }
  }

  predicate SameShape(a: Mat, b: Mat) {
    a.rows == b.rows && a.cols == b.cols
  }

  /** Two well-formed values of one shape with the same elements are equal. */
  lemma Ext(a: Mat, b: Mat)
    requires a.Wf() && b.Wf() && SameShape(a, b)
    requires forall i, j :: 0 <= i < a.rows && 0 <= j < a.cols ==> a.cells[i][j] == b.cells[i][j]
    ensures a == b
  {
    forall i | 0 <= i < a.rows
      ensures a.cells[i] == b.cells[i]
    {
      assert |a.cells[i]| == |b.cells[i]|;
    }
  }

  // ---------------------------------------------------------------------------
  // Construction

  /** `Matrix(n, m, val)`: an n x m matrix whose every element is `val`. With
      val = 0 it is also `Matrix(n, m)` (allocation is modelled zero-filled)
      and `Zero(n, m)`. */
  function Fill(n: nat, m: nat, val: real): (r: Mat)
    ensures r.Wf() && r.rows == n && r.cols == m
    ensures forall i, j :: 0 <= i < n && 0 <= j < m ==> r.cells[i][j] == val
  {
    Mat(n, m, seq(n, i => seq(m, j => val)))
  }

  /** `Identity(n, m)`: 1 at (i, i) for every i < min(n, m), 0 elsewhere. */
  function Identity(n: nat, m: nat): (r: Mat)
    ensures r.Wf() && r.rows == n && r.cols == m
    ensures forall i :: 0 <= i < n && i < m ==> r.cells[i][i] == 1.0
    ensures forall i, j :: 0 <= i < n && 0 <= j < m && i != j ==> r.cells[i][j] == 0.0
  {
    Mat(n, m, seq(n, i => seq(m, j => if i == j then 1.0 else 0.0)))
  }

  /** The longest row of a list of rows (0 for no rows). */
  function MaxLen(list: seq<seq<real>>): (c: nat)
    ensures forall i :: 0 <= i < |list| ==> |list[i]| <= c
    ensures list == [] ==> c == 0
    ensures list != [] ==> exists i :: 0 <= i < |list| && |list[i]| == c
  {
    if list == [] then 0
    else
      var c := MaxLen(list[..|list| - 1]);
      assert forall i :: 0 <= i < |list| - 1 ==> list[..|list| - 1][i] == list[i];
      if |list[|list| - 1]| > c then |list[|list| - 1]| else c
  }

  /** The rows of `list` laid into a |list| x c grid: an element a row does not
      supply is 0, and elements past column c are dropped. */
  function FromRows(list: seq<seq<real>>, c: nat): (r: Mat)
    ensures r.Wf() && r.rows == |list| && r.cols == c
    ensures forall i, j :: 0 <= i < |list| && 0 <= j < c ==>
      r.cells[i][j] == if j < |list[i]| then list[i][j] else 0.0
  {
    Mat(|list|, c, seq(|list|, i requires 0 <= i < |list| =>
      seq(c, j requires 0 <= j < c => if j < |list[i]| then list[i][j] else 0.0)))
  }

  /** The initializer-list constructor: as many rows as the list, as many
      columns as its longest row, shorter rows padded with 0. */
  function FromList(list: seq<seq<real>>): (r: Mat)
    ensures r.Wf() && r.rows == |list| && r.cols == MaxLen(list)
  {
    FromRows(list, MaxLen(list))
  }

  /** A well-formed matrix is rebuilt unchanged from its own rows. */
  lemma FromRowsOfCells(m: Mat)
    requires m.Wf()
    ensures FromRows(m.cells, m.cols) == m
  {
    Ext(FromRows(m.cells, m.cols), m);
  }

  /** When the rows are all of one length, the initializer-list constructor
      gives that matrix back. */
  lemma {:induction false} FromListRectangular(m: Mat)
    requires m.Wf() && m.rows > 0
    ensures FromList(m.cells) == m
  {
    var i :| 0 <= i < |m.cells| && |m.cells[i]| == MaxLen(m.cells);
    FromRowsOfCells(m);
  }

  // ---------------------------------------------------------------------------
  // Element access

  /** The writable accessor: element (i, j), 0-based, replaced by v. */
  function Update(m: Mat, i: nat, j: nat, v: real): (r: Mat)
    requires m.Wf() && i < m.rows && j < m.cols
    ensures r.Wf() && SameShape(r, m)
    ensures r.cells[i][j] == v
    ensures forall a, b :: 0 <= a < m.rows && 0 <= b < m.cols && (a != i || b != j) ==>
      r.cells[a][b] == m.cells[a][b]
  {
    Mat(m.rows, m.cols, m.cells[i := m.cells[i][j := v]])
  }

  // ---------------------------------------------------------------------------
  // Elementwise operations

  /** f applied to every element. */
  function Map(m: Mat, f: real -> real): (r: Mat)
    requires m.Wf()
    ensures r.Wf() && SameShape(r, m)
    ensures forall i, j :: 0 <= i < m.rows && 0 <= j < m.cols ==> r.cells[i][j] == f(m.cells[i][j])
  {
    Mat(m.rows, m.cols, seq(m.rows, i requires 0 <= i < m.rows =>
      seq(m.cols, j requires 0 <= j < m.cols => f(m.cells[i][j]))))
  }

  /** f applied to every pair of corresponding elements of two same-shape values. */
  function Zip(a: Mat, b: Mat, f: (real, real) -> real): (r: Mat)
    requires a.Wf() && b.Wf() && SameShape(a, b)
    ensures r.Wf() && SameShape(r, a)
    ensures forall i, j :: 0 <= i < a.rows && 0 <= j < a.cols ==>
      r.cells[i][j] == f(a.cells[i][j], b.cells[i][j])
  {
    Mat(a.rows, a.cols, seq(a.rows, i requires 0 <= i < a.rows =>
      seq(a.cols, j requires 0 <= j < a.cols => f(a.cells[i][j], b.cells[i][j]))))
  }

  /** Unary minus. */
  function Neg(m: Mat): (r: Mat)
    requires m.Wf()
    ensures r.Wf() && SameShape(r, m)
    ensures forall i, j :: 0 <= i < m.rows && 0 <= j < m.cols ==> r.cells[i][j] == -m.cells[i][j]
  {
    Map(m, x => -x)
  }

  /** Matrix + matrix: elementwise on equal shapes, else the left operand. */
  function Add(a: Mat, b: Mat): (r: Mat)
    requires a.Wf() && b.Wf()
    ensures !SameShape(a, b) ==> r == a
    ensures SameShape(a, b) ==> r.Wf() && SameShape(r, a)
    ensures SameShape(a, b) ==> forall i, j :: 0 <= i < a.rows && 0 <= j < a.cols ==>
      r.cells[i][j] == a.cells[i][j] + b.cells[i][j]
  {
    if !SameShape(a, b) then a else Zip(a, b, (x, y) => x + y)
  }

  /** Matrix - matrix: elementwise on equal shapes, else the left operand. */
  function Sub(a: Mat, b: Mat): (r: Mat)
    requires a.Wf() && b.Wf()
    ensures !SameShape(a, b) ==> r == a
    ensures SameShape(a, b) ==> r.Wf() && SameShape(r, a)
    ensures SameShape(a, b) ==> forall i, j :: 0 <= i < a.rows && 0 <= j < a.cols ==>
      r.cells[i][j] == a.cells[i][j] - b.cells[i][j]
  {
    if !SameShape(a, b) then a else Zip(a, b, (x, y) => x - y)
  }

  /** Matrix + scalar. */
  function AddScalar(m: Mat, s: real): (r: Mat)
    requires m.Wf()
    ensures r.Wf() && SameShape(r, m)
    ensures forall i, j :: 0 <= i < m.rows && 0 <= j < m.cols ==> r.cells[i][j] == m.cells[i][j] + s
  {
    Map(m, x => x + s)
  }

  /** Matrix - scalar. */
  function SubScalar(m: Mat, s: real): (r: Mat)
    requires m.Wf()
    ensures r.Wf() && SameShape(r, m)
    ensures forall i, j :: 0 <= i < m.rows && 0 <= j < m.cols ==> r.cells[i][j] == m.cells[i][j] - s
  {
    Map(m, x => x - s)
  }

  /** Matrix * scalar. */
  function MulScalar(m: Mat, s: real): (r: Mat)
    requires m.Wf()
    ensures r.Wf() && SameShape(r, m)
    ensures forall i, j :: 0 <= i < m.rows && 0 <= j < m.cols ==> r.cells[i][j] == m.cells[i][j] * s
  {
    Map(m, x => x * s)
  }

  /** Matrix / scalar: elementwise for s != 0; for s == 0 the freshly
      allocated (zero) matrix of the same shape. */
  function DivScalar(m: Mat, s: real): (r: Mat)
    requires m.Wf()
    ensures r.Wf() && SameShape(r, m)
    ensures s == 0.0 ==> r == Fill(m.rows, m.cols, 0.0)
    ensures s != 0.0 ==> forall i, j :: 0 <= i < m.rows && 0 <= j < m.cols ==>
      r.cells[i][j] == m.cells[i][j] / s
  {
    if s != 0.0 then Map(m, x => x / s) else Fill(m.rows, m.cols, 0.0)
  }

  // ---------------------------------------------------------------------------
  // Equality, transpose, sum

  /** `==`: false on different shapes, otherwise every pair of elements equal. */
  predicate Eq(a: Mat, b: Mat)
    requires a.Wf() && b.Wf()
  {
    SameShape(a, b) &&
    forall i, j :: 0 <= i < a.rows && 0 <= j < a.cols ==> a.cells[i][j] == b.cells[i][j]
  }

  /** Transposition: a cols x rows value with t[j][i] == m[i][j]. */
  function Transpose(m: Mat): (t: Mat)
    requires m.Wf()
    ensures t.Wf() && t.rows == m.cols && t.cols == m.rows
    ensures forall i, j :: 0 <= i < m.rows && 0 <= j < m.cols ==> t.cells[j][i] == m.cells[i][j]
  {
    Mat(m.cols, m.rows, seq(m.cols, j requires 0 <= j < m.cols =>
      seq(m.rows, i requires 0 <= i < m.rows => m.cells[i][j])))
  }

  /** Sum of a row, accumulated left to right. */
  function RowSum(r: seq<real>): real
  {
    if r == [] then 0.0 else RowSum(r[..|r| - 1]) + r[|r| - 1]
  }

  /** Sum of a grid, accumulated row by row. */
  function GridSum(g: seq<seq<real>>): real
  {
    if g == [] then 0.0 else GridSum(g[..|g| - 1]) + RowSum(g[|g| - 1])
  }

  /** `sum()`: the total of all elements, in row-major order. */
  function Sum(m: Mat): real
  {
    GridSum(m.cells)
  }

  // ---------------------------------------------------------------------------
  // Matrix product

  /** The first n terms of row i of a times column j of b. */
  function Dot(a: Mat, b: Mat, i: nat, j: nat, n: nat): real
    requires a.Wf() && b.Wf() && i < a.rows && j < b.cols && n <= a.cols && n <= b.rows
  {
    if n == 0 then 0.0 else Dot(a, b, i, j, n - 1) + a.cells[i][n - 1] * b.cells[n - 1][j]
  }

  /** Matrix * matrix as the source computes it: the left operand when
      a.cols != b.rows; otherwise an a.rows x a.cols result whose column j holds
      row-times-column for j < b.cols and stays 0 beyond. The source writes out
      of bounds when b.cols > a.cols, which the precondition excludes. */
  function Mul(a: Mat, b: Mat): (r: Mat)
    requires a.Wf() && b.Wf()
    requires a.cols == b.rows ==> b.cols <= a.cols
    ensures r.Wf()
    ensures a.cols != b.rows ==> r == a
    ensures a.cols == b.rows ==> SameShape(r, a)
    ensures a.cols == b.rows ==> forall i, j :: 0 <= i < a.rows && 0 <= j < a.cols ==>
      r.cells[i][j] == if j < b.cols then Dot(a, b, i, j, a.cols) else 0.0
  {
    if a.cols != b.rows then a
    else
      Mat(a.rows, a.cols, seq(a.rows, i requires 0 <= i < a.rows =>
        seq(a.cols, j requires 0 <= j < a.cols => if j < b.cols then Dot(a, b, i, j, a.cols) else 0.0)))
  }
}

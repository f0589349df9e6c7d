/** The Matrix class: a rows x cols buffer of elements with the source's
    constructors, operators and algorithms as methods, each proved against
    the matrix value it denotes (MatrixModel, Determinant, MatrixText). */
module Matrices {
  import opened MatrixModel
  import opened Determinant
  import opened MatrixText
  import opened Cursors

  class Matrix {
    const rows: nat
    const cols: nat
    const data: array2<real>

    /** The buffer has the matrix's shape. */
    ghost predicate Valid()
    {
      data.Length0 == rows && data.Length1 == cols
    }

    /** The matrix value the buffer holds. */
    ghost function Value(): (v: Mat)
      reads data
      requires Valid()
      ensures v.Wf() && v.rows == rows && v.cols == cols
      ensures forall i, j :: 0 <= i < rows && 0 <= j < cols ==> v.cells[i][j] == data[i, j]
    {
      Mat(rows, cols, seq(rows, i requires 0 <= i < rows reads data =>
        seq(cols, j requires 0 <= j < cols reads data => data[i, j])))
    }

    /** The buffer holds v when it agrees with v element by element. */
    lemma ValueIs(v: Mat)
      requires Valid() && v.Wf() && v.rows == rows && v.cols == cols
      requires forall i, j :: 0 <= i < rows && 0 <= j < cols ==> data[i, j] == v.cells[i][j]
      ensures Value() == v
    {
      Ext(Value(), v);
    }

    // -------------------------------------------------------------------------
    // Construction

    /** `Matrix()`: no rows and no columns. */
    constructor Empty()
      ensures Valid() && fresh(data) && Value() == Fill(0, 0, 0.0)
    {
      rows, cols := 0, 0;
      data := new real[0, 0];
      new;
      ValueIs(Fill(0, 0, 0.0));
    }

    /** `Matrix(n, m)`: an n x m buffer, modelled zero-filled. */
    constructor Sized(n: nat, m: nat)
      ensures Valid() && fresh(data) && Value() == Fill(n, m, 0.0)
    {
      rows, cols := n, m;
      data := new real[n, m]((_, _) => 0.0);
      new;
      ValueIs(Fill(n, m, 0.0));
    }

    /** `Matrix(n, m, val)`: an n x m buffer filled with val, row by row. */
    constructor Filled(n: nat, m: nat, val: real)
      ensures Valid() && fresh(data) && Value() == Fill(n, m, val)
    {
      var a := new real[n, m];
      for i := 0 to n
        invariant forall x, y :: 0 <= x < i && 0 <= y < m ==> a[x, y] == val
      {
        for j := 0 to m
          invariant forall x, y :: 0 <= x < i && 0 <= y < m ==> a[x, y] == val
          invariant forall y :: 0 <= y < j ==> a[i, y] == val
        {
          a[i, j] := val;
        }
      }
      rows, cols, data := n, m, a;
      new;
      ValueIs(Fill(n, m, val));
    }

    /** The initializer-list constructor: as many columns as the longest row,
        each row copied to the front of its buffer row. */
    constructor OfList(list: seq<seq<real>>)
      ensures Valid() && fresh(data) && Value() == FromList(list)
    {
      var c := 0;
      for k := 0 to |list|
        invariant c == MaxLen(list[..k])
      {
        assert list[..k + 1][..k] == list[..k];
        if |list[k]| > c {
          c := |list[k]|;
        }
      }
      assert list[..|list|] == list;
      var a := new real[|list|, c]((_, _) => 0.0);
      for i := 0 to |list|
        invariant forall x, y :: 0 <= x < i && 0 <= y < c ==>
          a[x, y] == if y < |list[x]| then list[x][y] else 0.0
        invariant forall x, y :: i <= x < |list| && 0 <= y < c ==> a[x, y] == 0.0
      {
        for j := 0 to |list[i]|
          invariant forall x, y :: 0 <= x < i && 0 <= y < c ==>
            a[x, y] == if y < |list[x]| then list[x][y] else 0.0
          invariant forall x, y :: i < x < |list| && 0 <= y < c ==> a[x, y] == 0.0
          invariant forall y :: 0 <= y < c ==> a[i, y] == if y < j then list[i][y] else 0.0
        {
          a[i, j] := list[i][j];
        }
      }
      rows, cols, data := |list|, c, a;
      new;
      ValueIs(FromList(list));
    }

    /** The copy constructor (and the move constructor, which does the same
        here): a matrix of the other's shape and elements in a buffer of its
        own. */
    constructor Copy(other: Matrix)
      requires other.Valid()
      ensures Valid() && fresh(data) && Value() == other.Value()
    {
      var n, m := other.rows, other.cols;
      rows, cols := n, m;
      data := new real[n, m]((i, j) requires 0 <= i < n && 0 <= j < m reads other.data => other.data[i, j]);
      new;
      ValueIs(other.Value());
    }

    /** `Identity(n, m)`: 1 on the first min(n, m) diagonal positions of a
        freshly allocated (zero) n x m matrix. */
    static method Identity(n: nat, m: nat) returns (r: Matrix)
      ensures r.Valid() && fresh(r.data) && r.Value() == MatrixModel.Identity(n, m)
    {
      r := new Matrix.Sized(n, m);
      var k := if n < m then n else m;
      for i := 0 to k
        invariant forall x, y :: 0 <= x < n && 0 <= y < m ==>
          r.data[x, y] == if x == y && x < i then 1.0 else 0.0
      {
        r.data[i, i] := 1.0;
      }
      r.ValueIs(MatrixModel.Identity(n, m));
    }

    /** `Zero(n, m)`: an n x m matrix of zeros. */
    static method Zero(n: nat, m: nat) returns (r: Matrix)
      ensures r.Valid() && fresh(r.data) && r.Value() == Fill(n, m, 0.0)
    {
      r := new Matrix.Filled(n, m, 0.0);
    }

    /** `FromString(str)`: a row for each nonempty token of str up to a '[',
        holding the values `stod` accepts among its ','-tokens; the column
        count is reset for every row and is left at the last row's. */
    static method FromString(str: string) returns (r: Matrix)
      ensures r.Valid() && fresh(r.data) && r.Value() == Parse(str)
    {
      var grid, cols := ReadRows(str);
      ParseRows(str, grid, cols);
      r := new Matrix.Sized(|grid|, cols);
      r.LoadRows(grid);
    }

    /** The outer loop of `FromString`: the rows read from the nonempty
        '['-tokens of str, and the column count of the last of them. */
    static method ReadRows(str: string) returns (grid: seq<seq<real>>, cols: nat)
      ensures grid == RowsOf(Split(str, '['))
      ensures cols == LastWidth(grid)
    {
      var segs := Split(str, '[');
      grid := [];
      cols := 0;
      for k := 0 to |segs|
        invariant grid == RowsOf(segs[..k])
        invariant cols == LastWidth(grid)
      {
        grid, cols := ReadSegment(segs, k, grid, cols);
      }
      assert segs[..|segs|] == segs;
    }

    /** One pass of the outer loop of `FromString`: an empty token is
        skipped; any other becomes the next row and sets the column count. */
    static method ReadSegment(segs: seq<string>, k: nat, grid: seq<seq<real>>, cols: nat)
      returns (grid': seq<seq<real>>, cols': nat)
      requires k < |segs| && grid == RowsOf(segs[..k]) && cols == LastWidth(grid)
      ensures grid' == RowsOf(segs[..k + 1]) && cols' == LastWidth(grid')
    {
      RowsOfSnoc(segs, k);
      grid', cols' := grid, cols;
      if segs[k] != [] {
        var row;
        row, cols' := ReadRow(segs[k]);
        grid' := grid + [row];
      }
    }

    /** The inner loop of `FromString`: the values `stod` accepts among the
        ','-tokens of seg, and how many there are. */
    static method ReadRow(seg: string) returns (row: seq<real>, cols: nat)
      ensures row == RowValues(seg) && cols == |row|
    {
      var toks := Split(seg, ',');
      row := [];
      cols := 0;
      for t := 0 to |toks|
        invariant row == Collect(toks[..t]) && cols == |row|
      {
        CollectSnoc(toks, t);
        match Stod(toks[t]) {
          case Some(val) =>
            row := row + [val];
            cols := cols + 1;
          case None =>
        }
      }
      assert toks[..|toks|] == toks;
    }

    /** Copies the rows of list into a zero matrix with as many rows, each as
        far as it and the matrix reach. */
    method LoadRows(list: seq<seq<real>>)
      requires Valid() && |list| == rows
      requires forall x, y :: 0 <= x < rows && 0 <= y < cols ==> data[x, y] == 0.0
      modifies data
      ensures Value() == FromRows(list, cols)
    {
      for i := 0 to rows
        invariant forall x, y :: 0 <= x < i && 0 <= y < cols ==>
          data[x, y] == if y < |list[x]| then list[x][y] else 0.0
        invariant forall x, y :: i <= x < rows && 0 <= y < cols ==> data[x, y] == 0.0
      {
        var n := if |list[i]| < cols then |list[i]| else cols;
        for j := 0 to n
          invariant forall x, y :: 0 <= x < i && 0 <= y < cols ==>
            data[x, y] == if y < |list[x]| then list[x][y] else 0.0
          invariant forall x, y :: i < x < rows && 0 <= y < cols ==> data[x, y] == 0.0
          invariant forall y :: 0 <= y < cols ==> data[i, y] == if y < j then list[i][y] else 0.0
        {
          data[i, j] := list[i][j];
        }
      }
      ValueIs(FromRows(list, cols));
    }

    // -------------------------------------------------------------------------
    // Element access and comparison

    /** `m(i, j)`: the element at 1-based row i, column j. */
    method Get(i: int, j: int) returns (v: real)
      requires Valid() && 1 <= i <= rows && 1 <= j <= cols
      ensures v == Value().cells[i - 1][j - 1]
    {
      v := data[i - 1, j - 1];
    }

    /** `m(i, j) = v`: the element at 1-based row i, column j replaced. */
    method Set(i: int, j: int, v: real)
      requires Valid() && 1 <= i <= rows && 1 <= j <= cols
      modifies data
      ensures Valid() && Value() == Update(old(Value()), i - 1, j - 1, v)
    {
      ghost var before := Value();
      data[i - 1, j - 1] := v;
      ValueIs(Update(before, i - 1, j - 1, v));
    }

    /** `==`: false on different shapes, else whether every element agrees. */
    method Equals(other: Matrix) returns (b: bool)
      requires Valid() && other.Valid()
      ensures b == Eq(Value(), other.Value())
    {
      if rows != other.rows || cols != other.cols {
        return false;
      }
      for i := 0 to rows
        invariant forall x, y :: 0 <= x < i && 0 <= y < cols ==> data[x, y] == other.data[x, y]
      {
        for j := 0 to cols
          invariant forall x, y :: 0 <= x < i && 0 <= y < cols ==> data[x, y] == other.data[x, y]
          invariant forall y :: 0 <= y < j ==> data[i, y] == other.data[i, y]
        {
          if data[i, j] != other.data[i, j] {
            assert Value().cells[i][j] != other.Value().cells[i][j];
            return false;
          }
        }
      }
      return true;
    }

    /** `!=`: the negation of `==`. */
    method NotEquals(other: Matrix) returns (b: bool)
      requires Valid() && other.Valid()
      ensures b == !Eq(Value(), other.Value())
    {
      var e := Equals(other);
      b := !e;
    }

    // -------------------------------------------------------------------------
    // Elementwise operations

    /** A freshly allocated matrix of the same shape holding f of every
        element: the loop shared by unary minus and the scalar operators. */
    method Apply(f: real -> real) returns (r: Matrix)
      requires Valid()
      ensures r.Valid() && fresh(r.data) && r.Value() == Map(Value(), f)
    {
      r := new Matrix.Sized(rows, cols);
      for i := 0 to rows
        invariant forall x, y :: 0 <= x < i && 0 <= y < cols ==> r.data[x, y] == f(data[x, y])
      {
        for j := 0 to cols
          invariant forall x, y :: 0 <= x < i && 0 <= y < cols ==> r.data[x, y] == f(data[x, y])
          invariant forall y :: 0 <= y < j ==> r.data[i, y] == f(data[i, y])
        {
          r.data[i, j] := f(data[i, j]);
        }
      }
      r.ValueIs(Map(Value(), f));
    }

    /** A freshly allocated matrix holding f of every pair of corresponding
        elements: the loop shared by matrix + and -. */
    method Combine(other: Matrix, f: (real, real) -> real) returns (r: Matrix)
      requires Valid() && other.Valid() && rows == other.rows && cols == other.cols
      ensures r.Valid() && fresh(r.data) && r.Value() == Zip(Value(), other.Value(), f)
    {
      r := new Matrix.Sized(rows, cols);
      for i := 0 to rows
        invariant forall x, y :: 0 <= x < i && 0 <= y < cols ==> r.data[x, y] == f(data[x, y], other.data[x, y])
      {
        for j := 0 to cols
          invariant forall x, y :: 0 <= x < i && 0 <= y < cols ==> r.data[x, y] == f(data[x, y], other.data[x, y])
          invariant forall y :: 0 <= y < j ==> r.data[i, y] == f(data[i, y], other.data[i, y])
        {
          r.data[i, j] := f(data[i, j], other.data[i, j]);
        }
      }
      r.ValueIs(Zip(Value(), other.Value(), f));
    }

    /** Unary minus. */
    method Neg() returns (r: Matrix)
      requires Valid()
      ensures r.Valid() && fresh(r.data) && r.Value() == MatrixModel.Neg(Value())
    {
      r := Apply(x => -x);
    }

    /** `transpose()`: a cols x rows matrix with t[j][i] = m[i][j]. */
    method Transpose() returns (r: Matrix)
      requires Valid()
      ensures r.Valid() && fresh(r.data) && r.Value() == MatrixModel.Transpose(Value())
    {
      r := new Matrix.Sized(cols, rows);
      for i := 0 to rows
        invariant forall x, y :: 0 <= x < i && 0 <= y < cols ==> r.data[y, x] == data[x, y]
      {
        for j := 0 to cols
          invariant forall x, y :: 0 <= x < i && 0 <= y < cols ==> r.data[y, x] == data[x, y]
          invariant forall y :: 0 <= y < j ==> r.data[y, i] == data[i, y]
        {
          r.data[j, i] := data[i, j];
        }
      }
      ghost var t := MatrixModel.Transpose(Value());
      forall y, x | 0 <= y < cols && 0 <= x < rows
        ensures r.data[y, x] == t.cells[y][x]
      {
        assert t.cells[y][x] == Value().cells[x][y];
      }
      r.ValueIs(t);
    }

    /** `sum()`: the elements added up in row-major order. */
    method Sum() returns (total: real)
      requires Valid()
      ensures total == MatrixModel.Sum(Value())
    {
      ghost var v := Value();
      total := 0.0;
      for i := 0 to rows
        invariant total == GridSum(v.cells[..i])
      {
        for j := 0 to cols
          invariant total == GridSum(v.cells[..i]) + RowSum(v.cells[i][..j])
        {
          assert v.cells[i][..j + 1][..j] == v.cells[i][..j];
          total := total + data[i, j];
        }
        assert v.cells[i][..cols] == v.cells[i];
        assert v.cells[..i + 1][..i] == v.cells[..i];
      }
      assert v.cells[..rows] == v.cells;
    }

    /** Matrix + matrix: elementwise on equal shapes; otherwise a copy of the
        left operand. */
    method Add(other: Matrix) returns (r: Matrix)
      requires Valid() && other.Valid()
      ensures r.Valid() && r.Value() == MatrixModel.Add(Value(), other.Value())
      ensures fresh(r.data)
    {
      if rows != other.rows || cols != other.cols {
        r := new Matrix.Copy(this);
        return;
      }
      r := Combine(other, (x, y) => x + y);
    }

    /** Matrix - matrix: elementwise on equal shapes; otherwise a copy of the
        left operand. */
    method Sub(other: Matrix) returns (r: Matrix)
      requires Valid() && other.Valid()
      ensures r.Valid() && r.Value() == MatrixModel.Sub(Value(), other.Value())
      ensures fresh(r.data)
    {
      if rows != other.rows || cols != other.cols {
        r := new Matrix.Copy(this);
        return;
      }
      r := Combine(other, (x, y) => x - y);
    }

    /** Matrix + scalar. */
    method AddScalar(s: real) returns (r: Matrix)
      requires Valid()
      ensures r.Valid() && fresh(r.data) && r.Value() == MatrixModel.AddScalar(Value(), s)
    {
      r := Apply(x => x + s);
    }

    /** Matrix - scalar. */
    method SubScalar(s: real) returns (r: Matrix)
      requires Valid()
      ensures r.Valid() && fresh(r.data) && r.Value() == MatrixModel.SubScalar(Value(), s)
    {
      r := Apply(x => x - s);
    }

    /** Matrix * scalar. */
    method MulScalar(s: real) returns (r: Matrix)
      requires Valid()
      ensures r.Valid() && fresh(r.data) && r.Value() == MatrixModel.MulScalar(Value(), s)
    {
      r := Apply(x => x * s);
    }

    /** Matrix / scalar: elementwise for s != 0; for s == 0 the freshly
        allocated matrix is returned as it is. */
    method DivScalar(s: real) returns (r: Matrix)
      requires Valid()
      ensures r.Valid() && fresh(r.data) && r.Value() == MatrixModel.DivScalar(Value(), s)
    {
      if s != 0.0 {
        r := Apply(x => x / s);
      } else {
        r := new Matrix.Sized(rows, cols);
      }
    }

    /** Matrix * matrix. When cols != other.rows, a copy of the left operand.
        Otherwise a freshly allocated (zero) rows x cols matrix into whose
        column j < other.cols the row-times-column sums are accumulated term
        by term; the columns beyond stay 0. The source writes
        past the end of the rows when other.cols > cols, which the
        precondition excludes. */
    method Mul(other: Matrix) returns (r: Matrix)
      requires Valid() && other.Valid()
      requires cols == other.rows ==> other.cols <= cols
      ensures r.Valid() && r.Value() == MatrixModel.Mul(Value(), other.Value())
      ensures fresh(r.data)
    {
      var result := new Matrix.Sized(rows, cols);
      if cols != other.rows {
        r := new Matrix.Copy(this);
        return;
      }
      Product(result, other);
      r := result;
    }

    /** The two outer loops of the product: result, zero on entry, receives
        the product of this and other column by column, row by row. */
    method Product(result: Matrix, other: Matrix)
      requires Valid() && other.Valid() && result.Valid()
      requires cols == other.rows && other.cols <= cols && result.rows == rows && result.cols == cols
      requires result.data != data && result.data != other.data
      requires forall x, y :: 0 <= x < rows && 0 <= y < cols ==> result.data[x, y] == 0.0
      modifies result.data
      ensures result.Value() == MatrixModel.Mul(Value(), other.Value())
    {
      ghost var a, b := Value(), other.Value();
      for i := 0 to rows
        invariant forall x, y :: 0 <= x < i && 0 <= y < cols ==>
          result.data[x, y] == if y < other.cols then Dot(a, b, x, y, cols) else 0.0
        invariant forall x, y :: i <= x < rows && 0 <= y < cols ==> result.data[x, y] == 0.0
      {
        for j := 0 to other.cols
          invariant forall x, y :: 0 <= x < i && 0 <= y < cols ==>
            result.data[x, y] == if y < other.cols then Dot(a, b, x, y, cols) else 0.0
          invariant forall x, y :: i < x < rows && 0 <= y < cols ==> result.data[x, y] == 0.0
          invariant forall y :: 0 <= y < j ==> result.data[i, y] == Dot(a, b, i, y, cols)
          invariant forall y :: j <= y < cols ==> result.data[i, y] == 0.0
        {
          Accumulate(result, other, i, j);
        }
      }
      result.ValueIs(MatrixModel.Mul(a, b));
    }

    /** The innermost loop of the product: element (i, j) of result, 0 on
        entry, receives row i of this times column j of other; no other
        element changes. */
    method Accumulate(result: Matrix, other: Matrix, i: nat, j: nat)
      requires Valid() && other.Valid() && result.Valid()
      requires cols == other.rows && i < rows && j < other.cols && result.rows == rows && j < result.cols
      requires result.data != data && result.data != other.data
      requires result.data[i, j] == 0.0
      modifies result.data
      ensures result.data[i, j] == Dot(Value(), other.Value(), i, j, cols)
      ensures forall x, y :: 0 <= x < result.rows && 0 <= y < result.cols && (x != i || y != j) ==>
        result.data[x, y] == old(result.data[x, y])
    {
      ghost var a, b := Value(), other.Value();
      for k := 0 to cols
        invariant result.data[i, j] == Dot(a, b, i, j, k)
        invariant forall x, y :: 0 <= x < result.rows && 0 <= y < result.cols && (x != i || y != j) ==>
          result.data[x, y] == old(result.data[x, y])
      {
        result.data[i, j] := result.data[i, j] + data[i, k] * other.data[k, j];
      }
    }

    // -------------------------------------------------------------------------
    // Determinant and inverse

    /** `RemoveColRow(src, rows, cols, row, col)`: the minor of the leading
        rows x cols block of src, the flags di and dj switching to 1 once the
        dropped row and column are reached. */
    static method RemoveColRow(src: Matrix, rows: nat, cols: nat, row: nat, col: nat) returns (r: Matrix)
      requires src.Valid() && 1 <= rows <= src.rows && 1 <= cols <= src.cols
      ensures r.Valid() && fresh(r.data) && r.Value() == Minor(src.Value(), rows, cols, row, col)
    {
      r := new Matrix.Sized(rows - 1, cols - 1);
      var di := 0;
      for i := 0 to rows - 1
        invariant di == if row < i then 1 else 0
        invariant forall x, y :: 0 <= x < i && 0 <= y < cols - 1 ==>
          r.data[x, y] == src.data[Skip(x, row), Skip(y, col)]
      {
        if i == row {
          di := 1;
        }
        MinorRow(src, r, rows, cols, row, col, i, di);
      }
      r.ValueIs(Minor(src.Value(), rows, cols, row, col));
    }

    /** The inner loop of `RemoveColRow`: row i of r receives row i + di of
        src without column col; no other row of r changes. */
    static method MinorRow(src: Matrix, r: Matrix, rows: nat, cols: nat, row: nat, col: nat, i: nat, di: nat)
      requires src.Valid() && r.Valid() && r.data != src.data
      requires 1 <= rows <= src.rows && 1 <= cols <= src.cols
      requires r.rows == rows - 1 && r.cols == cols - 1 && i < rows - 1
      requires di == if row <= i then 1 else 0
      modifies r.data
      ensures forall y :: 0 <= y < cols - 1 ==> r.data[i, y] == src.data[Skip(i, row), Skip(y, col)]
      ensures forall x, y :: 0 <= x < r.rows && 0 <= y < r.cols && x != i ==> r.data[x, y] == old(r.data[x, y])
    {
      var dj := 0;
      for j := 0 to cols - 1
        invariant dj == if col < j then 1 else 0
        invariant forall y :: 0 <= y < j ==> r.data[i, y] == src.data[Skip(i, row), Skip(y, col)]
        invariant forall x, y :: 0 <= x < r.rows && 0 <= y < r.cols && x != i ==> r.data[x, y] == old(r.data[x, y])
      {
        if j == col {
          dj := 1;
        }
        r.data[i, j] := src.data[i + di, j + dj];
      }
    }

    /** `Determ(src, m)`: the determinant of the leading m x m block: 0 for
        m < 1, the element for m = 1, the 2 x 2 formula for m = 2 and the
        cofactor expansion along the first column beyond. */
    static method Determ(src: Matrix, m: int) returns (det: real)
      requires src.Valid() && m <= src.rows && m <= src.cols
      ensures det == Det(src.Value(), m)
      decreases if m < 0 then 0 else m, 2
    {
      det := 0.0;
      if m < 1 {
        return 0.0;
      }
      if m == 1 {
        det := src.data[0, 0];
        return det;
      }
      if m == 2 {
        det := src.data[0, 0] * src.data[1, 1] - src.data[1, 0] * src.data[0, 1];
        return det;
      }
      det := Expand(src, m);
    }

    /** The loop of `Determ` for m > 2: term i is the sign k, alternating from
        1, times src[i][0] times the determinant of minor (i, 0). */
    static method Expand(src: Matrix, m: nat) returns (det: real)
      requires src.Valid() && 2 < m <= src.rows && m <= src.cols
      ensures det == Det(src.Value(), m)
      decreases m, 1
    {
      var k := 1;
      det := 0.0;
      ghost var v := src.Value();
      assert Det(v, m) == Expansion(v, m, m);
      for i := 0 to m
        invariant det == Expansion(v, m, i)
        invariant k as real == Sign(i)
        invariant src.Value() == v
      {
        var c, d := MinorDeterm(src, m, i);
        ExpansionNext(v, m, i, det, k as real, c, d);
        det := det + k as real * c * d;
        k := -k;
      }
    }

    /** One step of the loop of `Determ`: src[i][0] and the determinant of
        the minor that leaves out row i and column 0 of the m x m block. */
    static method MinorDeterm(src: Matrix, m: nat, i: nat) returns (c: real, d: real)
      requires src.Valid() && 2 < m <= src.rows && m <= src.cols && i < m
      ensures c == src.Value().cells[i][0] && d == Det(Minor(src.Value(), m, m, i, 0), m - 1)
      decreases m, 0
    {
      var result := RemoveColRow(src, m, m, i, 0);
      d := Determ(result, m - 1);
      c := src.data[i, 0];
    }

    /** `reverse()`: with m = rows, the m x m matrix of the cofactors over
        the determinant, transposed. */
    method Reverse() returns (r: Matrix)
      requires Valid() && rows <= cols && (rows == 0 || Det(Value(), rows) != 0.0)
      ensures r.Valid() && fresh(r.data) && r.Value() == Determinant.Reverse(Value())
    {
      var m := rows;
      var det := Determ(this, m);
      var result := CofactorMatrix(det);
      r := result.Transpose();
    }

    /** The loops of `reverse()`: a fresh m x m matrix (m = rows) whose
        element (i, j) is the cofactor of (i, j) over det. */
    method CofactorMatrix(det: real) returns (result: Matrix)
      requires Valid() && rows <= cols && (rows == 0 || Det(Value(), rows) != 0.0)
      requires det == Det(Value(), rows)
      ensures result.Valid() && fresh(result.data) && result.Value() == Cofactors(Value())
    {
      var m := rows;
      result := new Matrix.Sized(m, m);
      ghost var c := Cofactors(Value());
      for i := 0 to m
        invariant forall x, y :: 0 <= x < i && 0 <= y < m ==> result.data[x, y] == c.cells[x][y]
      {
        CofactorRow(result, i, det);
      }
      result.ValueIs(c);
    }

    /** The inner loop of `reverse()`: row i of result receives the cofactors
        of row i over det; no other row changes. */
    method CofactorRow(result: Matrix, i: nat, det: real)
      requires Valid() && rows <= cols && (rows == 0 || Det(Value(), rows) != 0.0)
      requires det == Det(Value(), rows) && i < rows
      requires result.Valid() && result.rows == rows && result.cols == rows && result.data != data
      modifies result.data
      ensures forall y :: 0 <= y < rows ==> result.data[i, y] == Cofactors(Value()).cells[i][y]
      ensures forall x, y :: 0 <= x < rows && 0 <= y < rows && x != i ==> result.data[x, y] == old(result.data[x, y])
    {
      ghost var c := Cofactors(Value());
      for j := 0 to rows
        invariant forall y :: 0 <= y < j ==> result.data[i, y] == c.cells[i][y]
        invariant forall x, y :: 0 <= x < rows && 0 <= y < rows && x != i ==> result.data[x, y] == old(result.data[x, y])
      {
        result.data[i, j] := CofactorEntry(i, j, det);
      }
    }

    /** Element (i, j) of the matrix `reverse()` transposes: the determinant
        of minor (i, j), negated when i + j is odd, over det. */
    method CofactorEntry(i: nat, j: nat, det: real) returns (x: real)
      requires Valid() && rows <= cols && Det(Value(), rows) != 0.0
      requires i < rows && j < rows && det == Det(Value(), rows)
      ensures x == Cofactor(Value(), i, j)
    {
      var minor := RemoveColRow(this, rows, rows, i, j);
      x := Determ(minor, rows - 1);
      if (i + j) % 2 == 1 {
        x := -x;
      }
      x := x / det;
    }

    /** Matrix / matrix: this times the inverse of other. */
    method Div(other: Matrix) returns (r: Matrix)
      requires Valid() && other.Valid() && other.rows <= other.cols
      requires other.rows == 0 || Det(other.Value(), other.rows) != 0.0
      ensures r.Valid() && fresh(r.data) && r.Value() == Determinant.Div(Value(), other.Value())
    {
      var inverse := other.Reverse();
      r := Mul(inverse);
    }

    /** `os << matrix`: appends "[", the rows each as "[" + its elements
        separated by ", " + "]", separated by ", ", and "]"; `show` stands
        for the stream's formatting of one double. */
    method Print(os: string, show: real -> string) returns (out: string)
      requires Valid()
      ensures out == os + Format(Value(), show)
    {
      ghost var texts := RowTexts(Value().cells, show);
      var text := "[";
      for i := 0 to rows
        invariant text == "[" + Join(texts[..i], ", ") + (if 0 < i < rows then ", " else "")
      {
        var row := PrintRow(i, show);
        PrintStep(texts, ", ", i, "[", text);
        text := text + row;
        if i < rows - 1 {
          text := text + ", ";
        }
      }
      assert texts[..rows] == texts;
      out := os + (text + "]");
    }

    /** Row i as `<<` prints it: "[" + its elements separated by ", " + "]". */
    method PrintRow(i: nat, show: real -> string) returns (text: string)
      requires Valid() && i < rows
      ensures text == RowText(Value().cells[i], show)
    {
      ghost var texts := Texts(Value().cells[i], show);
      text := "[";
      for j := 0 to cols
        invariant text == "[" + Join(texts[..j], ", ") + (if 0 < j < cols then ", " else "")
      {
        PrintStep(texts, ", ", j, "[", text);
        text := text + show(data[i, j]);
        if j < cols - 1 {
          text := text + ", ";
        }
      }
      assert texts[..cols] == texts;
      text := text + "]";
    }

    // -------------------------------------------------------------------------
    // Iterators

    /** `iter_rows(i)`: a pointer to the start of row i. */
    method IterRows(i: int) returns (it: RowIterator)
      requires Valid() && 0 <= i < rows
      ensures fresh(it) && it.data == data && it.row == i && it.pos == 0
    {
      it := new RowIterator(data, i, 0);
    }

    /** `iter_cols(j)`: the position (0, j). */
    method IterCols(j: int) returns (it: ColIterator)
      requires Valid()
      ensures fresh(it) && it.data == data && it.row == 0 && it.col == j
    {
      it := new ColIterator(data, 0, j);
    }
  }
}

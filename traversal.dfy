/** The walks a client makes with the two cursors of a matrix: along a row
    with a RowIterator from `iter_rows(i)` up to `iter_rows(i) + cols`, down
    a column with a ColIterator from `iter_cols(j)` stepped once per row,
    and a write through a cursor, which changes the matrix it came from. */
module Traversal {
  import opened MatrixModel
  import opened Cursors
  import opened Matrices

  /** The row walk: a cursor at the start of row i is stepped with `++` until
      it equals the end cursor `iter_rows(i) + cols`; the elements read on
      the way are row i, in column order. */
  method VisitRow(m: Matrix, i: nat) returns (vals: seq<real>)
    requires m.Valid() && i < m.rows
    ensures vals == m.Value().cells[i]
  {
    var start := m.IterRows(i);
    var checker := start.Plus(m.cols);
    var it := m.IterRows(i);
    vals := [];
    var going := it.NotEquals(checker);
    while going
      invariant it.data == m.data && it.row == i && 0 <= it.pos <= m.cols
      invariant checker.data == m.data && checker.row == i && checker.pos == m.cols
      invariant going <==> it.pos != m.cols
      invariant vals == m.Value().cells[i][..it.pos]
      decreases m.cols - it.pos
    {
      var x := it.Get();
      vals := vals + [x];
      it.Next();
      going := it.NotEquals(checker);
    }
    assert m.Value().cells[i][..m.cols] == m.Value().cells[i];
  }

  /** The column walk: a cursor at (0, j) is read and stepped with `++` once
      per row; the elements read are column j, top to bottom, which is row j
      of the transpose. */
  method VisitColumn(m: Matrix, j: nat) returns (vals: seq<real>)
    requires m.Valid() && j < m.cols
    ensures vals == MatrixModel.Transpose(m.Value()).cells[j]
  {
    ghost var t := MatrixModel.Transpose(m.Value());
    var it := m.IterCols(j);
    vals := [];
    for i := 0 to m.rows
      invariant it.data == m.data && it.row == i && it.col == j
      invariant vals == t.cells[j][..i]
    {
      var x := it.Get();
      vals := vals + [x];
      it.Next();
    }
    assert t.cells[j][..m.rows] == t.cells[j];
  }

  /** A write through a row cursor moved j places along row i: the matrix
      the cursor came from now holds v at (i, j) and is otherwise unchanged. */
  method WriteThrough(m: Matrix, i: nat, j: nat, v: real)
    requires m.Valid() && i < m.rows && j < m.cols
    modifies m.data
    ensures m.Valid() && m.Value() == Update(old(m.Value()), i, j, v)
  {
    var it := m.IterRows(i);
    it.Forward(j);
    it.Put(v);
    m.ValueIs(Update(old(m.Value()), i, j, v));
  }

  /** `++` then `--` on the cursor of column j does not come back: it ends
      one row down and one column to the left, at (1, j - 1). A row cursor
      stepped forward and back is where it started. */
  method StepForthAndBack(m: Matrix, i: nat, j: nat) returns (row: int, col: int, pos: int)
    requires m.Valid() && i < m.rows
    ensures row == 1 && col == j - 1 && pos == 0
  {
    var c := m.IterCols(j);
    c.Next();
    c.Prev();
    row, col := c.row, c.col;
    var r := m.IterRows(i);
    r.Next();
    r.Prev();
    pos := r.pos;
  }
}

/** The two cursor types of the matrix: RowIterator, a pointer that walks
    along one row of the buffer, and ColIterator, a (row, column) position
    whose increment moves down a column while its other moves act on the
    column index. */
module Cursors {

  /** A pointer into the buffer: `pos` elements past the start of row `row`.
      The row pointer the source keeps is modelled by the buffer, the row and
      the offset within it. */
  class RowIterator {
    const data: array2<real>
    const row: int
    var pos: int

    constructor (data: array2<real>, row: int, pos: int)
      ensures this.data == data && this.row == row && this.pos == pos
    {
      this.data, this.row, this.pos := data, row, pos;
    }

    /** The element the pointer designates (what `*it` reads). */
    method Get() returns (v: real)
      requires 0 <= row < data.Length0 && 0 <= pos < data.Length1
      ensures v == data[row, pos]
    {
      v := data[row, pos];
    }

    /** A write through `*it`: that element and no other changes. */
    method Put(v: real)
      requires 0 <= row < data.Length0 && 0 <= pos < data.Length1
      modifies data
      ensures data[row, pos] == v
      ensures forall i, j :: 0 <= i < data.Length0 && 0 <= j < data.Length1 && (i != row || j != pos) ==>
        data[i, j] == old(data[i, j])
    {
      data[row, pos] := v;
    }

    /** `++it`: one element to the right. */
    method Next()
      modifies this
      ensures pos == old(pos) + 1
    {
      pos := pos + 1;
    }

    /** `--it`: one element to the left. */
    method Prev()
      modifies this
      ensures pos == old(pos) - 1
    {
      pos := pos - 1;
    }

    /** `it += shift`. */
    method Forward(shift: nat)
      modifies this
      ensures pos == old(pos) + shift
    {
      pos := pos + shift;
    }

    /** `it -= shift`. */
    method Back(shift: nat)
      modifies this
      ensures pos == old(pos) - shift
    {
      pos := pos - shift;
    }

    /** `it + value`: a copy moved by value elements (pointer arithmetic on
      the copy, so a negative value moves left); the cursor itself stays
      where it is. */
    method Plus(value: int) returns (r: RowIterator)
      ensures fresh(r) && r.data == data && r.row == row && r.pos == pos + value
    {
      r := new RowIterator(data, row, pos);
      r.pos := r.pos + value;
    }

    /** `==`: the two pointers designate the same place. */
    method Equals(other: RowIterator) returns (b: bool)
      ensures b <==> data == other.data && row == other.row && pos == other.pos
    {
      b := data == other.data && row == other.row && pos == other.pos;
    }

    /** `!=`: the negation of `==`. */
    method NotEquals(other: RowIterator) returns (b: bool)
      ensures b <==> !(data == other.data && row == other.row && pos == other.pos)
    {
      var e := Equals(other);
      b := !e;
    }
  }

  /** A position (row, col) in the buffer. `++` moves to the next row; `--`,
      `+=` and `-=` move the column. */
  class ColIterator {
    const data: array2<real>
    var row: int
    var col: int

    constructor (data: array2<real>, row: int, col: int)
      ensures this.data == data && this.row == row && this.col == col
    {
      this.data, this.row, this.col := data, row, col;
    }

    /** The element at the position (what `*it` reads). */
    method Get() returns (v: real)
      requires 0 <= row < data.Length0 && 0 <= col < data.Length1
      ensures v == data[row, col]
    {
      v := data[row, col];
    }

    /** A write through `*it`: that element and no other changes. */
    method Put(v: real)
      requires 0 <= row < data.Length0 && 0 <= col < data.Length1
      modifies data
      ensures data[row, col] == v
      ensures forall i, j :: 0 <= i < data.Length0 && 0 <= j < data.Length1 && (i != row || j != col) ==>
        data[i, j] == old(data[i, j])
    {
      data[row, col] := v;
    }

    /** `++it`: the next row, same column. */
    method Next()
      modifies this
      ensures row == old(row) + 1 && col == old(col)
    {
      row := row + 1;
    }

    /** `--it`: the previous column, same row (not the inverse of `++`). */
    method Prev()
      modifies this
      ensures row == old(row) && col == old(col) - 1
    {
      col := col - 1;
    }

    /** `it += shift`: the column moves right, the row stays. */
    method Forward(shift: nat)
      modifies this
      ensures row == old(row) && col == old(col) + shift
    {
      col := col + shift;
    }

    /** `it -= shift`: the column moves left, the row stays. */
    method Back(shift: nat)
      modifies this
      ensures row == old(row) && col == old(col) - shift
    {
      col := col - shift;
    }

    /** `==`: the same row and column; the buffers are not compared. */
    method Equals(other: ColIterator) returns (b: bool)
      ensures b <==> row == other.row && col == other.col
    {
      b := row == other.row && col == other.col;
    }

    /** `!=`: the negation of `==`. */
    method NotEquals(other: ColIterator) returns (b: bool)
      ensures b <==> !(row == other.row && col == other.col)
    {
      var e := Equals(other);
      b := !e;
    }
  }
}

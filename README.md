# Dense matrix with row and column cursors

A model of the `Matrix` class of `Iter_finale.cpp`. It is a dense rows x cols matrix of doubles that owns a 2-D buffer and has:

- constructors;
- element access with 1-based indices;
- `==` and `!=`;
- unary minus and transpose;
- `sum()`;
- matrix and scalar `+ - * /`;
- a recursive determinant (`RemoveColRow`, `Determ`);
- the inverse `reverse()` and matrix division;
- the text form (`FromString` and `operator<<`);
- two cursor types, `RowIterator` and `ColIterator`.

The model is in seven modules:

- `MatrixModel` (matrix_model.dfy): the matrix as a value, `Mat(rows, cols, cells)`. Every matrix-valued operation is stated on it as a function whose contract gives the result element by element.
- `MatrixLaws` (matrix_laws.dfy): properties of those functions:
  - `==` decides equality;
  - transpose and negation are involutions;
  - + and - cancel, and scalar operations cancel;
  - how `sum()` behaves on constant matrices and under +;
  - the identity is a unit of the product.
- `Determinant` (determinant.dfy) covers:
  - the minor and the determinant;
  - reference values: upper-triangular matrices, the identity, and the example matrix of the program (determinant 129);
  - the cofactor matrix, the inverse and division;
  - proof that the inverse is exact for 2 x 2 matrices;
  - the 1 x 1 edge case.
- `MatrixText` (matrix_text.dfy) covers:
  - `getline` with a delimiter (`Split`), with `Join` as its partner in both directions;
  - the decimal subset of `stod`;
  - the printer `Format` and the parser `Parse`;
  - the round trip: printing a matrix with at least one row whose elements are integers of magnitude below 10^6, and reading the text back, gives the matrix.
- `Cursors` (cursors.dfy): `RowIterator` and `ColIterator` as classes whose methods move a position and read or write the buffer in place.
- `Matrices` (matrix.dfy): the class `Matrix` over an `array2<real>`. Every constructor and operator that loops in the source is a method with loop invariants. Each is proved against its `MatrixModel`, `Determinant` or `MatrixText` function through the ghost function `Value()`.
- `Traversal` (traversal.dfy) models how the program uses the cursors:
  - walking row i from `iter_rows(i)` to `iter_rows(i) + cols`;
  - walking column j from `iter_cols(j)`;
  - a write through a cursor.

Where one might expect an error, the model follows the code:

- `+`, `-` and `*` on mismatched shapes return a copy of the left operand.
- Scalar `/ 0` returns the freshly allocated, zero, matrix.
- `FromString` with no rows gives a 0 x 0 matrix.
- The matrix product keeps the left operand's rows x cols shape.
- `Determ` reads the leading m x m block of a matrix of any shape.
- The inverse of a 1 x 1 matrix is `[[0]]`, because `Determ` of the empty minor is 0 (`Determinant.Reverse1x1`).

## Model

| member | source | states |
|---|---|---|
| MatrixModel.Fill | Iter_finale.cpp:40-48 | an n x m value whose every element is val |
| MatrixModel.Identity | Iter_finale.cpp:73-79 | 1 at (i, i) for i < min(n, m), 0 everywhere else, shape n x m |
| MatrixModel.MaxLen | Iter_finale.cpp:58-61 | no row is longer than the result, some row attains it, and it is 0 for no rows |
| MatrixModel.FromRows | Iter_finale.cpp:62-67 | |list| x c; an element a row supplies is copied; one it does not supply is 0, the model's value for a cell the source leaves uninitialised |
| MatrixModel.FromList | Iter_finale.cpp:56-68 | as many rows as the list and as many columns as its longest row |
| MatrixModel.FromRowsOfCells | Iter_finale.cpp:62-67 | laying out the rows of a matrix gives the matrix back |
| MatrixModel.FromListRectangular | Iter_finale.cpp:56-68 | the initializer list of a rectangular matrix with rows rebuilds it |
| MatrixModel.Update | Iter_finale.cpp:142-144 | the writable accessor changes element (i, j) to v and nothing else |
| MatrixModel.Map | Iter_finale.cpp:165-173 | same shape, f of each element |
| MatrixModel.Zip | Iter_finale.cpp:200-205 | same shape, f of each pair of corresponding elements |
| MatrixModel.Neg | Iter_finale.cpp:165-173 | every element negated |
| MatrixModel.Add | Iter_finale.cpp:195-206 | elementwise sum on equal shapes; the left operand on a mismatch |
| MatrixModel.Sub | Iter_finale.cpp:208-219 | elementwise difference on equal shapes; the left operand on a mismatch |
| MatrixModel.AddScalar | Iter_finale.cpp:295-303 | s added to every element |
| MatrixModel.SubScalar | Iter_finale.cpp:306-314 | s subtracted from every element |
| MatrixModel.MulScalar | Iter_finale.cpp:316-324 | every element times s |
| MatrixModel.DivScalar | Iter_finale.cpp:326-336 | every element over s when s != 0; the zero matrix of the same shape when s == 0 |
| MatrixModel.Transpose | Iter_finale.cpp:175-183 | cols x rows with t[j][i] == m[i][j] |
| MatrixModel.Mul | Iter_finale.cpp:221-234 | the left operand when a.cols != b.rows; else rows x cols, with column j < b.cols holding row i times column j and the rest 0 |
| MatrixModel.Eq | Iter_finale.cpp:146-158 | definition: the same shape and every pair of elements equal |
| MatrixModel.RowSum | Iter_finale.cpp:188-190 | definition: the elements of a row added left to right, from 0 |
| MatrixModel.GridSum | Iter_finale.cpp:187-191 | definition: the row sums added in row order, from 0 |
| MatrixModel.Sum | Iter_finale.cpp:185-193 | definition: the grid sum of the elements, row-major from 0 |
| MatrixModel.Dot | Iter_finale.cpp:228-230 | definition: the first n terms of row i of a times column j of b, added in k order from 0 |
| MatrixLaws.EqIffEqual | Iter_finale.cpp:146-158 | `==` holds exactly when the two matrices are equal (both directions) |
| MatrixLaws.TransposeTwice | Iter_finale.cpp:175-183 | transposing twice gives the matrix back |
| MatrixLaws.NegTwice | Iter_finale.cpp:165-173 | negating twice gives the matrix back |
| MatrixLaws.AddThenSub | Iter_finale.cpp:195-219 | (a + b) - b == a on equal shapes |
| MatrixLaws.AddCommutes | Iter_finale.cpp:195-206 | a + b == b + a on equal shapes; on a mismatch each order returns its own left operand |
| MatrixLaws.SubIsAddNeg | Iter_finale.cpp:208-219 | a - b == a + (-b) on equal shapes |
| MatrixLaws.AddScalarThenSub | Iter_finale.cpp:295-314 | (m + s) - s == m |
| MatrixLaws.DivScalarThenMul | Iter_finale.cpp:316-336 | (m / s) * s == m for s != 0 |
| MatrixLaws.NegIsMulMinusOne | Iter_finale.cpp:165-173 | -m == m * -1 |
| MatrixLaws.RowSumConst | Iter_finale.cpp:188-190 | a row of k copies of v adds up to k * v |
| MatrixLaws.GridSumConst | Iter_finale.cpp:187-191 | a grid of g rows each adding up to w adds up to g * w |
| MatrixLaws.SumFill | Iter_finale.cpp:185-193 | the sum of an n x m matrix filled with v is n * m * v (0 for `Zero`) |
| MatrixLaws.RowSumAdd | Iter_finale.cpp:188-190 | the row sum of an elementwise sum is the sum of the row sums |
| MatrixLaws.GridSumAdd | Iter_finale.cpp:187-191 | the grid sum of an elementwise sum is the sum of the grid sums |
| MatrixLaws.SumOfAdd | Iter_finale.cpp:185-206 | sum(a + b) == sum(a) + sum(b) on equal shapes |
| MatrixLaws.DotIdentityRight | Iter_finale.cpp:228-230 | row i of m times column j of the identity, over k terms, is m[i][j] when j < k and 0 otherwise |
| MatrixLaws.MulIdentityRight | Iter_finale.cpp:221-234 | m * I == m for every shape |
| MatrixLaws.DotIdentityLeft | Iter_finale.cpp:228-230 | row i of the identity times column j of m, over k terms, is m[i][j] when i < k and 0 otherwise |
| MatrixLaws.MulIdentityLeft | Iter_finale.cpp:221-234 | I * m == m for square m |
| MatrixLaws.Mul2x2 | Iter_finale.cpp:221-234 | the 2 x 2 product written out entry by entry |
| Determinant.Minor | Iter_finale.cpp:236-251 | (rows-1) x (cols-1); element (i, j) is src[i'][j'], where i' and j' skip the dropped row and column |
| Determinant.MinorCovers | Iter_finale.cpp:236-251 | every element outside the dropped row and column appears in the minor, shifted up or left past them |
| Determinant.Det | Iter_finale.cpp:253-274 | definition: 0 for m < 1, src[0][0] for m = 1, a00*a11 - a10*a01 for m = 2, and the expansion down column 0 for m > 2 |
| Determinant.Expansion | Iter_finale.cpp:266-272 | definition: the sum of the first n terms of the expansion down column 0 |
| Determinant.Term | Iter_finale.cpp:268-270 | definition: term i, (-1)^i * src[i][0] * Det(minor(i, 0), m - 1) |
| Determinant.DiagProductOfMinor | Iter_finale.cpp:266-271 | the diagonal product is the corner times the diagonal product of the (0, 0) minor |
| Determinant.ExpansionFirstColumnZero | Iter_finale.cpp:266-271 | when column 0 is zero below the corner, the expansion is its first term |
| Determinant.MinorUpperTriangular | Iter_finale.cpp:236-251 | the (0, 0) minor of an upper-triangular block is upper-triangular |
| Determinant.DetUpperTriangularStep | Iter_finale.cpp:266-271 | for an upper-triangular block with m > 2, the determinant is the diagonal product when the minor's is |
| Determinant.DetUpperTriangularSmall | Iter_finale.cpp:258-265 | for m = 1 and m = 2 the determinant of an upper-triangular block is its diagonal product |
| Determinant.DetUpperTriangular | Iter_finale.cpp:253-274 | the determinant of an upper-triangular block of size m >= 1 is the product of its diagonal |
| Determinant.DiagProductIdentity | Iter_finale.cpp:73-79 | the diagonal of the identity multiplies to 1 |
| Determinant.DetIdentity | Iter_finale.cpp:253-274 | the determinant of the n x n identity is 1 |
| Determinant.SignNext | Iter_finale.cpp:270 | the sign k flips on every turn of the expansion loop |
| Determinant.DetExample | Iter_finale.cpp:458 | the example matrix [[2, 6, 7], [1, 0, 8], [4, 3, 6]] has determinant 129 |
| Determinant.Cofactor | Iter_finale.cpp:282-285 | (-1)^(i+j) * Det(minor(i, j)) / det |
| Determinant.Cofactors | Iter_finale.cpp:278-287 | the m x m matrix of those cofactors |
| Determinant.Reverse | Iter_finale.cpp:276-289 | m x m with element (i, j) equal to (-1)^(i+j) * Det(minor(j, i)) / det: the adjugate over the determinant |
| Determinant.Div | Iter_finale.cpp:291-293 | the left operand when a.cols != b.rows, otherwise a times the inverse of b, of a's shape |
| Determinant.Minor2x2 | Iter_finale.cpp:258-260 | the four 1 x 1 minors of a 2 x 2 matrix are its opposite corners |
| Determinant.Cofactor2x2 | Iter_finale.cpp:280-286 | the four cofactors of a 2 x 2 matrix over its determinant |
| Determinant.Reverse2x2Cells | Iter_finale.cpp:276-289 | the 2 x 2 inverse is [[d, -b], [-c, a]] / (ad - cb) |
| Determinant.SignedInverse2 | Iter_finale.cpp:283-285 | those signed elements over det form the 2 x 2 inverse |
| Determinant.Inverse2Right | Iter_finale.cpp:228-230 | the four scalar identities of m times its inverse |
| Determinant.Inverse2Left | Iter_finale.cpp:228-230 | the four scalar identities of the inverse times m |
| Determinant.Identity2 | Iter_finale.cpp:73-79 | a 2 x 2 matrix with 1, 0, 0, 1 is the identity |
| Determinant.Inverse2x2Right | Iter_finale.cpp:221-234 | m times any 2 x 2 matrix whose entries satisfy the inverse identities is the identity |
| Determinant.Inverse2x2Left | Iter_finale.cpp:221-234 | any 2 x 2 matrix whose entries satisfy the inverse identities, times m, is the identity |
| Determinant.Reverse2x2 | Iter_finale.cpp:276-289 | for an invertible 2 x 2 matrix, m * reverse(m) and reverse(m) * m are both the identity |
| Determinant.DivSelf2x2 | Iter_finale.cpp:291-293 | an invertible 2 x 2 matrix divided by itself is the identity |
| Determinant.Reverse1x1 | Iter_finale.cpp:276-289 | for a 1 x 1 matrix [[a]], a != 0, `reverse()` gives [[0]] |
| MatrixText.Find | Iter_finale.cpp:110 | the position of the first delimiter, or the length when there is none |
| MatrixText.Split | Iter_finale.cpp:110 | no token contains the delimiter, and there are no tokens exactly when the text is empty |
| MatrixText.SplitCons | Iter_finale.cpp:110 | a first token free of the delimiter is split off whole |
| MatrixText.SplitSingle | Iter_finale.cpp:119 | nonempty text without the delimiter is one token |
| MatrixText.Join | Iter_finale.cpp:342-351 | definition: the parts with sep between consecutive ones, none before the first or after the last |
| MatrixText.JoinAvoids | Iter_finale.cpp:110 | a character in neither the parts nor the separator is not in their join |
| MatrixText.SplitJoin | Iter_finale.cpp:110 | splitting the join of delimiter-free parts, the last nonempty, gives the parts back |
| MatrixText.JoinSplit | Iter_finale.cpp:110 | joining the tokens of s gives s back, less a final delimiter |
| MatrixText.Span | Iter_finale.cpp:121 | the length of the longest prefix whose characters all satisfy p |
| MatrixText.Exponent | Iter_finale.cpp:121 | 0 unless the text starts with 'e' or 'E'; definition: then an optional sign and digits, 0 when no digit follows |
| MatrixText.Scaled | Iter_finale.cpp:121 | definition: the number whole.frac times 10^e |
| MatrixText.Signed | Iter_finale.cpp:121 | a number is read only where there is a digit; definition: an optional '+' or '-' before an unsigned number |
| MatrixText.Unsigned | Iter_finale.cpp:121 | a number is read only where there is a digit |
| MatrixText.Stod | Iter_finale.cpp:121 | `stod` accepts a token only if it holds a digit |
| MatrixText.UnsignedDigits | Iter_finale.cpp:121 | digits followed by a non-numeric character read as their decimal value |
| MatrixText.StodSkipsSpace | Iter_finale.cpp:121 | leading white space is skipped |
| MatrixText.ShowNatValue | Iter_finale.cpp:343 | the printed digits of n read back as n |
| MatrixText.ShowInt | Iter_finale.cpp:343 | the text of an integer is '-' and digits, nonempty |
| MatrixText.StodShowInt | Iter_finale.cpp:121 | `stod` reads a printed integer back exactly, whatever white space precedes it and whatever non-numeric text follows |
| MatrixText.ShowElem | Iter_finale.cpp:343 | definition: the integer part of v in decimal, which is the text `<<` writes for an integral element of magnitude below 10^6 |
| MatrixText.Texts | Iter_finale.cpp:343 | element j of a row printed by `show` |
| MatrixText.RowText | Iter_finale.cpp:341-348 | definition: "[" + the printed elements joined by ", " + "]" |
| MatrixText.RowTexts | Iter_finale.cpp:341-348 | row i printed as "[" + its elements joined by ", " + "]" |
| MatrixText.Format | Iter_finale.cpp:338-355 | the printed matrix begins with '[' and ends with ']' |
| MatrixText.JoinSnoc | Iter_finale.cpp:344-346 | joining one more part appends the separator and the part |
| MatrixText.PrintStep | Iter_finale.cpp:342-351 | printing part i and, unless it is the last, a separator extends the join of the first i parts to i + 1 |
| MatrixText.Collect | Iter_finale.cpp:119-131 | a row has at most as many values as tokens |
| MatrixText.RowValues | Iter_finale.cpp:119-131 | definition: the values `stod` accepts among the ','-tokens of one '['-segment, in order |
| MatrixText.NonEmpty | Iter_finale.cpp:111 | every kept segment is nonempty and one of the given segments, and there are no more of them; definition: the nonempty segments in order |
| MatrixText.RowsOf | Iter_finale.cpp:110-133 | one row per nonempty '['-segment, holding the values of its ','-tokens |
| MatrixText.Parse | Iter_finale.cpp:104-135 | as many rows as nonempty segments; the column count is the last row's |
| MatrixText.LastWidth | Iter_finale.cpp:118-128 | definition: the length of the last row read, 0 when there is none; `cols` is reset for each row and counts its values |
| MatrixText.RowsOfSnoc | Iter_finale.cpp:110-133 | one more segment adds no row when empty and its values as the last row otherwise |
| MatrixText.CollectConcat | Iter_finale.cpp:119-131 | the values of two token lists are concatenated |
| MatrixText.NonEmptyConcat | Iter_finale.cpp:111 | keeping nonempty segments distributes over concatenation |
| MatrixText.StodNoDigit | Iter_finale.cpp:121 | blanks and ']' alone are rejected by `stod` |
| MatrixText.RowTokens | Iter_finale.cpp:119-131 | the ','-tokens of a printed integer row read back as that row |
| MatrixText.RowRead | Iter_finale.cpp:119-131 | the segment of a printed row, closed by "]]" or "], ", reads back as the row |
| MatrixText.SegmentsOfText | Iter_finale.cpp:110-111 | the nonempty '['-segments of the printed rows are the rows' segments |
| MatrixText.RowsOfText | Iter_finale.cpp:110-133 | the rows read from the printed rows are the rows |
| MatrixText.FormatParse | Iter_finale.cpp:104-135 | `FromString` of the `<<` text of a matrix with at least one row, whose elements are integers of magnitude below 10^6, is that matrix |
| Cursors.RowIterator.constructor | Iter_finale.cpp:367 | the cursor designates the given row and offset |
| Cursors.RowIterator.Get | Iter_finale.cpp:369 | `*it` reads the designated element |
| Cursors.RowIterator.Put | Iter_finale.cpp:369 | a write through `*it` changes the designated element and no other |
| Cursors.RowIterator.Next | Iter_finale.cpp:371-374 | `++it` moves one element right |
| Cursors.RowIterator.Prev | Iter_finale.cpp:375-378 | `--it` moves one element left |
| Cursors.RowIterator.Forward | Iter_finale.cpp:379-382 | `it += shift` moves shift elements right |
| Cursors.RowIterator.Back | Iter_finale.cpp:383-386 | `it -= shift` moves shift elements left |
| Cursors.RowIterator.Plus | Iter_finale.cpp:396-400 | `it + value` is a new cursor value places on, in the same row; `it` stays where it is |
| Cursors.RowIterator.Equals | Iter_finale.cpp:388-390 | true exactly when both designate the same place |
| Cursors.RowIterator.NotEquals | Iter_finale.cpp:391-393 | the negation of `==` |
| Cursors.ColIterator.constructor | Iter_finale.cpp:415 | the cursor is at the given row and column of the buffer |
| Cursors.ColIterator.Get | Iter_finale.cpp:417 | `*it` reads element (row, col) |
| Cursors.ColIterator.Put | Iter_finale.cpp:417 | a write through `*it` changes element (row, col) and no other |
| Cursors.ColIterator.Next | Iter_finale.cpp:419-422 | `++it` moves to the next row, same column |
| Cursors.ColIterator.Prev | Iter_finale.cpp:423-426 | `--it` moves one column left, same row |
| Cursors.ColIterator.Forward | Iter_finale.cpp:427-430 | `it += shift` moves the column right, same row |
| Cursors.ColIterator.Back | Iter_finale.cpp:431-434 | `it -= shift` moves the column left, same row |
| Cursors.ColIterator.Equals | Iter_finale.cpp:436-438 | true exactly when row and column both agree |
| Cursors.ColIterator.NotEquals | Iter_finale.cpp:439-441 | the negation of `==` |
| Matrices.Matrix.ValueIs | Iter_finale.cpp:10-13 | a buffer that agrees with v element by element holds v |
| Matrices.Matrix.Empty | Iter_finale.cpp:14 | a 0 x 0 matrix |
| Matrices.Matrix.Sized | Iter_finale.cpp:17-22 | an n x m matrix in a fresh buffer, zero-filled |
| Matrices.Matrix.Filled | Iter_finale.cpp:40-48 | a fresh buffer holding Fill(n, m, val) |
| Matrices.Matrix.OfList | Iter_finale.cpp:56-68 | the longest row counted first, then the rows copied: holds FromList(list) |
| Matrices.Matrix.Copy | Iter_finale.cpp:25-36 | a matrix of the other's value in a buffer of its own |
| Matrices.Matrix.Identity | Iter_finale.cpp:73-79 | holds Identity(n, m) |
| Matrices.Matrix.Zero | Iter_finale.cpp:82-84 | holds the n x m zero matrix |
| Matrices.Matrix.FromString | Iter_finale.cpp:104-135 | holds Parse(str) |
| Matrices.Matrix.ReadRows | Iter_finale.cpp:110-134 | the rows of the nonempty '['-tokens, and the last row's value count as `cols` |
| Matrices.Matrix.ReadSegment | Iter_finale.cpp:111-133 | an empty token is skipped; any other adds its row and resets `cols` to that row's count |
| Matrices.Matrix.ReadRow | Iter_finale.cpp:119-131 | the values `stod` accepts among the ','-tokens, counted in `cols` |
| Matrices.Matrix.LoadRows | Iter_finale.cpp:122-127 | the rows copied into the zero buffer: holds FromRows(list, cols) |
| Matrices.Matrix.Get | Iter_finale.cpp:138-140 | element (i-1, j-1) for 1-based i and j |
| Matrices.Matrix.Set | Iter_finale.cpp:142-144 | element (i-1, j-1) replaced by v, nothing else changed |
| Matrices.Matrix.Equals | Iter_finale.cpp:146-158 | the shape test, then element by element: equals Eq |
| Matrices.Matrix.NotEquals | Iter_finale.cpp:160-162 | the negation of Eq |
| Matrices.Matrix.Apply | Iter_finale.cpp:165-173 | a fresh matrix holding Map(Value(), f) |
| Matrices.Matrix.Combine | Iter_finale.cpp:200-205 | a fresh matrix holding Zip(Value(), other.Value(), f) |
| Matrices.Matrix.Neg | Iter_finale.cpp:165-173 | holds Neg(Value()) |
| Matrices.Matrix.Transpose | Iter_finale.cpp:175-183 | holds Transpose(Value()) |
| Matrices.Matrix.Sum | Iter_finale.cpp:185-193 | the running total equals Sum(Value()) |
| Matrices.Matrix.Add | Iter_finale.cpp:195-206 | holds Add(Value(), other.Value()), a copy of the left operand on a mismatch |
| Matrices.Matrix.Sub | Iter_finale.cpp:208-219 | holds Sub(Value(), other.Value()) |
| Matrices.Matrix.AddScalar | Iter_finale.cpp:295-303 | holds AddScalar(Value(), s) |
| Matrices.Matrix.SubScalar | Iter_finale.cpp:306-314 | holds SubScalar(Value(), s) |
| Matrices.Matrix.MulScalar | Iter_finale.cpp:316-324 | holds MulScalar(Value(), s) |
| Matrices.Matrix.DivScalar | Iter_finale.cpp:326-336 | holds DivScalar(Value(), s), the zero matrix for s == 0 |
| Matrices.Matrix.Mul | Iter_finale.cpp:221-234 | holds Mul(Value(), other.Value()) |
| Matrices.Matrix.Product | Iter_finale.cpp:226-232 | the zero result receives the product |
| Matrices.Matrix.Accumulate | Iter_finale.cpp:228-230 | element (i, j) becomes row i times column j; no other element changes |
| Matrices.Matrix.RemoveColRow | Iter_finale.cpp:236-251 | with the di and dj flags: holds Minor(src, rows, cols, row, col) |
| Matrices.Matrix.MinorRow | Iter_finale.cpp:243-248 | row i of the result is row i + di of src without column col; other rows unchanged |
| Matrices.Matrix.Determ | Iter_finale.cpp:253-274 | returns Det(src.Value(), m) |
| Matrices.Matrix.Expand | Iter_finale.cpp:266-272 | the alternating-sign loop returns Det(src.Value(), m) |
| Matrices.Matrix.MinorDeterm | Iter_finale.cpp:268-269 | src[i][0] and Det of minor (i, 0) |
| Matrices.Matrix.Reverse | Iter_finale.cpp:276-289 | holds Reverse(Value()) |
| Matrices.Matrix.CofactorMatrix | Iter_finale.cpp:278-287 | holds Cofactors(Value()) before the transpose |
| Matrices.Matrix.CofactorRow | Iter_finale.cpp:281-286 | row i of the result holds the cofactors of row i; other rows unchanged |
| Matrices.Matrix.CofactorEntry | Iter_finale.cpp:282-285 | the minor's determinant, negated for odd i + j, over det: Cofactor(Value(), i, j) |
| Matrices.Matrix.Div | Iter_finale.cpp:291-293 | holds Div(Value(), other.Value()) |
| Matrices.Matrix.Print | Iter_finale.cpp:338-355 | appends Format(Value(), show) to os |
| Matrices.Matrix.PrintRow | Iter_finale.cpp:341-348 | the text of row i: RowText(Value().cells[i], show) |
| Matrices.Matrix.IterRows | Iter_finale.cpp:445-447 | a fresh cursor at the start of row i of this buffer |
| Matrices.Matrix.IterCols | Iter_finale.cpp:449-451 | a fresh cursor at (0, j) of this buffer |
| Traversal.VisitRow | Iter_finale.cpp:482-489 | stepping `++` from `iter_rows(i)` until it equals `iter_rows(i) + cols` reads exactly row i, in column order |
| Traversal.VisitColumn | Iter_finale.cpp:494-500 | reading and stepping `++` from `iter_cols(j)` once per row reads exactly column j, top to bottom |
| Traversal.WriteThrough | Iter_finale.cpp:369 | a write through a row cursor changes the matrix it came from at (i, j) and nowhere else |
| Traversal.StepForthAndBack | Iter_finale.cpp:419-426 | `++` then `--` on a column cursor ends at (1, j - 1); on a row cursor it returns to the start |

## Left out

- `Matrix::Random` (Iter_finale.cpp:89-100) draws from `random_device` and `mt19937`. Entropy is outside the model.
- The `DateTime` and `Circle` classes are not part of this model, and neither is `main`'s console input and output.
- Elements are exact reals, not IEEE doubles: rounding, overflow, infinities and NaN are not modelled.
- `stod` is modelled as:
  - leading white space;
  - an optional sign;
  - digits, with an optional '.' and fraction;
  - an optional decimal exponent.
- Left out of `stod`:
  - hexadecimal, `inf` and `nan` forms;
  - rounding;
  - the uncaught `out_of_range` (Iter_finale.cpp:121).
- `MatrixText.Format`: the stream's formatting of one double is a parameter. The round trip uses `ShowElem`, which prints the integer part. That is how `<<` prints an integral value of magnitude below 10^6 at its default precision of six significant digits. Larger values print in exponent form (1234567 as `1.23457e+06`), so `MatrixText.FormatParse` requires elements below 10^6. Other values are out of scope.
- `Matrices.Matrix.Sized`: `Matrix(n, m)` leaves the buffer uninitialised (Iter_finale.cpp:17-22). The model fills it with 0. Five behaviours depend on this choice:
  - the zeros of `Identity`;
  - the accumulation start of `*`;
  - the result of scalar `/ 0`;
  - the rows `FromString` does not fill;
  - the columns of `*` at or beyond `other.cols`, which the source never writes (Iter_finale.cpp:222-229).
- `Matrices.Matrix.OfList`: the initializer-list constructor copies each row into a new row of `cols` elements and leaves the tail of a shorter row uninitialised (Iter_finale.cpp:65-66). The model pads such a row with 0 (`MatrixModel.FromRows`).
- Sizes are `nat` in the model. The source takes `int n, m`, and a negative size makes `new double*[n]` throw `bad_array_new_length` (Iter_finale.cpp:18, 41). That case is not modelled.
- `Matrices.Matrix.Copy`: the source's copy and move constructors share the other's buffer (Iter_finale.cpp:25-36). The model gives each matrix its own buffer with the same elements, so that aliasing is not reproduced. The missing destructor is not modelled either.
- `Matrices.Matrix.Reverse`: needs rows <= cols and a nonzero determinant. The source would read past the block or divide by zero otherwise.
- `Determinant.Div` and `Matrices.Matrix.Div` inherit the precondition of `Reverse`, the nonzero determinant included, even when a.cols != b.rows. In that case the source computes an inverse of infinities or NaNs, discards it and returns the left operand. Exact reals cannot hold that inverse, so the model does not cover this case.
- `Matrices.Matrix.Mul`: needs other.cols <= cols when the shapes chain. The source writes past its rows x cols result otherwise (Iter_finale.cpp:222-229).
- Element access and the cursors check no bounds. Reads and writes out of bounds are excluded by preconditions.
- `Matrices.Matrix.FromString` builds its rows as sequences and lays them into one rows x cols buffer at the end. It leaves out three source behaviours:
  - the row-by-row reallocation;
  - the leaked buffers;
  - a middle row that got no values staying unallocated (Iter_finale.cpp:112-131).
  A row shorter than the last one is read as padded with 0; the source would read outside that row.
- `Cursors.RowIterator.Equals` compares the buffer, row and offset. The source compares raw pointers, which could also coincide across the ends of separately allocated rows. That is not modelled.
- `Cursors.RowIterator.Forward`, `Cursors.RowIterator.Back`, `Cursors.ColIterator.Forward` and `Cursors.ColIterator.Back`: `+=` and `-=` take an unsigned `size_t` in the source (Iter_finale.cpp:379-386, 427-434). The model takes a `nat` and does not model wrap-around of a negative argument.
- `Traversal.VisitRow` and `Traversal.VisitColumn`: the program walks three elements per row and three rows per column (Iter_finale.cpp:482-500) for its 3 x 3 example. The model walks `cols` elements and `rows` rows, which are the same for that matrix.
- `RemoveColRow` and `Determ` are instance methods in the source that use only their arguments. They are modelled as static methods.
- The general theorems M * reverse(M) == I and det(Mᵀ) == det(M) are not proved; they need a Laplace development the code does not state. `reverse` is modelled entry by entry instead, and the inverse is proved exact for 2 x 2 matrices.

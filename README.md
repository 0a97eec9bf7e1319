# os-matrix: a verified model of `Matrix<T>`

This project models the dense, row-major matrix type of the `os-matrix`
command-line tool (`src/matrix.rs`) in Dafny and proves what its
operations compute. The tool instantiates the element type with the 32-bit
signed integer. The model works over unbounded `int` and uses the 32-bit
range only where the source checks it, which is when a token is parsed.

- `sequences.dfy` (module `Sequences`) models the standard-library pieces
  the matrix code is built from: slice `concat` (`Flatten`), `chunks`
  (`Chunks`), `str::split` (`Split`), `join` (`Join`), the
  drop-empty-words filter (`DropEmpty`) and iterator `sum` (`Sum`).
- `numbers.dfy` (module `Numbers`) holds the element type's text forms.
  These are `to_string` (`IntToString`) and `i32::from_str` (`ParseInt`:
  an optional sign, at least one ASCII digit, and the value must fit in 32
  bits). It also holds Rust's truncating signed division (`TruncDiv`).
- `matrix.dfy` (module `Matrices`) holds the `Matrix` datatype and its
  shape invariant `Valid` (`|data| == numRows * numCols`, with element
  (r, c) at `data[r * numCols + c]`). It also holds the constructors
  `from_1d` (`FromFlat`) and `from_2d` (`FromRows`), the queries, and
  `rows`, `transpose`, `dot`, `add` and `column_means`.
  - `transpose` and `dot` build their data by pushing inside nested loops,
    so they are methods with `while` loops. Each is proved equal to a
    specification function (`Transposed`, `Product`), and the properties
    are proved about those functions.
  - The other operations are pure pipelines in the source and are
    functions here.
- `matrix_text.dfy` (module `MatrixText`) models `impl Display`
  (`Format`) and `impl FromStr` (`Parse`), and proves that they round-trip.
  - `str::lines` splits at `\n`, ignores a final `\n` and drops one `\r`
    before each line end.
  - Words are split at `char::is_whitespace`, which is the Unicode
    White_Space set, listed by code point.
- `examples.dfy` (module `Examples`) works through small cases: a product,
  a non-commuting product, a column mean of negative numbers, a run of
  whitespace, a last line without a newline, a CRLF line end, parsing,
  a parse error, a blank line and formatting.

The source panics in some cases, and the model turns each into a
precondition:
- `from_1d` with zero rows divides by zero.
- `chunks(0)` panics, so `rows()` fails on a matrix with no columns. That
  affects `dot` when the shared dimension is zero, `column_means` with
  zero rows (the transpose then has zero columns) and `Display` with zero
  columns.
- `transpose` never calls `rows()` when there are no columns, so it is
  total.

In these cases the model follows the code:
- A blank line in the input is a row with no elements. It is not skipped,
  so beside a non-empty row it makes the rows ragged
  (`Examples.BlankLineExample`).
- Printing the empty 0x0 matrix panics. It does not print an empty
  string.
- `column_means` of a matrix with no rows panics. It does not return an
  empty or zero result.

## Model

| member | source | states |
|---|---|---|
| `Matrices.Empty` | src/matrix.rs:51 | `new()` is the shape-valid 0x0 matrix, and it is empty |
| `Matrices.FromFlat` | src/matrix.rs:52-65 | with n > 0 rows, `from_1d` succeeds iff n divides the length; on failure the error is a dimension error; on success the data is unchanged, the shape is valid and the dims are (n, len / n) |
| `Matrices.FromRows` | src/matrix.rs:66-81 | `from_2d`: no rows gives `new()`; rows whose lengths all equal the first row's become a matrix of their concatenation; otherwise a dimension error (its contract is stated by `Matrices.FromRowsSpec`) |
| `Matrices.FromRowsSpec` | src/matrix.rs:66-81 | no rows gives the 0x0 matrix; `from_2d` fails (dimension error) iff some row's length differs from the first row's; otherwise the result is shape-valid with dims (rows, first row length) and element (r, c) is rows[r][c] |
| `Matrices.IsEmpty` | src/matrix.rs:83 | `is_empty` holds when there is no data (related to the dims by `Matrices.IsEmptySpec`) |
| `Matrices.IsEmptySpec` | src/matrix.rs:83 | for a shape-valid matrix, having no data is the same as having zero rows or zero columns |
| `Matrices.Dims` | src/matrix.rs:84 | `dims` is the pair (rows, columns) |
| `Matrices.Rows` | src/matrix.rs:85-87 | `rows()` of a shape-valid matrix with columns yields numRows pieces, each of numCols elements |
| `Matrices.RowsSpec` | src/matrix.rs:85-87 | `rows()` yields numRows pieces of numCols elements each; joined together they are the data; entry c of piece r is element (r, c) |
| `Matrices.MatrixExt` | src/matrix.rs:43-48 | two shape-valid matrices with the same dims and the same elements are the same matrix (the fields determine the value) |
| `Matrices.TransposedSpec` | src/matrix.rs:88-100 | the transpose is shape-valid, has dims (numCols, numRows), and holds old element (r, c) at (c, r) |
| `Matrices.RowsOfTransposed` | src/matrix.rs:88-100 | with at least one row, the rows of the transpose are the columns of the original |
| `Matrices.TransposeInvolution` | src/matrix.rs:88-100 | transposing twice returns the original matrix |
| `Matrices.Transpose` | src/matrix.rs:88-100 | the nested push loops (columns outer, rows inner) produce exactly the transpose, for every shape including zero columns |
| `Matrices.ProductSpec` | src/matrix.rs:101-127 | the product fails (dimension error) iff lhs.numCols != rhs.numRows; otherwise it is shape-valid with dims (lhs.numRows, rhs.numCols) and entry (i, j) is the sum over k = 0..lhs.numCols-1, in that order, of lhs(i, k) * rhs(k, j) |
| `Matrices.InnerProduct` | src/matrix.rs:113-117 | the `zip`, multiply and `sum` of two equally long rows, accumulated left to right from zero (related to the product entries by `Matrices.InnerProductEntry`) |
| `Matrices.InnerProductEntry` | src/matrix.rs:113-117 | the zip-multiply-sum of row i of lhs and column j of rhs, over the first n positions, is the first n terms of entry (i, j) |
| `Matrices.DotEntry` | src/matrix.rs:109-118 | the inner product of row i of lhs with row j of the transposed rhs is product entry (i, j) |
| `Matrices.InnerProductsRow` | src/matrix.rs:111-120 | row i of lhs against every row of the transposed rhs gives row i of the product |
| `Matrices.PushInnerProducts` | src/matrix.rs:112-119 | the inner push loop appends to the buffer one inner product per row of the transposed rhs, in order |
| `Matrices.Dot` | src/matrix.rs:101-127 | `dot`, which transposes rhs once and pushes row-by-row inner products, returns exactly the product, including the dimension error |
| `Matrices.Add` | src/matrix.rs:148-172 | `add` succeeds iff both dims agree; a mismatch is a dimension error; the sum is shape-valid with the operands' dims |
| `Matrices.AddSpec` | src/matrix.rs:160-170 | each element of the sum is the sum of the operands' elements at the same position |
| `Matrices.AddCommutative` | src/matrix.rs:151-171 | a + b and b + a give the same result, errors included |
| `Matrices.SumIsColumnSum` | src/matrix.rs:137-141 | summing, left to right, a sequence that holds column c is the column sum of c |
| `Matrices.TransposedRows` | src/matrix.rs:133-141 | with at least one row, the transpose's row c has numRows entries and sums to column c's sum |
| `Matrices.ColumnMeans` | src/matrix.rs:132-145 | `column_means` of a matrix with rows gives numCols values, in column order; value c is the column sum divided by numRows, rounded toward zero |
| `Matrices.ColumnSumBounds` | src/matrix.rs:137-141 | if every element of column c lies in [lo, hi], the sum of its first n elements lies in [n*lo, n*hi] |
| `Matrices.MeanBounds` | src/matrix.rs:142 | a truncated mean of n values from [lo, hi] (with lo <= 0 <= hi) lies in [lo, hi] |
| `Matrices.ColumnMeansInI32` | src/matrix.rs:131-145 | the column means of 32-bit elements are 32-bit values, so the cast of the wide mean back to the element type is lossless |
| `Numbers.TruncDiv` | src/matrix.rs:142 | signed division by a positive count rounds toward zero: the quotient times the divisor lies between zero and the dividend, within one divisor of it |
| `Numbers.IntToString` | src/matrix.rs:180 | the text of an integer is canonical decimal: non-empty, a leading `-` exactly when the integer is negative, no leading zero, and "0" for zero |
| `Numbers.NatToString` | src/matrix.rs:180 | the decimal text of a natural number is non-empty, all ASCII digits, and has no leading zero (zero prints as "0") |
| `Numbers.DigitsValueOfNatToString` | src/matrix.rs:180 | reading back the digits printed for n gives n |
| `Numbers.ParseInt` | src/matrix.rs:200 | a parsed token is non-empty, holds only digits and signs, and has a 32-bit value |
| `Numbers.ParseIntValue` | src/matrix.rs:200 | an optional `+` or `-` followed by one or more digits parses to the signed value of the digits when it fits in 32 bits, and fails otherwise |
| `Numbers.ParseIntSome` | src/matrix.rs:200 | every token that parses is an optional sign followed by at least one digit, and its value is the signed value of those digits |
| `Numbers.ParseIntToString` | src/matrix.rs:200 | every 32-bit integer parses back from its printed text |
| `Numbers.ParseIntRejects` | src/matrix.rs:200 | the empty token, a lone sign and a token with a non-digit after its first character do not parse |
| `Sequences.Flatten` | src/matrix.rs:79 | slice `concat`: the pieces one after another (its properties are the `Flatten…` lemmas) |
| `Sequences.FlattenAppend` | src/matrix.rs:79 | concatenating rows plus one more row is the old concatenation followed by that row |
| `Sequences.FlattenLength` | src/matrix.rs:79 | concatenating k pieces of length w gives k*w elements |
| `Sequences.FlattenAt` | src/matrix.rs:79 | in a concatenation of length-w pieces, position i*w + j holds element j of piece i |
| `Sequences.Chunks` | src/matrix.rs:86 | slice `chunks(w)` for w > 0: consecutive pieces of w elements, the last possibly shorter (its properties are the `Chunks…` lemmas) |
| `Sequences.ChunksExact` | src/matrix.rs:86 | `chunks(w)` of n*w elements gives n full pieces whose concatenation is the input |
| `Sequences.ChunksCons` | src/matrix.rs:86 | one step of `chunks(w)` on more than w elements: one more full piece, the first w elements, in front |
| `Sequences.ChunksFlatten` | src/matrix.rs:86 | `chunks(w)` of a concatenation of length-w pieces gives the pieces back |
| `Sequences.Split` | src/matrix.rs:198 | `split` yields at least one piece, and no piece holds a separator |
| `Sequences.SplitNoSep` | src/matrix.rs:198 | a text with no separator splits into itself alone |
| `Sequences.SplitAtSep` | src/matrix.rs:198 | a separator after a separator-free prefix cuts the text right there |
| `Sequences.Join` | src/matrix.rs:183 | `join(sep)`: the parts with one separator between neighbours (its properties are `Sequences.SplitJoin` and `Sequences.JoinElements`) |
| `Sequences.SplitJoin` | src/matrix.rs:183 | splitting a tab join of separator-free parts at the separator gives the parts back |
| `Sequences.JoinElements` | src/matrix.rs:183 | every character of a join is a character of some part or the separator |
| `Sequences.DropEmpty` | src/matrix.rs:199 | the filter keeps only non-empty words, each taken from its input |
| `Sequences.DropEmptyKeeps` | src/matrix.rs:199 | the filter changes nothing when every word is non-empty |
| `Sequences.DropEmptyAppend` | src/matrix.rs:199 | the filter of a concatenation is the filter of each half, in order |
| `Sequences.DropEmptyOne` | src/matrix.rs:199 | on a single word the filter drops it exactly when it is empty; with `Sequences.DropEmptyAppend` this pins the result to the non-empty words, in order |
| `Sequences.Sum` | src/matrix.rs:137-141 | iterator `sum`, accumulating from zero left to right (related to the column sums by `Matrices.SumIsColumnSum`) |
| `MatrixText.IsWhitespace` | src/matrix.rs:198 | `char::is_whitespace`: the Unicode White_Space code points |
| `MatrixText.StripCr` | src/matrix.rs:196 | one `\r` at the end of a line is dropped by `str::lines` (its effect on whole texts is stated by `MatrixText.LinesNoNewline`, `MatrixText.LinesAtNewline` and `Examples.CrLfExample`) |
| `MatrixText.Lines` | src/matrix.rs:196 | `str::lines`: the text cut at `\n`, without a final empty line and without one `\r` before each line end; no line holds a newline |
| `MatrixText.LinesNoNewline` | src/matrix.rs:196 | a non-empty text without a newline is the single line `StripCr(x)`, and so is that text followed by one final `\n` |
| `MatrixText.LinesAtNewline` | src/matrix.rs:196 | the first `\n` ends the first line, and the rest of the text gives the remaining lines, so a last line without a final `\n` is still a line |
| `MatrixText.Tokens` | src/matrix.rs:198-199 | the words of a line are non-empty and hold no whitespace |
| `MatrixText.TokensNoWhitespace` | src/matrix.rs:198-199 | a line without whitespace is one word, or no word when it is empty |
| `MatrixText.TokensAtWhitespace` | src/matrix.rs:198-199 | the first whitespace character ends the first word, and the rest of the line gives the remaining words; an empty stretch between two whitespace characters gives no word |
| `MatrixText.ParseRow` | src/matrix.rs:197-202 | a line's words give a row iff every word parses as a 32-bit integer; the row has one value per word, in order; otherwise a parse error |
| `MatrixText.ParseLines` | src/matrix.rs:195-204 | the lines give rows iff every line's words parse; one row per line, in order; a bad token anywhere is a parse error |
| `MatrixText.Parse` | src/matrix.rs:190-207 | `impl FromStr`: the lines' rows through `from_2d`, or the first parse error (its contract is stated by `MatrixText.ParseSpec`) |
| `MatrixText.ParseSpec` | src/matrix.rs:194-207 | a parse error happens iff some token does not parse; otherwise no lines give the 0x0 matrix, lines with differing word counts give a dimension error (iff), and the result has dims (lines, words of the first line) with element (r, c) the value of word c of line r |
| `MatrixText.ParseErrorCause` | src/matrix.rs:194-207 | a parse error comes only from a token that does not parse, never from `from_2d` |
| `MatrixText.FormatRow` | src/matrix.rs:178-184 | one row's text: each element's `to_string`, joined by tabs (its properties are `MatrixText.FormatRowChars` and `MatrixText.TokensOfFormatRow`) |
| `MatrixText.Terminated` | src/matrix.rs:185-186 | each row text written followed by `\n` (its properties are `MatrixText.SplitTerminated` and `MatrixText.LinesOfTerminated`) |
| `MatrixText.Format` | src/matrix.rs:174-188 | `impl Display`: each row's text followed by `\n` (its properties are `MatrixText.FormatLayout` and `MatrixText.ParseFormat`) |
| `MatrixText.CountNewlinesAppend` | src/matrix.rs:185 | the newlines of a concatenation are those of its two halves |
| `MatrixText.CountNewlinesNone` | src/matrix.rs:185 | a text with no newline character counts zero newlines |
| `MatrixText.IntToStringChars` | src/matrix.rs:180 | an element's text is non-empty and made of digits and minus signs |
| `MatrixText.FormatRowChars` | src/matrix.rs:178-184 | a printed row holds only digits, minus signs and tabs, so no newline or carriage return |
| `MatrixText.FormatRowTabs` | src/matrix.rs:178-184 | cut at its tabs, a printed row with elements is exactly its elements' texts, in order: a single tab between neighbours and no other tab |
| `MatrixText.TokensOfFormatRow` | src/matrix.rs:178-184 | the words of a printed row are its elements' texts, in order |
| `MatrixText.SplitTerminated` | src/matrix.rs:185 | text made of newline-free lines, each followed by `\n`, holds exactly one newline per line and splits into the lines plus one empty tail |
| `MatrixText.LinesOfTerminated` | src/matrix.rs:185 | `lines()` reads back newline-terminated lines that have no newline and no final carriage return |
| `MatrixText.FormatLayout` | src/matrix.rs:174-188 | a printed matrix has exactly numRows newlines; cut at its newlines it is the printed rows, in order, followed by one empty tail, so every row text ends in a bare `\n`; its lines are the printed rows |
| `MatrixText.ParseFormattedRow` | src/matrix.rs:178-202 | parsing the words of a printed row of 32-bit values gives the row back |
| `MatrixText.ParseLinesOfFormat` | src/matrix.rs:174-204 | the lines of a printed matrix of 32-bit values parse back to its rows |
| `MatrixText.RowsInI32` | src/matrix.rs:85-87 | the rows of a matrix with 32-bit data hold 32-bit values |
| `MatrixText.FromRowsOfRows` | src/matrix.rs:66-87 | `from_2d` of a matrix's own rows, for at least one row and one column, is the matrix |
| `MatrixText.ParseFormat` | src/matrix.rs:174-207 | parsing the printed text of any matrix of 32-bit values with at least one row and one column gives that matrix back |
| `Examples.FromRowsExample` | src/matrix.rs:66-81 | [[1,2],[3,4]] is the 2x2 matrix 1,2,3,4; [[1,2],[3]] is a dimension error; no rows is 0x0 |
| `Examples.AddExample` | src/matrix.rs:148-172 | a 2x2 matrix plus itself doubles every element; 2x2 plus 1x4 is a dimension error |
| `Examples.ProductExample` | src/matrix.rs:101-127 | [[1,2],[3,4]] times [[5,6],[7,8]] is [[19,22],[43,50]]; 2x3 times 2x3 is a dimension error |
| `Examples.ReverseProductExample` | src/matrix.rs:101-127 | [[5,6],[7,8]] times [[1,2],[3,4]] is [[23,34],[31,46]] |
| `Examples.ProductNotCommutative` | src/matrix.rs:101-127 | the product of [[1,2],[3,4]] and [[5,6],[7,8]] depends on the order of the operands |
| `Examples.ColumnMeansExample` | src/matrix.rs:131-145 | the means of [[1,2,3],[4,5,6]] are [2,3,4]; the mean of the column -1, -2 is -1 (rounded toward zero, not -2) |
| `Examples.TwoWords` | src/matrix.rs:197-199 | a line of two one-character words separated by a space has those two words |
| `Examples.WhitespaceRun` | src/matrix.rs:198-199 | "1  2", with two spaces, has the words "1" and "2" and no empty word |
| `Examples.SingleDigit` | src/matrix.rs:200 | a one-digit token parses as its digit value |
| `Examples.TwoDigitsRow` | src/matrix.rs:197-202 | a line of two one-digit words parses as the row of their values |
| `Examples.TwoLines` | src/matrix.rs:195-204 | the lines "1 2" and "3 4" parse as the rows [1,2] and [3,4] |
| `Examples.ParseExample` | src/matrix.rs:190-207 | "1 2\n3 4\n" parses as the 2x2 matrix 1,2,3,4 |
| `Examples.UnterminatedLines` | src/matrix.rs:196 | "1 2\n3 4", without a final newline, has the lines "1 2" and "3 4" |
| `Examples.UnterminatedExample` | src/matrix.rs:190-207 | "1 2\n3 4" parses as the 2x2 matrix 1,2,3,4, as it would with a final newline |
| `Examples.CrLfExample` | src/matrix.rs:196 | "1\r\n" has the single line "1" |
| `Examples.ParseErrorExample` | src/matrix.rs:190-207 | "1 x\n" is a parse error |
| `Examples.OneAndBlank` | src/matrix.rs:197-202 | the line "1" is the row [1], and the blank line is the empty row |
| `Examples.BlankLineExample` | src/matrix.rs:190-207 | "1\n\n" is a dimension error, because the blank line is an empty row |
| `Examples.FormatExample` | src/matrix.rs:174-188 | the 2x2 matrix 1,-2,3,4 prints as "1\t-2\n3\t4\n" |

## Left out

- `src/main.rs` is not part of this model. It is the command-line front end: argument parsing, reading files and standard input, the usage text, the exit status, and its `vec_format` helper for printing the column means.
- The error messages (`src/matrix.rs:11-24` and the `format!` texts) and the boxing of errors into `Box<dyn Error>` are not modelled. Errors are the two tags `DimensionError` and `ParseError`, and a parse error carries no detail.
- The generic `Matrixable` bound and the `num_traits::AsPrimitive` casts are not modelled. The element type is fixed to `int`, which is what the tool's `i32` instantiation computes whenever nothing overflows.
- Matrices.Add: does not model `i32` overflow (a panic in debug builds, wrap-around in release builds), because results are unbounded integers.
- Matrices.Dot: does not model `i32` overflow in the products or their running sum, because results are unbounded integers.
- Matrices.ColumnMeans: does not model overflow of the `isize` column sum. `Matrices.ColumnMeansInI32` shows that the cast of the mean back to `i32` is lossless.
- Matrices.FromFlat: zero rows is excluded by a precondition, because the source divides by zero there.
- Matrices.Dot: a zero shared dimension (`lhs.numCols == rhs.numRows == 0`) is excluded by a precondition, because `rows()` of the left operand panics on `chunks(0)`.
- Matrices.ColumnMeans: zero rows is excluded by a precondition, because the transpose then has zero columns and `rows()` panics.
- MatrixText.Format: zero columns, including the empty 0x0 matrix, is excluded by a precondition, because `rows()` panics.
- MatrixText.ParseFormat: needs at least one row and one column. With zero columns the text cannot be printed. With zero rows the printed text is empty and parses to the 0x0 matrix, whatever the column count was.
- The `Vec` buffers of `transpose` and `dot` are modelled as sequence values, and a `push` is an append. Capacity and reallocation are not modelled.
- `str::lines` is modelled as: split at `\n`, drop one final empty piece, and strip one trailing `\r` from each line. This differs from some standard-library versions only for a lone `\r` that ends the text without a newline.
- `char::is_whitespace` is modelled by listing the Unicode White_Space code points. There is no general Unicode database.

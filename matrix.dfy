/** The dense row-major matrix of src/matrix.rs over the element type `int`,
    with its constructors and operations. */
module Matrices {
  import opened Sequences
  import opened Numbers

  /** The two kinds of failure the operations report. */
  datatype Error = DimensionError | ParseError

  datatype Result<T> = Ok(value: T) | Err(error: Error)

  /** `numRows` by `numCols` elements; element (r, c) is stored at
      `data[r * numCols + c]`. The fields never change after construction. */
  datatype Matrix = Matrix(numRows: nat, numCols: nat, data: seq<int>)

  /** The shape invariant every constructor establishes. */
  predicate Valid(m: Matrix) {
    |m.data| == m.numRows * m.numCols
  }

  lemma IndexInRange(r: nat, c: nat, rows: nat, cols: nat)
    requires r < rows && c < cols
    ensures r * cols + c < rows * cols
  {
    assert (r + 1) * cols <= rows * cols;
  }

  /** Element (r, c). */
  function At(m: Matrix, r: nat, c: nat): int
    requires Valid(m) && r < m.numRows && c < m.numCols
  {
    IndexInRange(r, c, m.numRows, m.numCols);
    m.data[r * m.numCols + c]
  }

  /** Two well-shaped matrices with the same dimensions and elements are equal. */
  lemma MatrixExt(a: Matrix, b: Matrix)
    requires Valid(a) && Valid(b)
    requires a.numRows == b.numRows && a.numCols == b.numCols
    requires forall r, c :: 0 <= r < a.numRows && 0 <= c < a.numCols ==> At(a, r, c) == At(b, r, c)
    ensures a == b
  {
    if a.numCols > 0 {
      RowsSpec(a);
      RowsSpec(b);
      forall r | 0 <= r < a.numRows ensures Rows(a)[r] == Rows(b)[r] {
        assert forall c :: 0 <= c < a.numCols ==> Rows(a)[r][c] == Rows(b)[r][c];
      }
      assert Rows(a) == Rows(b);
    }
  }

  // ----- construction -----

  /** `Matrix::new`: the default, empty matrix. */
  function Empty(): (m: Matrix)
    ensures Valid(m) && IsEmpty(m) && Dims(m) == (0, 0)
  {
    Matrix(0, 0, [])
  }

  /** `from_1d`: a row count and the elements in row-major order. A zero row
      count divides by zero in the source, so it is excluded. */
  function FromFlat(numRows: nat, data: seq<int>): (r: Result<Matrix>)
    requires numRows > 0
    ensures r.Ok? <==> |data| % numRows == 0
    ensures r.Err? ==> r.error == DimensionError
    ensures r.Ok? ==> (Valid(r.value) && r.value.data == data
                       && Dims(r.value) == (numRows, |data| / numRows))
  {
    if |data| % numRows != 0 then Err(DimensionError)
    else Ok(Matrix(numRows, |data| / numRows, data))
  }

  /** `from_2d`: a sequence of rows, which must all be as long as the first. */
  function FromRows(rows: seq<seq<int>>): Result<Matrix> {
    if |rows| == 0 then Ok(Empty())
    else if exists i :: 0 <= i < |rows| && |rows[i]| != |rows[0]| then Err(DimensionError)
    else Ok(Matrix(|rows|, |rows[0]|, Flatten(rows)))
  }

  lemma FromRowsSpec(rows: seq<seq<int>>)
    ensures rows == [] ==> FromRows(rows) == Ok(Empty())
    ensures FromRows(rows).Err? <==> exists i :: 0 <= i < |rows| && |rows[i]| != |rows[0]|
    ensures FromRows(rows).Err? ==> FromRows(rows).error == DimensionError
    ensures FromRows(rows).Ok? ==> Valid(FromRows(rows).value)
    ensures FromRows(rows).Ok? && rows != [] ==>
      var m := FromRows(rows).value;
      && Dims(m) == (|rows|, |rows[0]|)
      && forall r, c :: 0 <= r < |rows| && 0 <= c < |rows[0]| ==> At(m, r, c) == rows[r][c]
  {
    if FromRows(rows).Ok? && rows != [] {
      var w := |rows[0]|;
      assert Uniform(rows, w);
      FlattenLength(rows, w);
      forall r, c | 0 <= r < |rows| && 0 <= c < w
        ensures At(FromRows(rows).value, r, c) == rows[r][c]
      {
        FlattenAt(rows, w, r, c);
      }
    }
  }

  // ----- queries -----

  /** `is_empty`: no elements. */
  function IsEmpty(m: Matrix): bool {
    |m.data| == 0
  }

  lemma IsEmptySpec(m: Matrix)
    requires Valid(m)
    ensures IsEmpty(m) <==> m.numRows == 0 || m.numCols == 0
  {
    if m.numRows > 0 && m.numCols > 0 {
      IndexInRange(0, 0, m.numRows, m.numCols);
    }
  }

  /** `dims`: (rows, columns). */
  function Dims(m: Matrix): (nat, nat) {
    (m.numRows, m.numCols)
  }

  /** `rows()`: the data cut into pieces of `numCols` elements. The source
      panics when `numCols` is zero. */
  function Rows(m: Matrix): (rows: seq<seq<int>>)
    requires Valid(m) && m.numCols > 0
    ensures |rows| == m.numRows && Uniform(rows, m.numCols)
  {
    ChunksExact(m.data, m.numCols, m.numRows);
    Chunks(m.data, m.numCols)
  }

  lemma RowsSpec(m: Matrix)
    requires Valid(m) && m.numCols > 0
    ensures |Rows(m)| == m.numRows && Uniform(Rows(m), m.numCols)
    ensures Flatten(Rows(m)) == m.data
    ensures forall r, c :: 0 <= r < m.numRows && 0 <= c < m.numCols ==> Rows(m)[r][c] == At(m, r, c)
  {
    ChunksExact(m.data, m.numCols, m.numRows);
    forall r, c | 0 <= r < m.numRows && 0 <= c < m.numCols
      ensures Rows(m)[r][c] == At(m, r, c)
    {
      FlattenAt(Rows(m), m.numCols, r, c);
    }
  }

  // ----- transpose -----

  /** Column c, top to bottom. */
  function Column(m: Matrix, c: nat): seq<int>
    requires Valid(m) && c < m.numCols
  {
    seq(m.numRows, r requires 0 <= r < m.numRows => At(m, r, c))
  }

  function Columns(m: Matrix): seq<seq<int>>
    requires Valid(m)
  {
    seq(m.numCols, c requires 0 <= c < m.numCols => Column(m, c))
  }

  /** The transpose: the columns of `m`, one after another, become the rows. */
  function Transposed(m: Matrix): Matrix
    requires Valid(m)
  {
    Matrix(m.numCols, m.numRows, Flatten(Columns(m)))
  }

  lemma TransposedSpec(m: Matrix)
    requires Valid(m)
    ensures Valid(Transposed(m))
    ensures Dims(Transposed(m)) == (m.numCols, m.numRows)
    ensures forall r, c :: 0 <= r < m.numRows && 0 <= c < m.numCols ==>
      At(Transposed(m), c, r) == At(m, r, c)
  {
    assert Uniform(Columns(m), m.numRows);
    FlattenLength(Columns(m), m.numRows);
    forall r, c | 0 <= r < m.numRows && 0 <= c < m.numCols
      ensures At(Transposed(m), c, r) == At(m, r, c)
    {
      FlattenAt(Columns(m), m.numRows, c, r);
    }
  }

  /** Cutting the transpose into rows gives back the columns. */
  lemma RowsOfTransposed(m: Matrix)
    requires Valid(m) && m.numRows > 0
    ensures Valid(Transposed(m)) && Transposed(m).numCols > 0
    ensures Rows(Transposed(m)) == Columns(m)
  {
    assert Uniform(Columns(m), m.numRows);
    FlattenLength(Columns(m), m.numRows);
    ChunksFlatten(Columns(m), m.numRows);
  }

  lemma TransposeInvolution(m: Matrix)
    requires Valid(m)
    ensures Valid(Transposed(m)) && Transposed(Transposed(m)) == m
  {
    var t := Transposed(m);
    TransposedSpec(m);
    TransposedSpec(t);
    MatrixExt(Transposed(t), m);
  }

  /** `transpose`: for each column index, walk the rows and push that
      column's element. Never calls `rows()` when there are no columns. */
  method Transpose(m: Matrix) returns (t: Matrix)
    requires Valid(m)
    ensures t == Transposed(m)
  {
    var newData: seq<int> := [];
    var c := 0;
    while c < m.numCols
      invariant 0 <= c <= m.numCols
      invariant newData == Flatten(Columns(m)[..c])
    {
      var rows := Rows(m);
      RowsSpec(m);
      var k := 0;
      while k < |rows|
        invariant 0 <= k <= |rows|
        invariant newData == Flatten(Columns(m)[..c]) + Column(m, c)[..k]
      {
        newData := newData + [rows[k][c]];
        assert Column(m, c)[..k + 1] == Column(m, c)[..k] + [Column(m, c)[k]];
        k := k + 1;
      }
      FlattenAppend(Columns(m)[..c], Column(m, c));
      assert Columns(m)[..c + 1] == Columns(m)[..c] + [Column(m, c)];
      c := c + 1;
    }
    assert Columns(m)[..m.numCols] == Columns(m);
    t := Matrix(m.numCols, m.numRows, newData);
  }

  // ----- matrix product -----

  /** lhs(i, 0) * rhs(0, j) + ... + lhs(i, n - 1) * rhs(n - 1, j), summed in
      that order. */
  function EntrySum(lhs: Matrix, rhs: Matrix, i: nat, j: nat, n: nat): int
    requires Valid(lhs) && Valid(rhs) && lhs.numCols == rhs.numRows
    requires i < lhs.numRows && j < rhs.numCols && n <= lhs.numCols
  {
    if n == 0 then 0
    else EntrySum(lhs, rhs, i, j, n - 1) + At(lhs, i, n - 1) * At(rhs, n - 1, j)
  }

  function ProductRow(lhs: Matrix, rhs: Matrix, i: nat): seq<int>
    requires Valid(lhs) && Valid(rhs) && lhs.numCols == rhs.numRows && i < lhs.numRows
  {
    seq(rhs.numCols, j requires 0 <= j < rhs.numCols => EntrySum(lhs, rhs, i, j, lhs.numCols))
  }

  function ProductRows(lhs: Matrix, rhs: Matrix): seq<seq<int>>
    requires Valid(lhs) && Valid(rhs) && lhs.numCols == rhs.numRows
  {
    seq(lhs.numRows, i requires 0 <= i < lhs.numRows => ProductRow(lhs, rhs, i))
  }

  /** The matrix product, defined entry by entry; a shape mismatch is an error. */
  function Product(lhs: Matrix, rhs: Matrix): Result<Matrix>
    requires Valid(lhs) && Valid(rhs)
  {
    if lhs.numCols != rhs.numRows then Err(DimensionError)
    else Ok(Matrix(lhs.numRows, rhs.numCols, Flatten(ProductRows(lhs, rhs))))
  }

  lemma ProductSpec(lhs: Matrix, rhs: Matrix)
    requires Valid(lhs) && Valid(rhs)
    ensures Product(lhs, rhs).Ok? <==> lhs.numCols == rhs.numRows
    ensures Product(lhs, rhs).Err? ==> Product(lhs, rhs).error == DimensionError
    ensures Product(lhs, rhs).Ok? ==>
      var p := Product(lhs, rhs).value;
      && Valid(p) && Dims(p) == (lhs.numRows, rhs.numCols)
      && forall i, j :: 0 <= i < lhs.numRows && 0 <= j < rhs.numCols ==>
           At(p, i, j) == EntrySum(lhs, rhs, i, j, lhs.numCols)
  {
    if lhs.numCols == rhs.numRows {
      var rows := ProductRows(lhs, rhs);
      assert Uniform(rows, rhs.numCols);
      FlattenLength(rows, rhs.numCols);
      forall i, j | 0 <= i < lhs.numRows && 0 <= j < rhs.numCols
        ensures At(Product(lhs, rhs).value, i, j) == EntrySum(lhs, rhs, i, j, lhs.numCols)
      {
        FlattenAt(rows, rhs.numCols, i, j);
      }
    }
  }

  /** The `zip`/`map`/`sum` of two equally long slices, left to right. */
  function InnerProduct(a: seq<int>, b: seq<int>): int
    requires |a| == |b|
  {
    if |a| == 0 then 0
    else InnerProduct(a[..|a| - 1], b[..|b| - 1]) + a[|a| - 1] * b[|b| - 1]
  }

  lemma {:induction false} InnerProductEntry(lhs: Matrix, rhs: Matrix, i: nat, j: nat, a: seq<int>, b: seq<int>, n: nat)
    requires Valid(lhs) && Valid(rhs) && lhs.numCols == rhs.numRows
    requires i < lhs.numRows && j < rhs.numCols && n <= lhs.numCols
    requires |a| == |b| == lhs.numCols
    requires forall k :: 0 <= k < lhs.numCols ==> a[k] == At(lhs, i, k) && b[k] == At(rhs, k, j)
    ensures InnerProduct(a[..n], b[..n]) == EntrySum(lhs, rhs, i, j, n)
  {
    if n > 0 {
      InnerProductEntry(lhs, rhs, i, j, a, b, n - 1);
      assert a[..n][..n - 1] == a[..n - 1];
      assert b[..n][..n - 1] == b[..n - 1];
    }
  }

  /** Row i of `lhs` against row j of the transposed `rhs` is entry (i, j). */
  lemma DotEntry(lhs: Matrix, rhs: Matrix, i: nat, j: nat)
    requires Valid(lhs) && Valid(rhs) && lhs.numCols == rhs.numRows && lhs.numCols > 0
    requires i < lhs.numRows && j < rhs.numCols
    ensures Valid(Transposed(rhs)) && Transposed(rhs).numCols > 0
    ensures |Rows(lhs)| == lhs.numRows && |Rows(Transposed(rhs))| == rhs.numCols
    ensures |Rows(lhs)[i]| == |Rows(Transposed(rhs))[j]|
    ensures InnerProduct(Rows(lhs)[i], Rows(Transposed(rhs))[j]) == EntrySum(lhs, rhs, i, j, lhs.numCols)
  {
    RowsOfTransposed(rhs);
    RowsSpec(lhs);
    var a, b := Rows(lhs)[i], Column(rhs, j);
    InnerProductEntry(lhs, rhs, i, j, a, b, lhs.numCols);
    assert a[..lhs.numCols] == a && b[..lhs.numCols] == b;
  }

  /** The inner products of `row` with each of `others`, in order. */
  function InnerProducts(row: seq<int>, others: seq<seq<int>>): seq<int>
    requires Uniform(others, |row|)
  {
    seq(|others|, j requires 0 <= j < |others| => InnerProduct(row, others[j]))
  }

  /** Row i of `lhs` against the rows of the transposed `rhs` is row i of the product. */
  lemma InnerProductsRow(lhs: Matrix, rhs: Matrix, i: nat)
    requires Valid(lhs) && Valid(rhs) && lhs.numCols == rhs.numRows && lhs.numCols > 0
    requires i < lhs.numRows
    ensures Valid(Transposed(rhs)) && Transposed(rhs).numCols > 0 && |Rows(lhs)| == lhs.numRows
    ensures Uniform(Rows(Transposed(rhs)), |Rows(lhs)[i]|)
    ensures InnerProducts(Rows(lhs)[i], Rows(Transposed(rhs))) == ProductRow(lhs, rhs, i)
  {
    RowsOfTransposed(rhs);
    ChunksExact(lhs.data, lhs.numCols, lhs.numRows);
    forall j | 0 <= j < rhs.numCols
      ensures InnerProduct(Rows(lhs)[i], Rows(Transposed(rhs))[j]) == ProductRow(lhs, rhs, i)[j]
    {
      DotEntry(lhs, rhs, i, j);
    }
  }

  /** The inner loop of `dot`: pushes the inner product of `row` with each of
      `others` onto `newData`. */
  method PushInnerProducts(newData: seq<int>, row: seq<int>, others: seq<seq<int>>) returns (out: seq<int>)
    requires Uniform(others, |row|)
    ensures out == newData + InnerProducts(row, others)
  {
    out := newData;
    var j := 0;
    while j < |others|
      invariant 0 <= j <= |others|
      invariant out == newData + InnerProducts(row, others)[..j]
    {
      out := out + [InnerProduct(row, others[j])];
      assert InnerProducts(row, others)[..j + 1] == InnerProducts(row, others)[..j] + [InnerProduct(row, others[j])];
      j := j + 1;
    }
    assert InnerProducts(row, others)[..|others|] == InnerProducts(row, others);
  }

  /** `dot`: transposes `rhs` once, then for each row of `lhs` pushes its inner
      products with the rows of the transpose. With matching shapes and no
      columns in `lhs` the source panics in `rows()`, so that case is excluded. */
  method Dot(lhs: Matrix, rhs: Matrix) returns (res: Result<Matrix>)
    requires Valid(lhs) && Valid(rhs)
    requires lhs.numCols == rhs.numRows ==> lhs.numCols > 0
    ensures res == Product(lhs, rhs)
  {
    if lhs.numCols != rhs.numRows {
      return Err(DimensionError);
    }
    var newData: seq<int> := [];
    var rhsTranspose := Transpose(rhs);
    RowsOfTransposed(rhs);
    var lhsRows := Rows(lhs);
    ChunksExact(lhs.data, lhs.numCols, lhs.numRows);
    ghost var want := ProductRows(lhs, rhs);
    var i := 0;
    while i < |lhsRows|
      invariant 0 <= i <= |lhsRows|
      invariant newData == Flatten(want[..i])
    {
      var rhsRows := Rows(rhsTranspose);
      InnerProductsRow(lhs, rhs, i);
      newData := PushInnerProducts(newData, lhsRows[i], rhsRows);
      FlattenAppend(want[..i], want[i]);
      assert want[..i + 1] == want[..i] + [want[i]];
      i := i + 1;
    }
    assert want[..|lhsRows|] == want;
    return Ok(Matrix(lhs.numRows, rhs.numCols, newData));
  }

  // ----- elementwise sum -----

  /** `impl Add`: elementwise sum of two matrices of the same dimensions. */
  function Add(lhs: Matrix, rhs: Matrix): (r: Result<Matrix>)
    requires Valid(lhs) && Valid(rhs)
    ensures r.Ok? <==> Dims(lhs) == Dims(rhs)
    ensures r.Err? ==> r.error == DimensionError
    ensures r.Ok? ==> Valid(r.value) && Dims(r.value) == Dims(lhs)
  {
    if lhs.numRows != rhs.numRows || lhs.numCols != rhs.numCols then Err(DimensionError)
    else Ok(Matrix(lhs.numRows, lhs.numCols,
                   seq(|lhs.data|, k requires 0 <= k < |lhs.data| => lhs.data[k] + rhs.data[k])))
  }

  lemma AddSpec(lhs: Matrix, rhs: Matrix)
    requires Valid(lhs) && Valid(rhs) && Dims(lhs) == Dims(rhs)
    ensures Add(lhs, rhs).Ok?
    ensures forall i, j :: 0 <= i < lhs.numRows && 0 <= j < lhs.numCols ==>
      At(Add(lhs, rhs).value, i, j) == At(lhs, i, j) + At(rhs, i, j)
  {
    forall i, j | 0 <= i < lhs.numRows && 0 <= j < lhs.numCols
      ensures At(Add(lhs, rhs).value, i, j) == At(lhs, i, j) + At(rhs, i, j)
    {
      IndexInRange(i, j, lhs.numRows, lhs.numCols);
    }
  }

  lemma AddCommutative(a: Matrix, b: Matrix)
    requires Valid(a) && Valid(b)
    ensures Add(a, b) == Add(b, a)
  {
    if Dims(a) == Dims(b) {
      assert Add(a, b).value.data == Add(b, a).value.data;
    }
  }

  // ----- column means -----

  /** M(0, c) + ... + M(n - 1, c). */
  function ColumnSum(m: Matrix, c: nat, n: nat): int
    requires Valid(m) && c < m.numCols && n <= m.numRows
  {
    if n == 0 then 0 else ColumnSum(m, c, n - 1) + At(m, n - 1, c)
  }

  lemma {:induction false} SumIsColumnSum(m: Matrix, c: nat, s: seq<int>, n: nat)
    requires Valid(m) && c < m.numCols && n <= m.numRows && |s| == m.numRows
    requires forall r :: 0 <= r < m.numRows ==> s[r] == At(m, r, c)
    ensures Sum(s[..n]) == ColumnSum(m, c, n)
  {
    if n > 0 {
      SumIsColumnSum(m, c, s, n - 1);
      assert s[..n][..n - 1] == s[..n - 1];
    }
  }

  /** Row c of the transpose is column c, and its sum is the column sum. */
  lemma TransposedRows(m: Matrix)
    requires Valid(m) && m.numRows > 0
    ensures Valid(Transposed(m)) && Transposed(m).numCols > 0
    ensures |Rows(Transposed(m))| == m.numCols && Uniform(Rows(Transposed(m)), m.numRows)
    ensures forall c :: 0 <= c < m.numCols ==>
      Sum(Rows(Transposed(m))[c]) == ColumnSum(m, c, m.numRows)
  {
    var t := Transposed(m);
    TransposedSpec(m);
    RowsSpec(t);
    forall c | 0 <= c < m.numCols ensures Sum(Rows(t)[c]) == ColumnSum(m, c, m.numRows) {
      var s := Rows(t)[c];
      SumIsColumnSum(m, c, s, m.numRows);
      assert s[..m.numRows] == s;
    }
  }

  /** `column_means`: the transpose's rows, each summed and divided by its
      length with truncation toward zero. With no rows the source panics in
      `rows()`, so that case is excluded. */
  function ColumnMeans(m: Matrix): (means: seq<int>)
    requires Valid(m) && m.numRows > 0
    ensures |means| == m.numCols
    ensures forall c :: 0 <= c < m.numCols ==>
      means[c] == TruncDiv(ColumnSum(m, c, m.numRows), m.numRows)
  {
    TransposedRows(m);
    var rows := Rows(Transposed(m));
    seq(|rows|, c requires 0 <= c < |rows| => TruncDiv(Sum(rows[c]), |rows[c]|))
  }

  lemma {:induction false} ColumnSumBounds(m: Matrix, c: nat, n: nat, lo: int, hi: int)
    requires Valid(m) && c < m.numCols && n <= m.numRows
    requires forall r :: 0 <= r < m.numRows ==> lo <= At(m, r, c) <= hi
    ensures n * lo <= ColumnSum(m, c, n) <= n * hi
  {
    if n > 0 {
      ColumnSumBounds(m, c, n - 1, lo, hi);
      assert n * lo == (n - 1) * lo + lo && n * hi == (n - 1) * hi + hi;
    }
  }

  lemma MeanBounds(a: int, n: nat, lo: int, hi: int)
    requires n > 0 && lo <= 0 <= hi && n * lo <= a <= n * hi
    ensures lo <= TruncDiv(a, n) <= hi
  {
  }

  /** The means of 32-bit elements are 32-bit again, so the source's cast of
      the mean back to the element type loses nothing. */
  lemma ColumnMeansInI32(m: Matrix)
    requires Valid(m) && m.numRows > 0
    requires forall k :: 0 <= k < |m.data| ==> InI32(m.data[k])
    ensures forall c :: 0 <= c < m.numCols ==> InI32(ColumnMeans(m)[c])
  {
    forall c | 0 <= c < m.numCols ensures InI32(ColumnMeans(m)[c]) {
      forall r | 0 <= r < m.numRows ensures I32_MIN <= At(m, r, c) <= I32_MAX {
        IndexInRange(r, c, m.numRows, m.numCols);
      }
      ColumnSumBounds(m, c, m.numRows, I32_MIN, I32_MAX);
      MeanBounds(ColumnSum(m, c, m.numRows), m.numRows, I32_MIN, I32_MAX);
    }
  }
}

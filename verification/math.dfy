/** Matrix product and transpose of `src/math.rs`.

    Both operations fill a zero matrix of the output shape through explicit
    row-major offsets.  Each is given here twice: a pure definition
    (`Product`, `TransposeOf`) stating what every output cell holds, and a
    method with the source's nested loops (`MatMul`, `Transpose`) proved to
    compute it.
 */
module MatrixMath {
  import opened RowMajor
  import opened Matrices

  // ---------------------------------------------------------------------------
  // Matrix product
  // ---------------------------------------------------------------------------

  /** `mat_mul` reads `src1.data[k + i * src1.cols]` for every `k` below
      `src2.rows`, in every output row and column.  On well-formed operands
      those reads stay in bounds exactly when the loops never run or the
      inner bound does not exceed `src1.cols`. */
  predicate MatMulDefined(a: Matrix, b: Matrix) {
    WellFormed(a) && WellFormed(b) &&
    (a.dim.0 == 0 || b.dim.1 == 0 || b.dim.0 <= a.dim.1)
  }

  /** The running sum of `mat_mul`'s inner loop after its first `n` steps:
      `a[i, 0] * b[0, j] + ... + a[i, n - 1] * b[n - 1, j]`, added left to
      right. */
  function Dot(a: Matrix, b: Matrix, i: nat, j: nat, n: nat): int
    requires WellFormed(a) && WellFormed(b)
    requires i < a.dim.0 && j < b.dim.1 && n <= a.dim.1 && n <= b.dim.0
  {
    if n == 0 then 0
    else Dot(a, b, i, j, n - 1) + Get(a, i, n - 1) * Get(b, n - 1, j)
  }

  /** The value `mat_mul` stores at flat offset `p` of its result. */
  function ProductAt(a: Matrix, b: Matrix, p: nat): int
    requires MatMulDefined(a, b) && p < a.dim.0 * b.dim.1
  {
    IndexSplit(p, a.dim.0, b.dim.1);
    Dot(a, b, p / b.dim.1, p % b.dim.1, b.dim.0)
  }

  /** What `mat_mul` returns, stated cell by cell. */
  function Product(a: Matrix, b: Matrix): (r: Matrix)
    requires MatMulDefined(a, b)
    ensures r.dim == (a.dim.0, b.dim.1) && WellFormed(r)
  {
    var n := a.dim.0 * b.dim.1;
    Matrix((a.dim.0, b.dim.1), seq(n, p requires 0 <= p < n => ProductAt(a, b, p)))
  }

  /** Cell `(i, j)` of the product is the left-to-right sum over `k` below
      `src2.rows` of `a[i, k] * b[k, j]`. */
  lemma ProductCell(a: Matrix, b: Matrix)
    requires MatMulDefined(a, b)
    ensures forall i, j :: 0 <= i < a.dim.0 && 0 <= j < b.dim.1 ==>
              Get(Product(a, b), i, j) == Dot(a, b, i, j, b.dim.0)
  {
    forall i, j | 0 <= i < a.dim.0 && 0 <= j < b.dim.1
      ensures Get(Product(a, b), i, j) == Dot(a, b, i, j, b.dim.0)
    {
      IndexInBounds(i, j, a.dim.0, b.dim.1);
      IndexDivMod(i, j, b.dim.1);
    }
  }

  /** Outside `MatMulDefined`, on well-formed operands, `mat_mul` reads past
      the end of `src1`'s buffer: the last inner step of the last row does. */
  lemma MatMulOutOfBounds(a: Matrix, b: Matrix)
    requires WellFormed(a) && WellFormed(b) && !MatMulDefined(a, b)
    ensures Index(a.dim.0 - 1, b.dim.0 - 1, a.dim.1) >= |a.data|
  {
    assert a.dim.0 * a.dim.1 == (a.dim.0 - 1) * a.dim.1 + a.dim.1;
  }

  /** The innermost loop of `mat_mul`: accumulates
      `src1.data[k + i * src1.cols] * src2.data[j + k * src2.cols]` for `k`
      from 0 up to `src2.rows`, every read in bounds. */
  method CellSum(src1: Matrix, src2: Matrix, i: nat, j: nat) returns (sum: int)
    requires MatMulDefined(src1, src2) && i < src1.dim.0 && j < src2.dim.1
    ensures sum == Dot(src1, src2, i, j, src2.dim.0)
  {
    sum := 0;
    for k := 0 to src2.dim.0
      invariant sum == Dot(src1, src2, i, j, k)
    {
      IndexInBounds(i, k, src1.dim.0, src1.dim.1);
      IndexInBounds(k, j, src2.dim.0, src2.dim.1);
      sum := sum + src1.data[Index(i, k, src1.dim.1)] * src2.data[Index(k, j, src2.dim.1)];
    }
  }

  /** The first `n` offsets of `s` hold what `mat_mul` stores there. */
  ghost predicate ProducedPrefix(s: seq<int>, a: Matrix, b: Matrix, n: nat)
    requires MatMulDefined(a, b)
  {
    |s| == a.dim.0 * b.dim.1 && n <= |s| &&
    forall p :: 0 <= p < n ==> s[p] == ProductAt(a, b, p)
  }

  /** Storing cell `(i, j)`'s sum extends the produced prefix by one offset. */
  lemma ProduceStep(s: seq<int>, a: Matrix, b: Matrix, i: nat, j: nat, sum: int)
    requires MatMulDefined(a, b) && i < a.dim.0 && j < b.dim.1
    requires ProducedPrefix(s, a, b, Index(i, j, b.dim.1))
    requires sum == Dot(a, b, i, j, b.dim.0)
    ensures Index(i, j, b.dim.1) < |s|
    ensures ProducedPrefix(s[Index(i, j, b.dim.1) := sum], a, b, Index(i, j + 1, b.dim.1))
  {
    IndexInBounds(i, j, a.dim.0, b.dim.1);
    IndexDivMod(i, j, b.dim.1);
  }

  /** Once the prefix covers the whole buffer, it is the product's buffer. */
  lemma ProducedAll(s: seq<int>, a: Matrix, b: Matrix)
    requires MatMulDefined(a, b) && ProducedPrefix(s, a, b, Index(a.dim.0, 0, b.dim.1))
    ensures s == Product(a, b).data
  {
  }

  /** `mat_mul`: the source's triple loop.  The outer two loops visit the
      output cells in row-major order, so the cells written so far are
      exactly a prefix of the buffer. */
  method MatMul(src1: Matrix, src2: Matrix) returns (m: Matrix)
    requires MatMulDefined(src1, src2)
    ensures m.dim == (src1.dim.0, src2.dim.1) && WellFormed(m)
    ensures forall i, j :: 0 <= i < src1.dim.0 && 0 <= j < src2.dim.1 ==>
              Get(m, i, j) == Dot(src1, src2, i, j, src2.dim.0)
    ensures m == Product(src1, src2)
  {
    var rows, cols := src1.dim.0, src2.dim.1;
    var out := new int[rows * cols](_ => 0);
    for i := 0 to rows
      invariant ProducedPrefix(out[..], src1, src2, Index(i, 0, cols))
    {
      for j := 0 to cols
        invariant ProducedPrefix(out[..], src1, src2, Index(i, j, cols))
      {
        var sum := CellSum(src1, src2, i, j);
        ProduceStep(out[..], src1, src2, i, j, sum);
        out[Index(i, j, cols)] := sum;
      }
      assert Index(i, cols, cols) == Index(i + 1, 0, cols);
    }
    ProducedAll(out[..], src1, src2);
    m := Matrix((rows, cols), out[..]);
    ProductCell(src1, src2);
  }

  /** When `src1.cols == src2.rows`, each cell of the product is the full
      dot product of row `i` of `a` with column `j` of `b`. */
  lemma ConformableProductCell(a: Matrix, b: Matrix, i: nat, j: nat)
    requires WellFormed(a) && WellFormed(b) && a.dim.1 == b.dim.0
    requires i < a.dim.0 && j < b.dim.1
    ensures Get(Product(a, b), i, j) == Dot(a, b, i, j, a.dim.1)
  {
    ProductCell(a, b);
  }

  // ---------------------------------------------------------------------------
  // Checked product
  // ---------------------------------------------------------------------------

  datatype MathError = ShapeMismatch

  datatype Result<T> = Ok(value: T) | Err(error: MathError)

  /** Matrix product that refuses operands whose inner dimensions differ,
      instead of computing a truncated inner sum as `mat_mul` does when
      `src2.rows < src1.cols`. */
  function CheckedProduct(a: Matrix, b: Matrix): (r: Result<Matrix>)
    requires WellFormed(a) && WellFormed(b)
    ensures r.Err? <==> a.dim.1 != b.dim.0
    ensures r.Ok? ==> MatMulDefined(a, b) && r.value == Product(a, b)
    ensures r.Ok? ==>
              r.value.dim == (a.dim.0, b.dim.1) && WellFormed(r.value) &&
              forall i, j :: 0 <= i < a.dim.0 && 0 <= j < b.dim.1 ==>
                Get(r.value, i, j) == Dot(a, b, i, j, a.dim.1)
  {
    if a.dim.1 != b.dim.0 then Err(ShapeMismatch)
    else
      ProductCell(a, b);
      Ok(Product(a, b))
  }

  // ---------------------------------------------------------------------------
  // Transpose
  // ---------------------------------------------------------------------------

  /** The value `transpose` stores at flat offset `p` of its result, whose
      row length is `src.rows`: cell `(p % rows, p / rows)` of the source. */
  function TransposedAt(m: Matrix, p: nat): int
    requires WellFormed(m) && p < m.dim.1 * m.dim.0
  {
    IndexSplit(p, m.dim.1, m.dim.0);
    Get(m, p % m.dim.0, p / m.dim.0)
  }

  /** What `transpose` returns, stated cell by cell. */
  function TransposeOf(m: Matrix): (r: Matrix)
    requires WellFormed(m)
    ensures r.dim == (m.dim.1, m.dim.0) && WellFormed(r) && |r.data| == |m.data|
  {
    var n := m.dim.1 * m.dim.0;
    Matrix((m.dim.1, m.dim.0), seq(n, p requires 0 <= p < n => TransposedAt(m, p)))
  }

  /** Cell `(j, i)` of the transpose is cell `(i, j)` of the source. */
  lemma TransposeCell(m: Matrix)
    requires WellFormed(m)
    ensures forall i, j :: 0 <= i < m.dim.0 && 0 <= j < m.dim.1 ==>
              Get(TransposeOf(m), j, i) == Get(m, i, j)
  {
    forall i, j | 0 <= i < m.dim.0 && 0 <= j < m.dim.1
      ensures Get(TransposeOf(m), j, i) == Get(m, i, j)
    {
      IndexInBounds(j, i, m.dim.1, m.dim.0);
      IndexDivMod(j, i, m.dim.0);
    }
  }

  /** The write offsets of `transpose`, `i + j * src.rows` over the source's
      cells `(i, j)`, hit every offset of the output buffer exactly once. */
  lemma TransposeIndexBijection(rows: nat, cols: nat)
    ensures forall i, j :: 0 <= i < rows && 0 <= j < cols ==> Index(j, i, rows) < rows * cols
    ensures forall i1, j1, i2, j2 ::
              (0 <= i1 < rows && 0 <= j1 < cols && 0 <= i2 < rows && 0 <= j2 < cols &&
               Index(j1, i1, rows) == Index(j2, i2, rows)) ==> i1 == i2 && j1 == j2
    ensures forall p :: 0 <= p < rows * cols ==>
              p % rows < rows && p / rows < cols && Index(p / rows, p % rows, rows) == p
  {
    forall i, j | 0 <= i < rows && 0 <= j < cols
      ensures Index(j, i, rows) < rows * cols
    {
      IndexInBounds(j, i, cols, rows);
      assert cols * rows == rows * cols;
    }
    forall i1, j1, i2, j2 |
      0 <= i1 < rows && 0 <= j1 < cols && 0 <= i2 < rows && 0 <= j2 < cols &&
      (i1 != i2 || j1 != j2)
      ensures Index(j1, i1, rows) != Index(j2, i2, rows)
    {
      IndexDistinct(j1, i1, j2, i2, rows);
    }
    forall p | 0 <= p < rows * cols
      ensures p % rows < rows && p / rows < cols && Index(p / rows, p % rows, rows) == p
    {
      IndexSplit(p, cols, rows);
    }
  }

  /** Transposing twice gives back the original matrix. */
  lemma TransposeInvolutive(m: Matrix)
    requires WellFormed(m)
    ensures TransposeOf(TransposeOf(m)) == m
  {
    var t := TransposeOf(m);
    var tt := TransposeOf(t);
    TransposeCell(m);
    TransposeCell(t);
    forall p | 0 <= p < |m.data|
      ensures tt.data[p] == m.data[p]
    {
      IndexSplit(p, m.dim.0, m.dim.1);
      var i, j := p / m.dim.1, p % m.dim.1;
      assert Get(tt, i, j) == Get(t, j, i) == Get(m, i, j);
    }
  }

  /** The cells `transpose` has copied once its loops have reached source
      row `i`, column `j`: every cell of an earlier row, and the first `j`
      cells of row `i`, sit at their transposed offset in `s`. */
  ghost predicate CopiedUpTo(s: seq<int>, src: Matrix, i: nat, j: nat)
    requires WellFormed(src)
  {
    forall i', j' :: 0 <= i' < src.dim.0 && 0 <= j' < src.dim.1 && (i' < i || (i' == i && j' < j)) ==>
      Index(j', i', src.dim.0) < |s| && s[Index(j', i', src.dim.0)] == Get(src, i', j')
  }

  /** Copying cell `(i, j)` extends the copied region by one cell and leaves
      the cells copied before it alone. */
  lemma CopyStep(s: seq<int>, src: Matrix, i: nat, j: nat)
    requires WellFormed(src) && |s| == src.dim.1 * src.dim.0
    requires i < src.dim.0 && j < src.dim.1 && CopiedUpTo(s, src, i, j)
    ensures Index(j, i, src.dim.0) < |s|
    ensures CopiedUpTo(s[Index(j, i, src.dim.0) := Get(src, i, j)], src, i, j + 1)
  {
    var rows := src.dim.0;
    IndexInBounds(j, i, src.dim.1, rows);
    var s' := s[Index(j, i, rows) := Get(src, i, j)];
    forall i', j' | 0 <= i' < rows && 0 <= j' < src.dim.1 && (i' < i || (i' == i && j' < j + 1))
      ensures Index(j', i', rows) < |s'| && s'[Index(j', i', rows)] == Get(src, i', j')
    {
      IndexInBounds(j', i', src.dim.1, rows);
      if i' != i || j' != j {
        IndexDistinct(j', i', j, i, rows);
      }
    }
  }

  /** Once every source cell is copied, the buffer is the transpose's. */
  lemma CopiedAll(s: seq<int>, src: Matrix)
    requires WellFormed(src) && |s| == src.dim.1 * src.dim.0
    requires CopiedUpTo(s, src, src.dim.0, 0)
    ensures s == TransposeOf(src).data
  {
    var rows := src.dim.0;
    var t := TransposeOf(src);
    forall p | 0 <= p < |s|
      ensures s[p] == t.data[p]
    {
      IndexSplit(p, src.dim.1, rows);
      var i, j := p % rows, p / rows;
      assert Index(j, i, rows) == p;
      assert s[Index(j, i, rows)] == Get(src, i, j);
      assert t.data[p] == TransposedAt(src, p) == Get(src, i, j);
    }
  }

  /** `transpose`: the source's double loop, writing source cell `(i, j)` at
      offset `i + j * src.rows` of the output. */
  method Transpose(src: Matrix) returns (m: Matrix)
    requires WellFormed(src)
    ensures m.dim == (src.dim.1, src.dim.0) && WellFormed(m) && |m.data| == |src.data|
    ensures forall i, j :: 0 <= i < src.dim.0 && 0 <= j < src.dim.1 ==> Get(m, j, i) == Get(src, i, j)
    ensures m == TransposeOf(src)
  {
    var rows, cols := src.dim.0, src.dim.1;
    var out := new int[cols * rows](_ => 0);
    for i := 0 to rows
      invariant CopiedUpTo(out[..], src, i, 0)
    {
      for j := 0 to cols
        invariant CopiedUpTo(out[..], src, i, j)
      {
        CopyStep(out[..], src, i, j);
        IndexInBounds(i, j, rows, cols);
        out[Index(j, i, rows)] := src.data[Index(i, j, cols)];
      }
    }
    CopiedAll(out[..], src);
    m := Matrix((cols, rows), out[..]);
    TransposeCell(src);
  }
}

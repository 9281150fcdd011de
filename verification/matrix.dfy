/** The dense, row-major `Matrix` value of `src/matrix.rs` and its arithmetic.

    A matrix is a `dim = (rows, cols)` pair and a flat `data` buffer.  Nothing
    in the type forces `|data| == rows * cols`; `WellFormed` names that
    invariant, and the contracts below say which operations keep it.
    Elements are mathematical integers: the source's `f32` rounding is not
    modelled.
 */
module Matrices {
  import opened RowMajor

  /** A `(rows, cols)` shape; `usize` is modelled as `nat`. */
  type Shape = (nat, nat)

  datatype Matrix = Matrix(dim: Shape, data: seq<int>)

  /** The buffer holds exactly one element per cell of the shape. */
  predicate WellFormed(m: Matrix) {
    |m.data| == m.dim.0 * m.dim.1
  }

  /** Cell `(r, c)` of a well-formed matrix. */
  function Get(m: Matrix, r: nat, c: nat): int
    requires WellFormed(m) && r < m.dim.0 && c < m.dim.1
  {
    IndexInBounds(r, c, m.dim.0, m.dim.1);
    m.data[Index(r, c, m.dim.1)]
  }

  function Min(x: nat, y: nat): nat {
    if x <= y then x else y
  }

  // ---------------------------------------------------------------------------
  // Construction
  // ---------------------------------------------------------------------------

  /** The number of elements in all rows together. */
  function TotalLength(rows: seq<seq<int>>): nat {
    if |rows| == 0 then 0 else |rows[0]| + TotalLength(rows[1..])
  }

  /** `iter().cloned().flatten()`: the rows laid end to end, in order; the
      result holds one element per element of the rows. */
  function Flatten(rows: seq<seq<int>>): (r: seq<int>)
    ensures |r| == TotalLength(rows)
  {
    if |rows| == 0 then [] else rows[0] + Flatten(rows[1..])
  }

  /** In the flattened rows, element `j` of row `i` sits right after all
      elements of the rows before `i`. */
  lemma {:induction false} FlattenAt(rows: seq<seq<int>>, i: nat, j: nat)
    requires i < |rows| && j < |rows[i]|
    ensures TotalLength(rows[..i]) + j < |Flatten(rows)|
    ensures Flatten(rows)[TotalLength(rows[..i]) + j] == rows[i][j]
  {
    var tail := rows[1..];
    if i > 0 {
      FlattenAt(tail, i - 1, j);
      assert rows[..i][1..] == tail[..i - 1];
    } else {
      assert rows[..i] == [];
    }
  }

  /** Every row has `width` elements. */
  predicate Uniform(rows: seq<seq<int>>, width: nat) {
    forall i :: 0 <= i < |rows| ==> |rows[i]| == width
  }

  /** Flattening rows of one common width lays row `i`, column `j` at the
      row-major offset of `(i, j)`. */
  lemma {:induction false} FlattenUniform(rows: seq<seq<int>>, width: nat)
    requires Uniform(rows, width)
    ensures |Flatten(rows)| == |rows| * width
    ensures forall i, j :: 0 <= i < |rows| && 0 <= j < width ==>
              Index(i, j, width) < |Flatten(rows)| &&
              Flatten(rows)[Index(i, j, width)] == rows[i][j]
  {
    if |rows| > 0 {
      var tail := rows[1..];
      assert Uniform(tail, width);
      FlattenUniform(tail, width);
      assert |rows| * width == width + |tail| * width;
      forall i, j | 0 <= i < |rows| && 0 <= j < width
        ensures Index(i, j, width) < |Flatten(rows)|
        ensures Flatten(rows)[Index(i, j, width)] == rows[i][j]
      {
        if i > 0 {
          assert Index(i, j, width) == width + Index(i - 1, j, width);
          assert tail[i - 1] == rows[i];
        }
      }
    }
  }

  /** The same, for any rows: the row-major layout holds whenever the rows
      happen to share one width. */
  lemma FlattenRowMajor(rows: seq<seq<int>>, width: nat)
    ensures Uniform(rows, width) ==>
              |Flatten(rows)| == |rows| * width &&
              forall i, j :: 0 <= i < |rows| && 0 <= j < width ==>
                Index(i, j, width) < |Flatten(rows)| &&
                Flatten(rows)[Index(i, j, width)] == rows[i][j]
  {
    if Uniform(rows, width) {
      FlattenUniform(rows, width);
    }
  }

  /** `Matrix::new`: the shape is the number of rows by the length of the
      first row, and the buffer is the rows laid end to end, whatever their
      lengths.  The source indexes the first row, so an empty input is
      refused.  When every row is as long as the first, the result is
      well-formed and holds `rows[i][j]` at cell `(i, j)`. */
  function New(rows: seq<seq<int>>): (m: Matrix)
    requires |rows| > 0
    ensures m.dim == (|rows|, |rows[0]|)
    ensures m.data == Flatten(rows) && |m.data| == TotalLength(rows)
    ensures Uniform(rows, |rows[0]|) ==>
              WellFormed(m) &&
              forall i, j :: 0 <= i < |rows| && 0 <= j < |rows[0]| ==> Get(m, i, j) == rows[i][j]
  {
    FlattenRowMajor(rows, |rows[0]|);
    Matrix((|rows|, |rows[0]|), Flatten(rows))
  }

  /** `Matrix::new` checks nothing about the other rows: its result is
      well-formed exactly when the rows hold `|rows| * |rows[0]|` elements in
      all, whether or not they agree in length. */
  lemma NewWellFormedIff(rows: seq<seq<int>>)
    requires |rows| > 0
    ensures WellFormed(New(rows)) <==> TotalLength(rows) == |rows| * |rows[0]|
  {
  }

  /** The rows of a well-formed matrix, top to bottom. */
  function Rows(m: Matrix): (rows: seq<seq<int>>)
    requires WellFormed(m)
    ensures |rows| == m.dim.0 && Uniform(rows, m.dim.1)
    ensures forall i, j :: 0 <= i < m.dim.0 && 0 <= j < m.dim.1 ==> rows[i][j] == Get(m, i, j)
  {
    seq(m.dim.0, i requires 0 <= i < m.dim.0 => RowAt(m, i))
  }

  /** Row `i` of a well-formed matrix, a slice of its buffer. */
  function RowAt(m: Matrix, i: nat): (row: seq<int>)
    requires WellFormed(m) && i < m.dim.0
    ensures |row| == m.dim.1
    ensures forall j :: 0 <= j < m.dim.1 ==> row[j] == Get(m, i, j)
  {
    MulMonotone(i + 1, m.dim.0, m.dim.1);
    assert (i + 1) * m.dim.1 == i * m.dim.1 + m.dim.1;
    m.data[i * m.dim.1 .. (i + 1) * m.dim.1]
  }

  /** `New` and `Rows` are inverse: splitting a well-formed matrix with at
      least one row into its rows and rebuilding it gives the same matrix. */
  lemma NewOfRows(m: Matrix)
    requires WellFormed(m) && m.dim.0 > 0
    ensures New(Rows(m)) == m
  {
    var rows := Rows(m);
    var n := New(rows);
    assert n.dim == m.dim;
    forall p | 0 <= p < |m.data|
      ensures n.data[p] == m.data[p]
    {
      IndexSplit(p, m.dim.0, m.dim.1);
      assert Get(n, p / m.dim.1, p % m.dim.1) == Get(m, p / m.dim.1, p % m.dim.1);
    }
  }

  /** ... and rebuilding a sequence of equal-length rows and splitting it again
      gives the same rows. */
  lemma RowsOfNew(rows: seq<seq<int>>)
    requires |rows| > 0 && Uniform(rows, |rows[0]|)
    ensures Rows(New(rows)) == rows
  {
    var back := Rows(New(rows));
    forall i | 0 <= i < |rows|
      ensures back[i] == rows[i]
    {
    }
  }

  /** Some ragged inputs give a matrix whose buffer does not fit its shape
      (`[[1, 2], [3]]`), others a well-formed one (`[[1, 2], [3], [4, 5, 6]]`):
      the row lengths are never compared. */
  lemma NewRaggedExamples()
    ensures !Uniform([[1, 2], [3]], 2) && !WellFormed(New([[1, 2], [3]]))
    ensures !Uniform([[1, 2], [3], [4, 5, 6]], 2) && WellFormed(New([[1, 2], [3], [4, 5, 6]]))
  {
    assert |[[1, 2], [3]][1]| == 1;
    assert |[[1, 2], [3], [4, 5, 6]][1]| == 1;
    assert Flatten([[1, 2], [3]]) == [1, 2, 3];
    assert Flatten([[1, 2], [3], [4, 5, 6]]) == [1, 2, 3, 4, 5, 6];
  }

  /** `Matrix::with_zeros`: the requested shape with a zero in every cell. */
  function WithZeros(shape: Shape): (m: Matrix)
    ensures m.dim == shape && WellFormed(m)
    ensures forall p :: 0 <= p < |m.data| ==> m.data[p] == 0
  {
    Matrix(shape, seq(shape.0 * shape.1, _ => 0))
  }

  // ---------------------------------------------------------------------------
  // Element-wise and scalar arithmetic
  // ---------------------------------------------------------------------------

  /** The three arithmetic operators the source overloads. */
  datatype BinOp = Times | Plus | Minus

  function Apply(op: BinOp, x: int, y: int): int {
    match op
    case Times => x * y
    case Plus => x + y
    case Minus => x - y
  }

  /** `xs.iter().zip(ys).map(op)`: pairs elements from the front and stops at
      the end of the shorter sequence. */
  function ZipWith(op: BinOp, xs: seq<int>, ys: seq<int>): (r: seq<int>)
    ensures |r| == Min(|xs|, |ys|)
    ensures forall i :: 0 <= i < |r| ==> r[i] == Apply(op, xs[i], ys[i])
  {
    if |xs| == 0 || |ys| == 0 then []
    else [Apply(op, xs[0], ys[0])] + ZipWith(op, xs[1..], ys[1..])
  }

  /** `xs.iter().map(|a| op(a, k))`. */
  function MapScalar(op: BinOp, xs: seq<int>, k: int): (r: seq<int>)
    ensures |r| == |xs|
    ensures forall i :: 0 <= i < |r| ==> r[i] == Apply(op, xs[i], k)
  {
    if |xs| == 0 then []
    else [Apply(op, xs[0], k)] + MapScalar(op, xs[1..], k)
  }

  /** Matrix-by-matrix operator: the left operand's shape is kept whatever the
      right operand's shape is, and the buffer is the zipped combination. */
  function Elementwise(op: BinOp, a: Matrix, b: Matrix): (r: Matrix)
    ensures r.dim == a.dim
    ensures |r.data| == Min(|a.data|, |b.data|)
    ensures forall i :: 0 <= i < |r.data| ==> r.data[i] == Apply(op, a.data[i], b.data[i])
  {
    Matrix(a.dim, ZipWith(op, a.data, b.data))
  }

  /** Matrix-by-scalar operator: shape and length kept, `op` applied with `k`
      to every element. */
  function Scalar(op: BinOp, a: Matrix, k: int): (r: Matrix)
    ensures r.dim == a.dim && |r.data| == |a.data|
    ensures forall i :: 0 <= i < |r.data| ==> r.data[i] == Apply(op, a.data[i], k)
  {
    Matrix(a.dim, MapScalar(op, a.data, k))
  }

  /** `impl Mul for Matrix`: element-wise product. */
  function MulMat(a: Matrix, b: Matrix): (r: Matrix)
    ensures r.dim == a.dim && |r.data| == Min(|a.data|, |b.data|)
    ensures forall i :: 0 <= i < |r.data| ==> r.data[i] == a.data[i] * b.data[i]
  {
    Elementwise(Times, a, b)
  }

  /** `impl Mul<f32> for Matrix`: every element scaled by `k`. */
  function MulScalar(a: Matrix, k: int): (r: Matrix)
    ensures r.dim == a.dim && |r.data| == |a.data|
    ensures forall i :: 0 <= i < |r.data| ==> r.data[i] == a.data[i] * k
  {
    Scalar(Times, a, k)
  }

  /** `impl Add for Matrix`: element-wise sum. */
  function AddMat(a: Matrix, b: Matrix): (r: Matrix)
    ensures r.dim == a.dim && |r.data| == Min(|a.data|, |b.data|)
    ensures forall i :: 0 <= i < |r.data| ==> r.data[i] == a.data[i] + b.data[i]
  {
    Elementwise(Plus, a, b)
  }

  /** `impl Add<f32> for Matrix`: `k` added to every element. */
  function AddScalar(a: Matrix, k: int): (r: Matrix)
    ensures r.dim == a.dim && |r.data| == |a.data|
    ensures forall i :: 0 <= i < |r.data| ==> r.data[i] == a.data[i] + k
  {
    Scalar(Plus, a, k)
  }

  /** `impl Sub for Matrix`: element-wise difference. */
  function SubMat(a: Matrix, b: Matrix): (r: Matrix)
    ensures r.dim == a.dim && |r.data| == Min(|a.data|, |b.data|)
    ensures forall i :: 0 <= i < |r.data| ==> r.data[i] == a.data[i] - b.data[i]
  {
    Elementwise(Minus, a, b)
  }

  /** `impl Sub<f32> for Matrix`: `k` subtracted from every element. */
  function SubScalar(a: Matrix, k: int): (r: Matrix)
    ensures r.dim == a.dim && |r.data| == |a.data|
    ensures forall i :: 0 <= i < |r.data| ==> r.data[i] == a.data[i] - k
  {
    Scalar(Minus, a, k)
  }

  /** With operands of equal buffer length every matrix-by-matrix operator
      keeps the buffer length, so a well-formed left operand gives a
      well-formed result; a shorter right operand never does. */
  lemma ElementwiseWellFormed(op: BinOp, a: Matrix, b: Matrix)
    requires WellFormed(a)
    ensures WellFormed(Elementwise(op, a, b)) <==> |a.data| <= |b.data|
  {
  }

  /** Scalar operators keep a well-formed matrix well-formed. */
  lemma ScalarWellFormed(op: BinOp, a: Matrix, k: int)
    ensures WellFormed(Scalar(op, a, k)) <==> WellFormed(a)
  {
  }

  /** Subtracting what was added gives the left operand back exactly when the
      right operand's buffer is at least as long, since the zip otherwise
      drops the left operand's trailing elements. */
  lemma SubAddInverse(a: Matrix, b: Matrix)
    ensures SubMat(AddMat(a, b), b) == a <==> |a.data| <= |b.data|
  {
    var r := SubMat(AddMat(a, b), b);
    if |a.data| <= |b.data| {
      assert r.data == a.data;
    }
  }

  /** Adding and then subtracting the same scalar is the identity. */
  lemma SubAddScalarInverse(a: Matrix, k: int)
    ensures SubScalar(AddScalar(a, k), k) == a
  {
    assert SubScalar(AddScalar(a, k), k).data == a.data;
  }

  /** The scalar operators agree with the matrix-by-matrix operators applied
      to a same-shape matrix filled with the scalar (a zero matrix plus `k`). */
  lemma ScalarIsElementwiseWithFilled(op: BinOp, a: Matrix, k: int)
    requires WellFormed(a)
    ensures Scalar(op, a, k) == Elementwise(op, a, AddScalar(WithZeros(a.dim), k))
  {
    var filled := AddScalar(WithZeros(a.dim), k);
    assert Scalar(op, a, k).data == Elementwise(op, a, filled).data;
  }

  /** A zero matrix of the same shape is neutral for `+`. */
  lemma AddZerosIdentity(a: Matrix)
    requires WellFormed(a)
    ensures AddMat(a, WithZeros(a.dim)) == a
  {
    assert AddMat(a, WithZeros(a.dim)).data == a.data;
  }

  /** Scaling by zero yields the zero matrix of the same shape. */
  lemma MulScalarZero(a: Matrix)
    requires WellFormed(a)
    ensures MulScalar(a, 0) == WithZeros(a.dim)
  {
    assert MulScalar(a, 0).data == WithZeros(a.dim).data;
  }

  /** Element-wise `+` always yields the same buffer in either order, but the
      results are equal matrices only when the operands have the same shape,
      because each result takes its left operand's shape. */
  lemma AddCommutesOnlyForEqualShapes(a: Matrix, b: Matrix)
    ensures AddMat(a, b).data == AddMat(b, a).data
    ensures AddMat(a, b) == AddMat(b, a) <==> a.dim == b.dim
  {
    assert AddMat(a, b).data == AddMat(b, a).data;
  }

  // ---------------------------------------------------------------------------
  // Equality
  // ---------------------------------------------------------------------------

  /** `impl PartialEq for Matrix`: comparing buffers and shapes is exactly
      equality of matrix values. */
  function Eq(a: Matrix, b: Matrix): (r: bool)
    ensures r <==> a == b
  {
    a.data == b.data && a.dim == b.dim
  }
}

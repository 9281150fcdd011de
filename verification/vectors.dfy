/** The concrete vectors of the repository's unit tests, stated as lemmas.
    Each test compares with `==` (`Matrices.Eq`), which is value equality. */
module TestVectors {
  import opened Matrices
  import opened MatrixMath
  import opened RowMajor

  const Left := Matrix((2, 2), [1, 2, 3, 4])
  const Right := Matrix((2, 2), [4, 3, 2, 1])

  /** `tests::new`: rows `[1, 2]` and `[3, 4]` build a 2 by 2 matrix. */
  lemma NewVector()
    ensures Eq(New([[1, 2], [3, 4]]), Left)
  {
    assert Flatten([[1, 2], [3, 4]]) == [1, 2, 3, 4];
  }

  /** `tests::with_zeros`: a 4 by 3 matrix of twelve zeros. */
  lemma WithZerosVector()
    ensures Eq(WithZeros((4, 3)), Matrix((4, 3), [0, 0, 0, 0, 0, 0, 0, 0, 0, 0, 0, 0]))
  {
  }

  /** `tests::mul`, `tests::add` and `tests::sub`: element-wise operators. */
  lemma ElementwiseVectors()
    ensures Eq(MulMat(Left, Right), Matrix((2, 2), [4, 6, 6, 4]))
    ensures Eq(AddMat(Left, Right), Matrix((2, 2), [5, 5, 5, 5]))
    ensures Eq(SubMat(Left, Right), Matrix((2, 2), [-3, -1, 1, 3]))
  {
  }

  /** `tests::single_mul`, `tests::single_add` and `tests::single_sub`:
      scalar operators with 2. */
  lemma ScalarVectors()
    ensures Eq(MulScalar(Left, 2), Matrix((2, 2), [2, 4, 6, 8]))
    ensures Eq(AddScalar(Left, 2), Matrix((2, 2), [3, 4, 5, 6]))
    ensures Eq(SubScalar(Left, 2), Matrix((2, 2), [-1, 0, 1, 2]))
  {
  }

  const MulLeft := Matrix((2, 3), [1, 2, 3, 4, 5, 6])
  const MulRight := Matrix((3, 2), [1, 2, 3, 4, 5, 6])
  const MulOut := Matrix((2, 2), [22, 28, 49, 64])

  /** The operands and expected result of `test_mat_mul`, built with `new`. */
  lemma MatMulOperands()
    ensures New([[1, 2, 3], [4, 5, 6]]) == MulLeft
    ensures New([[1, 2], [3, 4], [5, 6]]) == MulRight
    ensures New([[22, 28], [49, 64]]) == MulOut
  {
    assert Flatten([[1, 2, 3], [4, 5, 6]]) == [1, 2, 3, 4, 5, 6];
    assert Flatten([[1, 2], [3, 4], [5, 6]]) == [1, 2, 3, 4, 5, 6];
    assert Flatten([[22, 28], [49, 64]]) == [22, 28, 49, 64];
  }

  /** A three-step inner sum written out. */
  lemma DotOfThree(a: Matrix, b: Matrix, i: nat, j: nat)
    requires WellFormed(a) && WellFormed(b)
    requires i < a.dim.0 && j < b.dim.1 && 3 <= a.dim.1 && 3 <= b.dim.0
    ensures Dot(a, b, i, j, 3) ==
            Get(a, i, 0) * Get(b, 0, j) + Get(a, i, 1) * Get(b, 1, j) + Get(a, i, 2) * Get(b, 2, j)
  {
    assert Dot(a, b, i, j, 1) == Get(a, i, 0) * Get(b, 0, j);
    assert Dot(a, b, i, j, 2) == Dot(a, b, i, j, 1) + Get(a, i, 1) * Get(b, 1, j);
  }

  /** Each inner sum of `test_mat_mul` is the expected output cell. */
  lemma MatMulCell(i: nat, j: nat)
    requires i < 2 && j < 2
    ensures MatMulDefined(MulLeft, MulRight) &&
            Dot(MulLeft, MulRight, i, j, 3) == MulOut.data[Index(i, j, 2)]
  {
    DotOfThree(MulLeft, MulRight, i, j);
    // One branch per output cell: with `i` and `j` fixed, the three products
    // of the inner sum are products of known entries.  The branches need no
    // further hint (22, 28, 49 and 64 follow from the entries).
    if i == 0 && j == 0 {
    } else if i == 0 {
    } else if j == 0 {
    } else {
    }
  }

  /** `test_mat_mul`: a 2 by 3 matrix times a 3 by 2 matrix. */
  lemma MatMulVector()
    ensures MatMulDefined(MulLeft, MulRight) && Eq(Product(MulLeft, MulRight), MulOut)
    ensures WellFormed(MulLeft) && WellFormed(MulRight) && CheckedProduct(MulLeft, MulRight) == Ok(MulOut)
  {
    var c := Product(MulLeft, MulRight);
    forall p | 0 <= p < 4
      ensures c.data[p] == MulOut.data[p]
    {
      MatMulCell(p / 2, p % 2);
    }
    assert c.data == MulOut.data;
  }

  /** `mat_mul` on a 2 by 3 matrix and a 2 by 2 matrix does not fail: its
      inner loop stops at the right operand's two rows, so the first output
      cell is `1 * 1 + 2 * 3` and the left operand's third column is never
      read.  The checked product refuses the same operands. */
  lemma MatMulTruncatesInnerSum()
    ensures MatMulDefined(MulLeft, Left) && MulLeft.dim.1 != Left.dim.0
    ensures MatMulDefined(MulLeft, Left) && Product(MulLeft, Left).data[0] == 7
    ensures WellFormed(MulLeft) && WellFormed(Left) && CheckedProduct(MulLeft, Left) == Err(ShapeMismatch)
  {
    assert Dot(MulLeft, Left, 0, 0, 1) == 1;
    assert Dot(MulLeft, Left, 0, 0, 2) == 7;
    assert Product(MulLeft, Left).data[0] == ProductAt(MulLeft, Left, 0);
  }

  const Wide := Matrix((2, 5), [1, 2, 3, 4, 5, 6, 7, 8, 9, 10])
  const Tall := Matrix((5, 2), [1, 6, 2, 7, 3, 8, 4, 9, 5, 10])

  /** The operand and expected result of `test_transpose`, built with `new`. */
  lemma TransposeOperands()
    ensures New([[1, 2, 3, 4, 5], [6, 7, 8, 9, 10]]) == Wide
    ensures New([[1, 6], [2, 7], [3, 8], [4, 9], [5, 10]]) == Tall
  {
    assert Flatten([[1, 2, 3, 4, 5], [6, 7, 8, 9, 10]]) == [1, 2, 3, 4, 5, 6, 7, 8, 9, 10];
    assert Flatten([[1, 6], [2, 7], [3, 8], [4, 9], [5, 10]]) == [1, 6, 2, 7, 3, 8, 4, 9, 5, 10];
  }

  /** Each offset of the transposed `test_transpose` operand holds the
      expected element. */
  lemma TransposeVectorAt(p: nat)
    requires p < 10
    ensures WellFormed(Wide) && TransposedAt(Wide, p) == Tall.data[p]
  {
    // Offset `p` of the 5 by 2 result is cell `(p % 2, p / 2)` of `Wide`.
    if p < 5 {
      if p == 0 {
        assert TransposedAt(Wide, 0) == Get(Wide, 0, 0) == 1;
      } else if p == 1 {
        assert TransposedAt(Wide, 1) == Get(Wide, 1, 0) == 6;
      } else if p == 2 {
        assert TransposedAt(Wide, 2) == Get(Wide, 0, 1) == 2;
      } else if p == 3 {
        assert TransposedAt(Wide, 3) == Get(Wide, 1, 1) == 7;
      } else {
        assert TransposedAt(Wide, 4) == Get(Wide, 0, 2) == 3;
      }
    } else {
      if p == 5 {
        assert TransposedAt(Wide, 5) == Get(Wide, 1, 2) == 8;
      } else if p == 6 {
        assert TransposedAt(Wide, 6) == Get(Wide, 0, 3) == 4;
      } else if p == 7 {
        assert TransposedAt(Wide, 7) == Get(Wide, 1, 3) == 9;
      } else if p == 8 {
        assert TransposedAt(Wide, 8) == Get(Wide, 0, 4) == 5;
      } else {
        assert TransposedAt(Wide, 9) == Get(Wide, 1, 4) == 10;
      }
    }
  }

  /** `test_transpose`: a 2 by 5 matrix transposed to 5 by 2. */
  lemma TransposeVector()
    ensures WellFormed(Wide) && Eq(TransposeOf(Wide), Tall)
  {
    var t := TransposeOf(Wide);
    forall p | 0 <= p < 10
      ensures t.data[p] == Tall.data[p]
    {
      TransposeVectorAt(p);
    }
    assert t.data == Tall.data;
  }
}

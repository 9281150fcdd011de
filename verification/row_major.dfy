/** Row-major index arithmetic shared by the matrix operations.

    A matrix with `cols` columns stores its logical cell `(r, c)` at the flat
    offset `c + r * cols`; both `mat_mul` and `transpose` compute these offsets
    by hand.  The lemmas below show that, on a `rows` by `cols` grid, the map
    `(r, c) ↦ c + r * cols` lands inside the buffer, never sends two cells to
    the same offset, and reaches every offset of the buffer: it is a bijection
    between the grid and `0 .. rows * cols`.
 */
module RowMajor {

  /** Flat offset of cell `(r, c)` in a row-major buffer with `cols` columns. */
  function Index(r: nat, c: nat, cols: nat): nat {
    c + r * cols
  }

  /** Multiplying by a fixed factor is monotone. */
  lemma {:induction false} MulMonotone(a: nat, b: nat, k: nat)
    requires a <= b
    ensures a * k <= b * k
  {
    if a < b {
      MulMonotone(a, b - 1, k);
      assert b * k == (b - 1) * k + k;
    }
  }

  /** Every cell of a `rows` by `cols` grid has its offset inside a buffer of
      `rows * cols` elements. */
  lemma IndexInBounds(r: nat, c: nat, rows: nat, cols: nat)
    requires r < rows && c < cols
    ensures Index(r, c, cols) < rows * cols
  {
    MulMonotone(r + 1, rows, cols);
    assert (r + 1) * cols == r * cols + cols;
  }

  /** Distinct cells of a grid with `cols` columns have distinct offsets. */
  lemma IndexDistinct(r1: nat, c1: nat, r2: nat, c2: nat, cols: nat)
    requires c1 < cols && c2 < cols
    requires r1 != r2 || c1 != c2
    ensures Index(r1, c1, cols) != Index(r2, c2, cols)
  {
    if r1 < r2 {
      MulMonotone(r1 + 1, r2, cols);
      assert (r1 + 1) * cols == r1 * cols + cols;
    } else if r2 < r1 {
      MulMonotone(r2 + 1, r1, cols);
      assert (r2 + 1) * cols == r2 * cols + cols;
    }
  }

  /** Every offset of a `rows * cols` buffer is the offset of exactly the cell
      `(p / cols, p % cols)`, which lies on the grid. */
  lemma IndexSplit(p: nat, rows: nat, cols: nat)
    requires p < rows * cols
    ensures cols > 0
    ensures p / cols < rows && p % cols < cols
    ensures Index(p / cols, p % cols, cols) == p
  {
    if cols > 0 && p / cols >= rows {
      MulMonotone(rows, p / cols, cols);
    }
  }

  /** Decoding the offset of cell `(r, c)` gives back `r` and `c`. */
  lemma IndexDivMod(r: nat, c: nat, cols: nat)
    requires c < cols
    ensures Index(r, c, cols) / cols == r
    ensures Index(r, c, cols) % cols == c
  {
    var p := Index(r, c, cols);
    IndexSplit(p, r + 1, cols);
    if p / cols != r || p % cols != c {
      IndexDistinct(p / cols, p % cols, r, c, cols);
    }
  }
}

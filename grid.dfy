/** The frame grid's addressing: rows of `cols` cells laid out one after another, cell
    (row, col) at flat index row * cols + col. */
module Grid {

  /** The row and the column of flat index k (a grid without columns has no cells). */
  function RowOf(k: nat, cols: nat): nat { if cols == 0 then 0 else k / cols }
  function ColOf(k: nat, cols: nat): nat { if cols == 0 then 0 else k % cols }

  /** The flat index of (row, col) gives back the row and the column. */
  lemma FlatIndex(row: nat, col: nat, cols: nat)
    requires col < cols
    ensures RowOf(row * cols + col, cols) == row
    ensures ColOf(row * cols + col, cols) == col
  {
    var k := row * cols + col;
    var q := k / cols;
    var m := k % cols;
    assert k == q * cols + m;
    if q < row {
      MulMonotone(q + 1, row, cols);
      assert false;
    } else if q > row {
      MulMonotone(row + 1, q, cols);
      assert false;
    }
  }

  lemma MulMonotone(a: nat, b: nat, c: nat)
    requires a <= b
    ensures a * c <= b * c
  {
  }

  /** Every index of a rows-by-cols grid lies in one of its rows, at the place the flat layout
      gives it. */
  lemma RowBound(k: nat, rows: nat, cols: nat)
    requires k < rows * cols
    ensures cols > 0 && RowOf(k, cols) < rows && ColOf(k, cols) < cols
    ensures k == RowOf(k, cols) * cols + ColOf(k, cols)
  {
    if cols == 0 {
      assert false;
    }
    if k / cols >= rows {
      MulMonotone(rows, k / cols, cols);
      assert false;
    }
  }

  /** A cell (row, col) inside the grid has its flat index inside the grid. */
  lemma IndexBound(row: nat, col: nat, rows: nat, cols: nat)
    requires row < rows && col < cols
    ensures row * cols + col < rows * cols
  {
    MulMonotone(row + 1, rows, cols);
  }
}

/** Two nested counting loops `for (i = 0; i < rows; i++) for (j = 0; j < cols; j++)`
    visit the cells of [0, rows) x [0, cols) in row-major order. `Cells` is that
    order in closed form; the lemmas connect a visit's position with its cell. */
module Grid {

  /** Cell (i, j) sits at position i * cols + j. */
  function Cells(rows: nat, cols: nat): (cs: seq<(int, int)>)
    ensures |cs| == rows * cols
    ensures forall k :: 0 <= k < |cs| ==> 0 <= cs[k].0 < rows && 0 <= cs[k].1 < cols
  {
    if cols == 0 then []
    else
      var cs := seq(rows * cols, k requires 0 <= k < rows * cols => (k / cols, k % cols));
      assert forall k :: 0 <= k < |cs| ==> 0 <= cs[k].0 < rows by {
        forall k | 0 <= k < |cs| ensures 0 <= cs[k].0 < rows {
          DivBelow(k, cols, rows);
        }
      }
      cs
  }

  /** Strict lexicographic order on cells: the outer index decides first. */
  predicate LexBefore(a: (int, int), b: (int, int)) {
    a.0 < b.0 || (a.0 == b.0 && a.1 < b.1)
  }

  lemma MulMono(a: int, b: int, c: nat)
    requires a <= b
    ensures a * c <= b * c
  {
    assert b * c - a * c == (b - a) * c;
  }

  /** q * d + r with 0 <= r < d is the unique quotient/remainder decomposition. */
  lemma DivModUnique(k: int, d: int, q: int, r: int)
    requires d > 0 && 0 <= r < d && k == q * d + r
    ensures k / d == q && k % d == r
  {
    var q', r' := k / d, k % d;
    assert k == q' * d + r';
    if q' < q {
      MulMono(q' + 1, q, d);
      assert false;
    } else if q' > q {
      MulMono(q + 1, q', d);
      assert false;
    }
  }

  /** A non-negative k below rows * d has quotient below rows. */
  lemma DivBelow(k: int, d: int, rows: int)
    requires d > 0 && 0 <= k < rows * d
    ensures 0 <= k / d < rows
  {
    var q := k / d;
    assert k == q * d + k % d;
    if q >= rows {
      MulMono(rows, q, d);
    }
    if q < 0 {
      MulMono(q, -1, d);
    }
  }

  /** Position of cell (i, j) in the row-major order, and the cell found there. */
  lemma CellAt(rows: nat, cols: nat, i: int, j: int)
    requires 0 <= i < rows && 0 <= j < cols
    ensures 0 <= i * cols + j < rows * cols
    ensures Cells(rows, cols)[i * cols + j] == (i, j)
  {
    MulMono(i + 1, rows, cols);
    DivModUnique(i * cols + j, cols, i, j);
  }

  /** Later positions hold lexicographically later cells, so every cell occurs at
      most once and the outer index is the slow one. */
  lemma CellsOrdered(rows: nat, cols: nat, k: int, l: int)
    requires 0 <= k < l < rows * cols
    ensures LexBefore(Cells(rows, cols)[k], Cells(rows, cols)[l])
  {
    assert cols > 0;
    var qk, ql := k / cols, l / cols;
    DivModUnique(k, cols, qk, k % cols);
    DivModUnique(l, cols, ql, l % cols);
    if qk > ql {
      MulMono(ql + 1, qk, cols);
      assert false;
    }
    assert Cells(rows, cols)[k] == (qk, k % cols) && Cells(rows, cols)[l] == (ql, l % cols);
  }

  /** Row i starts at position i * cols, within the enumeration, and the next
      row starts cols positions later. */
  lemma RowStart(rows: nat, cols: nat, i: int)
    requires 0 <= i <= rows
    ensures 0 <= i * cols <= rows * cols
    ensures (i + 1) * cols == i * cols + cols
  {
    MulMono(i, rows, cols);
  }

  /** One more iteration of the inner loop extends the visited prefix by (i, j). */
  lemma CellsExtend(rows: nat, cols: nat, i: int, j: int)
    requires 0 <= i < rows && 0 <= j < cols
    ensures i * cols + j + 1 <= rows * cols
    ensures Cells(rows, cols)[..i * cols + j] + [(i, j)] == Cells(rows, cols)[..i * cols + j + 1]
  {
    CellAt(rows, cols, i, j);
  }
}

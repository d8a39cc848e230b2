// Row-major cell indices: the cell at 0-based (row r, column c) of a grid
// with `cols` columns is stored at index r * cols + c of the arena arrays.
module Arith {

  function Idx(cols: nat, r: nat, c: nat): nat
  {
    r * cols + c
  }

  lemma {:induction false} MulMono(a: nat, b: nat, k: nat)
    requires a <= b
    ensures a * k <= b * k
  {
    if a < b {
      MulMono(a, b - 1, k);
      assert b * k == (b - 1) * k + k;
    }
  }

  /** Indices of cells inside the grid stay below rows * cols. */
  lemma IdxBound(rows: nat, cols: nat, r: nat, c: nat)
    requires r < rows && c < cols
    ensures Idx(cols, r, c) < rows * cols
  {
    MulMono(r + 1, rows, cols);
    assert (r + 1) * cols == r * cols + cols;
  }

  /** Different cells have different indices. */
  lemma IdxInjective(cols: nat, r1: nat, c1: nat, r2: nat, c2: nat)
    requires c1 < cols && c2 < cols
    requires Idx(cols, r1, c1) == Idx(cols, r2, c2)
    ensures r1 == r2 && c1 == c2
  {
    MulGap(r1, r2, cols);
    MulGap(r2, r1, cols);
  }

  /** A lower row starts at least a whole row of cols further on. */
  lemma MulGap(a: nat, b: nat, cols: nat)
    ensures a < b ==> a * cols + cols <= b * cols
  {
    if a < b {
      MulMono(a + 1, b, cols);
      assert (a + 1) * cols == a * cols + cols;
    }
  }

  /** Every index inside the grid is the index of exactly the cell (i / cols, i % cols). */
  lemma IdxSplit(rows: nat, cols: nat, i: nat)
    requires i < rows * cols
    ensures cols > 0 && i / cols < rows && i % cols < cols
    ensures i == Idx(cols, i / cols, i % cols)
  {
    MulGap(i / cols, rows, cols);
    MulGap(rows - 1, i / cols, cols);
  }

  /** Reading the coordinates back from an index. */
  lemma IdxParts(cols: nat, r: nat, c: nat)
    requires c < cols
    ensures Idx(cols, r, c) / cols == r && Idx(cols, r, c) % cols == c
  {
    var i := Idx(cols, r, c);
    IdxBound(r + 1, cols, r, c);
    IdxSplit(r + 1, cols, i);
    IdxInjective(cols, r, c, i / cols, i % cols);
  }

  /** Row-major order: the cell after the end of row r is the start of row r + 1. */
  lemma IdxNextRow(cols: nat, r: nat)
    ensures Idx(cols, 0, 0) == 0
    ensures Idx(cols, r + 1, 0) == Idx(cols, r, cols)
  {
    assert (r + 1) * cols == r * cols + cols;
  }
}

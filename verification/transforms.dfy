/**
 * The grid transforms of main.py (`Sudoku_old.flatten_2d`, `unflatten_puzzle`,
 * `reflect_major` and `transform_puzzle`) on a 9 x 9 grid given as 9 rows of
 * 9 values. Most branches of `transform_puzzle` flatten the grid, read the
 * flat list in some order of indices and cut the result into rows again; the
 * model keeps those index formulas as written and proves, for each, which
 * geometric transform it is, against a reference definition by coordinates.
 */
module Transforms {
  import opened Outcome

  /** 9 rows of 9 values, the only shape `transform_puzzle` is written for. */
  predicate IsGrid<T>(g: seq<seq<T>>)
  {
    |g| == 9 && forall i :: 0 <= i < 9 ==> |g[i]| == 9
  }

  /** Two grids with the same value at every position are the same grid. */
  lemma SameGrid<T>(a: seq<seq<T>>, b: seq<seq<T>>)
    requires IsGrid(a) && IsGrid(b)
    requires forall i, j :: 0 <= i < 9 && 0 <= j < 9 ==> a[i][j] == b[i][j]
    ensures a == b
  {
    forall i | 0 <= i < 9 ensures a[i] == b[i] {
      assert forall j :: 0 <= j < 9 ==> a[i][j] == b[i][j];
    }
  }

  /** Row-major position 9i + j splits back into row i and column j. */
  lemma Position(i: int, j: int)
    requires 0 <= i && 0 <= j < 9
    ensures (9 * i + j) / 9 == i && (9 * i + j) % 9 == j
  {
  }

  // ---------------------------------------------------------------------------
  // Flattening and unflattening
  // ---------------------------------------------------------------------------

  /** `flatten_2d`: the rows one after another. */
  function Flatten<T>(g: seq<seq<T>>): seq<T>
  {
    if g == [] then [] else g[0] + Flatten(g[1..])
  }

  /** Rows of nine flatten to nine values per row, row-major. */
  lemma {:induction false} FlattenNines<T>(g: seq<seq<T>>)
    requires forall i :: 0 <= i < |g| ==> |g[i]| == 9
    ensures |Flatten(g)| == 9 * |g|
    ensures forall i, j :: 0 <= i < |g| && 0 <= j < 9 ==> Flatten(g)[9 * i + j] == g[i][j]
  {
    if g != [] {
      FlattenNines(g[1..]);
      forall i, j | 1 <= i < |g| && 0 <= j < 9 ensures Flatten(g)[9 * i + j] == g[i][j] {
        assert Flatten(g)[9 * i + j] == Flatten(g[1..])[9 * (i - 1) + j];
      }
    }
  }

  /** A grid flattens to 81 values, row i and column j at position 9i + j. */
  lemma FlattenGrid<T>(g: seq<seq<T>>)
    requires IsGrid(g)
    ensures |Flatten(g)| == 81
    ensures forall i, j :: 0 <= i < 9 && 0 <= j < 9 ==> Flatten(g)[9 * i + j] == g[i][j]
  {
    FlattenNines(g);
  }

  /** The first 81 values cut into 9 rows of 9: what `unflatten_puzzle` leaves. */
  function Rows<T>(flat: seq<T>): (r: seq<seq<T>>)
    requires |flat| >= 81
    ensures IsGrid(r)
    ensures forall i, j :: 0 <= i < 9 && 0 <= j < 9 ==> r[i][j] == flat[9 * i + j]
  {
    seq(9, i requires 0 <= i < 9 => flat[9 * i .. 9 * i + 9])
  }

  /** Cutting 81 values into rows and flattening them again gives the values back. */
  lemma FlattenRows<T>(flat: seq<T>)
    requires |flat| == 81
    ensures Flatten(Rows(flat)) == flat
  {
    var g := Rows(flat);
    FlattenGrid(g);
    forall p | 0 <= p < 81 ensures Flatten(g)[p] == flat[p] {
      var i, j := p / 9, p % 9;
      assert p == 9 * i + j;
      assert Flatten(g)[9 * i + j] == g[i][j] == flat[9 * i + j];
    }
  }

  /** Flattening a grid and cutting it into rows gives back the grid. */
  lemma RowsFlatten<T>(g: seq<seq<T>>)
    requires IsGrid(g)
    ensures |Flatten(g)| == 81 && Rows(Flatten(g)) == g
  {
    FlattenGrid(g);
    SameGrid(Rows(Flatten(g)), g);
  }

  /**
   * `unflatten_puzzle`: row by row, value by value, the list is rebuilt as
   * 9 rows of 9. A list shorter than 81 runs off its end (IndexError).
   */
  method UnflattenPuzzle<T>(flat: seq<T>) returns (r: Result<seq<seq<T>>>)
    ensures r.Err? <==> |flat| < 81
    ensures r.Err? ==> r.error == BadIndex
    ensures r.Ok? ==> r.value == Rows(flat) && Flatten(r.value) == flat[..81]
  {
    var rows: seq<seq<T>> := [];
    var row := 0;
    while row < 9
      invariant 0 <= row <= 9 && |rows| == row && 9 * row <= |flat|
      invariant forall i :: 0 <= i < row ==> rows[i] == flat[9 * i .. 9 * i + 9]
    {
      var workingRow: seq<T> := [];
      var value := 0;
      while value < 9
        invariant 0 <= value <= 9 && 9 * row + value <= |flat|
        invariant workingRow == flat[9 * row .. 9 * row + value]
      {
        if 9 * row + value >= |flat| {
          return Err(BadIndex);
        }
        workingRow := workingRow + [flat[9 * row + value]];
        value := value + 1;
      }
      rows := rows + [workingRow];
      row := row + 1;
    }
    SameRows(rows, flat);
    FlattenRows(flat[..81]);
    r := Ok(rows);
  }

  /** The rows the loop of `unflatten_puzzle` collects are Rows, whatever follows the 81st value. */
  lemma SameRows<T>(rows: seq<seq<T>>, flat: seq<T>)
    requires |flat| >= 81 && |rows| == 9
    requires forall i :: 0 <= i < 9 ==> rows[i] == flat[9 * i .. 9 * i + 9]
    ensures rows == Rows(flat) == Rows(flat[..81])
  {
    forall i | 0 <= i < 9 ensures rows[i] == Rows(flat)[i] == Rows(flat[..81])[i] {
      assert flat[..81][9 * i .. 9 * i + 9] == flat[9 * i .. 9 * i + 9];
    }
  }

  // ---------------------------------------------------------------------------
  // Reference definitions, by coordinates
  // ---------------------------------------------------------------------------

  /** The grid turned half way round. */
  function HalfTurn<T>(g: seq<seq<T>>): (r: seq<seq<T>>)
    requires IsGrid(g)
    ensures IsGrid(r)
  {
    seq(9, i requires 0 <= i < 9 => seq(9, j requires 0 <= j < 9 => g[8 - i][8 - j]))
  }

  /** The grid turned a quarter clockwise: the left column becomes the top row. */
  function QuarterRight<T>(g: seq<seq<T>>): (r: seq<seq<T>>)
    requires IsGrid(g)
    ensures IsGrid(r)
  {
    seq(9, i requires 0 <= i < 9 => seq(9, j requires 0 <= j < 9 => g[8 - j][i]))
  }

  /** The grid turned a quarter counter-clockwise: the right column becomes the top row. */
  function QuarterLeft<T>(g: seq<seq<T>>): (r: seq<seq<T>>)
    requires IsGrid(g)
    ensures IsGrid(r)
  {
    seq(9, i requires 0 <= i < 9 => seq(9, j requires 0 <= j < 9 => g[j][8 - i]))
  }

  /** Every row read right to left. */
  function Mirrored<T>(g: seq<seq<T>>): (r: seq<seq<T>>)
    requires IsGrid(g)
    ensures IsGrid(r)
  {
    seq(9, i requires 0 <= i < 9 => seq(9, j requires 0 <= j < 9 => g[i][8 - j]))
  }

  /** The rows in bottom-to-top order. */
  function Upended<T>(g: seq<seq<T>>): (r: seq<seq<T>>)
    requires IsGrid(g)
    ensures IsGrid(r)
  {
    seq(9, i requires 0 <= i < 9 => seq(9, j requires 0 <= j < 9 => g[8 - i][j]))
  }

  /** The grid reflected about its minor diagonal. */
  function MinorReflection<T>(g: seq<seq<T>>): (r: seq<seq<T>>)
    requires IsGrid(g)
    ensures IsGrid(r)
  {
    seq(9, i requires 0 <= i < 9 => seq(9, j requires 0 <= j < 9 => g[8 - j][8 - i]))
  }

  /** A half turn, the flips and the minor reflection each undo themselves. */
  lemma SelfInverse<T>(g: seq<seq<T>>)
    requires IsGrid(g)
    ensures HalfTurn(HalfTurn(g)) == g
    ensures Mirrored(Mirrored(g)) == g
    ensures Upended(Upended(g)) == g
    ensures MinorReflection(MinorReflection(g)) == g
  {
    SameGrid(HalfTurn(HalfTurn(g)), g);
    SameGrid(Mirrored(Mirrored(g)), g);
    SameGrid(Upended(Upended(g)), g);
    SameGrid(MinorReflection(MinorReflection(g)), g);
  }

  /** The two quarter turns undo each other, and two right quarters make a half turn. */
  lemma QuarterTurns<T>(g: seq<seq<T>>)
    requires IsGrid(g)
    ensures QuarterRight(QuarterLeft(g)) == g
    ensures QuarterLeft(QuarterRight(g)) == g
    ensures QuarterRight(QuarterRight(g)) == HalfTurn(g)
  {
    SameGrid(QuarterRight(QuarterLeft(g)), g);
    SameGrid(QuarterLeft(QuarterRight(g)), g);
    SameGrid(QuarterRight(QuarterRight(g)), HalfTurn(g));
  }

  // ---------------------------------------------------------------------------
  // The flat index orders of `transform_puzzle`
  // ---------------------------------------------------------------------------

  /** `reversed`: the values last to first. */
  function Reverse<T>(s: seq<T>): (r: seq<T>)
    ensures |r| == |s|
  {
    seq(|s|, i requires 0 <= i < |s| => s[|s| - 1 - i])
  }

  /**
   * The loop ROTATE_CW_90 and ROTATE_CCW_90_old share: pass `itr` walks
   * `range(8 - itr, 81, 9)`, so output position 9i + j reads index 8 - i + 9j.
   */
  function BackwardIndex(p: nat): (r: nat)
    requires p < 81
    ensures r < 81
  {
    8 - p / 9 + 9 * (p % 9)
  }

  /** ROTATE_CCW_90's generator: output position x - 1 reads index (9x - 1) mod 82. */
  function CcwIndex(p: nat): (r: nat)
    requires p < 81
    ensures r < 81
  {
    CcwStep(p / 9, p % 9);
    assert p == 9 * (p / 9) + p % 9;
    (9 * (p + 1) - 1) % 82
  }

  /** For output position 9i + j the generator lands on 8 - i + 9j. */
  lemma CcwStep(i: nat, j: nat)
    requires i < 9 && j < 9
    ensures (9 * (9 * i + j + 1) - 1) % 82 == 8 - i + 9 * j
  {
    assert 9 * (9 * i + j + 1) - 1 == 82 * i + (8 - i + 9 * j);
  }

  /** ROTATE_CCW_90's generator is the same permutation of 0..80 as the shared loop. */
  lemma CcwIndexIsBackward(p: nat)
    requires p < 81
    ensures CcwIndex(p) == BackwardIndex(p)
  {
    CcwStep(p / 9, p % 9);
    assert p == 9 * (p / 9) + p % 9;
  }

  /** The clockwise order the name ROTATE_CW_90 promises: index 72 + i - 9j. */
  function ClockwiseIndex(p: nat): (r: nat)
    requires p < 81
    ensures r < 81
  {
    72 + p / 9 - 9 * (p % 9)
  }

  /** VERTICAL_FLIP: for each `row_end`, the cells from it down to the row's start. */
  function VerticalFlipIndex(p: nat): (r: nat)
    requires p < 81
    ensures r < 81
  {
    8 + 9 * (p / 9) - p % 9
  }

  /** HORIZONTAL_FLIP: the slices starting at 72, 63, ..., 0. */
  function HorizontalFlipIndex(p: nat): (r: nat)
    requires p < 81
    ensures r < 81
  {
    72 - 9 * (p / 9) + p % 9
  }

  /** The 81 flattened values read in the order an index function gives. */
  function Reorder<T>(flat: seq<T>, order: nat --> nat): (r: seq<T>)
    requires |flat| == 81
    requires forall p :: 0 <= p < 81 ==> order.requires(p) && order(p) < 81
    ensures |r| == 81
  {
    seq(81, p requires 0 <= p < 81 => flat[order(p)])
  }

  /** Where each index order sends output position 9i + j. */
  lemma IndexOrders(i: nat, j: nat)
    requires i < 9 && j < 9
    ensures BackwardIndex(9 * i + j) == 9 * j + (8 - i)
    ensures ClockwiseIndex(9 * i + j) == 9 * (8 - j) + i
    ensures VerticalFlipIndex(9 * i + j) == 9 * i + (8 - j)
    ensures HorizontalFlipIndex(9 * i + j) == 9 * (8 - i) + j
  {
    Position(i, j);
  }

  /** Cell (i, j) of a reordered grid is the cell (a, b) its index order points at. */
  lemma ReorderedCell<T>(g: seq<seq<T>>, order: nat --> nat, i: nat, j: nat, a: nat, b: nat)
    requires IsGrid(g) && i < 9 && j < 9 && a < 9 && b < 9
    requires forall p :: 0 <= p < 81 ==> order.requires(p) && order(p) < 81
    requires order(9 * i + j) == 9 * a + b
    ensures |Flatten(g)| == 81 && Rows(Reorder(Flatten(g), order))[i][j] == g[a][b]
  {
    FlattenGrid(g);
  }

  /** The flat list each index-order branch builds before `unflatten_puzzle`. */
  function FlatRotate180<T>(g: seq<seq<T>>): (r: seq<T>)
    requires IsGrid(g)
    ensures |r| == 81
  {
    FlattenGrid(g);
    Reverse(Flatten(g))
  }

  function FlatBackward<T>(g: seq<seq<T>>): (r: seq<T>)
    requires IsGrid(g)
    ensures |r| == 81
  {
    FlattenGrid(g);
    Reorder(Flatten(g), BackwardIndex)
  }

  function FlatCcw<T>(g: seq<seq<T>>): (r: seq<T>)
    requires IsGrid(g)
    ensures |r| == 81
  {
    FlattenGrid(g);
    Reorder(Flatten(g), CcwIndex)
  }

  function FlatClockwise<T>(g: seq<seq<T>>): (r: seq<T>)
    requires IsGrid(g)
    ensures |r| == 81
  {
    FlattenGrid(g);
    Reorder(Flatten(g), ClockwiseIndex)
  }

  function FlatVerticalFlip<T>(g: seq<seq<T>>): (r: seq<T>)
    requires IsGrid(g)
    ensures |r| == 81
  {
    FlattenGrid(g);
    Reorder(Flatten(g), VerticalFlipIndex)
  }

  function FlatHorizontalFlip<T>(g: seq<seq<T>>): (r: seq<T>)
    requires IsGrid(g)
    ensures |r| == 81
  {
    FlattenGrid(g);
    Reorder(Flatten(g), HorizontalFlipIndex)
  }

  /** ROTATE_180: the reversed flat list is the grid turned half way round. */
  lemma Rotate180IsHalfTurn<T>(g: seq<seq<T>>)
    requires IsGrid(g)
    ensures Flatten(Rows(FlatRotate180(g))) == Reverse(Flatten(g))
    ensures Rows(FlatRotate180(g)) == HalfTurn(g)
  {
    var flat := FlatRotate180(g);
    FlattenRows(flat);
    var out, want := Rows(flat), HalfTurn(g);
    forall i, j | 0 <= i < 9 && 0 <= j < 9 ensures out[i][j] == want[i][j] {
      ReversedCell(g, i, j);
    }
    SameGrid(out, want);
  }

  /** Cell (i, j) of the reversed flat grid is cell (8 - i, 8 - j). */
  lemma ReversedCell<T>(g: seq<seq<T>>, i: nat, j: nat)
    requires IsGrid(g) && i < 9 && j < 9
    ensures |Flatten(g)| == 81 && Rows(Reverse(Flatten(g)))[i][j] == g[8 - i][8 - j]
  {
    FlattenGrid(g);
    var flat := Flatten(g);
    var q := 9 * (8 - i) + (8 - j);
    assert flat[q] == g[8 - i][8 - j];
    assert Reverse(flat)[9 * i + j] == flat[q];
  }


  /** The shared ROTATE_CW_90 / ROTATE_CCW_90_old loop turns the grid counter-clockwise. */
  lemma BackwardIsQuarterLeft<T>(g: seq<seq<T>>)
    requires IsGrid(g)
    ensures Rows(FlatBackward(g)) == QuarterLeft(g)
  {
    var out, target := Rows(FlatBackward(g)), QuarterLeft(g);
    forall i, j | 0 <= i < 9 && 0 <= j < 9 ensures out[i][j] == target[i][j] {
      IndexOrders(i, j);
      ReorderedCell(g, BackwardIndex, i, j, j, 8 - i);
    }
    SameGrid(out, target);
  }


  /** ROTATE_CCW_90 builds the very list the shared loop builds. */
  lemma CcwIsBackward<T>(g: seq<seq<T>>)
    requires IsGrid(g)
    ensures FlatCcw(g) == FlatBackward(g)
  {
    forall p | 0 <= p < 81 ensures FlatCcw(g)[p] == FlatBackward(g)[p] {
      CcwIndexIsBackward(p);
    }
  }

  /** The clockwise index order turns the grid clockwise. */
  lemma ClockwiseIsQuarterRight<T>(g: seq<seq<T>>)
    requires IsGrid(g)
    ensures Rows(FlatClockwise(g)) == QuarterRight(g)
  {
    var out, target := Rows(FlatClockwise(g)), QuarterRight(g);
    forall i, j | 0 <= i < 9 && 0 <= j < 9 ensures out[i][j] == target[i][j] {
      IndexOrders(i, j);
      ReorderedCell(g, ClockwiseIndex, i, j, 8 - j, i);
    }
    SameGrid(out, target);
  }


  /** VERTICAL_FLIP reverses each row. */
  lemma VerticalFlipMirrors<T>(g: seq<seq<T>>)
    requires IsGrid(g)
    ensures Rows(FlatVerticalFlip(g)) == Mirrored(g)
    ensures forall i :: 0 <= i < 9 ==> Rows(FlatVerticalFlip(g))[i] == Reverse(g[i])
  {
    var out, target := Rows(FlatVerticalFlip(g)), Mirrored(g);
    forall i, j | 0 <= i < 9 && 0 <= j < 9 ensures out[i][j] == target[i][j] {
      IndexOrders(i, j);
      ReorderedCell(g, VerticalFlipIndex, i, j, i, 8 - j);
    }
    SameGrid(out, target);
    forall i | 0 <= i < 9 ensures target[i] == Reverse(g[i]) {
      assert forall j :: 0 <= j < 9 ==> target[i][j] == Reverse(g[i])[j];
    }
  }


  /** HORIZONTAL_FLIP reverses the order of the rows. */
  lemma HorizontalFlipUpends<T>(g: seq<seq<T>>)
    requires IsGrid(g)
    ensures Rows(FlatHorizontalFlip(g)) == Upended(g)
    ensures Rows(FlatHorizontalFlip(g)) == Reverse(g)
  {
    var out, target := Rows(FlatHorizontalFlip(g)), Upended(g);
    forall i, j | 0 <= i < 9 && 0 <= j < 9 ensures out[i][j] == target[i][j] {
      IndexOrders(i, j);
      ReorderedCell(g, HorizontalFlipIndex, i, j, 8 - i, j);
    }
    SameGrid(out, target);
    SameGrid(Reverse(g), target);
  }


  /** On the grid numbered 0..80 row-major, the list ROTATE_CW_90 builds as written. */
  lemma ClockwiseMismatch()
    ensures FlatBackward(Numbered())[0] == 8
    ensures FlatClockwise(Numbered())[0] == 72
  {
    FlattenGrid(Numbered());
    assert BackwardIndex(0) == 9 * 0 + 8;
    assert ClockwiseIndex(0) == 9 * 8 + 0;
  }

  /** The grid numbered 0..80 row-major. */
  function Numbered(): (g: seq<seq<int>>)
    ensures IsGrid(g)
  {
    seq(9, i requires 0 <= i < 9 => seq(9, j requires 0 <= j < 9 => 9 * i + j))
  }

  // ---------------------------------------------------------------------------
  // Reflections and band switches
  // ---------------------------------------------------------------------------

  /** `reflect_major`: the value at (row, col) goes to (col, row). */
  function ReflectMajor<T>(g: seq<seq<T>>): (r: seq<seq<T>>)
    requires IsGrid(g)
    ensures IsGrid(r)
  {
    seq(9, i requires 0 <= i < 9 => seq(9, j requires 0 <= j < 9 => g[j][i]))
  }

  /** Reflecting about the major diagonal twice gives the grid back. */
  lemma ReflectMajorTwice<T>(g: seq<seq<T>>)
    requires IsGrid(g)
    ensures ReflectMajor(ReflectMajor(g)) == g
  {
    SameGrid(ReflectMajor(ReflectMajor(g)), g);
  }

  /**
   * The REFLECT_MINOR branch: `puzzle.reverse()` and `row.reverse()` for
   * every row, in place on the caller's list, then `reflect_major`.
   */
  method ReflectMinor<T>(puzzle: array<seq<T>>) returns (r: seq<seq<T>>)
    requires IsGrid(puzzle[..])
    modifies puzzle
    ensures forall i :: 0 <= i < 9 ==> puzzle[i] == Reverse(old(puzzle[8 - i]))
    ensures IsGrid(puzzle[..]) && r == MinorReflection(old(puzzle[..]))
  {
    ghost var g := puzzle[..];
    var lo := 0;
    while lo < 4
      invariant 0 <= lo <= 4
      invariant forall i :: 0 <= i < lo ==> puzzle[i] == g[8 - i] && puzzle[8 - i] == g[i]
      invariant forall i :: lo <= i <= 8 - lo ==> puzzle[i] == g[i]
    {
      puzzle[lo], puzzle[8 - lo] := puzzle[8 - lo], puzzle[lo];
      lo := lo + 1;
    }
    var k := 0;
    while k < 9
      invariant 0 <= k <= 9
      invariant forall i :: 0 <= i < k ==> puzzle[i] == Reverse(g[8 - i])
      invariant forall i :: k <= i < 9 ==> puzzle[i] == g[8 - i]
    {
      puzzle[k] := Reverse(puzzle[k]);
      k := k + 1;
    }
    r := ReflectMajor(puzzle[..]);
    SameGrid(r, MinorReflection(g));
  }

  /** A reordering of the three bands that swaps two of them. */
  predicate IsBandSwap(b: seq<nat>)
  {
    b == [1, 0, 2] || b == [2, 1, 0] || b == [0, 2, 1]
  }

  /** Where band order b sends line q of the grid: line 3 * b[q / 3] + q % 3. */
  function BandLine(b: seq<nat>, q: nat): (r: nat)
    requires IsBandSwap(b) && q < 9
    ensures r < 9
  {
    3 * b[q / 3] + q % 3
  }

  /** A band swap sends each line back where it came from when applied twice. */
  lemma BandLineTwice(b: seq<nat>, q: nat)
    requires IsBandSwap(b) && q < 9
    ensures BandLine(b, BandLine(b, q)) == q
  {
    var r := BandLine(b, q);
    assert r / 3 == b[q / 3] && r % 3 == q % 3;
  }

  /** One row with its column bands appended in the given order. */
  function BandsOf<T>(row: seq<T>, b: seq<nat>): (r: seq<T>)
    requires |row| == 9 && IsBandSwap(b)
    ensures |r| == 9
  {
    row[3 * b[0] .. 3 * b[0] + 3] + row[3 * b[1] .. 3 * b[1] + 3] + row[3 * b[2] .. 3 * b[2] + 3]
  }

  /** Position j of a row with its bands reordered holds the row's value at BandLine(b, j). */
  lemma BandsAt<T>(row: seq<T>, b: seq<nat>)
    requires |row| == 9 && IsBandSwap(b)
    ensures forall j :: 0 <= j < 9 ==> BandsOf(row, b)[j] == row[BandLine(b, j)]
  {
    var A, B, C := row[3 * b[0] .. 3 * b[0] + 3], row[3 * b[1] .. 3 * b[1] + 3], row[3 * b[2] .. 3 * b[2] + 3];
    var s := BandsOf(row, b);
    assert s == A + B + C;
    forall j | 0 <= j < 9 ensures s[j] == row[BandLine(b, j)] {
      if j < 3 {
        assert j / 3 == 0 && j % 3 == j && s[j] == A[j];
      } else if j < 6 {
        assert j / 3 == 1 && j % 3 == j - 3 && s[j] == B[j - 3];
      } else {
        assert j / 3 == 2 && j % 3 == j - 6 && s[j] == C[j - 6];
      }
    }
  }

  /** COLUMN_SWITCH_xy: every row with its column bands reordered, built flat. */
  function ColumnSwitch<T>(g: seq<seq<T>>, b: seq<nat>): (r: seq<T>)
    requires IsGrid(g) && IsBandSwap(b)
    ensures |r| == 81
  {
    var out := seq(9, i requires 0 <= i < 9 => BandsOf(g[i], b));
    FlattenGrid(out);
    Flatten(out)
  }

  /** ROW_SWITCH_xy: the rows with their bands appended in the given order. */
  function RowSwitch<T>(g: seq<seq<T>>, b: seq<nat>): (r: seq<seq<T>>)
    requires IsGrid(g) && IsBandSwap(b)
    ensures |r| == 9
  {
    g[3 * b[0] .. 3 * b[0] + 3] + g[3 * b[1] .. 3 * b[1] + 3] + g[3 * b[2] .. 3 * b[2] + 3]
  }

  /** A column switch moves column BandLine(b, j) of each row to column j. */
  lemma ColumnSwitchMeaning<T>(g: seq<seq<T>>, b: seq<nat>)
    requires IsGrid(g) && IsBandSwap(b)
    ensures forall i, j :: 0 <= i < 9 && 0 <= j < 9 ==> Rows(ColumnSwitch(g, b))[i][j] == g[i][BandLine(b, j)]
  {
    var out := seq(9, i requires 0 <= i < 9 => BandsOf(g[i], b));
    FlattenGrid(out);
    forall i | 0 <= i < 9 ensures forall j :: 0 <= j < 9 ==> out[i][j] == g[i][BandLine(b, j)] {
      BandsAt(g[i], b);
    }
  }

  /** A row switch moves row BandLine(b, i) to row i. */
  lemma RowSwitchMeaning<T>(g: seq<seq<T>>, b: seq<nat>)
    requires IsGrid(g) && IsBandSwap(b)
    ensures IsGrid(RowSwitch(g, b))
    ensures forall i :: 0 <= i < 9 ==> RowSwitch(g, b)[i] == g[BandLine(b, i)]
  {
    var r := RowSwitch(g, b);
    var A, B, C := g[3 * b[0] .. 3 * b[0] + 3], g[3 * b[1] .. 3 * b[1] + 3], g[3 * b[2] .. 3 * b[2] + 3];
    assert r == A + B + C;
    forall i | 0 <= i < 9 ensures r[i] == g[BandLine(b, i)] {
      if i < 3 {
        assert r[i] == A[i];
      } else if i < 6 {
        assert r[i] == B[i - 3];
      } else {
        assert r[i] == C[i - 6];
      }
    }
  }

  /** Swapping the same two row bands twice gives the grid back. */
  lemma RowSwitchTwice<T>(g: seq<seq<T>>, b: seq<nat>)
    requires IsGrid(g) && IsBandSwap(b)
    ensures IsGrid(RowSwitch(g, b)) && RowSwitch(RowSwitch(g, b), b) == g
  {
    RowSwitchMeaning(g, b);
    RowSwitchMeaning(RowSwitch(g, b), b);
    forall i | 0 <= i < 9 ensures RowSwitch(RowSwitch(g, b), b)[i] == g[i] {
      BandLineTwice(b, i);
    }
  }

  /** Swapping the same two column bands twice gives the grid back. */
  lemma ColumnSwitchTwice<T>(g: seq<seq<T>>, b: seq<nat>)
    requires IsGrid(g) && IsBandSwap(b)
    ensures Rows(ColumnSwitch(Rows(ColumnSwitch(g, b)), b)) == g
  {
    var once := Rows(ColumnSwitch(g, b));
    var twice := Rows(ColumnSwitch(once, b));
    ColumnSwitchMeaning(g, b);
    ColumnSwitchMeaning(once, b);
    forall i, j | 0 <= i < 9 && 0 <= j < 9 ensures twice[i][j] == g[i][j] {
      BandLineTwice(b, j);
      assert twice[i][j] == once[i][BandLine(b, j)];
    }
    SameGrid(twice, g);
  }

  // ---------------------------------------------------------------------------
  // transform_puzzle
  // ---------------------------------------------------------------------------

  /** `TransformTypes`. */
  datatype TransformType =
    | Rotate180 | RotateCw90 | RotateCcw90Old | RotateCcw90
    | VerticalFlip | HorizontalFlip | ReflectMajorDiagonal | ReflectMinorDiagonal
    | ColumnSwitch12 | ColumnSwitch13 | ColumnSwitch23
    | RowSwitch12 | RowSwitch13 | RowSwitch23

  /** What `transform_puzzle` returns: 9 rows, or (for the column switches) one flat list. */
  datatype Transformed<T> = AsRows(rows: seq<seq<T>>) | AsFlat(items: seq<T>)

  /** The band order of a switch: _12 swaps bands 1 and 2, and so on. */
  function BandOrder(t: TransformType): (b: seq<nat>)
    ensures IsBandSwap(b)
  {
    match t
    case ColumnSwitch12 => [1, 0, 2]
    case RowSwitch12 => [1, 0, 2]
    case ColumnSwitch13 => [2, 1, 0]
    case RowSwitch13 => [2, 1, 0]
    case _ => [0, 2, 1]
  }

  /**
   * The result of `transform_puzzle(g, t)`, with ROTATE_CW_90 reading the
   * clockwise index order its name promises.
   */
  function Transform<T>(g: seq<seq<T>>, t: TransformType): (r: Transformed<T>)
    requires IsGrid(g)
  {
    match t
    case Rotate180 => AsRows(Rows(FlatRotate180(g)))
    case RotateCw90 => AsRows(Rows(FlatClockwise(g)))
    case RotateCcw90Old => AsRows(Rows(FlatBackward(g)))
    case RotateCcw90 => AsRows(Rows(FlatCcw(g)))
    case VerticalFlip => AsRows(Rows(FlatVerticalFlip(g)))
    case HorizontalFlip => AsRows(Rows(FlatHorizontalFlip(g)))
    case ReflectMajorDiagonal => AsRows(ReflectMajor(g))
    case ReflectMinorDiagonal => AsRows(MinorReflection(g))
    case ColumnSwitch12 => AsFlat(ColumnSwitch(g, BandOrder(t)))
    case ColumnSwitch13 => AsFlat(ColumnSwitch(g, BandOrder(t)))
    case ColumnSwitch23 => AsFlat(ColumnSwitch(g, BandOrder(t)))
    case RowSwitch12 => AsRows(RowSwitch(g, BandOrder(t)))
    case RowSwitch13 => AsRows(RowSwitch(g, BandOrder(t)))
    case RowSwitch23 => AsRows(RowSwitch(g, BandOrder(t)))
  }

  /** A result as 9 rows, cutting the flat list of a column switch. */
  function AsGrid<T>(x: Transformed<T>): seq<seq<T>>
  {
    match x
    case AsRows(rows) => rows
    case AsFlat(items) => if |items| >= 81 then Rows(items) else []
  }

  /** The transform that undoes t: each quarter turn is undone by the other one. */
  function Undo(t: TransformType): TransformType
  {
    match t
    case RotateCw90 => RotateCcw90
    case RotateCcw90Old => RotateCw90
    case RotateCcw90 => RotateCw90
    case _ => t
  }

  /** Every transform yields a grid, and applying Undo(t) to it gives the puzzle back. */
  lemma TransformUndone<T>(g: seq<seq<T>>, t: TransformType)
    requires IsGrid(g)
    ensures IsGrid(AsGrid(Transform(g, t)))
    ensures Transform(g, t).AsFlat? <==> t in {ColumnSwitch12, ColumnSwitch13, ColumnSwitch23}
    ensures AsGrid(Transform(AsGrid(Transform(g, t)), Undo(t))) == g
  {
    var h := AsGrid(Transform(g, t));
    match t {
      case Rotate180 =>
        Rotate180IsHalfTurn(g);
        Rotate180IsHalfTurn(h);
        SelfInverse(g);
      case RotateCw90 =>
        ClockwiseIsQuarterRight(g);
        CcwIsBackward(h);
        BackwardIsQuarterLeft(h);
        QuarterTurns(g);
      case RotateCcw90Old =>
        BackwardIsQuarterLeft(g);
        ClockwiseIsQuarterRight(h);
        QuarterTurns(g);
      case RotateCcw90 =>
        CcwIsBackward(g);
        BackwardIsQuarterLeft(g);
        ClockwiseIsQuarterRight(h);
        QuarterTurns(g);
      case VerticalFlip =>
        VerticalFlipMirrors(g);
        VerticalFlipMirrors(h);
        SelfInverse(g);
      case HorizontalFlip =>
        HorizontalFlipUpends(g);
        HorizontalFlipUpends(h);
        SelfInverse(g);
      case ReflectMajorDiagonal =>
        ReflectMajorTwice(g);
      case ReflectMinorDiagonal =>
        SelfInverse(g);
      case RowSwitch12 =>
        RowSwitchTwice(g, BandOrder(t));
      case RowSwitch13 =>
        RowSwitchTwice(g, BandOrder(t));
      case RowSwitch23 =>
        RowSwitchTwice(g, BandOrder(t));
      case _ =>
        ColumnSwitchTwice(g, BandOrder(t));
    }
  }

  /**
   * `transform_puzzle(puzzle, transform_type)`. Only REFLECT_MINOR changes
   * the caller's grid, reversing it in place before reflecting it.
   */
  method TransformPuzzle<T>(puzzle: array<seq<T>>, t: TransformType) returns (r: Transformed<T>)
    requires IsGrid(puzzle[..])
    modifies puzzle
    ensures r == Transform(old(puzzle[..]), t)
    ensures t != ReflectMinorDiagonal ==> puzzle[..] == old(puzzle[..])
    ensures t == ReflectMinorDiagonal ==> forall i :: 0 <= i < 9 ==> puzzle[i] == Reverse(old(puzzle[8 - i]))
  {
    var g := puzzle[..];
    var flat: seq<T>;
    match t {
      case ReflectMinorDiagonal =>
        var rows := ReflectMinor(puzzle);
        return AsRows(rows);
      case ReflectMajorDiagonal =>
        return AsRows(ReflectMajor(g));
      case ColumnSwitch12 =>
        return AsFlat(ColumnSwitch(g, BandOrder(t)));
      case ColumnSwitch13 =>
        return AsFlat(ColumnSwitch(g, BandOrder(t)));
      case ColumnSwitch23 =>
        return AsFlat(ColumnSwitch(g, BandOrder(t)));
      case RowSwitch12 =>
        return AsRows(RowSwitch(g, BandOrder(t)));
      case RowSwitch13 =>
        return AsRows(RowSwitch(g, BandOrder(t)));
      case RowSwitch23 =>
        return AsRows(RowSwitch(g, BandOrder(t)));
      case Rotate180 =>
        flat := FlatRotate180(g);
      case RotateCw90 =>
        flat := FlatClockwise(g);
      case RotateCcw90Old =>
        flat := FlatBackward(g);
      case RotateCcw90 =>
        flat := FlatCcw(g);
      case VerticalFlip =>
        flat := FlatVerticalFlip(g);
      case HorizontalFlip =>
        flat := FlatHorizontalFlip(g);
    }
    var rows := UnflattenPuzzle(flat);
    r := AsRows(rows.value);
  }
}

// Sudoku boxes (puzzles/sudoku.py): a dimension x dimension grid whose side is
// box_dimension squared is tiled by `dimension` boxes of box_dimension x
// box_dimension cells, numbered 1..dimension left to right, top to bottom.
// This module holds the box arithmetic, the links that
// `SudokuBuilder.link_cells_by_box` leaves behind and the proof that they
// close every box into one circuit.
module Boxes {
  import opened Outcome
  import opened Arith
  import opened Rings

  /** Searches upwards from r for the integer square root of n. */
  function IsqrtFrom(n: nat, r: nat): (s: nat)
    requires r * r <= n
    ensures s * s <= n < (s + 1) * (s + 1)
    decreases n - r
  {
    if (r + 1) * (r + 1) > n then r
    else
      assert r < n by {
        if r >= n && r > 0 {
          MulMono(1, r, r);
        }
      }
      IsqrtFrom(n, r + 1)
  }

  /** `int(math.sqrt(n))`, computed exactly: the largest s with s * s <= n. */
  function Isqrt(n: nat): (s: nat)
    ensures s * s <= n < (s + 1) * (s + 1)
  {
    IsqrtFrom(n, 0)
  }

  /** n is the square of an integer (`validate_dimension`'s test). */
  predicate IsSquare(n: nat)
  {
    Isqrt(n) * Isqrt(n) == n
  }

  lemma SquareIsSquare(bd: nat)
    ensures Isqrt(bd * bd) == bd && IsSquare(bd * bd)
  {
    var s := Isqrt(bd * bd);
    if s < bd {
      MulMono(s + 1, bd, s + 1);
      MulMono(s + 1, bd, bd);
    } else if s > bd {
      MulMono(bd + 1, s, bd + 1);
    }
  }

  /** `x in range(bd - 1, dimension, bd)` for x < dimension: the last line of a band of boxes. */
  predicate BoxEdge(bd: nat, x: nat)
  {
    bd >= 1 && x % bd == bd - 1
  }

  /** `validate_dimension`'s test is the usual one: n is a perfect square. */
  lemma IsSquareExact(n: nat)
    ensures IsSquare(n) <==> exists s: nat :: s * s == n
  {
    if exists s: nat :: s * s == n {
      var s: nat :| s * s == n;
      SquareIsSquare(s);
    }
  }

  /** `range(bd - 1, dimension, bd)` starts on a box edge. */
  lemma EdgeFirst(bd: nat)
    requires bd >= 1
    ensures BoxEdge(bd, bd - 1)
  {
    Band(bd, 0, bd - 1);
  }

  /** The first box edge is bd - 1. */
  lemma EdgeLeast(bd: nat, x: nat)
    requires BoxEdge(bd, x)
    ensures x >= bd - 1
  {
    assert x == (x / bd) * bd + (bd - 1);
  }

  /** Consecutive box edges are bd apart. */
  lemma EdgeGap(bd: nat, x: nat, y: nat)
    requires BoxEdge(bd, x) && BoxEdge(bd, y) && x < y
    ensures x + bd <= y
  {
    assert x == (x / bd) * bd + (bd - 1);
    assert y == (y / bd) * bd + (bd - 1);
    MulMono(x / bd + 1, y / bd, bd);
  }

  /** The step of `range(bd - 1, dimension, bd)` goes from one box edge to the next. */
  lemma EdgeNext(bd: nat, x: nat)
    requires BoxEdge(bd, x)
    ensures BoxEdge(bd, x + bd)
  {
    assert x + bd == (x / bd + 1) * bd + (bd - 1);
    Band(bd, x / bd + 1, bd - 1);
  }

  /**
   * The box link `link_cells_by_box` leaves on cell k of a d x d grid with
   * box side bd, phase by phase: phase 3 (bottom-right corner of a box, back
   * to its top-left corner) overrides phase 2 (right edge of a box, to the
   * left edge one line down), which overrides phase 1 (next column). A cell
   * no phase reaches keeps -1, "not linked" (Python leaves the integer 0
   * there); this only happens when d is not bd squared.
   */
  function BoxLinkBuilt(d: nat, bd: nat, k: nat): int
    requires d >= 1
  {
    var r, c := k / d, k % d;
    if BoxEdge(bd, r) && BoxEdge(bd, c) then k - (bd - 1) * d - (bd - 1)
    else if r < d - 1 && BoxEdge(bd, c) then k + d - (bd - 1)
    else if c < d - 1 then k + 1
    else -1
  }

  ghost predicate BoxLinked(succ: seq<int>, d: nat, bd: nat)
  {
    d >= 1 && |succ| == d * d && forall k :: 0 <= k < |succ| ==> succ[k] == BoxLinkBuilt(d, bd, k)
  }

  /** The box number `link_cells_by_box` gives cell (r, c): 1-based, row of boxes first. */
  function BoxNumber(bd: nat, r: nat, c: nat): nat
    requires bd >= 1
  {
    bd * (r / bd) + c / bd + 1
  }

  /** Top row and left column of box b (1-based) when the grid side is bd squared. */
  function BoxTop(bd: nat, b: nat): nat
    requires bd >= 1 && b >= 1
  {
    ((b - 1) / bd) * bd
  }

  function BoxLeft(bd: nat, b: nat): nat
    requires bd >= 1 && b >= 1
  {
    ((b - 1) % bd) * bd
  }

  /** Position m of box b in link order: along each box line left to right, lines top to bottom. */
  function BoxCell(bd: nat, b: nat, m: nat): nat
    requires bd >= 1 && b >= 1
  {
    Idx(bd * bd, BoxTop(bd, b) + m / bd, BoxLeft(bd, b) + m % bd)
  }

  /** The cells of box b in link order. */
  function BoxRing(bd: nat, b: nat): (ring: seq<nat>)
    requires bd >= 1 && b >= 1
    ensures |ring| == bd * bd
    ensures forall m :: 0 <= m < bd * bd ==> ring[m] == BoxCell(bd, b, m)
  {
    seq(bd * bd, m requires 0 <= m < bd * bd => BoxCell(bd, b, m))
  }

  /** Division facts for a line inside band q of boxes: x = q * bd + e with e < bd. */
  lemma Band(bd: nat, q: nat, e: nat)
    requires e < bd
    ensures (q * bd + e) / bd == q && (q * bd + e) % bd == e
  {
    assert q * bd + e == Idx(bd, q, e);
    IdxParts(bd, q, e);
  }

  /** Line numbers of box b stay inside the grid. */
  lemma BoxLines(bd: nat, b: nat, e: nat)
    requires bd >= 1 && 1 <= b <= bd * bd && e < bd
    ensures BoxTop(bd, b) + e < bd * bd && BoxLeft(bd, b) + e < bd * bd
    ensures (BoxTop(bd, b) + e) / bd == (b - 1) / bd && (BoxTop(bd, b) + e) % bd == e
    ensures (BoxLeft(bd, b) + e) / bd == (b - 1) % bd && (BoxLeft(bd, b) + e) % bd == e
  {
    IdxSplit(bd, bd, b - 1);
    Band(bd, (b - 1) / bd, e);
    Band(bd, (b - 1) % bd, e);
    IdxBound(bd, bd, (b - 1) / bd, e);
    IdxBound(bd, bd, (b - 1) % bd, e);
  }

  /** Where position m of box b lies: its row and column and their places inside the box. */
  lemma BoxCellFacts(bd: nat, b: nat, m: nat)
    requires bd >= 1 && 1 <= b <= bd * bd && m < bd * bd
    ensures BoxCell(bd, b, m) < bd * bd * (bd * bd)
    ensures BoxTop(bd, b) + m / bd < bd * bd && BoxLeft(bd, b) + m % bd < bd * bd
    ensures BoxCell(bd, b, m) / (bd * bd) == BoxTop(bd, b) + m / bd
    ensures BoxCell(bd, b, m) % (bd * bd) == BoxLeft(bd, b) + m % bd
    ensures (BoxTop(bd, b) + m / bd) % bd == m / bd && (BoxLeft(bd, b) + m % bd) % bd == m % bd
    ensures (BoxTop(bd, b) + m / bd) / bd == (b - 1) / bd && (BoxLeft(bd, b) + m % bd) / bd == (b - 1) % bd
  {
    IdxSplit(bd, bd, m);
    BoxLines(bd, b, m / bd);
    BoxLines(bd, b, m % bd);
    IdxBound(bd * bd, bd * bd, BoxTop(bd, b) + m / bd, BoxLeft(bd, b) + m % bd);
    IdxParts(bd * bd, BoxTop(bd, b) + m / bd, BoxLeft(bd, b) + m % bd);
  }

  /** Moving one position along a box line keeps the line and advances the column. */
  lemma DivStepAlong(bd: nat, m: nat)
    requires bd >= 1 && m % bd < bd - 1
    ensures (m + 1) / bd == m / bd && (m + 1) % bd == m % bd + 1
  {
    var q, e := m / bd, m % bd;
    assert m + 1 == q * bd + (e + 1);
    Band(bd, q, e + 1);
  }

  /** Moving on from the end of a box line starts the next line. */
  lemma DivStepDown(bd: nat, m: nat)
    requires bd >= 1 && m % bd == bd - 1
    ensures (m + 1) / bd == m / bd + 1 && (m + 1) % bd == 0
  {
    var q := m / bd;
    assert m + 1 == (q + 1) * bd + 0;
    Band(bd, q + 1, 0);
  }

  /** The last position of a box is its bottom-right corner. */
  lemma LastPosition(bd: nat)
    requires bd >= 1
    ensures (bd * bd - 1) / bd == bd - 1 && (bd * bd - 1) % bd == bd - 1
    ensures (bd * bd - 1) % bd == bd - 1
  {
    assert bd * bd - 1 == (bd - 1) * bd + (bd - 1);
    Band(bd, bd - 1, bd - 1);
  }

  /** Phase 1's link: a cell left of a box's right edge links to its right neighbour. */
  lemma LinkAlong(d: nat, bd: nat, r: nat, c: nat)
    requires bd >= 1 && r < d && c + 1 < d && c % bd != bd - 1
    ensures BoxLinkBuilt(d, bd, Idx(d, r, c)) == Idx(d, r, c + 1)
  {
    IdxParts(d, r, c);
  }

  /** Phase 2's link: a right-edge cell above a box's bottom line links to the line below. */
  lemma LinkDown(d: nat, bd: nat, r: nat, c: nat)
    requires bd >= 1 && r + 1 < d && c < d && r % bd != bd - 1 && c % bd == bd - 1
    ensures c >= bd - 1
    ensures BoxLinkBuilt(d, bd, Idx(d, r, c)) == Idx(d, r + 1, c - (bd - 1))
  {
    IdxParts(d, r, c);
    assert (r + 1) * d == r * d + d;
  }

  /** Phase 3's link: a box's bottom-right corner links to its top-left corner. */
  lemma LinkCorner(d: nat, bd: nat, r: nat, c: nat)
    requires bd >= 1 && r < d && c < d && r % bd == bd - 1 && c % bd == bd - 1
    ensures r >= bd - 1 && c >= bd - 1
    ensures BoxLinkBuilt(d, bd, Idx(d, r, c)) == Idx(d, r - (bd - 1), c - (bd - 1))
  {
    IdxParts(d, r, c);
    assert r * d == (r - (bd - 1)) * d + (bd - 1) * d;
  }

  /** Inside a box line, the next position is the right neighbour. */
  lemma BoxLinkStepAlong(bd: nat, b: nat, m: nat)
    requires bd >= 1 && 1 <= b <= bd * bd && m < bd * bd && m % bd < bd - 1
    ensures BoxLinkBuilt(bd * bd, bd, BoxCell(bd, b, m)) == BoxCell(bd, b, m + 1)
  {
    var d := bd * bd;
    BoxCellFacts(bd, b, m);
    var r, c := BoxTop(bd, b) + m / bd, BoxLeft(bd, b) + m % bd;
    assert c + 1 < d by {
      LastPosition(bd);
      assert c % bd != (d - 1) % bd;
    }
    LinkAlong(d, bd, r, c);
    DivStepAlong(bd, m);
    assert BoxCell(bd, b, m + 1) == Idx(d, r, c + 1);
  }

  /** A position that ends a box line but not the box lies above the last line. */
  lemma NotLastLine(bd: nat, m: nat)
    requires bd >= 1 && m + 1 < bd * bd && m % bd == bd - 1
    ensures m / bd < bd - 1
  {
    IdxSplit(bd, bd, m);
  }

  /** At the end of a box line, the next position starts the line below. */
  lemma BoxLinkStepDown(bd: nat, b: nat, m: nat)
    requires bd >= 1 && 1 <= b <= bd * bd && m + 1 < bd * bd && m % bd == bd - 1
    ensures BoxLinkBuilt(bd * bd, bd, BoxCell(bd, b, m)) == BoxCell(bd, b, m + 1)
  {
    var d := bd * bd;
    BoxCellFacts(bd, b, m);
    var r, c := BoxTop(bd, b) + m / bd, BoxLeft(bd, b) + m % bd;
    NotLastLine(bd, m);
    LastPosition(bd);
    assert r + 1 < d by {
      assert r % bd != (d - 1) % bd;
    }
    LinkDown(d, bd, r, c);
    DivStepDown(bd, m);
    assert BoxCell(bd, b, m + 1) == Idx(d, r + 1, BoxLeft(bd, b));
  }

  /** The cell after position m of box b under the builder's links is position m + 1. */
  lemma BoxLinkStep(bd: nat, b: nat, m: nat)
    requires bd >= 1 && 1 <= b <= bd * bd && m + 1 < bd * bd
    ensures BoxLinkBuilt(bd * bd, bd, BoxCell(bd, b, m)) == BoxCell(bd, b, m + 1)
  {
    if m % bd < bd - 1 {
      BoxLinkStepAlong(bd, b, m);
    } else {
      BoxLinkStepDown(bd, b, m);
    }
  }

  /** The builder's link of the last position of box b is its first position. */
  lemma BoxLinkLast(bd: nat, b: nat)
    requires bd >= 1 && 1 <= b <= bd * bd
    ensures BoxLinkBuilt(bd * bd, bd, BoxCell(bd, b, bd * bd - 1)) == BoxCell(bd, b, 0)
  {
    var d := bd * bd;
    BoxCellFacts(bd, b, d - 1);
    LastPosition(bd);
    var top, left := BoxTop(bd, b), BoxLeft(bd, b);
    LinkCorner(d, bd, top + (bd - 1), left + (bd - 1));
  }

  /** Every position of a box is a different cell. */
  lemma BoxRingDistinct(bd: nat, b: nat)
    requires bd >= 1 && 1 <= b <= bd * bd
    ensures Distinct(BoxRing(bd, b))
  {
    var ring := BoxRing(bd, b);
    forall i, j | 0 <= i < j < bd * bd ensures ring[i] != ring[j] {
      BoxCellFacts(bd, b, i);
      BoxCellFacts(bd, b, j);
      if ring[i] == ring[j] {
        IdxSplit(bd, bd, i);
        IdxSplit(bd, bd, j);
      }
    }
  }

  /** The builder's links, in a grid whose side is bd squared, close each box into one circuit. */
  lemma BoxRingIsRing(succ: seq<int>, bd: nat, b: nat)
    requires bd >= 1 && BoxLinked(succ, bd * bd, bd) && 1 <= b <= bd * bd
    ensures IsRing(succ, BoxRing(bd, b))
  {
    var d, ring := bd * bd, BoxRing(bd, b);
    BoxRingDistinct(bd, b);
    forall m | 0 <= m < d ensures ring[m] < |succ| {
      BoxCellFacts(bd, b, m);
    }
    forall m | 0 <= m < d - 1 ensures succ[ring[m]] == ring[m + 1] {
      BoxCellFacts(bd, b, m);
      BoxLinkStep(bd, b, m);
    }
    BoxCellFacts(bd, b, d - 1);
    BoxLinkLast(bd, b);
  }

  /** The box of cell (r, c): its top row and left column are those of the cell's bands. */
  lemma BoxOfCell(bd: nat, r: nat, c: nat)
    requires bd >= 1 && r < bd * bd && c < bd * bd
    ensures 1 <= BoxNumber(bd, r, c) <= bd * bd
    ensures BoxTop(bd, BoxNumber(bd, r, c)) == (r / bd) * bd
    ensures BoxLeft(bd, BoxNumber(bd, r, c)) == (c / bd) * bd
  {
    var q, p := r / bd, c / bd;
    BandBelow(bd, r);
    BandBelow(bd, c);
    BandBox(bd, q, p);
    assert BoxNumber(bd, r, c) == bd * q + p + 1;
  }

  /** A line of a grid whose side is bd squared lies in one of its bd bands. */
  lemma BandBelow(bd: nat, x: nat)
    requires bd >= 1 && x < bd * bd
    ensures x / bd < bd
  {
    if x / bd >= bd {
      MulMono(bd, x / bd, bd);
    }
  }

  /** The box numbered after band row q and band column p starts at line q * bd and column p * bd. */
  lemma BandBox(bd: nat, q: nat, p: nat)
    requires bd >= 1 && q < bd && p < bd
    ensures 1 <= bd * q + p + 1 <= bd * bd
    ensures BoxTop(bd, bd * q + p + 1) == q * bd && BoxLeft(bd, bd * q + p + 1) == p * bd
  {
    assert bd * q + p == Idx(bd, q, p);
    IdxBound(bd, bd, q, p);
    IdxParts(bd, q, p);
  }

  /** A cell's box number lies in 1..dimension. */
  lemma BoxNumberRange(bd: nat, r: nat, c: nat)
    requires bd >= 1 && r < bd * bd && c < bd * bd
    ensures 1 <= BoxNumber(bd, r, c) <= bd * bd
  {
    BoxOfCell(bd, r, c);
  }

  /** Where cell k sits in its box's link order. */
  function BoxPosition(bd: nat, k: nat): nat
    requires bd >= 1
  {
    var d := bd * bd;
    Idx(bd, (k / d) % bd, (k % d) % bd)
  }

  /** The box number of cell k. */
  function BoxOf(bd: nat, k: nat): nat
    requires bd >= 1
  {
    BoxNumber(bd, k / (bd * bd), k % (bd * bd))
  }

  lemma BoxPositionFacts(bd: nat, k: nat)
    requires bd >= 1 && k < bd * bd * (bd * bd)
    ensures 1 <= BoxOf(bd, k) <= bd * bd
    ensures BoxPosition(bd, k) < bd * bd
    ensures BoxCell(bd, BoxOf(bd, k), BoxPosition(bd, k)) == k
  {
    var d := bd * bd;
    IdxSplit(d, d, k);
    var r, c := k / d, k % d;
    BoxOfCell(bd, r, c);
    var b, m := BoxOf(bd, k), BoxPosition(bd, k);
    IdxSplit(bd, bd, r);
    IdxSplit(bd, bd, c);
    IdxBound(bd, bd, r % bd, c % bd);
    IdxParts(bd, r % bd, c % bd);
    assert BoxTop(bd, b) + m / bd == r;
    assert BoxLeft(bd, b) + m % bd == c;
  }

  /** Box b holds exactly the cells whose box number is b. */
  lemma InBoxRing(bd: nat, b: nat, k: nat)
    requires bd >= 1 && 1 <= b <= bd * bd
    ensures k in BoxRing(bd, b) <==> k < bd * bd * (bd * bd) && BoxOf(bd, k) == b
  {
    var d := bd * bd;
    if k in BoxRing(bd, b) {
      var m :| 0 <= m < d && BoxRing(bd, b)[m] == k;
      BoxCellFacts(bd, b, m);
      IdxSplit(bd, bd, b - 1);
      assert BoxOf(bd, k) == bd * ((b - 1) / bd) + (b - 1) % bd + 1;
    }
    if k < d * d && BoxOf(bd, k) == b {
      BoxPositionFacts(bd, k);
      assert BoxRing(bd, b)[BoxPosition(bd, k)] == k;
    }
  }

  /** The cells `BoxIterator` yields when started at cell k. */
  function BoxFrom(bd: nat, k: nat): seq<nat>
    requires bd >= 1 && k < bd * bd * (bd * bd)
  {
    BoxPositionFacts(bd, k);
    Rotate(BoxRing(bd, BoxOf(bd, k)), BoxPosition(bd, k))
  }

  /**
   * BoxIterator from any cell: it starts at that cell, yields the
   * `dimension` cells that share its box number, each once, and stops.
   */
  lemma BoxFromFacts(succ: seq<int>, bd: nat, k: nat)
    requires bd >= 1 && BoxLinked(succ, bd * bd, bd) && k < bd * bd * (bd * bd)
    ensures IsRing(succ, BoxFrom(bd, k))
    ensures |BoxFrom(bd, k)| == bd * bd && BoxFrom(bd, k)[0] == k
    ensures forall j :: j in BoxFrom(bd, k) <==> 0 <= j < bd * bd * (bd * bd) && BoxOf(bd, j) == BoxOf(bd, k)
  {
    BoxPositionFacts(bd, k);
    BoxRingIsRing(succ, bd, BoxOf(bd, k));
    RotateRing(succ, BoxRing(bd, BoxOf(bd, k)), BoxPosition(bd, k));
    BoxFromMembers(bd, k);
  }

  lemma BoxFromMembers(bd: nat, k: nat)
    requires bd >= 1 && k < bd * bd * (bd * bd)
    ensures forall j :: j in BoxFrom(bd, k) <==> 0 <= j < bd * bd * (bd * bd) && BoxOf(bd, j) == BoxOf(bd, k)
  {
    BoxPositionFacts(bd, k);
    var b := BoxOf(bd, k);
    assert BoxFrom(bd, k) == Rotate(BoxRing(bd, b), BoxPosition(bd, k));
    forall j: nat ensures j in BoxRing(bd, b) <==> j < bd * bd * (bd * bd) && BoxOf(bd, j) == b {
      InBoxRing(bd, b, j);
    }
  }

  /**
   * `Sudoku._first_cell_in_box` as written, for a grid of side d >= 1 and box
   * side bd >= 1: the guard `1 > box_number > dimension` can never hold, the
   * row is `int((b - 1) / bd) * bd` (float division truncated towards zero)
   * and the column `((b - 1) * bd) % d`; Python list indexing accepts a
   * negative index down to -d. None stands for the IndexError of an index
   * outside the grid.
   */
  function FirstCellInBoxAsWritten(d: nat, bd: nat, b: int): (r: Result<Option<nat>>)
    requires d >= 1 && bd >= 1
    ensures r.Ok?
  {
    if 1 > b > d then Err(PuzzleExcept)
    else
      var q := if b - 1 >= 0 then (b - 1) / bd else -((1 - b) / bd);
      var row, column := q * bd, ((b - 1) * bd) % d;
      var row' := if row < 0 then row + d else row;
      if 0 <= row' < d then Ok(Some(Idx(d, row', column))) else Ok(None)
  }

  /** The intended `_first_cell_in_box`: box numbers outside 1..dimension raise PuzzleExcept. */
  function FirstCellInBox(bd: nat, b: int): (r: Result<nat>)
    requires bd >= 1
    ensures r.Ok? <==> 1 <= b <= bd * bd
    ensures r.Err? ==> r.error == PuzzleExcept
    ensures r.Ok? ==> r.value == BoxRing(bd, b)[0] && r.value < bd * bd * (bd * bd)
  {
    if 1 <= b <= bd * bd then
      BoxCellFacts(bd, b, 0);
      Ok(Idx(bd * bd, BoxTop(bd, b), BoxLeft(bd, b)))
    else Err(PuzzleExcept)
  }

  /** On box numbers in range the code as written finds the intended cell. */
  lemma FirstCellInBoxAgrees(bd: nat, b: nat)
    requires bd >= 1 && 1 <= b <= bd * bd
    ensures FirstCellInBoxAsWritten(bd * bd, bd, b) == Ok(Some(FirstCellInBox(bd, b).value))
  {
    var q, e := (b - 1) / bd, (b - 1) % bd;
    assert b - 1 == q * bd + e;
    BandBelow(bd, b - 1);
    BoxCorner(bd, q, e);
  }

  /**
   * For box number q * bd + e + 1 the code as written computes row q * bd and
   * column ((q * bd + e) * bd) % bd squared, which is e * bd.
   */
  lemma BoxCorner(bd: nat, q: nat, e: nat)
    requires q < bd && e < bd
    ensures q * bd < bd * bd && e * bd < bd * bd
    ensures ((q * bd + e) * bd) % (bd * bd) == e * bd
  {
    var d := bd * bd;
    MulMono(q + 1, bd, bd);
    assert (q + 1) * bd == q * bd + bd;
    MulMono(e + 1, bd, bd);
    assert (e + 1) * bd == e * bd + bd;
    assert (q * bd + e) * bd == (q * bd) * bd + e * bd;
    assert (q * bd) * bd == q * d;
    Band(d, q, e * bd);
  }

  /** Box 0 does not exist, yet the guard lets it through and a cell comes back. */
  lemma FirstCellInBoxZero()
    ensures FirstCellInBoxAsWritten(9, 3, 0) == Ok(Some(6))
    ensures FirstCellInBox(3, 0) == Err(PuzzleExcept)
  {
  }

  /** `Sudoku._backup_count`: a whole box row at the first box of a band, else one box. */
  function BackupCount(bd: nat, boxNum: nat): (n: nat)
    requires bd >= 1
    ensures n >= 1
    ensures n == bd <==> boxNum % bd == 1 || bd == 1
  {
    if boxNum % bd == 1 then bd else 1
  }
}

// The Sudoku grid of puzzles/sudoku.py (class Sudoku and the box-aware
// methods of SudokuCell): a square puzzle of side d = bd * bd whose cells are
// also linked box by box, and the removal cascade that keeps a solved value
// out of every cell that can see it.
//
// Arena model: a SudokuCell is index k of the grid's arrays; its
// `next_cell_in_box` is `boxNext[k]` and its `box_number` is `boxNumber[k]`.
// A Python iterator over a context is drained into the sequence of cells it
// yields before the loop that uses it (links never change after the build,
// so the loop sees the same cells).
module SudokuPuzzle {
  import opened Outcome
  import opened Arith
  import opened Cells
  import opened Rings
  import opened Grid
  import opened Boxes
  import opened Propagation

  /** The `CellContext` kinds a Sudoku context can be. */
  datatype ContextKind = RowContext | ColumnContext | BoxContext

  /** Cell j lies in context `number` (1-based) of the given kind. */
  predicate InContext(bd: nat, kind: ContextKind, number: int, j: nat)
    requires bd >= 1
  {
    match kind
    case RowContext => j / (bd * bd) == number - 1
    case ColumnContext => j % (bd * bd) == number - 1
    case BoxContext => BoxOf(bd, j) == number
  }

  /** The number of cells that are not solved (`Cell.solved`). */
  function CountUnsolved(s: seq<set<char>>, placeholder: char): nat
  {
    if s == [] then 0
    else CountUnsolved(s[..|s| - 1], placeholder) + (if IsSolved(s[|s| - 1], placeholder) then 0 else 1)
  }

  lemma {:induction false} CountUnsolvedBounds(s: seq<set<char>>, placeholder: char)
    ensures CountUnsolved(s, placeholder) <= |s|
    ensures CountUnsolved(s, placeholder) == 0 <==> forall k :: 0 <= k < |s| ==> IsSolved(s[k], placeholder)
    ensures CountUnsolved(s, placeholder) == |s| <==> forall k :: 0 <= k < |s| ==> !IsSolved(s[k], placeholder)
    decreases |s|
  {
    if s != [] {
      var n := |s| - 1;
      CountUnsolvedBounds(s[..n], placeholder);
      assert forall k :: 0 <= k < n ==> s[..n][k] == s[k];
    }
  }

  /** `_fill_empty_cells` on one cell: a mutable empty cell gets every value option. */
  function Filled(contents: set<char>, immutable: bool, options: seq<char>, placeholder: char): set<char>
  {
    if IsEmpty(contents, placeholder) && !immutable then CharSet(options) else contents
  }

  /** Cells below index p have been filled, the others are as they were. */
  predicate FilledUpTo(p: nat, k: nat, now: set<char>, before: set<char>, immutable: bool, options: seq<char>,
                       placeholder: char)
  {
    now == if k < p then Filled(before, immutable, options, placeholder) else before
  }

  /** Every cell below index p has been filled, the others are as they were in `before`. */
  ghost predicate FilledBelow(p: nat, c: seq<set<char>>, before: seq<set<char>>, imm: seq<bool>, options: seq<char>,
                              placeholder: char)
  {
    |c| == |before| == |imm| && forall k :: 0 <= k < |c| ==> FilledUpTo(p, k, c[k], before[k], imm[k], options, placeholder)
  }

  /** Filling cell p extends FilledBelow by one cell. */
  lemma FillStep(p: nat, prev: seq<set<char>>, c: seq<set<char>>, before: seq<set<char>>, imm: seq<bool>,
                 options: seq<char>, placeholder: char)
    requires p < |prev| && FilledBelow(p, prev, before, imm, options, placeholder)
    requires c == prev[p := Filled(prev[p], imm[p], options, placeholder)]
    ensures FilledBelow(p + 1, c, before, imm, options, placeholder)
  {
    assert prev[p] == before[p];
  }

  /**
   * What the loop of `remove_values_from_context` keeps after the first t
   * cells of the context: the grid evolved, every cell it solved is
   * resolved, those t cells are cleared of the values, and `changed` says
   * whether the total fell.
   */
  ghost predicate ValuesRemovedSoFar(bd: nat, start: seq<set<char>>, c: seq<set<char>>, imm: seq<bool>, placeholder: char,
                                     cells: seq<nat>, values: set<char>, t: nat, changed: bool)
    requires bd >= 1 && bd * bd * (bd * bd) == |start| == |c| == |imm|
    requires t <= |cells| && forall u :: 0 <= u < |cells| ==> cells[u] < |c|
  {
    && Evolves(start, c, imm, placeholder) && NewlySolvedResolved(bd, start, c, imm, placeholder)
    && (forall u, v :: 0 <= u < t && v in values ==> Resolved(c, imm, placeholder, cells[u], v))
    && (changed <==> Total(c) < Total(start))
    && (!changed ==> c == start)
  }

  /** Clearing one more cell of the context keeps ValuesRemovedSoFar. */
  lemma ValuesRemovedStep(bd: nat, start: seq<set<char>>, prev: seq<set<char>>, c: seq<set<char>>, imm: seq<bool>,
                          placeholder: char, cells: seq<nat>, values: set<char>, t: nat, changed: bool, removed: bool)
    requires bd >= 1 && bd * bd * (bd * bd) == |start| == |prev| == |c| == |imm|
    requires t < |cells| && forall u :: 0 <= u < |cells| ==> cells[u] < |c|
    requires ValuesRemovedSoFar(bd, start, prev, imm, placeholder, cells, values, t, changed)
    requires Evolves(prev, c, imm, placeholder) && NewlySolvedResolved(bd, prev, c, imm, placeholder)
    requires forall v :: v in values ==> Resolved(c, imm, placeholder, cells[t], v)
    requires removed <==> Total(c) < Total(prev)
    requires !removed ==> c == prev
    ensures ValuesRemovedSoFar(bd, start, c, imm, placeholder, cells, values, t + 1, removed || changed)
  {
    forall u, v | 0 <= u < t && v in values ensures Resolved(c, imm, placeholder, cells[u], v) {
      ResolvedStable(prev, c, imm, placeholder, cells[u], v);
    }
    Chain(bd, start, prev, c, imm, placeholder);
  }

  /**
   * What the loop of `remove_value_from_context` keeps after the cells
   * before t: the grid evolved, every cell it solved is resolved, and cells
   * 1..t-1 of the context are cleared of v.
   */
  ghost predicate PeersClearedSoFar(bd: nat, start: seq<set<char>>, c: seq<set<char>>, imm: seq<bool>, placeholder: char,
                                    cells: seq<nat>, v: char, t: nat)
    requires bd >= 1 && bd * bd * (bd * bd) == |start| == |c| == |imm|
    requires t <= |cells| && forall u :: 0 <= u < |cells| ==> cells[u] < |c|
  {
    && Evolves(start, c, imm, placeholder) && NewlySolvedResolved(bd, start, c, imm, placeholder)
    && forall u :: 1 <= u < t ==> Resolved(c, imm, placeholder, cells[u], v)
  }

  /** Clearing cell t of the context keeps PeersClearedSoFar. */
  lemma PeersClearedStep(bd: nat, start: seq<set<char>>, prev: seq<set<char>>, c: seq<set<char>>, imm: seq<bool>,
                         placeholder: char, cells: seq<nat>, v: char, t: nat)
    requires bd >= 1 && bd * bd * (bd * bd) == |start| == |prev| == |c| == |imm|
    requires t < |cells| && forall u :: 0 <= u < |cells| ==> cells[u] < |c|
    requires PeersClearedSoFar(bd, start, prev, imm, placeholder, cells, v, t)
    requires Evolves(prev, c, imm, placeholder) && NewlySolvedResolved(bd, prev, c, imm, placeholder)
    requires Resolved(c, imm, placeholder, cells[t], v)
    ensures PeersClearedSoFar(bd, start, c, imm, placeholder, cells, v, t + 1)
  {
    forall u | 1 <= u < t ensures Resolved(c, imm, placeholder, cells[u], v) {
      ResolvedStable(prev, c, imm, placeholder, cells[u], v);
    }
    Chain(bd, start, prev, c, imm, placeholder);
  }

  class Sudoku {
    const puzzle: Puzzle
    const dimension: nat
    const boxDimension: nat
    const valueOptions: seq<char>
    const boxNext: array<int>
    const boxNumber: array<nat>

    /** The side is a perfect square and the grid has that side (consts only). */
    predicate Shaped()
    {
      && boxDimension >= 1 && dimension == boxDimension * boxDimension
      && puzzle.rows == dimension && puzzle.cols == dimension
    }

    /**
     * What `Sudoku.__init__` sets up for any positive dimension, square or
     * not: a positive box side, arrays with one entry per cell and three
     * distinct link arrays.
     */
    ghost predicate Framed()
      reads this, puzzle
    {
      && dimension >= 1 && boxDimension >= 1
      && puzzle.Valid() && puzzle.rows == dimension && puzzle.cols == dimension
      && boxNext.Length == dimension * dimension && boxNumber.Length == dimension * dimension
      && boxNext != puzzle.rowNext && boxNext != puzzle.colNext
    }

    /** Arrays of the right sizes; box links not yet wired. */
    ghost predicate Allocated()
      reads this, puzzle
    {
      && Shaped() && puzzle.Valid()
      && boxNext.Length == dimension * dimension && boxNumber.Length == dimension * dimension
      && boxNext != puzzle.rowNext && boxNext != puzzle.colNext
    }

    /** A fully built Sudoku: rows, columns and boxes circularly linked, box numbers assigned. */
    ghost predicate Valid()
      reads this, puzzle, puzzle.rowNext, puzzle.colNext, boxNext, boxNumber
    {
      && Allocated() && puzzle.Linked()
      && BoxLinked(boxNext[..], dimension, boxDimension)
      && forall k :: 0 <= k < boxNumber.Length ==> boxNumber[k] == BoxOf(boxDimension, k)
    }

    /**
     * `Sudoku.__init__` for a positive dimension: the box side is the integer
     * square root of the dimension, the grid is dimension x dimension.
     */
    constructor (valueOptions: seq<char>, dimension: nat, placeholder: char)
      requires dimension >= 1
      ensures this.valueOptions == valueOptions && this.dimension == dimension
      ensures boxDimension == Isqrt(dimension) && puzzle.placeholder == placeholder
      ensures Framed() && puzzle.empties == []
      ensures forall k :: 0 <= k < boxNext.Length ==> boxNext[k] == -1
      ensures IsSquare(dimension) ==> Allocated()
      ensures fresh(puzzle) && fresh(puzzle.contents) && fresh(puzzle.immutable)
      ensures fresh(puzzle.rowNext) && fresh(puzzle.colNext) && fresh(boxNext) && fresh(boxNumber)
    {
      this.valueOptions := valueOptions;
      this.dimension := dimension;
      boxDimension := Isqrt(dimension);
      puzzle := new Puzzle(dimension, dimension, placeholder);
      boxNext := new int[dimension * dimension](_ => -1);
      boxNumber := new nat[dimension * dimension](_ => 0);
    }

    /** `copy.deepcopy` of a Sudoku: the same grid, links and box numbers in new objects. */
    constructor Copy(other: Sudoku)
      requires other.Valid()
      ensures Valid() && dimension == other.dimension && boxDimension == other.boxDimension
      ensures valueOptions == other.valueOptions && puzzle.placeholder == other.puzzle.placeholder
      ensures puzzle.contents[..] == other.puzzle.contents[..] && puzzle.immutable[..] == other.puzzle.immutable[..]
      ensures fresh(puzzle) && fresh(puzzle.contents) && fresh(puzzle.immutable)
      ensures fresh(puzzle.rowNext) && fresh(puzzle.colNext) && fresh(boxNext) && fresh(boxNumber)
    {
      valueOptions, dimension, boxDimension := other.valueOptions, other.dimension, other.boxDimension;
      puzzle := new Puzzle.Copy(other.puzzle);
      var n := other.dimension * other.dimension;
      boxNext := new int[n](k reads other.boxNext => if 0 <= k < other.boxNext.Length then other.boxNext[k] else -1);
      boxNumber := new nat[n](k reads other.boxNumber => if 0 <= k < other.boxNumber.Length then other.boxNumber[k] else 0);
    }

    /**
     * `_get_context_iterator` run to the end: the cells of row, column or box
     * `number`, from its first cell. A number outside 1..dimension raises
     * PuzzleExcept (for boxes with the range check the code intends; see
     * `Boxes.FirstCellInBoxAsWritten`).
     */
    function ContextOf(kind: ContextKind, number: int): (r: Result<seq<nat>>)
      requires Shaped()
      ensures r.Ok? <==> 1 <= number <= dimension
      ensures r.Err? ==> r.error == PuzzleExcept
      ensures r.Ok? ==> |r.value| == dimension
      ensures r.Ok? ==> forall j :: j in r.value <==> 0 <= j < dimension * dimension && InContext(boxDimension, kind, number, j)
    {
      var d, bd := dimension, boxDimension;
      match kind
      case RowContext =>
        var first := puzzle.FirstCellInRow(number);
        if first.Err? then Err(first.error)
        else
          RowFromMembers(d, d, first.value);
          Ok(RowFrom(d, d, first.value))
      case ColumnContext =>
        var first := puzzle.FirstCellInColumn(number);
        if first.Err? then Err(first.error)
        else
          ColumnFromMembers(d, d, first.value);
          Ok(ColumnFrom(d, d, first.value))
      case BoxContext =>
        var first := FirstCellInBox(bd, number);
        if first.Err? then Err(first.error)
        else
          BoxFromMembers(bd, first.value);
          InBoxRing(bd, number, first.value);
          Ok(BoxFrom(bd, first.value))
    }

    /** `cell.box_iter()` run to the end, from cell i. */
    method BoxCells(i: nat) returns (cells: seq<nat>)
      requires Valid() && i < dimension * dimension
      ensures cells == BoxFrom(boxDimension, i)
    {
      BoxFromFacts(boxNext[..], boxDimension, i);
      cells := Walk(boxNext, i, BoxFrom(boxDimension, i));
    }

    /** `_get_context_iterator(kind, number)`, walking the links, drained. */
    method GetContext(kind: ContextKind, number: int) returns (r: Result<seq<nat>>)
      requires Valid()
      ensures r == ContextOf(kind, number)
    {
      match kind
      case RowContext =>
        var first := puzzle.FirstCellInRow(number);
        if first.Err? {
          return Err(first.error);
        }
        var cells := puzzle.RowCells(first.value);
        r := Ok(cells);
      case ColumnContext =>
        var first := puzzle.FirstCellInColumn(number);
        if first.Err? {
          return Err(first.error);
        }
        var cells := puzzle.ColumnCells(first.value);
        r := Ok(cells);
      case BoxContext =>
        var first := FirstCellInBox(boxDimension, number);
        if first.Err? {
          return Err(first.error);
        }
        var cells := BoxCells(first.value);
        r := Ok(cells);
    }

    /**
     * `Cell.remove_value_from_context` for cell i over the context `cells`
     * (an iterator's yield, starting at i): fails with CellExcept unless
     * cell i holds exactly one element; otherwise removes that value from
     * every later cell of the context (`RemoveValueFromPeer`).
     */
    method RemoveCellValueFromContext(i: nat, cells: seq<nat>) returns (ok: bool)
      requires Valid() && |cells| > 0 && cells[0] == i
      requires forall t :: 0 <= t < |cells| ==> cells[t] < dimension * dimension
      modifies puzzle.contents
      ensures Evolves(old(puzzle.contents[..]), puzzle.contents[..], puzzle.immutable[..], puzzle.placeholder)
      ensures ok <==> |old(puzzle.contents[i])| == 1
      ensures !ok ==> puzzle.contents[..] == old(puzzle.contents[..])
      ensures ok ==> forall t, v :: 1 <= t < |cells| && v in old(puzzle.contents[i]) ==>
        Resolved(puzzle.contents[..], puzzle.immutable[..], puzzle.placeholder, cells[t], v)
      ensures NewlySolvedResolved(boxDimension, old(puzzle.contents[..]), puzzle.contents[..], puzzle.immutable[..], puzzle.placeholder)
      decreases Total(puzzle.contents[..]), 1
    {
      var c, imm, ph, bd := puzzle.contents, puzzle.immutable, puzzle.placeholder, boxDimension;
      if |c[i]| != 1 {
        return false;
      }
      var v :| v in c[i];
      SubsetSize({v}, c[i]);
      ghost var start := c[..];
      var t := 1;
      EvolvesRefl(start, imm[..], ph);
      while t < |cells|
        invariant 1 <= t <= |cells|
        invariant PeersClearedSoFar(bd, start, c[..], imm[..], ph, cells, v, t)
      {
        ghost var prev := c[..];
        EvolvesTotal(start, prev, imm[..], ph);
        RemoveValueFromPeer(cells[t], v);
        PeersClearedStep(bd, start, prev, c[..], imm[..], ph, cells, v, t);
        t := t + 1;
      }
      ok := true;
    }

    /**
     * One round of the loop in `Cell.remove_value_from_context`: a peer k
     * that does not have exactly one candidate loses v (`Cell.remove_value`,
     * refused by a given clue); when that leaves it one candidate, its own
     * value is removed from its view.
     */
    method RemoveValueFromPeer(k: nat, v: char)
      requires Valid() && k < dimension * dimension
      modifies puzzle.contents
      ensures Evolves(old(puzzle.contents[..]), puzzle.contents[..], puzzle.immutable[..], puzzle.placeholder)
      ensures Resolved(puzzle.contents[..], puzzle.immutable[..], puzzle.placeholder, k, v)
      ensures NewlySolvedResolved(boxDimension, old(puzzle.contents[..]), puzzle.contents[..], puzzle.immutable[..], puzzle.placeholder)
      decreases Total(puzzle.contents[..]), 0
    {
      var c, imm, ph, bd := puzzle.contents, puzzle.immutable, puzzle.placeholder, boxDimension;
      if Len(c[k], ph) == 1 {
        return;
      }
      ghost var prev := c[..];
      if !imm[k] {
        c[k] := c[k] - {v};
      }
      ghost var mid := c[..];
      assert mid == prev[k := c[k]];
      if Len(c[k], ph) == 1 {
        SubsetSize(mid[k], prev[k]);
        TotalUpdate(prev, k, mid[k]);
        var solved := RemoveCellValueFromView(k);
      }
      SolvedStep(bd, prev, mid, c[..], imm[..], ph, k);
    }

    /**
     * `SudokuCell.remove_value_from_view`: the same for the row, then the
     * column, then the box of cell i. An error in one context ends the call.
     */
    method RemoveCellValueFromView(i: nat) returns (ok: bool)
      requires Valid() && i < dimension * dimension
      modifies puzzle.contents
      ensures Evolves(old(puzzle.contents[..]), puzzle.contents[..], puzzle.immutable[..], puzzle.placeholder)
      ensures |old(puzzle.contents[i])| != 1 ==> !ok && puzzle.contents[..] == old(puzzle.contents[..])
      ensures Len(old(puzzle.contents[i]), puzzle.placeholder) == 1 ==>
        (ok && PeersResolved(boxDimension, puzzle.contents[..], puzzle.immutable[..], puzzle.placeholder, i))
      ensures NewlySolvedResolved(boxDimension, old(puzzle.contents[..]), puzzle.contents[..], puzzle.immutable[..], puzzle.placeholder)
      decreases Total(puzzle.contents[..]), 2
    {
      var c, imm, ph, bd, d := puzzle.contents, puzzle.immutable, puzzle.placeholder, boxDimension, dimension;
      ghost var s0 := c[..];
      ViewWalks(bd, i);
      var row := puzzle.RowCells(i);
      ok := RemoveCellValueFromContext(i, row);
      if !ok {
        return;
      }
      ghost var s1 := c[..];
      EvolvesTotal(s0, s1, imm[..], ph);
      var column := puzzle.ColumnCells(i);
      ok := RemoveCellValueFromContext(i, column);
      if !ok {
        return;
      }
      ghost var s2 := c[..];
      Chain(bd, s0, s1, s2, imm[..], ph);
      var box := BoxCells(i);
      ok := RemoveCellValueFromContext(i, box);
      ghost var s3 := c[..];
      Chain(bd, s0, s2, s3, imm[..], ph);
      if Len(s0[i], ph) == 1 {
        ghost var v :| v in s0[i];
        SubsetSize({v}, s0[i]);
        assert s3[i] == s0[i];
        ViewResolved(bd, s1, s2, s3, imm[..], ph, i, row, column, box, v);
      }
    }

    /**
     * One round of the loop in `Sudoku.remove_values_from_context`: a cell
     * without exactly one candidate loses the values (`Cell.remove_values`,
     * refused by a given clue); if anything was removed in this context so
     * far (`changed`) and the cell is left with one candidate, its value
     * leaves its view. `removed` is what `remove_values` reports.
     */
    method RemoveValuesFromCell(k: nat, values: set<char>, changed: bool) returns (removed: bool)
      requires Valid() && k < dimension * dimension
      modifies puzzle.contents
      ensures Evolves(old(puzzle.contents[..]), puzzle.contents[..], puzzle.immutable[..], puzzle.placeholder)
      ensures forall v :: v in values ==> Resolved(puzzle.contents[..], puzzle.immutable[..], puzzle.placeholder, k, v)
      ensures NewlySolvedResolved(boxDimension, old(puzzle.contents[..]), puzzle.contents[..], puzzle.immutable[..], puzzle.placeholder)
      ensures removed <==> Total(puzzle.contents[..]) < Total(old(puzzle.contents[..]))
      ensures !removed ==> puzzle.contents[..] == old(puzzle.contents[..])
    {
      var c, imm, ph, bd := puzzle.contents, puzzle.immutable, puzzle.placeholder, boxDimension;
      ghost var prev := c[..];
      if Len(c[k], ph) == 1 {
        return false;
      }
      removed := !imm[k] && c[k] * values != {};
      if !imm[k] {
        c[k] := c[k] - values;
      }
      ghost var mid := c[..];
      assert mid == prev[k := if imm[k] then prev[k] else prev[k] - values];
      var called := (changed || removed) && Len(c[k], ph) == 1;
      if called {
        var solved := RemoveCellValueFromView(k);
      }
      CellRemoval(bd, prev, mid, c[..], imm[..], ph, k, values, changed, removed, called);
    }

    /**
     * `Sudoku.remove_values_from_context` over the cells a context iterator
     * yields: every cell of the context that is not a given clue and not
     * solved loses the values, solved cells spread their value, and the
     * result says whether any candidate was removed.
     */
    method RemoveValuesFromContext(cells: seq<nat>, values: set<char>) returns (changed: bool)
      requires Valid() && forall t :: 0 <= t < |cells| ==> cells[t] < dimension * dimension
      modifies puzzle.contents
      ensures Evolves(old(puzzle.contents[..]), puzzle.contents[..], puzzle.immutable[..], puzzle.placeholder)
      ensures forall t, v :: 0 <= t < |cells| && v in values ==>
        Resolved(puzzle.contents[..], puzzle.immutable[..], puzzle.placeholder, cells[t], v)
      ensures NewlySolvedResolved(boxDimension, old(puzzle.contents[..]), puzzle.contents[..], puzzle.immutable[..], puzzle.placeholder)
      ensures changed <==> Total(puzzle.contents[..]) < Total(old(puzzle.contents[..]))
      ensures !changed ==> puzzle.contents[..] == old(puzzle.contents[..])
    {
      var c, imm, ph, bd := puzzle.contents, puzzle.immutable, puzzle.placeholder, boxDimension;
      ghost var start := c[..];
      changed := false;
      var t := 0;
      EvolvesRefl(start, imm[..], ph);
      while t < |cells|
        invariant 0 <= t <= |cells|
        invariant ValuesRemovedSoFar(bd, start, c[..], imm[..], ph, cells, values, t, changed)
      {
        ghost var prev := c[..];
        var removed := RemoveValuesFromCell(cells[t], values, changed);
        ValuesRemovedStep(bd, start, prev, c[..], imm[..], ph, cells, values, t, changed, removed);
        changed := removed || changed;
        t := t + 1;
      }
    }

    /**
     * `Sudoku.remove_value_from_context`: the same for one value over row,
     * column or box `number`; an unknown number raises PuzzleExcept.
     * (`Cell.remove_value(v)` and `Cell.remove_values([v])` do the same.)
     */
    method RemoveValueFromContext(kind: ContextKind, number: int, value: char) returns (r: Result<bool>)
      requires Valid()
      modifies puzzle.contents
      ensures Evolves(old(puzzle.contents[..]), puzzle.contents[..], puzzle.immutable[..], puzzle.placeholder)
      ensures r.Err? <==> ContextOf(kind, number).Err?
      ensures r.Err? ==> r.error == PuzzleExcept && puzzle.contents[..] == old(puzzle.contents[..])
      ensures r.Ok? ==> forall j :: 0 <= j < dimension * dimension && InContext(boxDimension, kind, number, j) ==>
        Resolved(puzzle.contents[..], puzzle.immutable[..], puzzle.placeholder, j, value)
      ensures NewlySolvedResolved(boxDimension, old(puzzle.contents[..]), puzzle.contents[..], puzzle.immutable[..], puzzle.placeholder)
      ensures r.Ok? ==> (r.value <==> Total(puzzle.contents[..]) < Total(old(puzzle.contents[..])))
    {
      var context := GetContext(kind, number);
      if context.Err? {
        EvolvesRefl(puzzle.contents[..], puzzle.immutable[..], puzzle.placeholder);
        return Err(context.error);
      }
      var cells := context.value;
      forall t | 0 <= t < |cells| ensures cells[t] < dimension * dimension {
        assert cells[t] in cells;
      }
      var changed := RemoveValuesFromContext(cells, {value});
      forall j | 0 <= j < dimension * dimension && InContext(boxDimension, kind, number, j)
        ensures Resolved(puzzle.contents[..], puzzle.immutable[..], puzzle.placeholder, j, value)
      {
        var t :| 0 <= t < |cells| && cells[t] == j;
      }
      r := Ok(changed);
    }

    /**
     * `cell.set_immutable(flag)`, which the solver calls but no class defines;
     * modelled as the evident intent, assigning the cell's `immutable` flag.
     */
    method SetImmutable(k: nat, flag: bool)
      requires Valid() && k < dimension * dimension
      modifies puzzle.immutable
      ensures puzzle.immutable[..] == old(puzzle.immutable[..])[k := flag]
    {
      puzzle.immutable[k] := flag;
    }

    /**
     * `Sudoku._fill_empty_cells`, row by row: every empty cell that is not a
     * given clue gets all the value options as candidates.
     */
    method FillEmptyCells()
      requires Valid()
      modifies puzzle.contents
      ensures forall k :: 0 <= k < dimension * dimension ==>
        puzzle.contents[k] == Filled(old(puzzle.contents[k]), puzzle.immutable[k], valueOptions, puzzle.placeholder)
      ensures CharSet(valueOptions) != {puzzle.placeholder} ==>
        forall k :: 0 <= k < dimension * dimension && !puzzle.immutable[k] ==> !IsEmpty(puzzle.contents[k], puzzle.placeholder)
    {
      var d := dimension;
      ghost var s0, im := puzzle.contents[..], puzzle.immutable[..];
      var r, base := 0, 0;
      while r < d
        invariant 0 <= r <= d && base == Idx(d, r, 0)
        invariant FilledBelow(base, puzzle.contents[..], s0, im, valueOptions, puzzle.placeholder)
      {
        FillRow(r, s0, im);
        IdxNextRow(d, r);
        r, base := r + 1, base + d;
      }
      forall k | 0 <= k < d * d
        ensures puzzle.contents[k] == Filled(s0[k], im[k], valueOptions, puzzle.placeholder)
      {
        assert FilledUpTo(base, k, puzzle.contents[..][k], s0[k], im[k], valueOptions, puzzle.placeholder);
      }
    }

    /** One pass of the outer loop of `_fill_empty_cells`: row r, walked from its first cell. */
    method FillRow(r: nat, ghost s0: seq<set<char>>, ghost im: seq<bool>)
      requires Valid() && r < dimension && im == puzzle.immutable[..] && |s0| == dimension * dimension
      requires FilledBelow(Idx(dimension, r, 0), puzzle.contents[..], s0, im, valueOptions, puzzle.placeholder)
      modifies puzzle.contents
      ensures FilledBelow(Idx(dimension, r, 0) + dimension, puzzle.contents[..], s0, im, valueOptions, puzzle.placeholder)
    {
      var c, imm, ph, d := puzzle.contents, puzzle.immutable, puzzle.placeholder, dimension;
      RowFromFirst(d, d, r);
      var first := puzzle.FirstCellInRow(r + 1);
      var cells := puzzle.RowCells(first.value);
      var t := 0;
      while t < |cells|
        invariant 0 <= t <= d
        invariant FilledBelow(first.value + t, c[..], s0, im, valueOptions, ph)
      {
        var k := cells[t];
        IdxBound(d, d, r, t);
        ghost var prev := c[..];
        if IsEmpty(c[k], ph) {
          if !imm[k] {
            c[k] := CharSet(valueOptions);
          }
        }
        FillStep(k, prev, c[..], s0, im, valueOptions, ph);
        t := t + 1;
      }
    }

    /**
     * `Sudoku.normalize`, row by row: every cell with exactly one candidate
     * has its value removed from its view. Afterwards no solved cell's value
     * is left in an unsolved, mutable cell it can see.
     */
    method Normalize()
      requires Valid()
      modifies puzzle.contents
      ensures Evolves(old(puzzle.contents[..]), puzzle.contents[..], puzzle.immutable[..], puzzle.placeholder)
      ensures forall k :: 0 <= k < dimension * dimension && Len(puzzle.contents[k], puzzle.placeholder) == 1 ==>
        PeersResolved(boxDimension, puzzle.contents[..], puzzle.immutable[..], puzzle.placeholder, k)
    {
      var c, imm, ph, bd, d := puzzle.contents, puzzle.immutable, puzzle.placeholder, boxDimension, dimension;
      ghost var start := c[..];
      var r, base := 0, 0;
      while r < d
        invariant 0 <= r <= d && base == Idx(d, r, 0)
        invariant Evolves(start, c[..], imm[..], ph)
        invariant SolvedBelowResolved(bd, start, c[..], imm[..], ph, base)
      {
        NormalizeRow(r, start);
        IdxNextRow(d, r);
        r, base := r + 1, base + d;
      }
    }

    /** One pass of the outer loop of `normalize`: row r, walked from its first cell. */
    method NormalizeRow(r: nat, ghost start: seq<set<char>>)
      requires Valid() && r < dimension
      requires Evolves(start, puzzle.contents[..], puzzle.immutable[..], puzzle.placeholder)
      requires SolvedBelowResolved(boxDimension, start, puzzle.contents[..], puzzle.immutable[..], puzzle.placeholder, Idx(dimension, r, 0))
      modifies puzzle.contents
      ensures Evolves(start, puzzle.contents[..], puzzle.immutable[..], puzzle.placeholder)
      ensures SolvedBelowResolved(boxDimension, start, puzzle.contents[..], puzzle.immutable[..], puzzle.placeholder, Idx(dimension, r, 0) + dimension)
    {
      var c, imm, ph, bd, d := puzzle.contents, puzzle.immutable, puzzle.placeholder, boxDimension, dimension;
      RowFromFirst(d, d, r);
      var first := puzzle.FirstCellInRow(r + 1);
      var cells := puzzle.RowCells(first.value);
      var t := 0;
      while t < |cells|
        invariant 0 <= t <= d
        invariant Evolves(start, c[..], imm[..], ph)
        invariant SolvedBelowResolved(bd, start, c[..], imm[..], ph, first.value + t)
      {
        var k := cells[t];
        IdxBound(d, d, r, t);
        ghost var prev := c[..];
        if Len(c[k], ph) == 1 {
          var solved := RemoveCellValueFromView(k);
        }
        NormalizeStep(bd, start, prev, c[..], imm[..], ph, k);
        EvolvesTrans(start, prev, c[..], imm[..], ph);
        t := t + 1;
      }
    }

    /** `Sudoku.unsolved_cell_count`: the cells that are not solved, counted row by row. */
    method UnsolvedCellCount() returns (count: nat)
      requires Valid()
      ensures count == CountUnsolved(puzzle.contents[..], puzzle.placeholder)
    {
      var d := dimension;
      ghost var s := puzzle.contents[..];
      count := 0;
      var row, base := 0, 0;
      while row < d
        invariant 0 <= row <= d && base == Idx(d, row, 0) && base <= |s|
        invariant count == CountUnsolved(s[..base], puzzle.placeholder)
      {
        var n := CountRow(row, base);
        count := count + n;
        IdxNextRow(d, row);
        row, base := row + 1, base + d;
      }
      assert s[..base] == s;
    }

    /** The inner loop of `unsolved_cell_count`: how much row `row` adds to the count. */
    method CountRow(row: nat, base: nat) returns (n: nat)
      requires Valid() && row < dimension && base == Idx(dimension, row, 0)
      ensures base + dimension <= dimension * dimension
      ensures CountUnsolved(puzzle.contents[..][..base], puzzle.placeholder) + n
        == CountUnsolved(puzzle.contents[..][..base + dimension], puzzle.placeholder)
    {
      var d, ph := dimension, puzzle.placeholder;
      ghost var s := puzzle.contents[..];
      IdxBound(d, d, row, d - 1);
      n := 0;
      var col := 0;
      while col < d
        invariant 0 <= col <= d
        invariant CountUnsolved(s[..base], ph) + n == CountUnsolved(s[..base + col], ph)
      {
        assert s[..base + col + 1][..base + col] == s[..base + col];
        if !IsSolved(puzzle.contents[base + col], ph) {
          n := n + 1;
        }
        col := col + 1;
      }
    }

    /**
     * `SudokuCell.value_exists_within_view`: does the value occur in the row,
     * the column or the box of cell i (cell i included)?
     */
    method ValueExistsWithinView(i: nat, value: char) returns (found: bool)
      requires Valid() && i < dimension * dimension
      ensures found <==> exists j :: 0 <= j < dimension * dimension && InView(boxDimension, i, j) && value in puzzle.contents[j]
    {
      var bd := boxDimension;
      ViewWalks(bd, i);
      var row := puzzle.RowCells(i);
      found := puzzle.ValueInContext(row, value);
      if found {
        var t :| 0 <= t < |row| && value in puzzle.contents[row[t]];
        assert row[t] in row;
        return;
      }
      var column := puzzle.ColumnCells(i);
      found := puzzle.ValueInContext(column, value);
      if found {
        var t :| 0 <= t < |column| && value in puzzle.contents[column[t]];
        assert column[t] in column;
        return;
      }
      var box := BoxCells(i);
      found := puzzle.ValueInContext(box, value);
      if found {
        var t :| 0 <= t < |box| && value in puzzle.contents[box[t]];
        assert box[t] in box;
        return;
      }
      ViewUnion(bd, i, row, column, box);
      forall j | 0 <= j < dimension * dimension && InView(bd, i, j) ensures value !in puzzle.contents[j] {
        if j in row {
          var t :| 0 <= t < |row| && row[t] == j;
        } else if j in column {
          var t :| 0 <= t < |column| && column[t] == j;
        } else {
          var t :| 0 <= t < |box| && box[t] == j;
        }
      }
    }

    /**
     * `SudokuCell.set_if_no_conflict`: an empty cell (length 0) takes the
     * value when no cell in its view holds it. The cell's immutability is
     * not consulted. The source stores the bare value rather than a set of
     * candidates, so a later set operation on that cell fails there; the
     * model stores the one-element set `{value}`.
     */
    method SetIfNoConflict(i: nat, value: char) returns (placed: bool)
      requires Valid() && i < dimension * dimension
      modifies puzzle.contents
      ensures placed <==> (Len(old(puzzle.contents[i]), puzzle.placeholder) == 0
        && !exists j :: 0 <= j < dimension * dimension && InView(boxDimension, i, j) && value in old(puzzle.contents[j]))
      ensures puzzle.contents[..] == old(puzzle.contents[..])[i := if placed then {value} else old(puzzle.contents[i])]
      ensures placed ==> forall j :: 0 <= j < dimension * dimension && InView(boxDimension, i, j) && value in puzzle.contents[j] ==> j == i
    {
      if Len(puzzle.contents[i], puzzle.placeholder) != 0 {
        return false;
      }
      var conflict := ValueExistsWithinView(i, value);
      if conflict {
        return false;
      }
      puzzle.contents[i] := {value};
      placed := true;
    }
  }
}

/**
 * The puzzle generator of puzzles/sudoku.py: `eligible_box_cells`, the
 * backtracking `_place_value` and `fill`. A value is placed box by box, from
 * box 1 to the last, in a cell whose row and column do not hold it yet; a
 * box that cannot take it sends the search back a number of boxes that
 * depends on where the box sits (`_backup_count`).
 *
 * Randomness comes from a `Randomness.Rng` the caller supplies; nothing is
 * promised about which cells are picked, only about what the picks do.
 */
module Generator {
  import opened Outcome
  import opened Cells
  import opened Boxes
  import opened Grid
  import opened SudokuPuzzle
  import opened Propagation
  import opened SudokuSolving
  import opened Randomness

  /** `PlaceStatus`. */
  datatype PlaceStatus = Passed | Failed

  /** Some cell of cell k's row holds v (k's own cell included). */
  ghost predicate RowHolds(d: nat, c: seq<set<char>>, k: nat, v: char)
    requires d >= 1
  {
    exists j :: 0 <= j < |c| && j / d == k / d && v in c[j]
  }

  /** Some cell of cell k's column holds v (k's own cell included). */
  ghost predicate ColumnHolds(d: nat, c: seq<set<char>>, k: nat, v: char)
    requires d >= 1
  {
    exists j :: 0 <= j < |c| && j % d == k % d && v in c[j]
  }

  /** The first of `cells` that holds v: the box scan returns it alone. */
  function FirstHolder(c: seq<set<char>>, cells: seq<nat>, v: char): (r: Option<nat>)
    requires InGrid(cells, |c|)
    ensures r.None? <==> forall t :: 0 <= t < |cells| ==> v !in c[cells[t]]
    ensures r.Some? ==> r.value in cells && v in c[r.value]
  {
    if cells == [] then None
    else if v in c[cells[0]] then Some(cells[0])
    else FirstHolder(c, cells[1..], v)
  }

  /** No cell before the one FirstHolder picks holds v. */
  lemma {:induction false} FirstHolderIsFirst(c: seq<set<char>>, cells: seq<nat>, v: char)
    requires InGrid(cells, |c|) && FirstHolder(c, cells, v).Some?
    ensures exists t :: (0 <= t < |cells| && cells[t] == FirstHolder(c, cells, v).value
                         && forall t' :: 0 <= t' < t ==> v !in c[cells[t']])
  {
    if v !in c[cells[0]] {
      FirstHolderIsFirst(c, cells[1..], v);
      var t :| 0 <= t < |cells[1..]| && cells[1..][t] == FirstHolder(c, cells, v).value
        && forall t' :: 0 <= t' < t ==> v !in c[cells[1..][t']];
      assert cells[t + 1] == FirstHolder(c, cells, v).value;
      forall t' | 0 <= t' < t + 1 ensures v !in c[cells[t']] {
        if t' > 0 {
          assert cells[t'] == cells[1..][t' - 1];
        }
      }
    } else {
      assert cells[0] == FirstHolder(c, cells, v).value;
    }
  }

  /** The empty cells among `cells`, in order. */
  function OpenCells(c: seq<set<char>>, cells: seq<nat>, placeholder: char): (r: seq<nat>)
    requires InGrid(cells, |c|)
    ensures InGrid(r, |c|)
    ensures forall k :: k in r <==> k in cells && IsEmpty(c[k], placeholder)
  {
    if cells == [] then []
    else
      var rest := OpenCells(c, cells[1..], placeholder);
      assert forall k :: k in cells <==> k == cells[0] || k in cells[1..];
      if IsEmpty(c[cells[0]], placeholder) then [cells[0]] + rest else rest
  }

  /** The cells among `cells` whose row and column do not hold v, in order. */
  ghost function Unblocked(d: nat, c: seq<set<char>>, cells: seq<nat>, v: char): (r: seq<nat>)
    requires d >= 1
    ensures forall k :: k in r <==> k in cells && !RowHolds(d, c, k, v) && !ColumnHolds(d, c, k, v)
  {
    if cells == [] then []
    else
      var rest := Unblocked(d, c, cells[1..], v);
      assert forall k :: k in cells <==> k == cells[0] || k in cells[1..];
      if !RowHolds(d, c, cells[0], v) && !ColumnHolds(d, c, cells[0], v) then [cells[0]] + rest else rest
  }

  /** What `eligible_box_cells` returns for the box whose cells (in iterator order) are `box`. */
  ghost function Eligible(d: nat, c: seq<set<char>>, box: seq<nat>, v: char, placeholder: char): (r: seq<nat>)
    requires d >= 1 && InGrid(box, |c|)
    ensures forall k :: k in r ==> k in box
    ensures InGrid(r, |c|)
  {
    match FirstHolder(c, box, v)
    case Some(k) => [k]
    case None =>
      var open := OpenCells(c, box, placeholder);
      var r := Unblocked(d, c, open, v);
      assert forall t :: 0 <= t < |r| ==> r[t] in open;
      r
  }

  /**
   * What the eligible cells are: cells of the box; when the box already
   * holds v, one cell that holds it; otherwise exactly the empty cells of
   * the box whose row and column are free of v.
   */
  lemma EligibleMeaning(d: nat, c: seq<set<char>>, box: seq<nat>, v: char, placeholder: char)
    requires d >= 1 && InGrid(box, |c|)
    ensures (exists t :: 0 <= t < |box| && v in c[box[t]]) ==>
      |Eligible(d, c, box, v, placeholder)| == 1 && v in c[Eligible(d, c, box, v, placeholder)[0]]
    ensures (forall t :: 0 <= t < |box| ==> v !in c[box[t]]) ==>
      forall k :: k in Eligible(d, c, box, v, placeholder) <==>
        k in box && IsEmpty(c[k], placeholder) && !RowHolds(d, c, k, v) && !ColumnHolds(d, c, k, v)
  {
    var first := FirstHolder(c, box, v);
    if first.Some? {
      assert first.value in box;
    }
  }

  /**
   * When the box does not already hold v (the eligible list is not that one
   * holder), every eligible cell is an empty cell of the box whose row,
   * column and box are free of v.
   */
  lemma EligibleUnblocked(bd: nat, c: seq<set<char>>, box: seq<nat>, boxNum: nat, v: char, placeholder: char)
    requires bd >= 1 && |c| == bd * bd * (bd * bd) && InGrid(box, |c|)
    requires forall j :: j in box <==> 0 <= j < |c| && BoxOf(bd, j) == boxNum
    ensures var e := Eligible(bd * bd, c, box, v, placeholder);
      !(|e| == 1 && v in c[e[0]]) ==>
        && !BoxHolds(bd, c, boxNum, v)
        && forall k :: k in e ==>
             k in box && IsEmpty(c[k], placeholder) && !RowHolds(bd * bd, c, k, v) && !ColumnHolds(bd * bd, c, k, v)
  {
    EligibleMeaning(bd * bd, c, box, v, placeholder);
    if BoxHolds(bd, c, boxNum, v) {
      var j :| 0 <= j < |c| && BoxOf(bd, j) == boxNum && v in c[j];
      var t :| 0 <= t < |box| && box[t] == j;
    }
  }

  /** Walking the row's cells from cell k meets v exactly when the row holds it. */
  lemma RowWalk(d: nat, c: seq<set<char>>, k: nat, v: char, cells: seq<nat>)
    requires d >= 1 && |c| == d * d && InGrid(cells, |c|)
    requires forall j :: j in cells <==> 0 <= j < d * d && j / d == k / d
    ensures RowHolds(d, c, k, v) <==> exists t :: 0 <= t < |cells| && v in c[cells[t]]
  {
    if RowHolds(d, c, k, v) {
      var j :| 0 <= j < |c| && j / d == k / d && v in c[j];
      assert j in cells;
      var t :| 0 <= t < |cells| && cells[t] == j;
    }
    if exists t :: 0 <= t < |cells| && v in c[cells[t]] {
      var t :| 0 <= t < |cells| && v in c[cells[t]];
      assert cells[t] in cells;
    }
  }

  /** Walking the column's cells from cell k meets v exactly when the column holds it. */
  lemma ColumnWalk(d: nat, c: seq<set<char>>, k: nat, v: char, cells: seq<nat>)
    requires d >= 1 && |c| == d * d && InGrid(cells, |c|)
    requires forall j :: j in cells <==> 0 <= j < d * d && j % d == k % d
    ensures ColumnHolds(d, c, k, v) <==> exists t :: 0 <= t < |cells| && v in c[cells[t]]
  {
    if ColumnHolds(d, c, k, v) {
      var j :| 0 <= j < |c| && j % d == k % d && v in c[j];
      assert j in cells;
      var t :| 0 <= t < |cells| && cells[t] == j;
    }
    if exists t :: 0 <= t < |cells| && v in c[cells[t]] {
      var t :| 0 <= t < |cells| && v in c[cells[t]];
      assert cells[t] in cells;
    }
  }

  /** `value_in_context(row_iter(), v)` from cell k. */
  method InRow(s: Sudoku, k: nat, v: char) returns (found: bool)
    requires s.Valid() && k < s.dimension * s.dimension
    ensures found <==> RowHolds(s.dimension, s.puzzle.contents[..], k, v)
  {
    ViewWalks(s.boxDimension, k);
    var cells := s.puzzle.RowCells(k);
    found := s.puzzle.ValueInContext(cells, v);
    RowWalk(s.dimension, s.puzzle.contents[..], k, v, cells);
  }

  /** `value_in_context(column_iter(), v)` from cell k. */
  method InColumn(s: Sudoku, k: nat, v: char) returns (found: bool)
    requires s.Valid() && k < s.dimension * s.dimension
    ensures found <==> ColumnHolds(s.dimension, s.puzzle.contents[..], k, v)
  {
    ViewWalks(s.boxDimension, k);
    var cells := s.puzzle.ColumnCells(k);
    found := s.puzzle.ValueInContext(cells, v);
    ColumnWalk(s.dimension, s.puzzle.contents[..], k, v, cells);
  }

  /** One step of a scan from position t. */
  lemma ScanStep(c: seq<set<char>>, box: seq<nat>, t: nat, v: char, placeholder: char)
    requires InGrid(box, |c|) && t < |box|
    ensures FirstHolder(c, box[t..], v) == if v in c[box[t]] then Some(box[t]) else FirstHolder(c, box[t + 1..], v)
    ensures OpenCells(c, box[t..], placeholder) ==
      (if IsEmpty(c[box[t]], placeholder) then [box[t]] else []) + OpenCells(c, box[t + 1..], placeholder)
  {
    assert box[t..][1..] == box[t + 1..];
  }

  /** What a box scan from position t has established. */
  ghost predicate ScanSoFar(c: seq<set<char>>, box: seq<nat>, v: char, placeholder: char, holder: Option<nat>, open: seq<nat>, t: nat)
    requires InGrid(box, |c|) && t <= |box|
  {
    (holder.None? ==> FirstHolder(c, box, v) == FirstHolder(c, box[t..], v)
                      && OpenCells(c, box, placeholder) == open + OpenCells(c, box[t..], placeholder))
    && (holder.Some? ==> holder == FirstHolder(c, box, v))
  }

  /** Looking at the cell at position t keeps ScanSoFar. */
  lemma ScanAdvance(c: seq<set<char>>, box: seq<nat>, v: char, placeholder: char, open: seq<nat>, t: nat)
    requires InGrid(box, |c|) && t < |box| && ScanSoFar(c, box, v, placeholder, None, open, t)
    ensures v in c[box[t]] ==> ScanSoFar(c, box, v, placeholder, Some(box[t]), open, t)
    ensures v !in c[box[t]] ==>
      ScanSoFar(c, box, v, placeholder, None, open + (if IsEmpty(c[box[t]], placeholder) then [box[t]] else []), t + 1)
  {
    ScanStep(c, box, t, v, placeholder);
    if v !in c[box[t]] {
      var extra := if IsEmpty(c[box[t]], placeholder) then [box[t]] else [];
      var rest := OpenCells(c, box[t + 1..], placeholder);
      assert OpenCells(c, box, placeholder) == open + (extra + rest);
      assert open + (extra + rest) == (open + extra) + rest;
    }
  }

  /** The box scan: the first cell holding v, and otherwise the empty cells met. */
  method ScanBox(s: Sudoku, box: seq<nat>, v: char) returns (holder: Option<nat>, open: seq<nat>)
    requires InGrid(box, s.puzzle.contents.Length)
    ensures holder == FirstHolder(s.puzzle.contents[..], box, v)
    ensures holder.None? ==> open == OpenCells(s.puzzle.contents[..], box, s.puzzle.placeholder)
  {
    ghost var c := s.puzzle.contents[..];
    holder, open := None, [];
    var t := 0;
    while t < |box| && holder.None?
      invariant 0 <= t <= |box|
      invariant ScanSoFar(c, box, v, s.puzzle.placeholder, holder, open, t)
      decreases |box| - t, if holder.None? then 1 else 0
    {
      var k := box[t];
      assert s.puzzle.contents[k] == c[k];
      ScanAdvance(c, box, v, s.puzzle.placeholder, open, t);
      if v in s.puzzle.contents[k] {
        holder := Some(k);
      } else {
        if IsEmpty(s.puzzle.contents[k], s.puzzle.placeholder) {
          open := open + [k];
        }
        t := t + 1;
      }
    }
    if holder.None? {
      assert box[t..] == [];
    }
  }

  /** The backward filter: drop the cells whose row or column holds v. */
  method DropBlocked(s: Sudoku, open: seq<nat>, v: char) returns (kept: seq<nat>)
    requires s.Valid() && InGrid(open, s.dimension * s.dimension)
    ensures kept == Unblocked(s.dimension, s.puzzle.contents[..], open, v)
  {
    ghost var c := s.puzzle.contents[..];
    var d := s.dimension;
    kept := open;
    var ndx := |open| - 1;
    assert open[ndx + 1..] == [];
    while ndx >= 0
      invariant -1 <= ndx < |open|
      invariant kept == open[..ndx + 1] + Unblocked(d, c, open[ndx + 1..], v)
    {
      ghost var tail := Unblocked(d, c, open[ndx + 1..], v);
      assert open[ndx..][1..] == open[ndx + 1..];
      assert open[..ndx + 1] == open[..ndx] + [open[ndx]];
      var blocked := InRow(s, open[ndx], v);
      if !blocked {
        blocked := InColumn(s, open[ndx], v);
      }
      if blocked {
        kept := kept[..ndx] + kept[ndx + 1..];
        assert kept == open[..ndx] + tail;
      }
      ndx := ndx - 1;
    }
    assert open[..0] == [] && open[0..] == open;
  }

  /**
   * `eligible_box_cells(box_num, value)`: PuzzleExcept for a box number
   * outside 1..dimension; otherwise the cells `Eligible` describes.
   */
  method EligibleBoxCells(s: Sudoku, boxNum: int, v: char) returns (r: Result<seq<nat>>)
    requires s.Valid()
    ensures r.Err? <==> !(1 <= boxNum <= s.dimension)
    ensures r.Err? ==> r.error == PuzzleExcept
    ensures r.Ok? ==> InGrid(s.ContextOf(BoxContext, boxNum).value, |s.puzzle.contents[..]|)
    ensures r.Ok? ==> r.value == Eligible(s.dimension, s.puzzle.contents[..], s.ContextOf(BoxContext, boxNum).value,
      v, s.puzzle.placeholder)
  {
    var box := s.GetContext(BoxContext, boxNum);
    if box.Err? {
      return Err(box.error);
    }
    ContextInGrid(s, BoxContext, boxNum);
    var holder, open := ScanBox(s, box.value, v);
    if holder.Some? {
      r := Ok([holder.value]);
    } else {
      var kept := DropBlocked(s, open, v);
      r := Ok(kept);
    }
  }

  /**
   * A placement run of value v: every cell either kept its candidates or was
   * an empty mutable cell that now holds v alone.
   */
  predicate Placed(a: seq<set<char>>, b: seq<set<char>>, imm: seq<bool>, v: char, placeholder: char)
  {
    && |a| == |b| == |imm|
    && forall k :: 0 <= k < |a| ==> b[k] == a[k] || (a[k] == {placeholder} && b[k] == {v} && !imm[k])
  }

  /** Every given clue holds something other than the placeholder. */
  predicate CluesFilled(c: seq<set<char>>, imm: seq<bool>, placeholder: char)
    requires |c| == |imm|
  {
    forall k :: 0 <= k < |c| && imm[k] ==> !IsEmpty(c[k], placeholder)
  }

  /** Box b holds v somewhere. */
  ghost predicate BoxHolds(bd: nat, c: seq<set<char>>, b: nat, v: char)
    requires bd >= 1
  {
    exists k :: 0 <= k < |c| && BoxOf(bd, k) == b && v in c[k]
  }

  /** Every box from `from` to the last holds v. */
  ghost predicate Covered(bd: nat, c: seq<set<char>>, v: char, from: nat)
    requires bd >= 1
  {
    forall b :: from <= b <= bd * bd ==> BoxHolds(bd, c, b, v)
  }

  lemma PlacedRefl(a: seq<set<char>>, imm: seq<bool>, v: char, placeholder: char)
    requires |a| == |imm|
    ensures Placed(a, a, imm, v, placeholder)
  {
  }

  /** Two placement runs of the same value make one. */
  lemma PlacedTrans(a: seq<set<char>>, b: seq<set<char>>, c: seq<set<char>>, imm: seq<bool>, v: char, placeholder: char)
    requires Placed(a, b, imm, v, placeholder) && Placed(b, c, imm, v, placeholder)
    ensures Placed(a, c, imm, v, placeholder)
  {
  }

  /** A placement run leaves the clues alone, so they stay filled, and puts one value in a cell. */
  lemma PlacedKeepsClues(a: seq<set<char>>, b: seq<set<char>>, imm: seq<bool>, w: char, placeholder: char)
    requires Placed(a, b, imm, w, placeholder)
    ensures CluesKept(a, b, imm)
    ensures CluesFilled(a, imm, placeholder) ==> CluesFilled(b, imm, placeholder)
    ensures SingleCandidates(a) ==> SingleCandidates(b)
  {
  }

  /**
   * A placement run of w keeps every box that held v holding it, when v is w
   * or not the placeholder (an empty cell "holds" the placeholder until filled).
   */
  lemma PlacedKeepsCover(bd: nat, a: seq<set<char>>, b: seq<set<char>>, imm: seq<bool>, w: char, v: char,
                         placeholder: char, from: nat)
    requires bd >= 1 && Placed(a, b, imm, w, placeholder) && (v == w || v != placeholder)
    requires Covered(bd, a, v, from)
    ensures Covered(bd, b, v, from)
  {
    forall n | from <= n <= bd * bd ensures BoxHolds(bd, b, n, v) {
      assert BoxHolds(bd, a, n, v);
      var k :| 0 <= k < |a| && BoxOf(bd, k) == n && v in a[k];
      assert 0 <= k < |b| && BoxOf(bd, k) == n && v in b[k];
    }
  }

  /** Every cell holds at most one candidate: given clues and empty cells, as the builder leaves them. */
  predicate SingleCandidates(c: seq<set<char>>)
  {
    forall k :: 0 <= k < |c| ==> |c[k]| <= 1
  }

  /** No two cells of one row, column or box hold v alone: the rule of the game, for value v. */
  ghost predicate NoRepeat(bd: nat, c: seq<set<char>>, v: char)
    requires bd >= 1
  {
    forall j, k :: 0 <= j < |c| && 0 <= k < |c| && j != k && c[j] == {v} && c[k] == {v} ==> !InView(bd, k, j)
  }

  /** The distinct value options. */
  function OptionSet(options: seq<char>): (r: set<char>)
    ensures forall v :: v in r <==> v in options
  {
    set v | v in options
  }

  /**
   * Setting v in a cell whose row, column and box do not hold v keeps v
   * from repeating: what `eligible_box_cells` checks before `_place_value`
   * sets a cell.
   */
  lemma PlaceKeepsNoRepeat(bd: nat, a: seq<set<char>>, k: nat, v: char)
    requires bd >= 1 && |a| == bd * bd * (bd * bd) && k < |a| && NoRepeat(bd, a, v)
    requires !RowHolds(bd * bd, a, k, v) && !ColumnHolds(bd * bd, a, k, v) && !BoxHolds(bd, a, BoxOf(bd, k), v)
    ensures NoRepeat(bd, a[k := {v}], v)
  {
    var b := a[k := {v}];
    forall i, j | 0 <= i < |b| && 0 <= j < |b| && i != j && b[i] == {v} && b[j] == {v}
      ensures !InView(bd, j, i)
    {
      if i == k {
        assert v in a[j];
      } else if j == k {
        assert v in a[i];
      } else {
        assert a[i] == {v} && a[j] == {v};
      }
    }
  }

  /** Cells that hold v alone afterwards held it alone before: v still does not repeat. */
  lemma NoRepeatShrinks(bd: nat, a: seq<set<char>>, b: seq<set<char>>, v: char)
    requires bd >= 1 && |a| == |b| && NoRepeat(bd, a, v)
    requires forall k :: 0 <= k < |b| && b[k] == {v} ==> a[k] == {v}
    ensures NoRepeat(bd, b, v)
  {
  }

  /** A placement run of v does not touch the cells holding another value w alone. */
  lemma PlacedKeepsNoRepeat(bd: nat, a: seq<set<char>>, b: seq<set<char>>, imm: seq<bool>, v: char, w: char,
                            placeholder: char)
    requires bd >= 1 && Placed(a, b, imm, v, placeholder) && v != w && NoRepeat(bd, a, w)
    ensures NoRepeat(bd, b, w)
  {
    NoRepeatShrinks(bd, a, b, w);
  }

  /** The candidates held by the cells of `cells`. */
  ghost function HeldBy(c: seq<set<char>>, cells: seq<nat>): set<char>
    requires InGrid(cells, |c|)
  {
    if cells == [] then {} else c[cells[0]] + HeldBy(c, cells[1..])
  }

  lemma {:induction false} HeldMembers(c: seq<set<char>>, cells: seq<nat>)
    requires InGrid(cells, |c|)
    ensures forall x :: x in HeldBy(c, cells) <==> exists t :: 0 <= t < |cells| && x in c[cells[t]]
  {
    if cells != [] {
      HeldMembers(c, cells[1..]);
      forall x ensures x in HeldBy(c, cells) <==> exists t :: 0 <= t < |cells| && x in c[cells[t]] {
        if x in HeldBy(c, cells[1..]) {
          var t :| 0 <= t < |cells[1..]| && x in c[cells[1..][t]];
          assert x in c[cells[t + 1]];
        }
        if exists t :: 0 <= t < |cells| && x in c[cells[t]] {
          var t :| 0 <= t < |cells| && x in c[cells[t]];
          if t > 0 {
            assert cells[t] == cells[1..][t - 1];
          }
        }
      }
    }
  }

  /** Cells with at most one candidate each hold no more candidates than there are cells. */
  lemma {:induction false} HeldBound(c: seq<set<char>>, cells: seq<nat>)
    requires InGrid(cells, |c|) && SingleCandidates(c)
    ensures |HeldBy(c, cells)| <= |cells|
  {
    if cells != [] {
      HeldBound(c, cells[1..]);
      assert |c[cells[0]]| <= 1;
    }
  }

  /** A cell with at most one candidate that holds v holds v alone. */
  lemma OnlyCandidate(x: set<char>, v: char)
    ensures v in x && |x| <= 1 ==> x == {v}
  {
    if v in x && |x| <= 1 {
      assert |x - {v}| == 0;
    }
  }

  /**
   * The pigeonhole principle on cells: when the cells hold at most one
   * candidate each and between them hold at least as many distinct options
   * as there are cells, each of them holds one of the options alone.
   */
  lemma Pigeonhole(c: seq<set<char>>, cells: seq<nat>, options: set<char>, k: nat)
    requires InGrid(cells, |c|) && SingleCandidates(c) && k in cells && |options| >= |cells|
    requires forall v :: v in options ==> exists j :: j in cells && v in c[j]
    ensures exists v :: v in options && c[k] == {v}
  {
    var t :| 0 <= t < |cells| && cells[t] == k;
    var others := cells[..t] + cells[t + 1..];
    assert forall u :: 0 <= u < |cells| && u != t ==> cells[u] in others by {
      forall u | 0 <= u < |cells| && u != t ensures cells[u] in others {
        if u < t {
          assert others[u] == cells[u];
        } else {
          assert others[u - 1] == cells[u];
        }
      }
    }
    assert forall x :: x in others ==> x in cells;
    if !exists v :: v in options && c[k] == {v} {
      HeldMembers(c, others);
      forall v | v in options ensures v in HeldBy(c, others) {
        var j :| j in cells && v in c[j];
        OnlyCandidate(c[k], v);
        var u :| 0 <= u < |cells| && cells[u] == j;
        assert u != t;
        assert j in others;
        var w :| 0 <= w < |others| && others[w] == j;
      }
      SubsetSize(options, HeldBy(c, others));
      HeldBound(c, others);
      assert false;
    }
  }

  /** The pigeonhole principle on a box that holds each of at least `dimension` distinct options. */
  lemma BoxFull(bd: nat, c: seq<set<char>>, b: nat, options: set<char>, k: nat)
    requires bd >= 1 && |c| == bd * bd * (bd * bd) && 1 <= b <= bd * bd && SingleCandidates(c)
    requires |options| >= bd * bd && forall v :: v in options ==> BoxHolds(bd, c, b, v)
    requires k < |c| && BoxOf(bd, k) == b
    ensures exists v :: v in options && c[k] == {v}
  {
    var ring := BoxRing(bd, b);
    forall u | 0 <= u < |ring| ensures ring[u] < |c| {
      InBoxRing(bd, b, ring[u]);
    }
    InBoxRing(bd, b, k);
    forall v | v in options ensures exists j :: j in ring && v in c[j] {
      var j :| 0 <= j < |c| && BoxOf(bd, j) == b && v in c[j];
      InBoxRing(bd, b, j);
    }
    Pigeonhole(c, ring, options, k);
  }

  /**
   * Every box holding every one of at least `dimension` distinct options,
   * with at most one candidate per cell and the placeholder not among the
   * options, means every cell holds one option alone: the grid is solved.
   */
  lemma FilledSolved(bd: nat, c: seq<set<char>>, options: seq<char>, placeholder: char)
    requires bd >= 1 && |c| == bd * bd * (bd * bd) && SingleCandidates(c)
    requires placeholder !in options && |OptionSet(options)| >= bd * bd
    requires forall v :: v in options ==> Covered(bd, c, v, 1)
    ensures forall k :: 0 <= k < |c| ==> exists v :: v in options && c[k] == {v}
    ensures CountUnsolved(c, placeholder) == 0
  {
    forall k | 0 <= k < |c| ensures exists v :: v in options && c[k] == {v} {
      BoxPositionFacts(bd, k);
      BoxFull(bd, c, BoxOf(bd, k), OptionSet(options), k);
    }
    forall k | 0 <= k < |c| ensures IsSolved(c[k], placeholder) {
      var v :| v in options && c[k] == {v};
    }
    CountUnsolvedBounds(c, placeholder);
  }

  /**
   * `_place_value(value, box_num)`. Only empty mutable cells change, each to
   * hold the value alone; FAILED leaves the grid as it was and comes with a
   * positive backup count, PASSED with one of at most zero; and when the
   * clues are filled, PASSED means every box from `box_num` on holds the value.
   * A cell is only set when its row, column and box do not hold the value,
   * so a value that did not repeat in a row, column or box still does not.
   * The `except` clause never fires: the only raise below it is for a box
   * number outside 1..dimension, which the recursion never produces.
   */
  method PlaceValue(s: Sudoku, rng: Rng, v: char, boxNum: nat) returns (status: PlaceStatus, backup: int)
    requires s.Valid() && 1 <= boxNum <= s.dimension
    modifies s.puzzle.contents, rng
    decreases s.dimension - boxNum, 1
    ensures Placed(old(s.puzzle.contents[..]), s.puzzle.contents[..], s.puzzle.immutable[..], v, s.puzzle.placeholder)
    ensures status == Failed ==> s.puzzle.contents[..] == old(s.puzzle.contents[..])
    ensures status == Passed <==> backup <= 0
    ensures status == Passed && CluesFilled(old(s.puzzle.contents[..]), s.puzzle.immutable[..], s.puzzle.placeholder) ==>
      Covered(s.boxDimension, s.puzzle.contents[..], v, boxNum)
    ensures NoRepeat(s.boxDimension, old(s.puzzle.contents[..]), v) ==> NoRepeat(s.boxDimension, s.puzzle.contents[..], v)
  {
    ghost var start := s.puzzle.contents[..];
    ghost var imm := s.puzzle.immutable[..];
    var bd := s.boxDimension;
    PlacedRefl(start, imm, v, s.puzzle.placeholder);
    var eligible := EligibleBoxCells(s, boxNum, v);
    ghost var box := s.ContextOf(BoxContext, boxNum).value;
    EligibleMeaning(s.dimension, start, box, v, s.puzzle.placeholder);
    EligibleUnblocked(bd, start, box, boxNum, v, s.puzzle.placeholder);
    var cells := eligible.value;
    if |cells| == 0 {
      return Failed, BackupCount(bd, boxNum);
    }
    assert cells[0] in cells && cells[0] in box;
    if |cells| == 1 && v in s.puzzle.contents[cells[0]] {
      var k := cells[0];
      if boxNum == s.dimension {
        assert BoxHolds(bd, s.puzzle.contents[..], boxNum, v);
        return Passed, 0;
      }
      status, backup := PlaceValue(s, rng, v, boxNum + 1);
      backup := backup - 1;
      if backup == 0 {
        backup := BackupCount(bd, boxNum);
      }
      assert BoxHolds(bd, s.puzzle.contents[..], boxNum, v) by {
        assert v in s.puzzle.contents[..][k];
      }
      return;
    }
    var picks := rng.Sample(cells);
    forall t | 0 <= t < |picks|
      ensures picks[t] < s.dimension * s.dimension && BoxOf(bd, picks[t]) == boxNum
      ensures s.puzzle.contents[picks[t]] == {s.puzzle.placeholder}
      ensures !RowHolds(s.dimension, start, picks[t], v) && !ColumnHolds(s.dimension, start, picks[t], v)
    {
      assert picks[t] in multiset(picks);
      assert picks[t] in cells && picks[t] in box;
    }
    status, backup := TryCells(s, rng, v, boxNum, picks);
  }

  /**
   * The loop of `_place_value` over the shuffled eligible cells, last first:
   * set the cell, try the next box, and on failure clear the cell again and
   * either pass the backup count up or try the next cell. (Deleting the
   * cell just tried from the list does not change which cells come next.)
   */
  method TryCells(s: Sudoku, rng: Rng, v: char, boxNum: nat, picks: seq<nat>) returns (status: PlaceStatus, backup: int)
    requires s.Valid() && 1 <= boxNum <= s.dimension
    requires forall t :: 0 <= t < |picks| ==>
      (picks[t] < s.dimension * s.dimension && BoxOf(s.boxDimension, picks[t]) == boxNum
       && s.puzzle.contents[picks[t]] == {s.puzzle.placeholder})
    requires !BoxHolds(s.boxDimension, s.puzzle.contents[..], boxNum, v)
    requires forall t :: 0 <= t < |picks| ==>
      !RowHolds(s.dimension, s.puzzle.contents[..], picks[t], v) && !ColumnHolds(s.dimension, s.puzzle.contents[..], picks[t], v)
    modifies s.puzzle.contents, rng
    decreases s.dimension - boxNum, 0
    ensures Placed(old(s.puzzle.contents[..]), s.puzzle.contents[..], s.puzzle.immutable[..], v, s.puzzle.placeholder)
    ensures status == Failed ==> s.puzzle.contents[..] == old(s.puzzle.contents[..])
    ensures status == Passed <==> backup <= 0
    ensures status == Passed && CluesFilled(old(s.puzzle.contents[..]), s.puzzle.immutable[..], s.puzzle.placeholder) ==>
      Covered(s.boxDimension, s.puzzle.contents[..], v, boxNum)
    ensures NoRepeat(s.boxDimension, old(s.puzzle.contents[..]), v) ==> NoRepeat(s.boxDimension, s.puzzle.contents[..], v)
  {
    ghost var start := s.puzzle.contents[..];
    ghost var imm := s.puzzle.immutable[..];
    var bd, ph := s.boxDimension, s.puzzle.placeholder;
    PlacedRefl(start, imm, v, ph);
    var ndx := |picks| - 1;
    while ndx >= 0
      invariant -1 <= ndx < |picks|
      invariant s.puzzle.contents[..] == start
    {
      var k := picks[ndx];
      if !s.puzzle.immutable[k] {
        s.puzzle.contents[k] := {v};
        assert s.puzzle.contents[..] == start[k := {v}];
        if NoRepeat(bd, start, v) {
          PlaceKeepsNoRepeat(bd, start, k, v);
        }
      }
      ghost var mid := s.puzzle.contents[..];
      assert Placed(start, mid, imm, v, ph);
      if boxNum == s.dimension {
        assert CluesFilled(start, imm, ph) ==> BoxHolds(bd, mid, boxNum, v) by {
          if CluesFilled(start, imm, ph) {
            assert v in mid[k];
          }
        }
        return Passed, 0;
      }
      status, backup := PlaceValue(s, rng, v, boxNum + 1);
      if status == Passed {
        PlacedTrans(start, mid, s.puzzle.contents[..], imm, v, ph);
        PlacedKeepsClues(start, mid, imm, v, ph);
        assert CluesFilled(start, imm, ph) ==> BoxHolds(bd, s.puzzle.contents[..], boxNum, v) by {
          if CluesFilled(start, imm, ph) {
            assert v in mid[k];
            assert v in s.puzzle.contents[..][k];
          }
        }
        return Passed, 0;
      }
      if !s.puzzle.immutable[k] {
        s.puzzle.contents[k] := {ph};
      }
      assert s.puzzle.contents[..] == start;
      backup := backup - 1;
      if backup != 0 && boxNum != 1 {
        return Failed, backup;
      }
      ndx := ndx - 1;
    }
    return Failed, BackupCount(bd, boxNum);
  }

  /**
   * Clearing every cell that is not a given clue back to the placeholder
   * (`Puzzle.clear`) keeps the clues, leaves at most one candidate per cell
   * if that held before, and makes no value other than the placeholder
   * repeat.
   */
  lemma ClearKeeps(bd: nat, a: seq<set<char>>, b: seq<set<char>>, imm: seq<bool>, placeholder: char)
    requires bd >= 1 && |a| == |b| == |imm|
    requires forall k :: 0 <= k < |b| ==> b[k] == if imm[k] then a[k] else {placeholder}
    ensures CluesKept(a, b, imm)
    ensures CluesFilled(a, imm, placeholder) ==> CluesFilled(b, imm, placeholder)
    ensures SingleCandidates(a) ==> SingleCandidates(b)
    ensures forall w :: w != placeholder && NoRepeat(bd, a, w) ==> NoRepeat(bd, b, w)
  {
    forall w | w != placeholder && NoRepeat(bd, a, w) ensures NoRepeat(bd, b, w) {
      NoRepeatShrinks(bd, a, b, w);
    }
  }

  /**
   * One attempt of `fill`: place each value from box 1 on, and at the first
   * value that fails, clear the puzzle and stop. Clues are never touched;
   * PASSED (with filled clues and no value equal to the placeholder) means
   * every box holds every value. Cells keep at most one candidate, and a
   * value that did not repeat in a row, column or box still does not.
   */
  method PlaceAll(s: Sudoku, rng: Rng, values: seq<char>) returns (status: PlaceStatus)
    requires s.Valid() && |values| > 0
    modifies s.puzzle.contents, rng
    ensures CluesKept(old(s.puzzle.contents[..]), s.puzzle.contents[..], s.puzzle.immutable[..])
    ensures CluesFilled(old(s.puzzle.contents[..]), s.puzzle.immutable[..], s.puzzle.placeholder) ==>
      CluesFilled(s.puzzle.contents[..], s.puzzle.immutable[..], s.puzzle.placeholder)
    ensures (status == Passed && CluesFilled(old(s.puzzle.contents[..]), s.puzzle.immutable[..], s.puzzle.placeholder)
             && s.puzzle.placeholder !in values) ==>
      forall v :: v in values ==> Covered(s.boxDimension, s.puzzle.contents[..], v, 1)
    ensures SingleCandidates(old(s.puzzle.contents[..])) ==> SingleCandidates(s.puzzle.contents[..])
    ensures s.puzzle.placeholder !in values ==>
      forall v :: v in values && NoRepeat(s.boxDimension, old(s.puzzle.contents[..]), v) ==>
        NoRepeat(s.boxDimension, s.puzzle.contents[..], v)
  {
    ghost var start := s.puzzle.contents[..];
    ghost var imm := s.puzzle.immutable[..];
    var bd, ph := s.boxDimension, s.puzzle.placeholder;
    ghost var good := CluesFilled(start, imm, ph) && ph !in values;
    status := Passed;
    var i := 0;
    while i < |values|
      invariant 0 <= i <= |values|
      invariant CluesKept(start, s.puzzle.contents[..], imm)
      invariant CluesFilled(start, imm, ph) ==> CluesFilled(s.puzzle.contents[..], imm, ph)
      invariant good ==> forall j :: 0 <= j < i ==> Covered(bd, s.puzzle.contents[..], values[j], 1)
      invariant SingleCandidates(start) ==> SingleCandidates(s.puzzle.contents[..])
      invariant ph !in values ==> forall w :: w in values && NoRepeat(bd, start, w) ==> NoRepeat(bd, s.puzzle.contents[..], w)
    {
      ghost var prev := s.puzzle.contents[..];
      var backup;
      status, backup := PlaceValue(s, rng, values[i], 1);
      PlacedKeepsClues(prev, s.puzzle.contents[..], imm, values[i], ph);
      forall w | w in values && w != values[i] && NoRepeat(bd, prev, w)
        ensures NoRepeat(bd, s.puzzle.contents[..], w)
      {
        PlacedKeepsNoRepeat(bd, prev, s.puzzle.contents[..], imm, values[i], w, ph);
      }
      if status == Failed {
        ghost var placed := s.puzzle.contents[..];
        s.puzzle.Clear();
        ClearKeeps(bd, placed, s.puzzle.contents[..], imm, ph);
        break;
      }
      if good {
        forall j | 0 <= j < i ensures Covered(bd, s.puzzle.contents[..], values[j], 1) {
          PlacedKeepsCover(bd, prev, s.puzzle.contents[..], imm, values[i], values[j], ph, 1);
        }
      }
      i := i + 1;
    }
    if status == Passed && good {
      forall v | v in values ensures Covered(bd, s.puzzle.contents[..], v, 1) {
        var j :| 0 <= j < |values| && values[j] == v;
      }
    }
  }

  /**
   * `fill`: shuffle the value options and make up to 999 attempts, stopping
   * at the first that places every value. With no value options the status
   * variable is never bound and the resulting error surfaces as PuzzleExcept.
   * No value option comes to repeat in a row, column or box. Started from
   * given clues and empty cells, PASSED with at least `dimension` distinct
   * options leaves no cell unsolved.
   */
  method Fill(s: Sudoku, rng: Rng) returns (r: Result<PlaceStatus>)
    requires s.Valid()
    modifies s.puzzle.contents, rng
    ensures r.Err? <==> |s.valueOptions| == 0
    ensures r.Err? ==> r.error == PuzzleExcept && s.puzzle.contents[..] == old(s.puzzle.contents[..])
    ensures CluesKept(old(s.puzzle.contents[..]), s.puzzle.contents[..], s.puzzle.immutable[..])
    ensures (r == Ok(Passed) && CluesFilled(old(s.puzzle.contents[..]), s.puzzle.immutable[..], s.puzzle.placeholder)
             && s.puzzle.placeholder !in s.valueOptions) ==>
      forall v :: v in s.valueOptions ==> Covered(s.boxDimension, s.puzzle.contents[..], v, 1)
    ensures (r == Ok(Passed) && CluesFilled(old(s.puzzle.contents[..]), s.puzzle.immutable[..], s.puzzle.placeholder)
             && s.puzzle.placeholder !in s.valueOptions && SingleCandidates(old(s.puzzle.contents[..]))
             && |OptionSet(s.valueOptions)| >= s.dimension) ==>
      CountUnsolved(s.puzzle.contents[..], s.puzzle.placeholder) == 0
    ensures s.puzzle.placeholder !in s.valueOptions ==>
      forall v :: v in s.valueOptions && NoRepeat(s.boxDimension, old(s.puzzle.contents[..]), v) ==>
        NoRepeat(s.boxDimension, s.puzzle.contents[..], v)
  {
    ghost var start := s.puzzle.contents[..];
    ghost var imm := s.puzzle.immutable[..];
    var values := rng.Shuffle(s.valueOptions);
    if |values| == 0 {
      return Err(PuzzleExcept);
    }
    ghost var good := CluesFilled(start, imm, s.puzzle.placeholder) && s.puzzle.placeholder !in s.valueOptions;
    assert forall v :: v in values <==> v in s.valueOptions by {
      forall v ensures v in values <==> v in s.valueOptions {
        assert v in values <==> v in multiset(values);
      }
    }
    var status := Failed;
    var attempt := 1;
    while attempt < 1000 && status != Passed
      invariant 1 <= attempt <= 1000
      invariant CluesKept(start, s.puzzle.contents[..], imm)
      invariant CluesFilled(start, imm, s.puzzle.placeholder) ==> CluesFilled(s.puzzle.contents[..], imm, s.puzzle.placeholder)
      invariant good && status == Passed ==> forall v :: v in values ==> Covered(s.boxDimension, s.puzzle.contents[..], v, 1)
      invariant SingleCandidates(start) ==> SingleCandidates(s.puzzle.contents[..])
      invariant s.puzzle.placeholder !in values ==>
        forall v :: v in values && NoRepeat(s.boxDimension, start, v) ==> NoRepeat(s.boxDimension, s.puzzle.contents[..], v)
    {
      status := PlaceAll(s, rng, values);
      attempt := attempt + 1;
    }
    if status == Passed && good && SingleCandidates(start) && |OptionSet(s.valueOptions)| >= s.dimension {
      FilledSolved(s.boxDimension, s.puzzle.contents[..], s.valueOptions, s.puzzle.placeholder);
    }
    r := Ok(status);
  }
}

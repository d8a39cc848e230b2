/**
 * `SudokuSolver` of puzzles/sudoku.py: it works on its own deep copy of a
 * puzzle and strings the stages together: fill the empty cells with every
 * option, normalize, resolve unique values over all contexts, and, if cells
 * are still unsolved, up to ten rounds of clearing the unsolved cells and
 * filling the grid by trial and error.
 */
module Solver {
  import opened Outcome
  import opened Cells
  import opened Grid
  import opened Propagation
  import opened SudokuPuzzle
  import opened SudokuSolving
  import opened Randomness
  import opened Generator

  /**
   * How `solve` ended. The source returns nothing and only logs this; the
   * model returns it so that each ending can be stated.
   */
  datatype Stage = SolvedByNormalizing | SolvedByUniques | Trials(status: PlaceStatus)

  class SudokuSolver {
    /**
     * The working copy. `solve` assigns its backup alias back to it, which
     * is the same object, so the reference never changes.
     */
    const puzzle: Sudoku

    ghost predicate Valid()
      reads this, puzzle, puzzle.puzzle, puzzle.puzzle.rowNext, puzzle.puzzle.colNext, puzzle.boxNext, puzzle.boxNumber
    {
      puzzle.Valid()
    }

    /** The copying half of `SudokuSolver.__init__`. */
    constructor (p: Sudoku)
      requires p.Valid()
      ensures Valid() && puzzle.valueOptions == p.valueOptions && puzzle.puzzle.placeholder == p.puzzle.placeholder
      ensures puzzle.dimension == p.dimension && puzzle.boxDimension == p.boxDimension
      ensures puzzle.puzzle.contents[..] == p.puzzle.contents[..] && puzzle.puzzle.immutable[..] == p.puzzle.immutable[..]
      ensures fresh(puzzle) && fresh(puzzle.puzzle) && fresh(puzzle.puzzle.contents) && fresh(puzzle.puzzle.immutable)
      ensures fresh(puzzle.puzzle.rowNext) && fresh(puzzle.puzzle.colNext) && fresh(puzzle.boxNext) && fresh(puzzle.boxNumber)
    {
      puzzle := new Sudoku.Copy(p);
    }

    /**
     * `solve`. Errors from any stage surface as SudokuErrors. The given clues
     * keep their candidates throughout. An ending before the trials leaves
     * every cell solved; a trial round that passed, on a grid whose clues
     * are filled and whose options do not include the placeholder, leaves
     * every value somewhere in every box, and, when the clues hold one value
     * each and there are at least `dimension` distinct options, every cell
     * solved.
     */
    method Solve(rng: Rng) returns (r: Result<Stage>)
      requires Valid()
      modifies puzzle.puzzle.contents, rng
      ensures CluesKept(old(puzzle.puzzle.contents[..]), puzzle.puzzle.contents[..], puzzle.puzzle.immutable[..])
      ensures r.Err? ==> r.error == SudokuErrors
      ensures r == Ok(SolvedByNormalizing) || r == Ok(SolvedByUniques) ==>
        forall k :: 0 <= k < puzzle.dimension * puzzle.dimension ==> IsSolved(puzzle.puzzle.contents[k], puzzle.puzzle.placeholder)
      ensures r == Ok(SolvedByNormalizing) ==> forall k :: 0 <= k < puzzle.dimension * puzzle.dimension ==>
        PeersResolved(puzzle.boxDimension, puzzle.puzzle.contents[..], puzzle.puzzle.immutable[..], puzzle.puzzle.placeholder, k)
      ensures r == Ok(SolvedByUniques) ==> UniquesSettled(puzzle, puzzle.puzzle.contents[..])
      ensures (r == Ok(Trials(Passed))
               && CluesFilled(old(puzzle.puzzle.contents[..]), puzzle.puzzle.immutable[..], puzzle.puzzle.placeholder)
               && puzzle.puzzle.placeholder !in puzzle.valueOptions) ==>
        forall v :: v in puzzle.valueOptions ==> Covered(puzzle.boxDimension, puzzle.puzzle.contents[..], v, 1)
      ensures (r == Ok(Trials(Passed))
               && CluesFilled(old(puzzle.puzzle.contents[..]), puzzle.puzzle.immutable[..], puzzle.puzzle.placeholder)
               && CluesSingle(old(puzzle.puzzle.contents[..]), puzzle.puzzle.immutable[..])
               && puzzle.puzzle.placeholder !in puzzle.valueOptions && |OptionSet(puzzle.valueOptions)| >= puzzle.dimension) ==>
        CountUnsolved(puzzle.puzzle.contents[..], puzzle.puzzle.placeholder) == 0
    {
      var s := puzzle;
      ghost var start := s.puzzle.contents[..];
      ghost var imm := s.puzzle.immutable[..];
      var solved := Normalized(s);
      if solved {
        return Ok(SolvedByNormalizing);
      }
      var applied := ApplyToAllContexts(s);
      if applied.Err? {
        return Err(SudokuErrors);
      }
      var unsolved := s.UnsolvedCellCount();
      CountUnsolvedBounds(s.puzzle.contents[..], s.puzzle.placeholder);
      if unsolved == 0 {
        assert forall k :: 0 <= k < s.dimension * s.dimension ==> s.puzzle.contents[..][k] == s.puzzle.contents[k];
        return Ok(SolvedByUniques);
      }
      ghost var beforeTrials := s.puzzle.contents[..];
      assert CluesKept(start, beforeTrials, imm);
      assert CluesFilled(start, imm, s.puzzle.placeholder) ==> CluesFilled(beforeTrials, imm, s.puzzle.placeholder);
      assert CluesSingle(start, imm) ==> CluesSingle(beforeTrials, imm);
      var trials := TrialRounds(s, rng);
      if trials.Err? {
        return Err(trials.error);
      }
      r := Ok(Trials(trials.value));
    }
  }

  /**
   * The opening of `solve`: fill the empty cells with every option, remove
   * each single value from its row, column and box, and count what is left;
   * true when nothing is.
   */
  method Normalized(s: Sudoku) returns (solved: bool)
    requires s.Valid()
    modifies s.puzzle.contents
    ensures CluesKept(old(s.puzzle.contents[..]), s.puzzle.contents[..], s.puzzle.immutable[..])
    ensures solved <==> forall k :: 0 <= k < s.dimension * s.dimension ==> IsSolved(s.puzzle.contents[k], s.puzzle.placeholder)
    ensures solved ==> forall k :: 0 <= k < s.dimension * s.dimension ==>
      PeersResolved(s.boxDimension, s.puzzle.contents[..], s.puzzle.immutable[..], s.puzzle.placeholder, k)
  {
    ghost var start := s.puzzle.contents[..];
    s.FillEmptyCells();
    s.Normalize();
    assert CluesKept(start, s.puzzle.contents[..], s.puzzle.immutable[..]);
    var unsolved := s.UnsolvedCellCount();
    CountUnsolvedBounds(s.puzzle.contents[..], s.puzzle.placeholder);
    solved := unsolved == 0;
    if solved {
      forall k | 0 <= k < s.dimension * s.dimension
        ensures PeersResolved(s.boxDimension, s.puzzle.contents[..], s.puzzle.immutable[..], s.puzzle.placeholder, k)
      {
        assert IsSolved(s.puzzle.contents[..][k], s.puzzle.placeholder);
      }
    }
    assert forall k :: 0 <= k < s.dimension * s.dimension ==> s.puzzle.contents[..][k] == s.puzzle.contents[k];
  }

  /**
   * The trial-and-error phase of `solve`: up to ten rounds of clearing the
   * unsolved cells and `fill`, stopping at the first that passes; an error
   * from `fill` surfaces as SudokuErrors. Clearing leaves each cell at most
   * one candidate, so a round that passes, with single-valued clues and at
   * least `dimension` distinct options, leaves no cell unsolved; a value
   * option that did not repeat among the solved cells still does not.
   */
  method TrialRounds(s: Sudoku, rng: Rng) returns (r: Result<PlaceStatus>)
    requires s.Valid()
    modifies s.puzzle.contents, rng
    ensures CluesKept(old(s.puzzle.contents[..]), s.puzzle.contents[..], s.puzzle.immutable[..])
    ensures r.Err? <==> |s.valueOptions| == 0
    ensures r.Err? ==> r.error == SudokuErrors
    ensures (r == Ok(Passed) && CluesFilled(old(s.puzzle.contents[..]), s.puzzle.immutable[..], s.puzzle.placeholder)
             && s.puzzle.placeholder !in s.valueOptions) ==>
      forall v :: v in s.valueOptions ==> Covered(s.boxDimension, s.puzzle.contents[..], v, 1)
    ensures (r == Ok(Passed) && CluesFilled(old(s.puzzle.contents[..]), s.puzzle.immutable[..], s.puzzle.placeholder)
             && s.puzzle.placeholder !in s.valueOptions && CluesSingle(old(s.puzzle.contents[..]), s.puzzle.immutable[..])
             && |OptionSet(s.valueOptions)| >= s.dimension) ==>
      CountUnsolved(s.puzzle.contents[..], s.puzzle.placeholder) == 0
    ensures s.puzzle.placeholder !in s.valueOptions ==>
      forall v :: v in s.valueOptions && NoRepeat(s.boxDimension, old(s.puzzle.contents[..]), v) ==>
        NoRepeat(s.boxDimension, s.puzzle.contents[..], v)
  {
    ghost var start := s.puzzle.contents[..];
    ghost var imm := s.puzzle.immutable[..];
    ghost var ph := s.puzzle.placeholder;
    ghost var good := CluesFilled(start, imm, s.puzzle.placeholder) && s.puzzle.placeholder !in s.valueOptions;
    ghost var solvable := good && CluesSingle(start, imm) && |OptionSet(s.valueOptions)| >= s.dimension;
    var status := Failed;
    var i := 0;
    while i < 10
      invariant 0 <= i <= 10 && (i > 0 ==> |s.valueOptions| > 0)
      invariant CluesKept(start, s.puzzle.contents[..], imm)
      invariant good && status == Passed ==>
        forall v :: v in s.valueOptions ==> Covered(s.boxDimension, s.puzzle.contents[..], v, 1)
      invariant solvable && status == Passed ==> CountUnsolved(s.puzzle.contents[..], ph) == 0
      invariant ph !in s.valueOptions ==>
        forall v :: v in s.valueOptions && NoRepeat(s.boxDimension, start, v) ==> NoRepeat(s.boxDimension, s.puzzle.contents[..], v)
    {
      ghost var prev := s.puzzle.contents[..];
      s.puzzle.ClearUnsolvedCells();
      ClearUnsolvedKeeps(s.boxDimension, prev, s.puzzle.contents[..], imm, ph);
      assert CluesKept(start, s.puzzle.contents[..], imm);
      assert CluesSingle(start, imm) ==> SingleCandidates(s.puzzle.contents[..]);
      var filled := Fill(s, rng);
      if filled.Err? {
        return Err(SudokuErrors);
      }
      status := filled.value;
      if status == Passed {
        break;
      }
      i := i + 1;
    }
    r := Ok(status);
  }

  /**
   * `Puzzle.clear_unsolved_cells` leaves at most one candidate in every cell
   * that is not a given clue and makes no value other than the placeholder
   * repeat.
   */
  lemma ClearUnsolvedKeeps(bd: nat, a: seq<set<char>>, b: seq<set<char>>, imm: seq<bool>, placeholder: char)
    requires bd >= 1 && |a| == |b| == |imm|
    requires forall k :: 0 <= k < |b| ==> b[k] == if !imm[k] && |a[k]| > 1 then {placeholder} else a[k]
    ensures forall k :: 0 <= k < |b| && !imm[k] ==> |b[k]| <= 1
    ensures forall w :: w != placeholder && NoRepeat(bd, a, w) ==> NoRepeat(bd, b, w)
  {
    forall w | w != placeholder && NoRepeat(bd, a, w) ensures NoRepeat(bd, b, w) {
      NoRepeatShrinks(bd, a, b, w);
    }
  }

  /**
   * `SudokuSolver(puzzle)`: SudokuErrors when no cell of the puzzle is
   * solved; otherwise a solver over a copy that shares nothing with it.
   */
  method NewSolver(p: Sudoku) returns (r: Result<SudokuSolver>)
    requires p.Valid()
    ensures r.Err? <==> forall k :: 0 <= k < p.dimension * p.dimension ==> !IsSolved(p.puzzle.contents[k], p.puzzle.placeholder)
    ensures r.Err? ==> r.error == SudokuErrors
    ensures r.Ok? ==> fresh(r.value) && fresh(r.value.puzzle) && fresh(r.value.puzzle.puzzle.contents)
    ensures r.Ok? ==> (r.value.Valid() && r.value.puzzle.puzzle.contents[..] == p.puzzle.contents[..]
                       && r.value.puzzle.puzzle.immutable[..] == p.puzzle.immutable[..])
  {
    var unsolved := p.UnsolvedCellCount();
    CountUnsolvedBounds(p.puzzle.contents[..], p.puzzle.placeholder);
    if unsolved == p.dimension * p.dimension {
      assert forall k :: 0 <= k < p.dimension * p.dimension ==> p.puzzle.contents[..][k] == p.puzzle.contents[k];
      return Err(SudokuErrors);
    }
    var solver := new SudokuSolver(p);
    r := Ok(solver);
  }
}

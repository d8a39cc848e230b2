/**
 * `Sudoku.find_combination` and `Sudoku.combo_reduction`: within one context,
 * a set of n values whose holders are exactly n cells ("naked" combination)
 * confines those values to those cells, and those cells to those values.
 */
module Combos {
  import opened Outcome
  import opened Cells
  import opened Grid
  import opened Propagation
  import opened SudokuPuzzle
  import opened SudokuSolving

  /** Every cell filed in u is one of the n cells of the grid. */
  predicate HoldersIn(u: map<char, set<nat>>, n: nat)
  {
    forall v :: v in u ==> forall k :: k in u[v] ==> k < n
  }

  /** The cells u files under any of the values. */
  function CellsUnder(u: map<char, set<nat>>, values: set<char>): set<nat>
  {
    set v, k | v in values && v in u && k in u[v] :: k
  }

  lemma CellsUnderAdd(u: map<char, set<nat>>, values: set<char>, v: char)
    requires v in u
    ensures CellsUnder(u, values + {v}) == CellsUnder(u, values) + u[v]
  {
    forall k | k in u[v] ensures k in CellsUnder(u, values + {v}) {
      assert v in values + {v};
    }
  }

  lemma CellsUnderOne(u: map<char, set<nat>>, v: char)
    requires v in u
    ensures CellsUnder(u, {v}) == u[v]
  {
    forall k | k in u[v] ensures k in CellsUnder(u, {v}) {
      assert v in {v};
    }
  }

  lemma CellsUnderIn(u: map<char, set<nat>>, values: set<char>, n: nat)
    requires HoldersIn(u, n)
    ensures forall k :: k in CellsUnder(u, values) ==> k < n
  {
  }

  /** The candidates of the cells `root` other than the subject: the `values` `find_combination` builds. */
  function OtherValues(c: seq<set<char>>, root: set<nat>, subject: char): set<char>
    requires forall k :: k in root ==> k < |c|
  {
    set k, v | k in root && v in c[k] && v != subject :: v
  }

  /**
   * What `find_combination` may return for the subject: nothing at all, or a
   * set of values containing the subject, drawn from the candidates of the
   * subject's cells, together with exactly as many cells, namely every cell
   * holding one of those values; a value other than the subject was taken
   * only while the cells stayed fewer than the dictionary's size minus one.
   */
  ghost predicate Combination(c: seq<set<char>>, u: map<char, set<nat>>, subject: char, values: set<char>, cells: set<nat>)
    requires subject in u && HoldersIn(u, |c|)
  {
    || (values == {} && cells == {})
    || (&& |values| == |cells|
        && subject in values
        && values - {subject} <= OtherValues(c, u[subject], subject)
        && u[subject] <= cells
        && cells == CellsUnder(u, values)
        && (values != {subject} ==> |cells| < |u| - 1))
  }

  /**
   * `find_combination(cells_per_value_dict, subject_value)` over a grid whose
   * candidate sets are c: a KeyError when the subject, or a candidate of its
   * cells, is not a key of the dictionary; otherwise a combination. The other
   * values are taken in the set's own (unspecified) order.
   */
  method FindCombination(c: seq<set<char>>, u: map<char, set<nat>>, subject: char)
    returns (r: Result<(set<char>, set<nat>)>)
    requires HoldersIn(u, |c|)
    ensures r.Err? <==> subject !in u || !(OtherValues(c, u[subject], subject) <= u.Keys)
    ensures r.Err? ==> r.error == MissingKey
    ensures r.Ok? ==> Combination(c, u, subject, r.value.0, r.value.1)
  {
    if subject !in u {
      return Err(MissingKey);
    }
    var root := u[subject];
    var count := |u|;
    var others := OtherValues(c, root, subject);
    var values, cells := {subject}, root;
    CellsUnderOne(u, subject);
    var rest := others;
    ghost var seen: set<char> := {};
    while rest != {}
      invariant rest <= others && seen <= u.Keys
      invariant forall w :: w in others ==> w in rest || w in seen
      invariant subject in values && forall w :: w in values && w != subject ==> w in seen && w in others
      invariant cells == CellsUnder(u, values) && root <= cells
      invariant values != {subject} ==> |cells| < count - 1
      decreases |rest|
    {
      var v :| v in rest;
      if v !in u {
        return Err(MissingKey);
      }
      var temp := cells + u[v];
      if |temp| < count - 1 {
        CellsUnderAdd(u, values, v);
        values, cells := values + {v}, temp;
      }
      rest, seen := rest - {v}, seen + {v};
    }
    if |values| != |cells| {
      r := Ok(({}, {}));
    } else {
      r := Ok((values, cells));
    }
  }

  /** Every candidate set of b lies inside the same cell's set in a. */
  predicate Subsets(a: seq<set<char>>, b: seq<set<char>>)
  {
    |a| == |b| && forall k :: 0 <= k < |a| ==> b[k] <= a[k]
  }

  /** Immutability in imm was only ever cleared, never set, on the way from imm0. */
  predicate OnlyReleased(imm0: seq<bool>, imm: seq<bool>)
  {
    |imm0| == |imm| && forall k :: 0 <= k < |imm| && imm[k] ==> imm0[k]
  }

  /** `cell.remove_all_but(values)` on each of the cells: immutability is not consulted. */
  method KeepOnly(s: Sudoku, cells: set<nat>, keepers: set<char>) returns (changed: bool)
    requires s.Valid() && forall k :: k in cells ==> k < s.dimension * s.dimension
    modifies s.puzzle.contents
    ensures forall j :: 0 <= j < s.dimension * s.dimension ==>
      s.puzzle.contents[j] == if j in cells then old(s.puzzle.contents[j]) * keepers else old(s.puzzle.contents[j])
    ensures changed <==> s.puzzle.contents[..] != old(s.puzzle.contents[..])
  {
    var c := s.puzzle.contents;
    ghost var start := c[..];
    changed := false;
    var rest := cells;
    while rest != {}
      invariant rest <= cells
      invariant forall j :: 0 <= j < c.Length ==> c[j] == if j in cells - rest then start[j] * keepers else start[j]
      invariant changed <==> c[..] != start
      decreases |rest|
    {
      var k :| k in rest;
      ghost var prev := c[..];
      var removed := c[k] * keepers != c[k];
      c[k] := c[k] * keepers;
      assert c[..] == prev[k := c[k]];
      assert !removed ==> c[..] == prev;
      assert removed ==> c[..][k] != start[k];
      changed := removed || changed;
      rest := rest - {k};
    }
  }

  /** Every one of the cells holds values only. */
  ghost predicate HoldOnly(c: seq<set<char>>, cells: set<nat>, values: set<char>)
  {
    forall j :: 0 <= j < |c| && j in cells ==> c[j] <= values
  }

  /**
   * Outside the cells, no position of the context holds one of the values
   * unless it was immutable in imm0 or is solved.
   */
  ghost predicate ClearedOutside(c: seq<set<char>>, imm0: seq<bool>, placeholder: char, context: seq<nat>,
                                 cells: set<nat>, values: set<char>)
    requires InGrid(context, |c|) && |imm0| == |c|
  {
    forall t, v :: 0 <= t < |context| && context[t] !in cells && v in values ==>
      imm0[context[t]] || v !in c[context[t]] || Len(c[context[t]], placeholder) == 1
  }

  /** imm is imm0 with the cells marked mutable. */
  ghost predicate Unmarked(imm0: seq<bool>, imm: seq<bool>, cells: set<nat>)
  {
    |imm| == |imm0| && forall j :: 0 <= j < |imm| ==> imm[j] == (imm0[j] && j !in cells)
  }

  /**
   * What `combo_reduction` does with a combination it has not handled yet:
   * each of its cells keeps only the combination's values; with those cells
   * marked immutable, the values are removed from the rest of the context
   * (walked again from the context's first cell, which yields the same cells);
   * then the cells are marked mutable, whatever they were before.
   */
  method ApplyCombination(s: Sudoku, context: seq<nat>, values: set<char>, cells: set<nat>) returns (changed: bool)
    requires s.Valid() && InGrid(context, s.dimension * s.dimension)
    requires forall k :: k in cells ==> k < s.dimension * s.dimension
    modifies s.puzzle.contents, s.puzzle.immutable
    ensures Subsets(old(s.puzzle.contents[..]), s.puzzle.contents[..])
    ensures HoldOnly(s.puzzle.contents[..], cells, values)
    ensures ClearedOutside(s.puzzle.contents[..], old(s.puzzle.immutable[..]), s.puzzle.placeholder, context, cells, values)
    ensures Unmarked(old(s.puzzle.immutable[..]), s.puzzle.immutable[..], cells)
    ensures changed <==> Total(s.puzzle.contents[..]) < Total(old(s.puzzle.contents[..]))
    ensures !changed ==> s.puzzle.contents[..] == old(s.puzzle.contents[..])
  {
    var c, imm := s.puzzle.contents, s.puzzle.immutable;
    ghost var c0, imm0 := c[..], imm[..];
    var kept := KeepOnly(s, cells, values);
    ghost var c1 := c[..];
    MarkCells(s, cells, true);
    ghost var imm1 := imm[..];
    var removed := s.RemoveValuesFromContext(context, values);
    ghost var c2 := c[..];
    forall j | 0 <= j < |c2| && j in cells ensures c2[j] <= values {
      assert imm1[j];
    }
    forall t, v | 0 <= t < |context| && context[t] !in cells && v in values
      ensures imm0[context[t]] || v !in c2[context[t]] || Len(c2[context[t]], s.puzzle.placeholder) == 1
    {
      assert Resolved(c2, imm1, s.puzzle.placeholder, context[t], v);
    }
    MarkCells(s, cells, false);
    forall j | 0 <= j < imm.Length ensures imm[..][j] == (imm0[j] && j !in cells) {
      assert imm1[j] == if j in cells then true else imm0[j];
    }
    assert Subsets(c0, c1);
    TotalShrinks(c0, c1);
    TotalShrinks(c1, c2);
    changed := removed || kept;
  }

  /**
   * The `for` loop of `combo_reduction` over the dictionary u, in ascending
   * key order: each value held by exactly `size` cells gets its combination;
   * a new, non-empty one is recorded in `processed` and applied; the loop
   * stops at the first change. A KeyError from `find_combination` surfaces
   * as SudokuErrors.
   */
  method TryCombinations(s: Sudoku, context: seq<nat>, u: map<char, set<nat>>, size: int, processed: seq<set<char>>)
    returns (r: Result<bool>, processedNow: seq<set<char>>)
    requires s.Valid() && InGrid(context, s.dimension * s.dimension) && HoldersIn(u, s.dimension * s.dimension)
    modifies s.puzzle.contents, s.puzzle.immutable
    ensures Subsets(old(s.puzzle.contents[..]), s.puzzle.contents[..])
    ensures OnlyReleased(old(s.puzzle.immutable[..]), s.puzzle.immutable[..])
    ensures r.Err? ==> r.error == SudokuErrors
    ensures r.Ok? ==> (r.value <==> Total(s.puzzle.contents[..]) < Total(old(s.puzzle.contents[..])))
    ensures r.Ok? && !r.value ==> s.puzzle.contents[..] == old(s.puzzle.contents[..])
    ensures processed <= processedNow
  {
    var c, imm := s.puzzle.contents, s.puzzle.immutable;
    ghost var c0, imm0 := c[..], imm[..];
    var keys := u.Keys;
    var changed, failed := false, false;
    processedNow := processed;
    while keys != {} && !changed && !failed
      invariant Subsets(c0, c[..]) && OnlyReleased(imm0, imm[..])
      invariant changed <==> Total(c[..]) < Total(c0)
      invariant !changed ==> c[..] == c0
      invariant processed <= processedNow
      decreases |keys|
    {
      MinExists(keys);
      var subject :| subject in keys && forall w :: w in keys ==> subject <= w;
      keys := keys - {subject};
      if subject in u && |u[subject]| == size {
        var combo := FindCombination(c[..], u, subject);
        if combo.Err? {
          failed := true;
        } else if |combo.value.0| > 0 && combo.value.0 !in processedNow {
          var values, cells := combo.value.0, combo.value.1;
          processedNow := processedNow + [values];
          CellsUnderIn(u, values, s.dimension * s.dimension);
          changed := ApplyCombination(s, context, values, cells);
        }
      }
    }
    r := if failed then Err(SudokuErrors) else Ok(changed);
  }

  /**
   * The inner `while True` of `combo_reduction` for one combination size:
   * try the combinations, and after each change refresh the dictionary from
   * the context and try again, until a round changes nothing. Every round
   * that changes something lowers the total number of candidates, so this
   * loop ends. True when anything changed.
   */
  method ReduceAtSize(s: Sudoku, context: seq<nat>, u: map<char, set<nat>>, size: int, processed: seq<set<char>>)
    returns (r: Result<bool>, processedNow: seq<set<char>>)
    requires s.Valid() && InGrid(context, s.dimension * s.dimension) && HoldersIn(u, s.dimension * s.dimension)
    modifies s.puzzle.contents, s.puzzle.immutable
    ensures Subsets(old(s.puzzle.contents[..]), s.puzzle.contents[..])
    ensures OnlyReleased(old(s.puzzle.immutable[..]), s.puzzle.immutable[..])
    ensures r.Err? ==> r.error == SudokuErrors
    ensures r.Ok? ==> (r.value <==> Total(s.puzzle.contents[..]) < Total(old(s.puzzle.contents[..])))
    ensures r.Ok? && !r.value ==> s.puzzle.contents[..] == old(s.puzzle.contents[..])
  {
    var c, imm := s.puzzle.contents, s.puzzle.immutable;
    ghost var c0, imm0 := c[..], imm[..];
    var dict := u;
    var more, changeMade := true, false;
    processedNow := processed;
    r := Ok(false);
    while more
      invariant Subsets(c0, c[..]) && OnlyReleased(imm0, imm[..])
      invariant HoldersIn(dict, s.dimension * s.dimension)
      invariant r.Err? ==> r.error == SudokuErrors
      invariant r.Ok? ==> r.value == changeMade
      invariant r.Ok? ==> (changeMade <==> Total(c[..]) < Total(c0))
      invariant r.Ok? && !changeMade ==> c[..] == c0
      decreases Total(c[..]) + (if more then 1 else 0)
    {
      ghost var prev, immPrev := c[..], imm[..];
      var step, p := TryCombinations(s, context, dict, size, processedNow);
      processedNow := p;
      TotalShrinks(c0, prev);
      TotalShrinks(prev, c[..]);
      if step.Err? {
        r, more := Err(step.error), false;
      } else if !step.value {
        more := false;
      } else {
        changeMade := true;
        r := Ok(true);
        var next := ComboDict(s, context);
        if next.Err? {
          r, more := Err(next.error), false;
        } else {
          dict := next.value;
        }
      }
    }
  }

  /**
   * `cells_per_value_dict(context, min_size=2)`: the values held by at least
   * two cells of the context (the upper bound 100 never bites); its
   * PuzzleExcept surfaces as SudokuErrors.
   */
  method ComboDict(s: Sudoku, context: seq<nat>) returns (r: Result<map<char, set<nat>>>)
    requires s.Valid() && InGrid(context, s.dimension * s.dimension)
    ensures r.Err? <==> UnknownValue(s.puzzle.contents[..], context, s.valueOptions, s.puzzle.placeholder)
    ensures r.Err? ==> r.error == SudokuErrors
    ensures r.Ok? ==> r.value == ValueCells(s.puzzle.contents[..], context, s.valueOptions, s.puzzle.placeholder, 2, 100)
    ensures r.Ok? ==> HoldersIn(r.value, s.dimension * s.dimension)
  {
    var dict := CellsPerValue(s, context, 2, 100);
    if dict.Err? {
      r := Err(SudokuErrors);
    } else {
      ValueCellsIn(s.puzzle.contents[..], context, s.valueOptions, s.puzzle.placeholder, 2, 100);
      r := dict;
    }
  }

  /** The dictionary `cells_per_value_dict` returns files only cells of the context. */
  lemma ValueCellsIn(c: seq<set<char>>, cells: seq<nat>, options: seq<char>, placeholder: char, minSize: int, maxSize: int)
    requires InGrid(cells, |c|)
    ensures HoldersIn(ValueCells(c, cells, options, placeholder, minSize, maxSize), |c|)
  {
  }

  /**
   * `combo_reduction(context_type, context_number)`. Combination sizes 2, 3,
   * ... are tried in turn, each on a dictionary (values held by at least two
   * cells) taken afresh from the context, until the size equals the
   * dictionary's size minus two; as that equality can be stepped over, the
   * loop runs at most `fuel` rounds and then reports OutOfFuel. Any failure
   * inside surfaces as SudokuErrors. Candidates only shrink (given clues
   * included: `remove_all_but` ignores immutability), immutability is only
   * released, and the result says whether anything changed.
   */
  method ComboReduction(s: Sudoku, kind: ContextKind, number: int, fuel: nat) returns (r: Result<bool>)
    requires s.Valid()
    modifies s.puzzle.contents, s.puzzle.immutable
    ensures Subsets(old(s.puzzle.contents[..]), s.puzzle.contents[..])
    ensures OnlyReleased(old(s.puzzle.immutable[..]), s.puzzle.immutable[..])
    ensures r.Err? ==> r.error == SudokuErrors || r.error == OutOfFuel
    ensures !(1 <= number <= s.dimension) ==> r.Err? && s.puzzle.contents[..] == old(s.puzzle.contents[..])
    ensures r.Ok? ==> (r.value <==> Total(s.puzzle.contents[..]) < Total(old(s.puzzle.contents[..])))
    ensures r.Ok? && !r.value ==> s.puzzle.contents[..] == old(s.puzzle.contents[..])
  {
    var c, imm := s.puzzle.contents, s.puzzle.immutable;
    ghost var c0, imm0 := c[..], imm[..];
    var changeMade := false;
    var size := 1;
    var processed: seq<set<char>> := [];
    var rounds := fuel;
    var more := true;
    r := Ok(false);
    while more
      invariant Subsets(c0, c[..]) && OnlyReleased(imm0, imm[..])
      invariant r.Err? ==> r.error == SudokuErrors || r.error == OutOfFuel
      invariant !(1 <= number <= s.dimension) ==> c[..] == c0 && (more || r.Err?)
      invariant more ==> r.Ok?
      invariant r.Ok? ==> r.value == changeMade
      invariant r.Ok? ==> (changeMade <==> Total(c[..]) < Total(c0))
      invariant r.Ok? && !changeMade ==> c[..] == c0
      decreases rounds, if more then 1 else 0
    {
      if rounds == 0 {
        r, more := Err(OutOfFuel), false;
      } else {
        rounds := rounds - 1;
        size := size + 1;
        ghost var prev := c[..];
        var step, last, p := ComboRound(s, kind, number, size, processed);
        processed := p;
        TotalShrinks(c0, prev);
        TotalShrinks(prev, c[..]);
        if step.Err? {
          r, more := Err(step.error), false;
        } else {
          changeMade := step.value || changeMade;
          r, more := Ok(changeMade), !last;
        }
      }
    }
  }

  /**
   * One round of the outer loop of `combo_reduction`, for combination size
   * `size`: a fresh dictionary of the context; `last` when the size has
   * reached the dictionary's size minus two (nothing is done then);
   * otherwise the combinations of that size are worked through.
   */
  method ComboRound(s: Sudoku, kind: ContextKind, number: int, size: int, processed: seq<set<char>>)
    returns (r: Result<bool>, last: bool, processedNow: seq<set<char>>)
    requires s.Valid()
    modifies s.puzzle.contents, s.puzzle.immutable
    ensures Subsets(old(s.puzzle.contents[..]), s.puzzle.contents[..])
    ensures OnlyReleased(old(s.puzzle.immutable[..]), s.puzzle.immutable[..])
    ensures r.Err? ==> r.error == SudokuErrors
    ensures !(1 <= number <= s.dimension) ==> r.Err? && s.puzzle.contents[..] == old(s.puzzle.contents[..])
    ensures r.Ok? ==> (r.value <==> Total(s.puzzle.contents[..]) < Total(old(s.puzzle.contents[..])))
    ensures r.Ok? && !r.value ==> s.puzzle.contents[..] == old(s.puzzle.contents[..])
  {
    processedNow, last := processed, false;
    var context := s.GetContext(kind, number);
    if context.Err? {
      r := Err(SudokuErrors);
    } else {
      ContextInGrid(s, kind, number);
      var dict := ComboDict(s, context.value);
      if dict.Err? {
        r := Err(dict.error);
      } else if size == |dict.value| - 2 {
        r, last := Ok(false), true;
      } else {
        r, processedNow := ReduceAtSize(s, context.value, dict.value, size, processed);
      }
    }
  }

  /** The line `find_shared_lines` reports: a row, a column (1-based), or none (`CellContext.NONE, 0`). */
  datatype SharedLine = SharedRow(row: nat) | SharedColumn(column: nat) | NoSharedLine

  /** The 1-based rows of the cells of a grid with d columns. */
  function RowsOf(d: nat, cells: set<nat>): set<nat>
    requires d > 0
  {
    set k | k in cells :: k / d + 1
  }

  /** The 1-based columns of the cells of a grid with d columns. */
  function ColumnsOf(d: nat, cells: set<nat>): set<nat>
    requires d > 0
  {
    set k | k in cells :: k % d + 1
  }

  /** The element of a one-element set. */
  function Only(x: set<nat>): (e: nat)
    requires |x| == 1
    ensures x == {e}
  {
    var e :| e in x;
    assert x == {e} by {
      assert |x - {e}| == 0;
    }
    e
  }

  /**
   * `find_shared_lines(cells)`: the row all the cells share, else the column
   * they all share, else none; PuzzleExcept when they share both.
   */
  function FindSharedLines(d: nat, cells: set<nat>): (r: Result<SharedLine>)
    requires d > 0
    ensures r.Err? ==> r.error == PuzzleExcept
    ensures r.Err? <==> |cells| == 1
    ensures r.Ok? && r.value.SharedRow? ==> forall k :: k in cells ==> k / d + 1 == r.value.row
    ensures r.Ok? && r.value.SharedColumn? ==>
      (forall k :: k in cells ==> k % d + 1 == r.value.column) && exists i, j :: i in cells && j in cells && i / d != j / d
    ensures r.Ok? && r.value.NoSharedLine? ==> (cells == {} ||
      ((exists i, j :: i in cells && j in cells && i / d != j / d) && exists i, j :: i in cells && j in cells && i % d != j % d))
  {
    var rows, columns := RowsOf(d, cells), ColumnsOf(d, cells);
    SameLinesSameCell(d, cells);
    if |rows| == 1 && |columns| == 1 then
      Err(PuzzleExcept)
    else if |rows| == 1 then
      SharedRowOf(d, cells);
      Ok(SharedRow(Only(rows)))
    else if |columns| == 1 then
      SharedColumnOf(d, cells);
      Ok(SharedColumn(Only(columns)))
    else
      SpreadOf(d, cells);
      Ok(NoSharedLine)
  }

  lemma LinesNonEmpty(d: nat, cells: set<nat>)
    requires d > 0 && cells != {}
    ensures RowsOf(d, cells) != {} && ColumnsOf(d, cells) != {}
  {
    var k :| k in cells;
    assert k / d + 1 in RowsOf(d, cells) && k % d + 1 in ColumnsOf(d, cells);
  }

  /** Two distinct rows among the cells' rows come from two cells in different rows. */
  lemma RowsApart(d: nat, cells: set<nat>)
    requires d > 0 && |RowsOf(d, cells)| >= 2
    ensures exists i, j :: i in cells && j in cells && i / d != j / d
  {
    var rows := RowsOf(d, cells);
    var a :| a in rows;
    assert |rows - {a}| == |rows| - 1;
    var b :| b in rows - {a};
    var i :| i in cells && i / d + 1 == a;
    var j :| j in cells && j / d + 1 == b;
  }

  lemma ColumnsApart(d: nat, cells: set<nat>)
    requires d > 0 && |ColumnsOf(d, cells)| >= 2
    ensures exists i, j :: i in cells && j in cells && i % d != j % d
  {
    var columns := ColumnsOf(d, cells);
    var a :| a in columns;
    assert |columns - {a}| == |columns| - 1;
    var b :| b in columns - {a};
    var i :| i in cells && i % d + 1 == a;
    var j :| j in cells && j % d + 1 == b;
  }

  /** The cells share one row and one column exactly when there is one cell. */
  lemma SameLinesSameCell(d: nat, cells: set<nat>)
    requires d > 0
    ensures (|RowsOf(d, cells)| == 1 && |ColumnsOf(d, cells)| == 1) <==> |cells| == 1
  {
    if |cells| == 1 {
      var k := Only(cells);
      assert RowsOf(d, cells) == {k / d + 1};
      assert ColumnsOf(d, cells) == {k % d + 1};
    }
    if |RowsOf(d, cells)| == 1 && |ColumnsOf(d, cells)| == 1 {
      var a, b := Only(RowsOf(d, cells)), Only(ColumnsOf(d, cells));
      assert cells != {};
      var k :| k in cells;
      forall y | y in cells ensures y == k {
        assert y / d + 1 in RowsOf(d, cells) && k / d + 1 in RowsOf(d, cells);
        assert y % d + 1 in ColumnsOf(d, cells) && k % d + 1 in ColumnsOf(d, cells);
        assert y == d * (y / d) + y % d && k == d * (k / d) + k % d;
      }
      assert cells == {k};
    }
  }

  lemma SharedRowOf(d: nat, cells: set<nat>)
    requires d > 0 && |RowsOf(d, cells)| == 1
    ensures forall k :: k in cells ==> k / d + 1 == Only(RowsOf(d, cells))
  {
    forall k | k in cells ensures k / d + 1 == Only(RowsOf(d, cells)) {
      assert k / d + 1 in RowsOf(d, cells);
    }
  }

  lemma SharedColumnOf(d: nat, cells: set<nat>)
    requires d > 0 && |RowsOf(d, cells)| != 1 && |ColumnsOf(d, cells)| == 1
    ensures forall k :: k in cells ==> k % d + 1 == Only(ColumnsOf(d, cells))
    ensures exists i, j :: i in cells && j in cells && i / d != j / d
  {
    forall k | k in cells ensures k % d + 1 == Only(ColumnsOf(d, cells)) {
      assert k % d + 1 in ColumnsOf(d, cells);
    }
    assert cells != {};
    LinesNonEmpty(d, cells);
    RowsApart(d, cells);
  }

  lemma SpreadOf(d: nat, cells: set<nat>)
    requires d > 0 && |RowsOf(d, cells)| != 1 && |ColumnsOf(d, cells)| != 1
    ensures cells == {} ||
      ((exists i, j :: i in cells && j in cells && i / d != j / d) && exists i, j :: i in cells && j in cells && i % d != j % d)
  {
    if cells != {} {
      LinesNonEmpty(d, cells);
      RowsApart(d, cells);
      ColumnsApart(d, cells);
    }
  }
}

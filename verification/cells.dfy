// A puzzle cell: a candidate set of one-character symbols, a placeholder
// symbol that marks an empty cell, an immutability flag for given clues and
// 1-based coordinates (puzzles/puzzle.py, class Cell).
module Cells {
  import opened Outcome

  /** `set(raw_value)` on a string: the characters it is made of. */
  function CharSet(raw: seq<char>): (r: set<char>)
    ensures forall ch :: ch in r <==> ch in raw
    ensures |r| <= |raw|
  {
    if raw == [] then {} else {raw[0]} + CharSet(raw[1..])
  }

  /** `Cell.__len__`: a cell holding only the placeholder has size 0. */
  function Len(contents: set<char>, placeholder: char): (n: nat)
    ensures n == 0 <==> contents == {placeholder} || contents == {}
    ensures n <= |contents|
  {
    if contents == {placeholder} then 0 else |contents|
  }

  /** `Cell.empty`: the cell holds the placeholder and nothing else. */
  predicate IsEmpty(contents: set<char>, placeholder: char)
  {
    contents == {placeholder}
  }

  /** `Cell.solved`: neither empty nor holding several candidates. */
  predicate IsSolved(contents: set<char>, placeholder: char)
  {
    !(contents == {placeholder} || |contents| > 1)
  }

  /** How `Cell.__len__`, `empty` and `solved` classify one candidate set. */
  lemma Classification(contents: set<char>, placeholder: char)
    ensures IsEmpty(contents, placeholder) <==> Len(contents, placeholder) == 0 && contents != {}
    ensures IsSolved(contents, placeholder) <==> Len(contents, placeholder) == 1 || contents == {}
    ensures IsEmpty(contents, placeholder) ==> !IsSolved(contents, placeholder)
  {
    if |contents| == 1 && contents != {placeholder} {
      assert Len(contents, placeholder) == 1;
    }
  }

  /** The state a freshly built cell starts in: its contents and whether it is a given clue. */
  datatype CellInit = CellInit(contents: set<char>, immutable: bool)

  /**
   * `Cell.__init__`: no value (or the placeholder itself) gives an empty,
   * mutable cell; any other value is a given clue holding its characters.
   */
  function InitialState(rawValue: Option<seq<char>>, placeholder: char): (r: CellInit)
    ensures r.immutable <==> rawValue.Some? && rawValue.value != [placeholder]
    ensures !r.immutable ==> r.contents == {placeholder}
    ensures r.immutable ==> forall ch :: ch in r.contents <==> ch in rawValue.value
  {
    if rawValue == None || rawValue == Some([placeholder]) then CellInit({placeholder}, false)
    else CellInit(CharSet(rawValue.value), true)
  }

  /** `SudokuCellFactory.new_cell`: a Sudoku cell value is at most one character long. */
  function CheckSudokuCellValue(value: seq<char>): (r: Option<Error>)
    ensures r == None <==> |value| <= 1
    ensures r != None ==> r == Some(CellExcept)
  {
    if |value| > 1 then Some(CellExcept) else None
  }

  /** Taking b away from a makes it smaller exactly when they share a value. */
  lemma DiffShrinks(a: set<char>, b: set<char>)
    ensures |a - b| < |a| <==> a * b != {}
  {
    if a * b != {} {
      var v :| v in a * b;
      assert a - b <= a - {v};
    } else {
      forall x | x in a ensures x !in b {
        assert x in b ==> x in a * b;
      }
      assert a - b == a;
    }
  }

  /** Taking b away from a changes it exactly when they share a value. */
  lemma DiffChanges(a: set<char>, b: set<char>)
    ensures a - b <= a
    ensures a - b != a <==> a * b != {}
  {
    if a * b != {} {
      var v :| v in a * b;
      assert v !in a - b;
    } else {
      forall x | x in a ensures x in a - b {
        assert x in b ==> x in a * b;
      }
    }
  }

  class Cell {
    const placeholder: char
    var contents: set<char>
    var immutable: bool
    const rowNumber: nat
    const columnNumber: nat

    /** `Cell.__init__` for valid (non-negative) indices; coordinates become 1-based. */
    constructor (rawValue: Option<seq<char>>, rowIndex: nat, columnIndex: nat, placeholder: char)
      ensures this.placeholder == placeholder
      ensures CellInit(contents, immutable) == InitialState(rawValue, placeholder)
      ensures rowNumber == rowIndex + 1 && columnNumber == columnIndex + 1
    {
      this.placeholder := placeholder;
      var init := InitialState(rawValue, placeholder);
      contents, immutable := init.contents, init.immutable;
      rowNumber, columnNumber := rowIndex + 1, columnIndex + 1;
    }

    /** `Cell.set`: a given clue refuses the new value and reports False. */
    method Set(rawValue: seq<char>) returns (ok: bool)
      modifies this`contents
      ensures ok <==> !immutable
      ensures contents == if ok then CharSet(rawValue) else old(contents)
    {
      ok := !immutable;
      if ok {
        contents := CharSet(rawValue);
      }
    }

    /** `Cell.clear`: back to the placeholder unless the cell is a given clue. */
    method Clear()
      modifies this`contents
      ensures contents == if immutable then old(contents) else {placeholder}
    {
      if !immutable {
        contents := {placeholder};
      }
    }

    /** `Cell.clear_if_unsolved`: only a mutable cell with several candidates is cleared. */
    method ClearIfUnsolved()
      modifies this`contents
      ensures contents == if !immutable && |old(contents)| > 1 then {placeholder} else old(contents)
    {
      if !immutable && |contents| > 1 {
        contents := {placeholder};
      }
    }

    /**
     * `Cell.remove_all_but`: keeps only the keepers, WITHOUT looking at the
     * immutability flag, and reports whether anything was discarded.
     */
    method RemoveAllBut(keepers: set<char>) returns (changed: bool)
      modifies this`contents
      ensures contents == old(contents) * keepers
      ensures changed <==> contents != old(contents)
    {
      changed := false;
      var temp := contents;
      while temp != {}
        invariant temp <= old(contents)
        invariant contents == old(contents) * (keepers + temp)
        invariant changed <==> contents != old(contents)
        decreases |temp|
      {
        var value :| value in temp;
        if value !in keepers {
          contents := contents - {value};
          changed := true;
        }
        temp := temp - {value};
      }
    }

    /** `Cell.remove_value`: True exactly when the value was present and the cell is mutable. */
    method RemoveValue(value: char) returns (changed: bool)
      modifies this`contents
      ensures contents == if immutable then old(contents) else old(contents) - {value}
      ensures changed <==> |contents| < |old(contents)|
      ensures changed <==> !immutable && value in old(contents)
    {
      if immutable {
        return false;
      }
      var before := |contents|;
      contents := contents - {value};
      changed := before != |contents|;
    }

    /** `Cell.remove_values`: the same for several values at once. */
    method RemoveValues(values: set<char>) returns (changed: bool)
      modifies this`contents
      ensures contents == if immutable then old(contents) else old(contents) - values
      ensures changed <==> |contents| < |old(contents)|
      ensures changed <==> !immutable && old(contents) * values != {}
    {
      if immutable {
        return false;
      }
      var before := |contents|;
      var rest := values;
      while rest != {}
        invariant rest <= values
        invariant contents == old(contents) - (values - rest)
        decreases |rest|
      {
        var value :| value in rest;
        contents := contents - {value};
        rest := rest - {value};
      }
      assert contents == old(contents) - values;
      DiffShrinks(old(contents), values);
      changed := before != |contents|;
    }
  }

  /** `Cell.__init__` with arbitrary indices: a negative one raises CellExcept. */
  method NewCell(rawValue: Option<seq<char>>, rowIndex: int, columnIndex: int, placeholder: char)
    returns (r: Result<Cell>)
    ensures r.Err? <==> rowIndex < 0 || columnIndex < 0
    ensures r.Err? ==> r.error == CellExcept
    ensures r.Ok? ==> (fresh(r.value) && r.value.placeholder == placeholder
      && CellInit(r.value.contents, r.value.immutable) == InitialState(rawValue, placeholder)
      && r.value.rowNumber == rowIndex + 1 && r.value.columnNumber == columnIndex + 1)
  {
    if rowIndex < 0 || columnIndex < 0 {
      return Err(CellExcept);
    }
    var cell := new Cell(rawValue, rowIndex, columnIndex, placeholder);
    r := Ok(cell);
  }

  /** `SudokuCellFactory.new_cell`: rejects values longer than one character, then builds the cell. */
  method NewSudokuCell(value: seq<char>, rowIndex: int, columnIndex: int, placeholder: char)
    returns (r: Result<Cell>)
    ensures r.Err? <==> |value| > 1 || rowIndex < 0 || columnIndex < 0
    ensures r.Err? ==> r.error == CellExcept
    ensures r.Ok? ==> (fresh(r.value)
      && CellInit(r.value.contents, r.value.immutable) == InitialState(Some(value), placeholder))
  {
    if CheckSudokuCellValue(value) != None {
      return Err(CellExcept);
    }
    r := NewCell(Some(value), rowIndex, columnIndex, placeholder);
  }
}

// The generic puzzle grid of puzzles/puzzle.py (class Puzzle and the
// linking half of PuzzleBuilder) as an arena: the cells of a rows x cols grid
// live at row-major indices of parallel arrays, and the next-in-row and
// next-in-column links are index-valued arrays (-1 while not yet linked).
module Grid {
  import opened Outcome
  import opened Arith
  import opened Cells
  import opened Rings

  /** Indices of row r, left to right. */
  function RowRing(cols: nat, r: nat): (ring: seq<nat>)
    ensures |ring| == cols
    ensures forall c :: 0 <= c < cols ==> ring[c] == Idx(cols, r, c)
  {
    seq(cols, c requires 0 <= c < cols => Idx(cols, r, c))
  }

  /** Indices of column c, top to bottom. */
  function ColumnRing(rows: nat, cols: nat, c: nat): (ring: seq<nat>)
    ensures |ring| == rows
    ensures forall r :: 0 <= r < rows ==> ring[r] == Idx(cols, r, c)
  {
    seq(rows, r requires 0 <= r < rows => Idx(cols, r, c))
  }

  /** The row link the builder gives cell i: the next column, the last one wrapping to column 0. */
  function RowSucc(cols: nat, i: nat): int
    requires cols > 0
  {
    Idx(cols, i / cols, if i % cols == cols - 1 then 0 else i % cols + 1)
  }

  /** The column link the builder gives cell i: the next row, the last one wrapping to row 0. */
  function ColumnSucc(rows: nat, cols: nat, i: nat): int
    requires cols > 0
  {
    Idx(cols, if i / cols == rows - 1 then 0 else i / cols + 1, i % cols)
  }

  /** The cells RowIterator yields when started at cell i. */
  function RowFrom(rows: nat, cols: nat, i: nat): seq<nat>
    requires i < rows * cols
  {
    IdxSplit(rows, cols, i);
    Rotate(RowRing(cols, i / cols), i % cols)
  }

  /** The cells ColumnIterator yields when started at cell i. */
  function ColumnFrom(rows: nat, cols: nat, i: nat): seq<nat>
    requires i < rows * cols
  {
    IdxSplit(rows, cols, i);
    Rotate(ColumnRing(rows, cols, i % cols), i / cols)
  }

  /** Started at the first cell of row r, RowIterator yields the row left to right. */
  lemma RowFromFirst(rows: nat, cols: nat, r: nat)
    requires r < rows && cols >= 1
    ensures Idx(cols, r, 0) < rows * cols
    ensures |RowFrom(rows, cols, Idx(cols, r, 0))| == cols
    ensures forall t :: 0 <= t < cols ==> RowFrom(rows, cols, Idx(cols, r, 0))[t] == Idx(cols, r, t)
  {
    IdxBound(rows, cols, r, 0);
    IdxParts(cols, r, 0);
  }

  /** The row link of cell (r, c). */
  lemma RowSuccAt(cols: nat, r: nat, c: nat)
    requires c < cols
    ensures RowSucc(cols, Idx(cols, r, c)) == Idx(cols, r, if c == cols - 1 then 0 else c + 1)
  {
    IdxParts(cols, r, c);
  }

  /** The column link of cell (r, c). */
  lemma ColumnSuccAt(rows: nat, cols: nat, r: nat, c: nat)
    requires c < cols
    ensures Idx(cols, r, c) / cols == r && Idx(cols, r, c) % cols == c
    ensures ColumnSucc(rows, cols, Idx(cols, r, c)) == Idx(cols, if r == rows - 1 then 0 else r + 1, c)
  {
    IdxParts(cols, r, c);
  }

  /** Column c of succ is linked from its first r rows on; every other link is as in start. */
  ghost predicate ColumnLinkedTo(succ: seq<int>, start: seq<int>, rows: nat, cols: nat, c: nat, r: nat)
    requires cols > 0
  {
    && |succ| == |start| == rows * cols
    && forall k :: 0 <= k < |succ| ==>
         succ[k] == if k % cols == c && k / cols < r then ColumnSucc(rows, cols, k) else start[k]
  }

  /** Linking the cell of column c in row r extends ColumnLinkedTo by one row. */
  lemma ColumnLinkStep(succ: seq<int>, start: seq<int>, rows: nat, cols: nat, c: nat, r: nat)
    requires c < cols && r < rows && ColumnLinkedTo(succ, start, rows, cols, c, r)
    ensures Idx(cols, r, c) < |succ|
    ensures ColumnLinkedTo(succ[Idx(cols, r, c) := ColumnSucc(rows, cols, Idx(cols, r, c))], start, rows, cols, c, r + 1)
  {
    IdxBound(rows, cols, r, c);
    IdxParts(cols, r, c);
    var next := succ[Idx(cols, r, c) := ColumnSucc(rows, cols, Idx(cols, r, c))];
    forall k | 0 <= k < |next|
      ensures next[k] == if k % cols == c && k / cols < r + 1 then ColumnSucc(rows, cols, k) else start[k]
    {
      IdxSplit(rows, cols, k);
    }
  }

  ghost predicate RowLinked(succ: seq<int>, rows: nat, cols: nat)
  {
    cols > 0 && |succ| == rows * cols && forall i :: 0 <= i < |succ| ==> succ[i] == RowSucc(cols, i)
  }

  ghost predicate ColumnLinked(succ: seq<int>, rows: nat, cols: nat)
  {
    cols > 0 && |succ| == rows * cols && forall i :: 0 <= i < |succ| ==> succ[i] == ColumnSucc(rows, cols, i)
  }

  /** Row linking closes every row into one circuit of `cols` cells. */
  lemma RowRingIsRing(succ: seq<int>, rows: nat, cols: nat, r: nat)
    requires RowLinked(succ, rows, cols) && r < rows
    ensures IsRing(succ, RowRing(cols, r))
  {
    var ring := RowRing(cols, r);
    forall k | 0 <= k < cols ensures ring[k] < |succ| && succ[ring[k]] == Idx(cols, r, if k == cols - 1 then 0 else k + 1) {
      IdxBound(rows, cols, r, k);
      IdxParts(cols, r, k);
    }
  }

  /** Column linking closes every column into one circuit of `rows` cells. */
  lemma ColumnRingIsRing(succ: seq<int>, rows: nat, cols: nat, c: nat)
    requires ColumnLinked(succ, rows, cols) && rows > 0 && c < cols
    ensures IsRing(succ, ColumnRing(rows, cols, c))
  {
    var ring := ColumnRing(rows, cols, c);
    forall k | 0 <= k < rows ensures ring[k] < |succ| && succ[ring[k]] == Idx(cols, if k == rows - 1 then 0 else k + 1, c) {
      IdxBound(rows, cols, k, c);
      IdxParts(cols, k, c);
    }
    forall i, j | 0 <= i < j < rows ensures ring[i] != ring[j] {
      if ring[i] == ring[j] {
        IdxInjective(cols, i, c, j, c);
      }
    }
  }

  /** The cells of row r are exactly the indices whose row is r. */
  lemma InRowRing(rows: nat, cols: nat, r: nat, j: nat)
    requires r < rows
    ensures j in RowRing(cols, r) <==> j < rows * cols && j / cols == r
  {
    if j in RowRing(cols, r) {
      var c :| 0 <= c < cols && RowRing(cols, r)[c] == j;
      IdxBound(rows, cols, r, c);
      IdxParts(cols, r, c);
    }
    if j < rows * cols && j / cols == r {
      IdxSplit(rows, cols, j);
      assert RowRing(cols, r)[j % cols] == j;
    }
  }

  /** The cells of column c are exactly the indices whose column is c. */
  lemma InColumnRing(rows: nat, cols: nat, c: nat, j: nat)
    requires c < cols
    ensures j in ColumnRing(rows, cols, c) <==> j < rows * cols && j % cols == c
  {
    if j in ColumnRing(rows, cols, c) {
      var r :| 0 <= r < rows && ColumnRing(rows, cols, c)[r] == j;
      IdxBound(rows, cols, r, c);
      IdxParts(cols, r, c);
    }
    if j < rows * cols && j % cols == c {
      IdxSplit(rows, cols, j);
      assert ColumnRing(rows, cols, c)[j / cols] == j;
    }
  }

  /**
   * RowIterator from any cell: it starts at that cell, yields each cell of
   * its row exactly once (`cols` of them) and stops before the start again.
   */
  lemma RowFromFacts(succ: seq<int>, rows: nat, cols: nat, i: nat)
    requires RowLinked(succ, rows, cols) && i < rows * cols
    ensures IsRing(succ, RowFrom(rows, cols, i))
    ensures |RowFrom(rows, cols, i)| == cols && RowFrom(rows, cols, i)[0] == i
    ensures forall j :: j in RowFrom(rows, cols, i) <==> 0 <= j < rows * cols && j / cols == i / cols
  {
    IdxSplit(rows, cols, i);
    var r, c := i / cols, i % cols;
    var ring := RowRing(cols, r);
    assert RowFrom(rows, cols, i) == Rotate(ring, c);
    RowRingIsRing(succ, rows, cols, r);
    RotateRing(succ, ring, c);
    assert ring[c] == i;
    RowFromMembers(rows, cols, i);
  }

  lemma RowFromMembers(rows: nat, cols: nat, i: nat)
    requires i < rows * cols
    ensures forall j :: j in RowFrom(rows, cols, i) <==> 0 <= j < rows * cols && j / cols == i / cols
  {
    IdxSplit(rows, cols, i);
    forall j: nat ensures j in RowRing(cols, i / cols) <==> 0 <= j < rows * cols && j / cols == i / cols {
      InRowRing(rows, cols, i / cols, j);
    }
  }

  /** ColumnIterator from any cell: the same for the cell's column (`rows` cells). */
  lemma ColumnFromFacts(succ: seq<int>, rows: nat, cols: nat, i: nat)
    requires ColumnLinked(succ, rows, cols) && i < rows * cols
    ensures IsRing(succ, ColumnFrom(rows, cols, i))
    ensures |ColumnFrom(rows, cols, i)| == rows && ColumnFrom(rows, cols, i)[0] == i
    ensures forall j :: j in ColumnFrom(rows, cols, i) <==> 0 <= j < rows * cols && j % cols == i % cols
  {
    IdxSplit(rows, cols, i);
    var r, c := i / cols, i % cols;
    var ring := ColumnRing(rows, cols, c);
    assert ColumnFrom(rows, cols, i) == Rotate(ring, r);
    ColumnRingIsRing(succ, rows, cols, c);
    RotateRing(succ, ring, r);
    assert ring[r] == i;
    ColumnFromMembers(rows, cols, i);
  }

  lemma ColumnFromMembers(rows: nat, cols: nat, i: nat)
    requires i < rows * cols
    ensures forall j :: j in ColumnFrom(rows, cols, i) <==> 0 <= j < rows * cols && j % cols == i % cols
  {
    IdxSplit(rows, cols, i);
    assert ColumnFrom(rows, cols, i) == Rotate(ColumnRing(rows, cols, i % cols), i / cols);
    forall j: nat ensures j in ColumnRing(rows, cols, i % cols) <==> 0 <= j < rows * cols && j % cols == i % cols {
      InColumnRing(rows, cols, i % cols, j);
    }
  }

  lemma {:induction false} MinExists(s: set<char>)
    requires s != {}
    ensures exists m :: m in s && forall x :: x in s ==> m <= x
  {
    var y :| y in s;
    if s != {y} {
      MinExists(s - {y});
      var m :| m in s - {y} && forall x :: x in s - {y} ==> m <= x;
      var least := if y < m then y else m;
      forall x | x in s ensures least <= x {
        if x != y {
          assert x in s - {y};
        }
      }
      assert least in s;
    } else {
      assert forall x :: x in s ==> y <= x;
    }
  }

  /** Putting the least element of s in front of the rest of s in ascending order gives s in ascending order. */
  lemma PrependSorted(m: char, s: set<char>, rest: seq<char>)
    requires m in s && forall x :: x in s ==> m <= x
    requires |rest| == |s - {m}| && forall ch :: ch in rest <==> ch in s - {m}
    requires forall i, j :: 0 <= i < j < |rest| ==> rest[i] < rest[j]
    ensures |[m] + rest| == |s| && forall ch :: ch in [m] + rest <==> ch in s
    ensures forall i, j :: 0 <= i < j < |[m] + rest| ==> ([m] + rest)[i] < ([m] + rest)[j]
  {
    var r := [m] + rest;
    forall i, j | 0 <= i < j < |r| ensures r[i] < r[j] {
      assert r[j] == rest[j - 1] && rest[j - 1] in rest;
      if i > 0 {
        assert r[i] == rest[i - 1];
      }
    }
  }

  /** `Cell.__str__`: the candidates in ascending order, as one string. */
  ghost function Str(s: set<char>): (r: seq<char>)
    ensures |r| == |s| && forall ch :: ch in r <==> ch in s
    ensures forall i, j :: 0 <= i < j < |r| ==> r[i] < r[j]
    decreases |s|
  {
    if s == {} then []
    else
      MinExists(s);
      var m :| m in s && forall x :: x in s ==> m <= x;
      var rest := Str(s - {m});
      PrependSorted(m, s, rest);
      [m] + rest
  }

  /** Two cells render to the same string exactly when they hold the same candidates. */
  lemma StrInjective(a: set<char>, b: set<char>)
    ensures Str(a) == Str(b) <==> a == b
  {
    if Str(a) == Str(b) {
      assert forall ch :: ch in a <==> ch in Str(a);
    }
  }

  /** Indices of the empty cells, in row-major order. */
  function EmptyCells(s: seq<set<char>>, placeholder: char): (r: seq<nat>)
    ensures forall k :: k in r <==> 0 <= k < |s| && IsEmpty(s[k], placeholder)
    decreases |s|
  {
    if s == [] then []
    else EmptyCells(s[..|s| - 1], placeholder) + (if IsEmpty(s[|s| - 1], placeholder) then [|s| - 1] else [])
  }

  /** Cell k, holding `contents` and `immutable`, is what the builder makes of `values`. */
  predicate BuiltFrom(values: Option<seq<seq<char>>>, placeholder: char, k: nat, contents: set<char>, immutable: bool)
  {
    && (values != None ==> k < |values.value| && |values.value[k]| <= 1)
    && CellInit(contents, immutable)
       == InitialState(Some(if values == None then [placeholder] else values.value[k]), placeholder)
  }

  class Puzzle {
    const rows: nat
    const cols: nat
    const placeholder: char
    const contents: array<set<char>>
    const immutable: array<bool>
    const rowNext: array<int>
    const colNext: array<int>
    var empties: seq<nat>

    /** Both dimensions are positive (`Puzzle.__init__` refuses the rest). */
    predicate Sized()
    {
      rows >= 1 && cols >= 1
    }

    ghost predicate Valid()
      reads this
    {
      && Sized()
      && contents.Length == rows * cols && immutable.Length == rows * cols
      && rowNext.Length == rows * cols && colNext.Length == rows * cols
      && rowNext != colNext
    }

    /** Every row and every column is circularly linked. */
    ghost predicate Linked()
      reads this, rowNext, colNext
    {
      Valid() && RowLinked(rowNext[..], rows, cols) && ColumnLinked(colNext[..], rows, cols)
    }

    /** `Puzzle.__init__` for positive dimensions: cells not yet built or linked. */
    constructor (rows: nat, cols: nat, placeholder: char)
      requires rows >= 1 && cols >= 1
      ensures Valid() && this.rows == rows && this.cols == cols && this.placeholder == placeholder
      ensures fresh(contents) && fresh(immutable) && fresh(rowNext) && fresh(colNext)
      ensures empties == []
    {
      this.rows, this.cols, this.placeholder := rows, cols, placeholder;
      contents := new set<char>[rows * cols](_ => {placeholder});
      immutable := new bool[rows * cols](_ => false);
      rowNext := new int[rows * cols](_ => -1);
      colNext := new int[rows * cols](_ => -1);
      empties := [];
    }

    /** `copy.deepcopy` of a puzzle: the same cells and links in new arrays. */
    constructor Copy(other: Puzzle)
      requires other.Valid()
      ensures Valid() && rows == other.rows && cols == other.cols && placeholder == other.placeholder
      ensures contents[..] == other.contents[..] && immutable[..] == other.immutable[..]
      ensures rowNext[..] == other.rowNext[..] && colNext[..] == other.colNext[..] && empties == other.empties
      ensures fresh(contents) && fresh(immutable) && fresh(rowNext) && fresh(colNext)
    {
      rows, cols, placeholder := other.rows, other.cols, other.placeholder;
      var n := other.rows * other.cols;
      contents := new set<char>[n](k reads other.contents => if 0 <= k < other.contents.Length then other.contents[k] else {});
      immutable := new bool[n](k reads other.immutable => 0 <= k < other.immutable.Length && other.immutable[k]);
      rowNext := new int[n](k reads other.rowNext => if 0 <= k < other.rowNext.Length then other.rowNext[k] else -1);
      colNext := new int[n](k reads other.colNext => if 0 <= k < other.colNext.Length then other.colNext[k] else -1);
      empties := other.empties;
    }

    /**
     * The cell-building loop of `PuzzleBuilder.__init__` with the Sudoku
     * cell factory: cell (r, c) gets `values[c + r * cols]`, or the placeholder
     * when there are no values. A missing value or one longer than a
     * character aborts the build.
     */
    method BuildCells(values: Option<seq<seq<char>>>) returns (err: Option<Error>)
      requires Valid()
      modifies contents, immutable
      ensures err == None <==> (values == None || (|values.value| >= rows * cols
        && forall k :: 0 <= k < rows * cols ==> |values.value[k]| <= 1))
      ensures err != None ==> err == Some(BuildError)
      ensures err == None ==> forall k :: 0 <= k < rows * cols ==>
        CellInit(contents[k], immutable[k])
          == InitialState(Some(if values == None then [placeholder] else values.value[k]), placeholder)
    {
      var r, base := 0, 0;
      while r < rows
        invariant 0 <= r <= rows && base == Idx(cols, r, 0) && base <= rows * cols
        invariant forall k :: 0 <= k < base ==> BuiltFrom(values, placeholder, k, contents[k], immutable[k])
      {
        IdxBound(rows, cols, r, cols - 1);
        var c := 0;
        while c < cols
          invariant 0 <= c <= cols
          invariant forall k :: 0 <= k < base + c ==> BuiltFrom(values, placeholder, k, contents[k], immutable[k])
        {
          var value: seq<char>;
          if values == None {
            value := [placeholder];
          } else if base + c >= |values.value| {
            return Some(BuildError);
          } else {
            value := values.value[base + c];
          }
          if CheckSudokuCellValue(value) != None {
            assert values != None && |values.value[base + c]| > 1;
            return Some(BuildError);
          }
          var init := InitialState(Some(value), placeholder);
          contents[base + c], immutable[base + c] := init.contents, init.immutable;
          c := c + 1;
        }
        IdxNextRow(cols, r);
        r, base := r + 1, base + cols;
      }
      if values != None {
        assert BuiltFrom(values, placeholder, rows * cols - 1, contents[rows * cols - 1], immutable[rows * cols - 1]);
        forall k | 0 <= k < rows * cols ensures |values.value[k]| <= 1 {
          assert BuiltFrom(values, placeholder, k, contents[k], immutable[k]);
        }
      }
      err := None;
    }

    /** The row-linking loops of `PuzzleBuilder.__init__`. */
    method LinkRows()
      requires Valid()
      modifies rowNext
      ensures RowLinked(rowNext[..], rows, cols)
    {
      var r, base := 0, 0;
      while r < rows
        invariant 0 <= r <= rows && base == Idx(cols, r, 0) && base <= rows * cols
        invariant forall k :: 0 <= k < base ==> rowNext[k] == RowSucc(cols, k)
      {
        IdxBound(rows, cols, r, cols - 1);
        var c := 0;
        while c < cols - 1
          invariant 0 <= c <= cols - 1
          invariant forall k :: 0 <= k < base + c ==> rowNext[k] == RowSucc(cols, k)
        {
          RowSuccAt(cols, r, c);
          rowNext[base + c] := base + c + 1;
          c := c + 1;
        }
        RowSuccAt(cols, r, cols - 1);
        rowNext[base + cols - 1] := base;
        IdxNextRow(cols, r);
        r, base := r + 1, base + cols;
      }
    }

    /** One pass of the inner column-linking loop: links column c top to bottom and back. */
    method LinkColumn(c: nat)
      requires Valid() && c < cols
      modifies colNext
      ensures forall k :: 0 <= k < rows * cols ==>
        colNext[k] == if k % cols == c then ColumnSucc(rows, cols, k) else old(colNext[k])
    {
      ghost var start := colNext[..];
      var r, j := 0, c;
      while r < rows - 1
        invariant 0 <= r <= rows - 1 && j == Idx(cols, r, c)
        invariant ColumnLinkedTo(colNext[..], start, rows, cols, c, r)
      {
        ghost var prev := colNext[..];
        ColumnLinkStep(prev, start, rows, cols, c, r);
        ColumnSuccAt(rows, cols, r, c);
        IdxNextRow(cols, r);
        colNext[j] := j + cols;
        assert colNext[..] == prev[j := ColumnSucc(rows, cols, j)];
        r, j := r + 1, j + cols;
      }
      ghost var prev := colNext[..];
      ColumnLinkStep(prev, start, rows, cols, c, rows - 1);
      ColumnSuccAt(rows, cols, rows - 1, c);
      colNext[j] := c;
      assert colNext[..] == prev[j := ColumnSucc(rows, cols, j)];
      forall k | 0 <= k < rows * cols
        ensures colNext[k] == if k % cols == c then ColumnSucc(rows, cols, k) else old(colNext[k])
      {
        IdxSplit(rows, cols, k);
        assert colNext[..][k] == colNext[k];
      }
    }

    /** The column-linking loops of `PuzzleBuilder.__init__` (column by column). */
    method LinkColumns()
      requires Valid()
      modifies colNext
      ensures ColumnLinked(colNext[..], rows, cols)
    {
      var c := 0;
      while c < cols
        invariant 0 <= c <= cols
        invariant forall k :: 0 <= k < rows * cols && k % cols < c ==> colNext[k] == ColumnSucc(rows, cols, k)
      {
        LinkColumn(c);
        c := c + 1;
      }
    }

    /** `Puzzle.first_cell_in_row`: row numbers are 1-based; others raise PuzzleExcept. */
    function FirstCellInRow(rowNumber: int): (r: Result<nat>)
      requires Sized()
      ensures r.Ok? <==> 1 <= rowNumber <= rows
      ensures r.Err? ==> r.error == PuzzleExcept
      ensures r.Ok? ==> r.value < rows * cols && r.value / cols == rowNumber - 1 && r.value % cols == 0
    {
      if 1 <= rowNumber <= rows then
        IdxBound(rows, cols, rowNumber - 1, 0);
        IdxParts(cols, rowNumber - 1, 0);
        Ok(Idx(cols, rowNumber - 1, 0))
      else Err(PuzzleExcept)
    }

    /** `Puzzle.first_cell_in_column`: column numbers are 1-based; others raise PuzzleExcept. */
    function FirstCellInColumn(columnNumber: int): (r: Result<nat>)
      requires Sized()
      ensures r.Ok? <==> 1 <= columnNumber <= cols
      ensures r.Err? ==> r.error == PuzzleExcept
      ensures r.Ok? ==> r.value < rows * cols && r.value / cols == 0 && r.value % cols == columnNumber - 1
    {
      if 1 <= columnNumber <= cols then
        IdxBound(rows, cols, 0, columnNumber - 1);
        IdxParts(cols, 0, columnNumber - 1);
        Ok(Idx(cols, 0, columnNumber - 1))
      else Err(PuzzleExcept)
    }

    /** `cell.row_iter()` run to the end, from cell i. */
    method RowCells(i: nat) returns (cells: seq<nat>)
      requires Linked() && i < rows * cols
      ensures cells == RowFrom(rows, cols, i)
    {
      RowFromFacts(rowNext[..], rows, cols, i);
      cells := Walk(rowNext, i, RowFrom(rows, cols, i));
    }

    /** `cell.column_iter()` run to the end, from cell i. */
    method ColumnCells(i: nat) returns (cells: seq<nat>)
      requires Linked() && i < rows * cols
      ensures cells == ColumnFrom(rows, cols, i)
    {
      ColumnFromFacts(colNext[..], rows, cols, i);
      cells := Walk(colNext, i, ColumnFrom(rows, cols, i));
    }

    /** `Cell.value_in_context`: does any cell the iterator yields hold the value? */
    method ValueInContext(cells: seq<nat>, value: char) returns (found: bool)
      requires Valid() && forall j :: 0 <= j < |cells| ==> cells[j] < contents.Length
      ensures found <==> exists j :: 0 <= j < |cells| && value in contents[cells[j]]
    {
      found := false;
      var j := 0;
      while j < |cells|
        invariant 0 <= j <= |cells|
        invariant forall k :: 0 <= k < j ==> value !in contents[cells[k]]
      {
        if value in contents[cells[j]] {
          return true;
        }
        j := j + 1;
      }
    }

    /**
     * `Puzzle.__eq__`: same dimensions and every cell renders to the same
     * string; comparing the candidate sets decides the same thing (StrInjective).
     */
    method Equals(other: Puzzle) returns (eq: bool)
      requires Valid() && other.Valid()
      ensures eq <==> (rows == other.rows && cols == other.cols
        && forall k :: 0 <= k < rows * cols ==> Str(contents[k]) == Str(other.contents[k]))
    {
      if rows != other.rows || cols != other.cols {
        return false;
      }
      var k := 0;
      while k < rows * cols
        invariant 0 <= k <= rows * cols
        invariant forall j :: 0 <= j < k ==> contents[j] == other.contents[j]
      {
        if contents[k] != other.contents[k] {
          StrInjective(contents[k], other.contents[k]);
          return false;
        }
        k := k + 1;
      }
      forall j | 0 <= j < rows * cols ensures Str(contents[j]) == Str(other.contents[j]) {
        StrInjective(contents[j], other.contents[j]);
      }
      eq := true;
    }

    /** `Puzzle.clear`: every mutable cell goes back to the placeholder. */
    method Clear()
      requires Valid()
      modifies contents
      ensures forall k :: 0 <= k < rows * cols ==>
        contents[k] == if immutable[k] then old(contents[k]) else {placeholder}
    {
      var k := 0;
      while k < rows * cols
        invariant 0 <= k <= rows * cols
        invariant forall j :: 0 <= j < rows * cols ==>
          contents[j] == if j < k && !immutable[j] then {placeholder} else old(contents[j])
      {
        if !immutable[k] {
          contents[k] := {placeholder};
        }
        k := k + 1;
      }
    }

    /** `Puzzle.clear_unsolved_cells`: mutable cells with several candidates go back to the placeholder. */
    method ClearUnsolvedCells()
      requires Valid()
      modifies contents
      ensures forall k :: 0 <= k < rows * cols ==>
        contents[k] == if !immutable[k] && |old(contents[k])| > 1 then {placeholder} else old(contents[k])
    {
      var k := 0;
      while k < rows * cols
        invariant 0 <= k <= rows * cols
        invariant forall j :: 0 <= j < rows * cols ==>
          contents[j] == if j < k && !immutable[j] && |old(contents[j])| > 1 then {placeholder} else old(contents[j])
      {
        if !immutable[k] && |contents[k]| > 1 {
          contents[k] := {placeholder};
        }
        k := k + 1;
      }
    }

    /**
     * `Puzzle.empty_count`: appends the empty cells to `empties` WITHOUT
     * clearing it first, so a second call counts them again.
     */
    method EmptyCount() returns (n: nat)
      requires Valid()
      modifies this`empties
      ensures empties == old(empties) + EmptyCells(contents[..], placeholder)
      ensures n == |empties|
    {
      var k := 0;
      while k < rows * cols
        invariant 0 <= k <= rows * cols
        invariant empties == old(empties) + EmptyCells(contents[..k], placeholder)
      {
        assert contents[..k + 1][..k] == contents[..k];
        if IsEmpty(contents[k], placeholder) {
          empties := empties + [k];
        }
        k := k + 1;
      }
      assert contents[..rows * cols] == contents[..];
      n := |empties|;
    }
  }

  /** `Puzzle.__init__`: a dimension below 1 raises PuzzleExcept. */
  method NewPuzzle(rowDimension: int, columnDimension: int, placeholder: char) returns (r: Result<Puzzle>)
    ensures r.Err? <==> rowDimension < 1 || columnDimension < 1
    ensures r.Err? ==> r.error == PuzzleExcept
    ensures r.Ok? ==> (fresh(r.value) && r.value.Valid() && r.value.rows == rowDimension
      && r.value.cols == columnDimension && r.value.empties == [])
  {
    if rowDimension < 1 || columnDimension < 1 {
      return Err(PuzzleExcept);
    }
    var p := new Puzzle(rowDimension, columnDimension, placeholder);
    r := Ok(p);
  }
}

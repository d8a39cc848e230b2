/**
 * `Sudoku.normalize_box_intersection` and `Sudoku.resolve_intersecting_contexts`:
 * when every cell of a row (or column) holding a value lies in one box, the value
 * is removed from the rest of that box.
 */
module BoxIntersection {
  import opened Outcome
  import opened Cells
  import opened Propagation
  import opened SudokuPuzzle
  import opened SudokuSolving

  /** The value options as a set: the keys of every tally. */
  function OptionSet(options: seq<char>): (r: set<char>)
    ensures forall v :: v in r <==> v in options
  {
    set v | v in options
  }

  /** Every cell the tally files under a value is a non-empty cell of the grid. */
  lemma TallyFilled(c: seq<set<char>>, cells: seq<nat>, options: seq<char>, placeholder: char)
    requires InGrid(cells, |c|)
    ensures HoldersFilled(Tally(c, cells, options, placeholder), c, placeholder)
  {
    var u := Tally(c, cells, options, placeholder);
    forall v | v in u
      ensures forall k :: k in u[v] ==> k < |c| && !IsEmpty(c[k], placeholder)
    {
      forall k | k in u[v]
        ensures k < |c| && !IsEmpty(c[k], placeholder)
      {
        var t :| 0 <= t < |cells| && cells[t] == k;
      }
    }
  }

  /** The cells protected for a value of the tally are cells of the line that hold it. */
  lemma ProtectedHold(bd: nat, c: seq<set<char>>, cells: seq<nat>, options: seq<char>, placeholder: char, j: nat)
    requires bd >= 1 && InGrid(cells, |c|)
    requires j in Protected(bd, Tally(c, cells, options, placeholder), OptionSet(options))
    ensures j in cells && j < |c| && !IsEmpty(c[j], placeholder)
    ensures exists v :: v in options && v in c[j] && |BoxesOf(bd, CellsHolding(c, cells, v, placeholder))| == 1
  {
    var u := Tally(c, cells, options, placeholder);
    var v, k :| v in options && v in u && k in u[v] && |BoxesOf(bd, u[v])| == 1 && k == j;
  }

  /**
   * `normalize_box_intersection(line_iter)` over the cells `line` of a row or
   * column. The dictionary is the line's tally taken before anything changes;
   * a value the options do not know raises PuzzleExcept before any change.
   * Otherwise every value whose holders lie in one box is cleared from the
   * other cells of that box, its holders end mutable whatever they were, and
   * the result is the verdict of the last value only.
   */
  method NormalizeBoxIntersection(s: Sudoku, line: seq<nat>) returns (r: Result<bool>)
    requires s.Valid() && InGrid(line, s.dimension * s.dimension)
    modifies s.puzzle.contents, s.puzzle.immutable
    ensures r.Err? <==> UnknownValue(old(s.puzzle.contents[..]), line, s.valueOptions, s.puzzle.placeholder)
    ensures r.Err? ==> r.error == PuzzleExcept
    ensures r.Err? ==> s.puzzle.contents[..] == old(s.puzzle.contents[..]) && s.puzzle.immutable[..] == old(s.puzzle.immutable[..])
    ensures r.Ok? ==> ValuesHandled(s.boxDimension, Tally(old(s.puzzle.contents[..]), line, s.valueOptions, s.puzzle.placeholder),
      old(s.puzzle.contents[..]), old(s.puzzle.immutable[..]), s.puzzle.contents[..], s.puzzle.immutable[..],
      OptionSet(s.valueOptions), s.puzzle.placeholder)
    ensures r.Ok? && r.value ==> Total(s.puzzle.contents[..]) < Total(old(s.puzzle.contents[..]))
    ensures r.Ok? && r.value ==> exists v :: LastInOneBox(s.boxDimension,
      Tally(old(s.puzzle.contents[..]), line, s.valueOptions, s.puzzle.placeholder), OptionSet(s.valueOptions), v)
  {
    ghost var start := s.puzzle.contents[..];
    var dict := CellsPerValue(s, line, 1, 9);
    if dict.Err? {
      r := Err(dict.error);
    } else {
      DefaultRangeKeepsAll(start, line, s.valueOptions, s.puzzle.placeholder);
      TallyFilled(start, line, s.valueOptions, s.puzzle.placeholder);
      var u := dict.value;
      assert u.Keys == OptionSet(s.valueOptions);
      var changed := NormalizeValues(s, u);
      r := Ok(changed);
    }
  }

  /** What a run of box-intersection passes keeps: candidates shrink, immutability is only lost, clues stay. */
  ghost predicate Loosened(start: seq<set<char>>, imm0: seq<bool>, c: seq<set<char>>, imm: seq<bool>, placeholder: char)
  {
    && |start| == |c| == |imm0| == |imm|
    && Shrinks(start, c, placeholder)
    && (forall j :: 0 <= j < |imm| && imm[j] ==> imm0[j])
    && (CluesSingle(start, imm0) ==> ClueGuard(start, c, imm0, imm, placeholder))
  }

  lemma LoosenedRefl(c: seq<set<char>>, imm: seq<bool>, placeholder: char)
    requires |c| == |imm|
    ensures Loosened(c, imm, c, imm, placeholder)
  {
  }

  /** A `normalize_box_intersection` that returns normally is one run of what the passes keep. */
  lemma HandledLoosens(bd: nat, u: map<char, set<nat>>, keys: set<char>, prev: seq<set<char>>, immPrev: seq<bool>,
                       now: seq<set<char>>, immNow: seq<bool>, placeholder: char)
    requires bd >= 1 && ValuesHandled(bd, u, prev, immPrev, now, immNow, keys, placeholder)
    ensures Loosened(prev, immPrev, now, immNow, placeholder)
  {
  }

  /**
   * One half of a pass of `resolve_intersecting_contexts`: `normalize_box_intersection`
   * on each row (or each column) in turn, 1 to dimension; true when some call
   * reported a change, in which case the candidates have strictly shrunk.
   */
  method NormalizeLines(s: Sudoku, kind: ContextKind) returns (r: Result<bool>)
    requires s.Valid() && kind != BoxContext
    modifies s.puzzle.contents, s.puzzle.immutable
    ensures r.Err? ==> r.error == PuzzleExcept
    ensures Loosened(old(s.puzzle.contents[..]), old(s.puzzle.immutable[..]), s.puzzle.contents[..], s.puzzle.immutable[..], s.puzzle.placeholder)
    ensures r.Ok? && r.value ==> Total(s.puzzle.contents[..]) < Total(old(s.puzzle.contents[..]))
  {
    ghost var start, imm0 := s.puzzle.contents[..], s.puzzle.immutable[..];
    LoosenedRefl(start, imm0, s.puzzle.placeholder);
    var changeMade := false;
    var number := 1;
    r := Ok(false);
    while number <= s.dimension && r.Ok?
      invariant 1 <= number <= s.dimension + 1
      invariant r.Err? ==> r.error == PuzzleExcept
      invariant Loosened(start, imm0, s.puzzle.contents[..], s.puzzle.immutable[..], s.puzzle.placeholder)
      invariant changeMade ==> Total(s.puzzle.contents[..]) < Total(start)
      invariant r.Ok? ==> r.value == changeMade
      decreases s.dimension + 1 - number, if r.Ok? then 1 else 0
    {
      ghost var prev, immPrev := s.puzzle.contents[..], s.puzzle.immutable[..];
      var line := s.GetContext(kind, number);
      ContextInGrid(s, kind, number);
      var step := NormalizeBoxIntersection(s, line.value);
      if step.Err? {
        r := Err(step.error);
      } else {
        HandledLoosens(s.boxDimension, Tally(prev, line.value, s.valueOptions, s.puzzle.placeholder),
          OptionSet(s.valueOptions), prev, immPrev, s.puzzle.contents[..], s.puzzle.immutable[..], s.puzzle.placeholder);
        LoosenedShift(start, imm0, prev, immPrev, s.puzzle.contents[..], s.puzzle.immutable[..], s.puzzle.placeholder);
        ShrinksTotal(start, prev, s.puzzle.placeholder);
        ShrinksTotal(prev, s.puzzle.contents[..], s.puzzle.placeholder);
        changeMade := step.value || changeMade;
        r := Ok(changeMade);
        number := number + 1;
      }
    }
  }

  /** One pass of `resolve_intersecting_contexts`: every row, then every column. */
  method IntersectionPass(s: Sudoku) returns (r: Result<bool>)
    requires s.Valid()
    modifies s.puzzle.contents, s.puzzle.immutable
    ensures r.Err? ==> r.error == PuzzleExcept
    ensures Loosened(old(s.puzzle.contents[..]), old(s.puzzle.immutable[..]), s.puzzle.contents[..], s.puzzle.immutable[..], s.puzzle.placeholder)
    ensures r.Ok? && r.value ==> Total(s.puzzle.contents[..]) < Total(old(s.puzzle.contents[..]))
  {
    ghost var before, immBefore := s.puzzle.contents[..], s.puzzle.immutable[..];
    r := NormalizeLines(s, RowContext);
    if r.Ok? {
      ghost var mid, immMid := s.puzzle.contents[..], s.puzzle.immutable[..];
      var columns := NormalizeLines(s, ColumnContext);
      LoosenedShift(before, immBefore, mid, immMid, s.puzzle.contents[..], s.puzzle.immutable[..], s.puzzle.placeholder);
      ShrinksTotal(before, mid, s.puzzle.placeholder);
      ShrinksTotal(mid, s.puzzle.contents[..], s.puzzle.placeholder);
      if columns.Err? {
        r := columns;
      } else {
        r := Ok(columns.value || r.value);
      }
    }
  }

  /**
   * `resolve_intersecting_contexts`: passes over all rows, then all columns,
   * until a pass reports no change. The candidates only shrink, solved cells
   * stay solved, immutability is only lost, and single-valued clues keep their
   * value. Termination: a pass that reports a change has lowered the total
   * number of candidates.
   */
  method ResolveIntersectingContexts(s: Sudoku) returns (err: Option<Error>)
    requires s.Valid()
    modifies s.puzzle.contents, s.puzzle.immutable
    ensures err.Some? ==> err.value == PuzzleExcept
    ensures Loosened(old(s.puzzle.contents[..]), old(s.puzzle.immutable[..]), s.puzzle.contents[..], s.puzzle.immutable[..], s.puzzle.placeholder)
  {
    ghost var start, imm0 := s.puzzle.contents[..], s.puzzle.immutable[..];
    LoosenedRefl(start, imm0, s.puzzle.placeholder);
    var changeMade := true;
    err := None;
    while changeMade
      invariant err.Some? ==> err.value == PuzzleExcept && !changeMade
      invariant Loosened(start, imm0, s.puzzle.contents[..], s.puzzle.immutable[..], s.puzzle.placeholder)
      decreases Total(s.puzzle.contents[..]) + (if changeMade then 1 else 0)
    {
      ghost var before, immBefore := s.puzzle.contents[..], s.puzzle.immutable[..];
      var pass := IntersectionPass(s);
      LoosenedShift(start, imm0, before, immBefore, s.puzzle.contents[..], s.puzzle.immutable[..], s.puzzle.placeholder);
      ShrinksTotal(before, s.puzzle.contents[..], s.puzzle.placeholder);
      if pass.Err? {
        err, changeMade := Some(pass.error), false;
      } else {
        changeMade := pass.value;
      }
    }
  }

  /** Loosened composes: a run from start to a, followed by a run from a to b. */
  lemma LoosenedShift(start: seq<set<char>>, imm0: seq<bool>, a: seq<set<char>>, immA: seq<bool>,
                      b: seq<set<char>>, immB: seq<bool>, placeholder: char)
    requires Loosened(start, imm0, a, immA, placeholder) && Loosened(a, immA, b, immB, placeholder)
    ensures Loosened(start, imm0, b, immB, placeholder)
  {
    if CluesSingle(start, imm0) {
      assert CluesSingle(a, immA);
      forall j | 0 <= j < |start| && imm0[j]
        ensures b[j] == start[j] && (immB[j] || !IsEmpty(b[j], placeholder))
      {
        if !immA[j] {
          assert Len(a[j], placeholder) == 1;
        }
      }
    }
  }
}

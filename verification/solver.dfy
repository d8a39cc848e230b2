// The solving stages of puzzles/sudoku.py: the value-to-cells dictionary of
// a context, resolving values that only one cell of a context can take, the
// fixpoint over all contexts, box/line intersections, value combinations,
// and the solver that strings the stages together.
//
// A stage works on one Sudoku's candidate sets in place. A dictionary from
// values to Python sets of cells becomes a `map<char, set<nat>>` from values
// to cell indices; a Python `for` over a set or a dict visits the elements in
// an order the model picks with `:|` (for the dict, which the code sorts, the
// least remaining key).
module SudokuSolving {
  import opened Outcome
  import opened Arith
  import opened Cells
  import opened Grid
  import opened Boxes
  import opened Propagation
  import opened SudokuPuzzle

  /** Every cell of `cells` is a cell of a grid with n cells. */
  predicate InGrid(cells: seq<nat>, n: nat)
  {
    forall t :: 0 <= t < |cells| ==> cells[t] < n
  }

  /** The cells of the context that are not empty and have v among their candidates. */
  function CellsHolding(c: seq<set<char>>, cells: seq<nat>, v: char, placeholder: char): (r: set<nat>)
    requires InGrid(cells, |c|)
    ensures forall k :: k in r <==> k in cells && !IsEmpty(c[k], placeholder) && v in c[k]
  {
    set t | 0 <= t < |cells| && !IsEmpty(c[cells[t]], placeholder) && v in c[cells[t]] :: cells[t]
  }

  /**
   * A non-empty cell of the context holds a candidate that is not a value
   * option, so `options_dict[value_key]` raises KeyError.
   */
  predicate UnknownValue(c: seq<set<char>>, cells: seq<nat>, options: seq<char>, placeholder: char)
    requires InGrid(cells, |c|)
  {
    exists t, v :: 0 <= t < |cells| && !IsEmpty(c[cells[t]], placeholder) && v in c[cells[t]] && v !in options
  }

  /** `cells_per_value_dict` filters by size unless it gets its default range 1..9. */
  predicate SizeKept(n: nat, minSize: int, maxSize: int)
  {
    (minSize == 1 && maxSize == 9) || minSize <= n <= maxSize
  }

  /** Every value option with the cells of the context holding it (`cells_per_value_dict` before its filter). */
  function Tally(c: seq<set<char>>, cells: seq<nat>, options: seq<char>, placeholder: char): map<char, set<nat>>
    requires InGrid(cells, |c|)
  {
    map v | v in options :: CellsHolding(c, cells, v, placeholder)
  }

  /** The dictionary `cells_per_value_dict` returns: the tally, without the values its size range drops. */
  function ValueCells(c: seq<set<char>>, cells: seq<nat>, options: seq<char>, placeholder: char,
                      minSize: int, maxSize: int): map<char, set<nat>>
    requires InGrid(cells, |c|)
  {
    var tally := Tally(c, cells, options, placeholder);
    map v | v in tally && SizeKept(|tally[v]|, minSize, maxSize) :: tally[v]
  }

  /** Taking one more cell of the context into account adds it under each of its values. */
  lemma HoldingStep(c: seq<set<char>>, cells: seq<nat>, t: nat, v: char, placeholder: char)
    requires InGrid(cells, |c|) && t < |cells|
    ensures CellsHolding(c, cells[..t + 1], v, placeholder) == CellsHolding(c, cells[..t], v, placeholder)
      + (if !IsEmpty(c[cells[t]], placeholder) && v in c[cells[t]] then {cells[t]} else {})
  {
    assert cells[..t + 1] == cells[..t] + [cells[t]];
  }

  /** The dictionary with cell k added under each value of `values` it has a key for. */
  function Filed(dict: map<char, set<nat>>, values: set<char>, k: nat): map<char, set<nat>>
  {
    map v | v in dict :: if v in values then dict[v] + {k} else dict[v]
  }

  lemma FiledStep(dict: map<char, set<nat>>, values: set<char>, v: char, k: nat)
    requires v in dict
    ensures Filed(dict, values + {v}, k) == Filed(dict, values, k)[v := dict[v] + {k}]
  {
  }

  /** The tally over one more cell of the context is the tally so far with that cell filed under its values. */
  lemma TallyStep(c: seq<set<char>>, cells: seq<nat>, t: nat, options: seq<char>, placeholder: char)
    requires InGrid(cells, |c|) && t < |cells|
    ensures Tally(c, cells[..t + 1], options, placeholder)
      == Filed(Tally(c, cells[..t], options, placeholder),
               if IsEmpty(c[cells[t]], placeholder) then {} else c[cells[t]], cells[t])
  {
    var next, prev := Tally(c, cells[..t + 1], options, placeholder), Tally(c, cells[..t], options, placeholder);
    var filed := Filed(prev, if IsEmpty(c[cells[t]], placeholder) then {} else c[cells[t]], cells[t]);
    assert next.Keys == filed.Keys;
    forall v | v in next ensures next[v] == filed[v] {
      HoldingStep(c, cells, t, v, placeholder);
    }
  }

  /** With the default size range nothing is dropped. */
  lemma DefaultRangeKeepsAll(c: seq<set<char>>, cells: seq<nat>, options: seq<char>, placeholder: char)
    requires InGrid(cells, |c|)
    ensures ValueCells(c, cells, options, placeholder, 1, 9) == Tally(c, cells, options, placeholder)
  {
  }

  /** The inner loop of `cells_per_value_dict`: file cell k under each of its candidates. */
  method FileCell(c: seq<set<char>>, k: nat, options: seq<char>, dict: map<char, set<nat>>)
    returns (r: Result<map<char, set<nat>>>)
    requires k < |c| && forall v :: v in dict <==> v in options
    ensures r.Err? <==> exists v :: v in c[k] && v !in options
    ensures r.Err? ==> r.error == PuzzleExcept
    ensures r.Ok? ==> r.value == Filed(dict, c[k], k)
  {
    var filed := dict;
    var rest := c[k];
    while rest != {}
      invariant rest <= c[k]
      invariant filed == Filed(dict, c[k] - rest, k)
      invariant forall v :: v in c[k] - rest ==> v in options
      decreases |rest|
    {
      var v :| v in rest;
      if v !in dict {
        return Err(PuzzleExcept);
      }
      FiledStep(dict, c[k] - rest, v, k);
      assert c[k] - (rest - {v}) == (c[k] - rest) + {v};
      filed := filed[v := filed[v] + {k}];
      rest := rest - {v};
    }
    assert c[k] - rest == c[k];
    r := Ok(filed);
  }

  /** One more cell of the context is an unknown value exactly when it is not empty and holds a non-option. */
  lemma UnknownStep(c: seq<set<char>>, cells: seq<nat>, t: nat, options: seq<char>, placeholder: char)
    requires InGrid(cells, |c|) && t < |cells|
    ensures UnknownValue(c, cells[..t + 1], options, placeholder) <==>
      UnknownValue(c, cells[..t], options, placeholder)
      || (!IsEmpty(c[cells[t]], placeholder) && exists v :: v in c[cells[t]] && v !in options)
  {
    var pre, next := cells[..t], cells[..t + 1];
    assert forall u :: 0 <= u < t ==> next[u] == pre[u];
    assert next[t] == cells[t];
    if UnknownValue(c, next, options, placeholder) {
      var u, v :| 0 <= u < |next| && !IsEmpty(c[next[u]], placeholder) && v in c[next[u]] && v !in options;
      assert u < t ==> UnknownValue(c, pre, options, placeholder);
    }
  }

  /** An unknown value in a prefix of the context is one in the whole context. */
  lemma UnknownPrefix(c: seq<set<char>>, cells: seq<nat>, t: nat, options: seq<char>, placeholder: char)
    requires InGrid(cells, |c|) && t <= |cells|
    ensures UnknownValue(c, cells[..t], options, placeholder) ==> UnknownValue(c, cells, options, placeholder)
  {
    if UnknownValue(c, cells[..t], options, placeholder) {
      var u, v :| 0 <= u < t && !IsEmpty(c[cells[..t][u]], placeholder) && v in c[cells[..t][u]] && v !in options;
      assert cells[..t][u] == cells[u];
    }
  }

  /** The outer loop of `cells_per_value_dict`, before the size filter. */
  method TallyValues(c: seq<set<char>>, cells: seq<nat>, options: seq<char>, placeholder: char)
    returns (r: Result<map<char, set<nat>>>)
    requires InGrid(cells, |c|)
    ensures r.Err? <==> UnknownValue(c, cells, options, placeholder)
    ensures r.Err? ==> r.error == PuzzleExcept
    ensures r.Ok? ==> r.value == Tally(c, cells, options, placeholder)
  {
    var dict: map<char, set<nat>> := map v | v in options :: {};
    var t := 0;
    assert forall v :: CellsHolding(c, cells[..t], v, placeholder) == {};
    while t < |cells|
      invariant 0 <= t <= |cells|
      invariant dict == Tally(c, cells[..t], options, placeholder)
      invariant !UnknownValue(c, cells[..t], options, placeholder)
    {
      var k := cells[t];
      TallyStep(c, cells, t, options, placeholder);
      UnknownStep(c, cells, t, options, placeholder);
      if IsEmpty(c[k], placeholder) {
        assert Filed(dict, {}, k) == dict;
      } else {
        var filed := FileCell(c, k, options, dict);
        if filed.Err? {
          UnknownPrefix(c, cells, t + 1, options, placeholder);
          return Err(PuzzleExcept);
        }
        dict := filed.value;
      }
      t := t + 1;
    }
    assert cells[..t] == cells;
    r := Ok(dict);
  }

  /** The size filter of `cells_per_value_dict`: drop the values held by too few or too many cells. */
  method KeepSizes(dict: map<char, set<nat>>, minSize: int, maxSize: int) returns (kept: map<char, set<nat>>)
    ensures forall v :: v in kept <==> v in dict && minSize <= |dict[v]| <= maxSize
    ensures forall v :: v in kept ==> kept[v] == dict[v]
  {
    kept := dict;
    var rest := dict.Keys;
    while rest != {}
      invariant rest <= dict.Keys
      invariant forall v :: v in kept <==> v in dict && (v in rest || minSize <= |dict[v]| <= maxSize)
      invariant forall v :: v in kept ==> kept[v] == dict[v]
      decreases |rest|
    {
      var v :| v in rest;
      if |dict[v]| < minSize || |dict[v]| > maxSize {
        kept := kept - {v};
      }
      rest := rest - {v};
    }
  }

  /**
   * `Sudoku.cells_per_value_dict` over the cells a context iterator yields:
   * every value option gets the set of non-empty cells holding it; unless
   * the size range is the default 1..9, values held by fewer than `minSize`
   * or more than `maxSize` cells are dropped. A candidate that is not a
   * value option raises, re-raised as PuzzleExcept.
   */
  method CellsPerValue(s: Sudoku, cells: seq<nat>, minSize: int, maxSize: int) returns (r: Result<map<char, set<nat>>>)
    requires s.Valid() && InGrid(cells, s.dimension * s.dimension)
    ensures r.Err? <==> UnknownValue(s.puzzle.contents[..], cells, s.valueOptions, s.puzzle.placeholder)
    ensures r.Err? ==> r.error == PuzzleExcept
    ensures r.Ok? ==> r.value == ValueCells(s.puzzle.contents[..], cells, s.valueOptions, s.puzzle.placeholder, minSize, maxSize)
  {
    var c, ph, options := s.puzzle.contents[..], s.puzzle.placeholder, s.valueOptions;
    r := TallyValues(c, cells, options, ph);
    DefaultRangeKeepsAll(c, cells, options, ph);
    if r.Ok? && !(minSize == 1 && maxSize == 9) {
      var kept := KeepSizes(r.value, minSize, maxSize);
      r := Ok(kept);
    }
  }

  /** What a context iterator yields lies inside the grid. */
  lemma ContextInGrid(s: Sudoku, kind: ContextKind, number: int)
    requires s.Shaped() && s.ContextOf(kind, number).Ok?
    ensures InGrid(s.ContextOf(kind, number).value, s.dimension * s.dimension)
  {
    var cells := s.ContextOf(kind, number).value;
    forall t | 0 <= t < |cells| ensures cells[t] < s.dimension * s.dimension {
      assert cells[t] in cells;
    }
  }

  /**
   * `cells_per_value_dict` over context `number` of the given kind, in a grid
   * whose candidate sets are `c`: PuzzleExcept for an unknown context or a
   * candidate that is not a value option.
   */
  function ContextValues(s: Sudoku, c: seq<set<char>>, kind: ContextKind, number: int, minSize: int, maxSize: int)
    : (r: Result<map<char, set<nat>>>)
    requires s.Shaped() && |c| == s.dimension * s.dimension
    ensures r.Err? <==> (!(1 <= number <= s.dimension)
      || (ContextInGrid(s, kind, number);
          UnknownValue(c, s.ContextOf(kind, number).value, s.valueOptions, s.puzzle.placeholder)))
    ensures r.Err? ==> r.error == PuzzleExcept
  {
    var context := s.ContextOf(kind, number);
    if context.Err? then Err(context.error)
    else
      ContextInGrid(s, kind, number);
      if UnknownValue(c, context.value, s.valueOptions, s.puzzle.placeholder) then Err(PuzzleExcept)
      else Ok(ValueCells(c, context.value, s.valueOptions, s.puzzle.placeholder, minSize, maxSize))
  }

  /** The dictionary `resolve_uniques_in_context` walks holds each value with the one cell of the context holding it. */
  lemma UniquesAreSingles(s: Sudoku, c: seq<set<char>>, kind: ContextKind, number: int, v: char)
    requires s.Shaped() && |c| == s.dimension * s.dimension
    requires ContextValues(s, c, kind, number, 1, 1).Ok? && v in ContextValues(s, c, kind, number, 1, 1).value
    ensures var u := ContextValues(s, c, kind, number, 1, 1).value;
      |u[v]| == 1 && forall k :: k in u[v] ==>
        (k < |c| && InContext(s.boxDimension, kind, number, k) && v in c[k] && !IsEmpty(c[k], s.puzzle.placeholder))
  {
    ContextInGrid(s, kind, number);
  }

  /** Value v is held by cell k alone. */
  predicate UniqueTo(u: map<char, set<nat>>, v: char, k: nat)
  {
    v in u && u[v] == {k}
  }

  /** The cell holding value v alone still has several candidates, so `resolve_uniques_in_context` acts on it. */
  predicate Resolvable(u: map<char, set<nat>>, c: seq<set<char>>, v: char, placeholder: char)
  {
    v in u && exists k :: k in u[v] && k < |c| && Len(c[k], placeholder) > 1
  }

  /** Cell k went from `before` to `after` by losing candidates or by taking a value unique to it. */
  predicate Narrowed(u: map<char, set<nat>>, before: set<char>, after: set<char>, k: nat)
  {
    after <= before || exists v :: UniqueTo(u, v, k) && after == {v}
  }

  /** Some value of u is held by one cell alone that still has several candidates. */
  predicate AnyResolvable(u: map<char, set<nat>>, c: seq<set<char>>, placeholder: char)
  {
    exists v :: v in u && Resolvable(u, c, v, placeholder)
  }

  /**
   * The cell holding value v alone is a given clue that still has several
   * candidates: `Cell.set` refuses it and `remove_value_from_context` raises
   * CellExcept on it.
   */
  predicate Refused(u: map<char, set<nat>>, c: seq<set<char>>, imm: seq<bool>, v: char, placeholder: char)
    requires |c| == |imm|
  {
    v in u && exists k :: k in u[v] && k < |c| && imm[k] && Len(c[k], placeholder) > 1
  }

  /** Some value of u is held by one refused clue alone. */
  predicate AnyRefused(u: map<char, set<nat>>, c: seq<set<char>>, imm: seq<bool>, placeholder: char)
    requires |c| == |imm|
  {
    exists v :: v in u && Refused(u, c, imm, v, placeholder)
  }

  /** Every cell went from `before` to `after` by losing candidates or by taking a value unique to it. */
  predicate AllNarrowed(u: map<char, set<nat>>, before: seq<set<char>>, after: seq<set<char>>)
    requires |before| == |after|
  {
    forall j :: 0 <= j < |before| ==> Narrowed(u, before[j], after[j], j)
  }

  /** Every given clue holds exactly one candidate, as the builder leaves it. */
  predicate CluesSingle(c: seq<set<char>>, imm: seq<bool>)
    requires |c| == |imm|
  {
    forall j :: 0 <= j < |c| && imm[j] ==> |c[j]| == 1
  }

  lemma SingletonOf(x: set<nat>, k: nat)
    requires |x| == 1 && k in x
    ensures x == {k}
  {
    assert |x - {k}| == 0;
  }

  /** Every cell only lost candidates, except that cell k may have been set to v alone. */
  predicate ShrunkOrSet(before: seq<set<char>>, after: seq<set<char>>, k: nat, v: char)
    requires |before| == |after|
  {
    forall j :: 0 <= j < |before| ==> after[j] <= before[j] || (j == k && after[j] == {v})
  }

  /**
   * One round of `resolve_uniques_in_context`: value v is held by cell k
   * alone; if k still has several candidates it is set to v (`Cell.set`,
   * refused by a given clue) and its value leaves its view. A refused clue
   * still has several candidates, so `remove_value_from_context` raises
   * CellExcept on it, before anything changes.
   */
  method ResolveUnique(s: Sudoku, k: nat, v: char) returns (r: Result<bool>)
    requires s.Valid() && k < s.dimension * s.dimension
    modifies s.puzzle.contents
    ensures r.Err? ==> r.error == CellExcept && Len(old(s.puzzle.contents[k]), s.puzzle.placeholder) > 1
    ensures r.Ok? ==> (r.value <==> Len(old(s.puzzle.contents[k]), s.puzzle.placeholder) > 1)
    ensures Len(old(s.puzzle.contents[k]), s.puzzle.placeholder) > 1 && s.puzzle.immutable[k] ==>
      r == Err(CellExcept) && s.puzzle.contents[..] == old(s.puzzle.contents[..])
    ensures Len(old(s.puzzle.contents[k]), s.puzzle.placeholder) > 1 && !s.puzzle.immutable[k] && v != s.puzzle.placeholder ==>
      r == Ok(true)
    ensures r == Ok(false) ==> s.puzzle.contents[..] == old(s.puzzle.contents[..])
    ensures ShrunkOrSet(old(s.puzzle.contents[..]), s.puzzle.contents[..], k, v)
    ensures CluesKept(old(s.puzzle.contents[..]), s.puzzle.contents[..], s.puzzle.immutable[..])
    ensures Total(s.puzzle.contents[..]) <= Total(old(s.puzzle.contents[..]))
    ensures r == Ok(true) ==> Total(s.puzzle.contents[..]) < Total(old(s.puzzle.contents[..]))
  {
    var c, imm, ph := s.puzzle.contents, s.puzzle.immutable, s.puzzle.placeholder;
    if Len(c[k], ph) <= 1 {
      return Ok(false);
    }
    ghost var prev := c[..];
    if !imm[k] {
      c[k] := {v};
    }
    ghost var mid := c[..];
    assert mid == prev[k := c[k]];
    TotalUpdate(prev, k, mid[k]);
    var ok := s.RemoveCellValueFromView(k);
    EvolvesTotal(mid, c[..], imm[..], ph);
    if !ok {
      return Err(CellExcept);
    }
    r := Ok(true);
  }

  /**
   * `Sudoku.resolve_uniques_in_context`: every value that only one cell of
   * the context holds, in ascending order, becomes that cell's only
   * candidate when it has several, and leaves the cell's view. The result
   * says whether any cell was acted on. Errors of the context lookup and of
   * the dictionary propagate as PuzzleExcept; a unique value held by a given
   * clue with several candidates raises CellExcept, after the values before
   * it were resolved.
   */
  method ResolveUniquesInContext(s: Sudoku, kind: ContextKind, number: int) returns (r: Result<bool>)
    requires s.Valid()
    modifies s.puzzle.contents
    ensures var u := ContextValues(s, old(s.puzzle.contents[..]), kind, number, 1, 1);
      && (u.Err? ==> r == Err(PuzzleExcept))
      && (u.Ok? && r.Err? ==> r.error == CellExcept)
      && (u.Ok? && AnyRefused(u.value, old(s.puzzle.contents[..]), s.puzzle.immutable[..], s.puzzle.placeholder) ==>
            r.Err?)
      && (u.Ok? && r.Err? ==>
            AnyRefused(u.value, old(s.puzzle.contents[..]), s.puzzle.immutable[..], s.puzzle.placeholder)
            || s.puzzle.placeholder in u.value)
      && (r.Ok? ==> u.Ok? && (r.value <==> AnyResolvable(u.value, old(s.puzzle.contents[..]), s.puzzle.placeholder)))
      && (r.Ok? ==> AllNarrowed(u.value, old(s.puzzle.contents[..]), s.puzzle.contents[..]))
    ensures r == Err(PuzzleExcept) || r == Ok(false) ==> s.puzzle.contents[..] == old(s.puzzle.contents[..])
    ensures CluesKept(old(s.puzzle.contents[..]), s.puzzle.contents[..], s.puzzle.immutable[..])
    ensures Total(s.puzzle.contents[..]) <= Total(old(s.puzzle.contents[..]))
    ensures r == Ok(true) ==> Total(s.puzzle.contents[..]) < Total(old(s.puzzle.contents[..]))
    ensures Reduced(old(s.puzzle.contents[..]), s.puzzle.contents[..])
    ensures r == Ok(false) ==> ContextSettled(s, s.puzzle.contents[..], kind, number)
  {
    var c, imm, ph := s.puzzle.contents, s.puzzle.immutable, s.puzzle.placeholder;
    ghost var start := c[..];
    var context := s.GetContext(kind, number);
    if context.Err? {
      r := Err(context.error);
    } else {
      ContextInGrid(s, kind, number);
      var dict := CellsPerValue(s, context.value, 1, 1);
      if dict.Err? {
        r := Err(dict.error);
      } else {
        assert ContextValues(s, start, kind, number, 1, 1) == Ok(dict.value);
        UniquesInGrid(s, start, kind, number);
        r := ResolveUniques(s, dict.value, start);
        NarrowedReduced(dict.value, start, c[..]);
      }
    }
  }

  /** Cells that were narrowed only lost candidates or were left with one. */
  lemma NarrowedReduced(u: map<char, set<nat>>, before: seq<set<char>>, after: seq<set<char>>)
    requires |before| == |after| && AllNarrowed(u, before, after)
    ensures Reduced(before, after)
  {
    forall j | 0 <= j < |before| ensures after[j] <= before[j] || |after[j]| == 1 {
      assert Narrowed(u, before[j], after[j], j);
    }
  }

  lemma UniquesInGrid(s: Sudoku, c: seq<set<char>>, kind: ContextKind, number: int)
    requires s.Shaped() && |c| == s.dimension * s.dimension && ContextValues(s, c, kind, number, 1, 1).Ok?
    ensures var u := ContextValues(s, c, kind, number, 1, 1).value;
      forall v :: v in u ==> |u[v]| == 1 && forall k :: k in u[v] ==> k < |c|
  {
    var u := ContextValues(s, c, kind, number, 1, 1).value;
    forall v | v in u ensures |u[v]| == 1 && forall k :: k in u[v] ==> k < |c| {
      UniquesAreSingles(s, c, kind, number, v);
    }
  }

  /**
   * What the loop of `resolve_uniques_in_context` keeps once the values
   * outside `keys` are done: every cell was narrowed, the clues kept their
   * candidates, no done value was refused, the total never grew and fell
   * with a change, and a change happened exactly when a done value was
   * resolvable.
   */
  ghost predicate UniquesSoFar(u: map<char, set<nat>>, start: seq<set<char>>, cur: seq<set<char>>, imm: seq<bool>,
                               placeholder: char, changed: bool, keys: set<char>)
    requires |start| == |cur| == |imm|
  {
    && AllNarrowed(u, start, cur)
    && CluesKept(start, cur, imm)
    && Total(cur) <= Total(start)
    && (changed ==> Total(cur) < Total(start))
    && (changed <==> exists w :: w in u && w !in keys && Resolvable(u, start, w, placeholder))
    && (forall w :: w in u && w !in keys ==> !Refused(u, start, imm, w, placeholder))
    && (!changed ==> cur == start)
  }

  /** One round of the loop, on the cell k that alone holds value v, keeps UniquesSoFar. */
  lemma UniquesStep(u: map<char, set<nat>>, start: seq<set<char>>, prev: seq<set<char>>, cur: seq<set<char>>,
                    imm: seq<bool>, placeholder: char, changed: bool, keys: set<char>, v: char, k: nat, acted: bool)
    requires |start| == |prev| == |cur| == |imm| && k < |start|
    requires v in keys && UniqueTo(u, v, k)
    requires UniquesSoFar(u, start, prev, imm, placeholder, changed, keys)
    requires acted <==> Len(prev[k], placeholder) > 1
    requires !(acted && imm[k])
    requires !acted ==> cur == prev
    requires ShrunkOrSet(prev, cur, k, v) && CluesKept(prev, cur, imm)
    requires Total(cur) <= Total(prev)
    requires acted ==> Total(cur) < Total(prev)
    ensures UniquesSoFar(u, start, cur, imm, placeholder, changed || acted, keys - {v})
  {
    NarrowedStep(u, start, prev, cur, v, k);
    assert !Refused(u, start, imm, v, placeholder) by {
      if imm[k] {
        assert start[k] == prev[k];
      }
    }
    if !changed {
      assert Resolvable(u, start, v, placeholder) <==> acted;
    }
  }

  /** Setting cell k to the value v unique to it, or shrinking cells, keeps every cell narrowed. */
  lemma NarrowedStep(u: map<char, set<nat>>, start: seq<set<char>>, prev: seq<set<char>>, cur: seq<set<char>>,
                     v: char, k: nat)
    requires |start| == |prev| == |cur| && UniqueTo(u, v, k)
    requires AllNarrowed(u, start, prev) && ShrunkOrSet(prev, cur, k, v)
    ensures AllNarrowed(u, start, cur)
  {
    forall j | 0 <= j < |start| ensures Narrowed(u, start[j], cur[j], j) {
      assert Narrowed(u, start[j], prev[j], j);
      if j == k && cur[j] == {v} {
        assert UniqueTo(u, v, k);
      }
    }
  }

  /** A round that raised: its value is refused, or it is the placeholder. */
  lemma RefusedStep(u: map<char, set<nat>>, start: seq<set<char>>, prev: seq<set<char>>, imm: seq<bool>,
                    placeholder: char, v: char, k: nat)
    requires |start| == |prev| == |imm| && k < |start| && UniqueTo(u, v, k)
    requires CluesKept(start, prev, imm) && Len(prev[k], placeholder) > 1
    requires imm[k] || v == placeholder
    ensures AnyRefused(u, start, imm, placeholder) || placeholder in u
  {
    if imm[k] {
      assert start[k] == prev[k];
      assert Refused(u, start, imm, v, placeholder);
    }
  }

  /**
   * The loop of `resolve_uniques_in_context` over the dictionary u of values
   * held by one cell each, in ascending order of value. It stops at the
   * first value held by a refused clue, with CellExcept.
   */
  method ResolveUniques(s: Sudoku, u: map<char, set<nat>>, ghost start: seq<set<char>>) returns (r: Result<bool>)
    requires s.Valid() && start == s.puzzle.contents[..]
    requires forall v :: v in u ==> |u[v]| == 1 && forall k :: k in u[v] ==> k < |start|
    modifies s.puzzle.contents
    ensures r.Err? ==> r.error == CellExcept
    ensures AnyRefused(u, start, s.puzzle.immutable[..], s.puzzle.placeholder) ==> r.Err?
    ensures r.Err? ==> AnyRefused(u, start, s.puzzle.immutable[..], s.puzzle.placeholder) || s.puzzle.placeholder in u
    ensures AllNarrowed(u, start, s.puzzle.contents[..])
    ensures CluesKept(start, s.puzzle.contents[..], s.puzzle.immutable[..])
    ensures Total(s.puzzle.contents[..]) <= Total(start)
    ensures r == Ok(true) ==> Total(s.puzzle.contents[..]) < Total(start)
    ensures r.Ok? ==> (r.value <==> AnyResolvable(u, start, s.puzzle.placeholder))
    ensures r == Ok(false) ==> s.puzzle.contents[..] == start
  {
    var c, imm, ph := s.puzzle.contents, s.puzzle.immutable, s.puzzle.placeholder;
    var changed := false;
    var keys := u.Keys;
    while keys != {}
      invariant keys <= u.Keys
      invariant UniquesSoFar(u, start, c[..], imm[..], ph, changed, keys)
      decreases |keys|
    {
      MinExists(keys);
      var v :| v in keys && forall w :: w in keys ==> v <= w;
      // the size filter leaves exactly one cell under v: the loop over it is one round
      var k :| k in u[v];
      SingletonOf(u[v], k);
      ghost var prev := c[..];
      var step := ResolveUnique(s, k, v);
      if step.Err? {
        RefusedStep(u, start, prev, imm[..], ph, v, k);
        NarrowedStep(u, start, prev, c[..], v, k);
        return step;
      }
      UniquesStep(u, start, prev, c[..], imm[..], ph, changed, keys, v, k, step.value);
      changed := changed || step.value;
      keys := keys - {v};
    }
    r := Ok(changed);
  }

  /** Every cell only lost candidates, or was narrowed down to a single one. */
  predicate Reduced(before: seq<set<char>>, after: seq<set<char>>)
    requires |before| == |after|
  {
    forall j :: 0 <= j < |before| ==> after[j] <= before[j] || |after[j]| == 1
  }

  lemma ReducedTrans(a: seq<set<char>>, b: seq<set<char>>, c: seq<set<char>>)
    requires |a| == |b| == |c| && Reduced(a, b) && Reduced(b, c)
    ensures Reduced(a, c)
  {
    forall j | 0 <= j < |a| ensures c[j] <= a[j] || |c[j]| == 1 {
      if c[j] <= b[j] && |b[j]| == 1 && |c[j]| != 1 {
        SubsetSize(c[j], b[j]);
        assert c[j] == {};
      }
    }
  }

  /** The given clues kept their candidates. */
  predicate CluesKept(before: seq<set<char>>, after: seq<set<char>>, imm: seq<bool>)
    requires |before| == |after| == |imm|
  {
    forall j :: 0 <= j < |before| && imm[j] ==> after[j] == before[j]
  }

  /** Context `number` has no value held by one cell alone that still has several candidates. */
  ghost predicate ContextSettled(s: Sudoku, c: seq<set<char>>, kind: ContextKind, number: int)
    requires s.Shaped() && |c| == s.dimension * s.dimension
  {
    var u := ContextValues(s, c, kind, number, 1, 1);
    u.Ok? && !AnyResolvable(u.value, c, s.puzzle.placeholder)
  }

  /** No row, column and box has a unique value left to resolve: the fixpoint `apply_to_all_contexts` stops at. */
  ghost predicate UniquesSettled(s: Sudoku, c: seq<set<char>>)
    requires s.Shaped() && |c| == s.dimension * s.dimension
  {
    forall kind, number :: 1 <= number <= s.dimension ==> ContextSettled(s, c, kind, number)
  }

  /**
   * One of the three `for` loops of `apply_to_all_contexts` with
   * `resolve_uniques_in_context`: contexts 1..dimension of one kind. When no
   * call changes anything, every context of the kind is settled.
   */
  method ResolveUniquesOfKind(s: Sudoku, kind: ContextKind) returns (r: Result<bool>)
    requires s.Valid()
    modifies s.puzzle.contents
    ensures Reduced(old(s.puzzle.contents[..]), s.puzzle.contents[..])
    ensures CluesKept(old(s.puzzle.contents[..]), s.puzzle.contents[..], s.puzzle.immutable[..])
    ensures r.Err? ==> r.error == PuzzleExcept || r.error == CellExcept
    ensures r.Ok? ==> KindSoFar(s, old(s.puzzle.contents[..]), s.puzzle.contents[..], s.puzzle.immutable[..],
                                r.value, kind, s.dimension + 1)
  {
    var c, imm := s.puzzle.contents, s.puzzle.immutable;
    ghost var start := c[..];
    var changed := false;
    var number := 1;
    while number <= s.dimension
      invariant 1 <= number <= s.dimension + 1
      invariant KindSoFar(s, start, c[..], imm[..], changed, kind, number)
    {
      ghost var prev := c[..];
      var step := ResolveUniquesInContext(s, kind, number);
      if step.Err? {
        ReducedTrans(start, prev, c[..]);
        return Err(step.error);
      }
      KindStep(s, start, prev, c[..], imm[..], changed, step.value, kind, number);
      changed := step.value || changed;
      number := number + 1;
    }
    r := Ok(changed);
  }

  /**
   * What the loop over the contexts of one kind keeps once contexts
   * 1..number-1 are done: cells were reduced, clues kept, the total fell
   * with a change, and without one nothing moved and every done context is
   * settled.
   */
  ghost predicate KindSoFar(s: Sudoku, start: seq<set<char>>, cur: seq<set<char>>, imm: seq<bool>,
                            changed: bool, kind: ContextKind, number: int)
    requires s.Shaped() && |start| == |cur| == |imm| == s.dimension * s.dimension
  {
    && Reduced(start, cur) && CluesKept(start, cur, imm)
    && (changed ==> Total(cur) < Total(start))
    && (!changed ==> cur == start && forall n :: 1 <= n < number ==> ContextSettled(s, start, kind, n))
  }

  /** One call of `resolve_uniques_in_context` on context `number` keeps KindSoFar. */
  lemma KindStep(s: Sudoku, start: seq<set<char>>, prev: seq<set<char>>, cur: seq<set<char>>, imm: seq<bool>,
                 changed: bool, value: bool, kind: ContextKind, number: int)
    requires s.Shaped() && |start| == |prev| == |cur| == |imm| == s.dimension * s.dimension
    requires KindSoFar(s, start, prev, imm, changed, kind, number)
    requires Reduced(prev, cur) && CluesKept(prev, cur, imm) && Total(cur) <= Total(prev)
    requires value ==> Total(cur) < Total(prev)
    requires !value ==> cur == prev && ContextSettled(s, cur, kind, number)
    ensures KindSoFar(s, start, cur, imm, value || changed, kind, number + 1)
  {
    ReducedTrans(start, prev, cur);
    if !changed {
      assert prev == start;
      if !value {
        assert cur == start;
        forall n | 1 <= n < number + 1 ensures ContextSettled(s, start, kind, n) {
          if n == number {
            assert ContextSettled(s, cur, kind, number);
          }
        }
      }
    }
  }

  /**
   * `Sudoku.apply_to_all_contexts(resolve_uniques_in_context)`: passes over
   * every row, column and box until a pass changes nothing. The result says
   * whether anything changed; afterwards every context is settled. The loop
   * ends because each pass that reports a change removes candidates: a
   * clue that would have to be set raises instead.
   */
  method ApplyToAllContexts(s: Sudoku) returns (r: Result<bool>)
    requires s.Valid()
    modifies s.puzzle.contents
    ensures Reduced(old(s.puzzle.contents[..]), s.puzzle.contents[..])
    ensures CluesKept(old(s.puzzle.contents[..]), s.puzzle.contents[..], s.puzzle.immutable[..])
    ensures r.Err? ==> r.error == PuzzleExcept || r.error == CellExcept
    ensures r.Ok? ==> (r.value <==> s.puzzle.contents[..] != old(s.puzzle.contents[..]))
    ensures r.Ok? ==> UniquesSettled(s, s.puzzle.contents[..])
  {
    var c, imm := s.puzzle.contents, s.puzzle.immutable;
    ghost var start := c[..];
    var changeMade, overall := true, false;
    while changeMade
      invariant PassSoFar(s, start, c[..], imm[..], overall, changeMade)
      decreases Total(c[..]) + (if changeMade then 1 else 0)
    {
      ghost var prev := c[..];
      var rows := ResolveUniquesOfKind(s, RowContext);
      if rows.Err? {
        ReducedTrans(start, prev, c[..]);
        return rows;
      }
      ghost var mid := c[..];
      var columns := ResolveUniquesOfKind(s, ColumnContext);
      if columns.Err? {
        ReducedTrans(start, prev, mid);
        ReducedTrans(start, mid, c[..]);
        return columns;
      }
      ghost var mid2 := c[..];
      var boxes := ResolveUniquesOfKind(s, BoxContext);
      if boxes.Err? {
        ReducedTrans(start, prev, mid);
        ReducedTrans(start, mid, mid2);
        ReducedTrans(start, mid2, c[..]);
        return boxes;
      }
      PassStep(s, start, prev, mid, mid2, c[..], imm[..], overall, rows.value, columns.value, boxes.value);
      changeMade := rows.value || columns.value || boxes.value;
      overall := overall || changeMade;
    }
    r := Ok(overall);
  }

  /**
   * What the passes of `apply_to_all_contexts` keep: cells were reduced,
   * clues kept, the total fell once anything changed, and
   * after a pass without change every context is settled.
   */
  ghost predicate PassSoFar(s: Sudoku, start: seq<set<char>>, cur: seq<set<char>>, imm: seq<bool>,
                            overall: bool, changeMade: bool)
    requires s.Shaped() && |start| == |cur| == |imm| == s.dimension * s.dimension
  {
    && Reduced(start, cur) && CluesKept(start, cur, imm)
    && (overall ==> Total(cur) < Total(start))
    && (!overall ==> cur == start)
    && (!changeMade ==> UniquesSettled(s, cur))
  }

  /** A pass of rows, columns and boxes keeps PassSoFar, and one that changes something lowers the total. */
  lemma PassStep(s: Sudoku, start: seq<set<char>>, prev: seq<set<char>>, mid: seq<set<char>>, mid2: seq<set<char>>,
                 cur: seq<set<char>>, imm: seq<bool>, overall: bool, rows: bool, columns: bool, boxes: bool)
    requires s.Shaped() && |start| == |prev| == |mid| == |mid2| == |cur| == |imm| == s.dimension * s.dimension
    requires PassSoFar(s, start, prev, imm, overall, true)
    requires KindSoFar(s, prev, mid, imm, rows, RowContext, s.dimension + 1)
    requires KindSoFar(s, mid, mid2, imm, columns, ColumnContext, s.dimension + 1)
    requires KindSoFar(s, mid2, cur, imm, boxes, BoxContext, s.dimension + 1)
    ensures var changed := rows || columns || boxes;
      && PassSoFar(s, start, cur, imm, overall || changed, changed)
      && (changed ==> Total(cur) < Total(prev))
      && (!changed ==> cur == prev)
  {
    ReducedTrans(start, prev, mid);
    ReducedTrans(start, mid, mid2);
    ReducedTrans(start, mid2, cur);
    if !(rows || columns || boxes) {
      forall kind, number | 1 <= number <= s.dimension ensures ContextSettled(s, cur, kind, number) {
        match kind
        case RowContext =>
        case ColumnContext =>
        case BoxContext =>
      }
    }
  }

  /** Candidate sets only shrink, and a cell with exactly one candidate keeps it. */
  predicate Shrinks(a: seq<set<char>>, b: seq<set<char>>, placeholder: char)
  {
    |a| == |b| && forall k :: 0 <= k < |a| ==> b[k] <= a[k] && (Len(a[k], placeholder) == 1 ==> b[k] == a[k])
  }

  lemma ShrinksTotal(a: seq<set<char>>, b: seq<set<char>>, placeholder: char)
    requires Shrinks(a, b, placeholder)
    ensures Total(b) <= Total(a)
  {
    TotalShrinks(a, b);
  }

  /** A cell cleared of v stays so while candidate sets shrink. */
  lemma ResolvedShrinks(a: seq<set<char>>, b: seq<set<char>>, imm: seq<bool>, placeholder: char, j: nat, v: char)
    requires Shrinks(a, b, placeholder) && j < |a| && j < |imm| && Resolved(a, imm, placeholder, j, v)
    ensures Resolved(b, imm, placeholder, j, v)
  {
  }

  /** The boxes the cells lie in (`found_box_cells`). */
  function BoxesOf(bd: nat, cells: set<nat>): set<nat>
    requires bd >= 1
  {
    set k | k in cells :: BoxOf(bd, k)
  }

  /** The cells `normalize_box_intersection` protects for the values in `keys`: their holders, when in one box. */
  function Protected(bd: nat, u: map<char, set<nat>>, keys: set<char>): set<nat>
    requires bd >= 1
  {
    set v, k | v in keys && v in u && k in u[v] && |BoxesOf(bd, u[v])| == 1 :: k
  }

  lemma ProtectedStep(bd: nat, u: map<char, set<nat>>, keys: set<char>, v: char)
    requires bd >= 1 && v in u
    ensures Protected(bd, u, keys + {v})
      == Protected(bd, u, keys) + (if |BoxesOf(bd, u[v])| == 1 then u[v] else {})
  {
  }

  /** Every cell of the holders' boxes other than the holders themselves no longer conflicts with v. */
  predicate BoxCleared(bd: nat, c: seq<set<char>>, imm: seq<bool>, placeholder: char, holders: set<nat>, v: char)
    requires bd >= 1 && |c| == |imm|
  {
    forall j :: 0 <= j < |c| && BoxOf(bd, j) in BoxesOf(bd, holders) && j !in holders ==> Resolved(c, imm, placeholder, j, v)
  }

  /** `cell.set_immutable(flag)` for each of the cells. */
  method MarkCells(s: Sudoku, cells: set<nat>, flag: bool)
    requires s.Valid() && forall k :: k in cells ==> k < s.dimension * s.dimension
    modifies s.puzzle.immutable
    ensures forall j :: 0 <= j < s.dimension * s.dimension ==>
      s.puzzle.immutable[j] == if j in cells then flag else old(s.puzzle.immutable[j])
  {
    var rest := cells;
    while rest != {}
      invariant rest <= cells
      invariant forall j :: 0 <= j < s.dimension * s.dimension ==>
        s.puzzle.immutable[j] == if j in cells - rest then flag else old(s.puzzle.immutable[j])
      decreases |rest|
    {
      var k :| k in rest;
      s.SetImmutable(k, flag);
      rest := rest - {k};
    }
  }

  /**
   * The protected removal of `normalize_box_intersection`: the line's
   * holders of v are made immutable, v is removed from box b, and the
   * holders are made mutable again.
   */
  method RemoveFromBoxProtected(s: Sudoku, v: char, holders: set<nat>, b: nat) returns (changed: bool)
    requires s.Valid() && 1 <= b <= s.dimension && forall k :: k in holders ==> k < s.dimension * s.dimension
    modifies s.puzzle.contents, s.puzzle.immutable
    ensures Shrinks(old(s.puzzle.contents[..]), s.puzzle.contents[..], s.puzzle.placeholder)
    ensures forall j :: 0 <= j < s.dimension * s.dimension && (old(s.puzzle.immutable[j]) || j in holders) ==>
      s.puzzle.contents[j] == old(s.puzzle.contents[j])
    ensures forall j :: 0 <= j < s.dimension * s.dimension ==>
      s.puzzle.immutable[j] == (old(s.puzzle.immutable[j]) && j !in holders)
    ensures forall j :: 0 <= j < s.dimension * s.dimension && BoxOf(s.boxDimension, j) == b && j !in holders ==>
      Resolved(s.puzzle.contents[..], old(s.puzzle.immutable[..]), s.puzzle.placeholder, j, v)
    ensures changed <==> Total(s.puzzle.contents[..]) < Total(old(s.puzzle.contents[..]))
  {
    ghost var imm0 := s.puzzle.immutable[..];
    MarkCells(s, holders, true);
    ghost var imm1 := s.puzzle.immutable[..];
    var removal := s.RemoveValueFromContext(BoxContext, b, v);
    changed := removal.Ok? && removal.value;
    ghost var c1 := s.puzzle.contents[..];
    forall j | 0 <= j < s.dimension * s.dimension && BoxOf(s.boxDimension, j) == b && j !in holders
      ensures Resolved(c1, imm0, s.puzzle.placeholder, j, v)
    {
      assert InContext(s.boxDimension, BoxContext, b, j);
      assert Resolved(c1, imm1, s.puzzle.placeholder, j, v);
    }
    MarkCells(s, holders, false);
  }

  /**
   * One round of `normalize_box_intersection`, for value v held by the
   * line's cells `holders`: when they all lie in one box, v is removed from
   * the rest of that box (`RemoveFromBoxProtected`). `changed` is what the
   * removal reports, False when the holders span several boxes.
   */
  method NormalizeValueInBox(s: Sudoku, v: char, holders: set<nat>) returns (changed: bool)
    requires s.Valid() && forall k :: k in holders ==> k < s.dimension * s.dimension
    modifies s.puzzle.contents, s.puzzle.immutable
    ensures Shrinks(old(s.puzzle.contents[..]), s.puzzle.contents[..], s.puzzle.placeholder)
    ensures forall j :: 0 <= j < s.dimension * s.dimension && (old(s.puzzle.immutable[j]) || j in holders) ==>
      s.puzzle.contents[j] == old(s.puzzle.contents[j])
    ensures forall j :: 0 <= j < s.dimension * s.dimension ==>
      (s.puzzle.immutable[j] <==> old(s.puzzle.immutable[j]) && !(j in holders && |BoxesOf(s.boxDimension, holders)| == 1))
    ensures |BoxesOf(s.boxDimension, holders)| != 1 ==> !changed && s.puzzle.contents[..] == old(s.puzzle.contents[..])
    ensures |BoxesOf(s.boxDimension, holders)| == 1 ==>
      BoxCleared(s.boxDimension, s.puzzle.contents[..], old(s.puzzle.immutable[..]), s.puzzle.placeholder, holders, v)
    ensures changed <==> Total(s.puzzle.contents[..]) < Total(old(s.puzzle.contents[..]))
  {
    var bd := s.boxDimension;
    var boxes := set k | k in holders :: s.boxNumber[k];
    assert boxes == BoxesOf(bd, holders);
    if |boxes| != 1 {
      return false;
    }
    var b :| b in boxes;
    var k :| k in holders && b == BoxOf(bd, k);
    BoxPositionFacts(bd, k);
    SingletonOf(boxes, b);
    changed := RemoveFromBoxProtected(s, v, holders, b);
  }

  /** Given clues kept their candidates; one made mutable is not empty. */
  predicate ClueGuard(start: seq<set<char>>, c: seq<set<char>>, imm0: seq<bool>, imm: seq<bool>, placeholder: char)
    requires |start| == |c| == |imm0| == |imm|
  {
    forall j :: 0 <= j < |start| && imm0[j] ==> c[j] == start[j] && (imm[j] || !IsEmpty(c[j], placeholder))
  }

  lemma BoxClearedStable(bd: nat, a: seq<set<char>>, b: seq<set<char>>, imm: seq<bool>, placeholder: char,
                         holders: set<nat>, v: char)
    requires bd >= 1 && |a| == |imm| && Shrinks(a, b, placeholder) && BoxCleared(bd, a, imm, placeholder, holders, v)
    ensures BoxCleared(bd, b, imm, placeholder, holders, v)
  {
    forall j | 0 <= j < |b| && BoxOf(bd, j) in BoxesOf(bd, holders) && j !in holders
      ensures Resolved(b, imm, placeholder, j, v)
    {
      ResolvedShrinks(a, b, imm, placeholder, j, v);
    }
  }

  /** A cell cleared while fewer cells were immutable counts as cleared for the original flags. */
  lemma BoxClearedWider(bd: nat, c: seq<set<char>>, imm1: seq<bool>, imm0: seq<bool>, placeholder: char,
                        holders: set<nat>, v: char)
    requires bd >= 1 && |c| == |imm1| == |imm0| && forall j :: 0 <= j < |c| && imm1[j] ==> imm0[j]
    requires BoxCleared(bd, c, imm1, placeholder, holders, v)
    ensures BoxCleared(bd, c, imm0, placeholder, holders, v)
  {
  }

  /** Value v is the greatest of the keys and its holders lie in one box: what a True result reports. */
  predicate LastInOneBox(bd: nat, u: map<char, set<nat>>, keys: set<char>, v: char)
    requires bd >= 1
  {
    v in keys && v in u && |BoxesOf(bd, u[v])| == 1 && forall w :: w in keys ==> w <= v
  }

  /** Every cell listed under a value of u lies in the grid and is not empty. */
  predicate HoldersFilled(u: map<char, set<nat>>, c: seq<set<char>>, placeholder: char)
  {
    forall v :: v in u ==> forall k :: k in u[v] ==> k < |c| && !IsEmpty(c[k], placeholder)
  }

  /** What the loop of `normalize_box_intersection` keeps after handling the values in `done`. */
  ghost predicate ValuesHandled(bd: nat, u: map<char, set<nat>>, start: seq<set<char>>, imm0: seq<bool>,
                                c: seq<set<char>>, imm: seq<bool>, done: set<char>, placeholder: char)
    requires bd >= 1
  {
    && |start| == |c| == |imm0| == |imm|
    && Shrinks(start, c, placeholder)
    && (CluesSingle(start, imm0) ==> ClueGuard(start, c, imm0, imm, placeholder))
    && (forall j :: 0 <= j < |start| ==> (imm[j] <==> imm0[j] && j !in Protected(bd, u, done)))
    && (forall v :: v in done && v in u && |BoxesOf(bd, u[v])| == 1 ==> BoxCleared(bd, c, imm0, placeholder, u[v], v))
  }

  /** Before the loop nothing has been handled and nothing has changed. */
  lemma ValuesHandledInit(bd: nat, u: map<char, set<nat>>, start: seq<set<char>>, imm0: seq<bool>, placeholder: char)
    requires bd >= 1 && |start| == |imm0|
    ensures ValuesHandled(bd, u, start, imm0, start, imm0, {}, placeholder)
  {
    assert Protected(bd, u, {}) == {};
  }

  /** One round of the loop, stated over snapshots: handling v keeps what the loop keeps. */
  lemma ValuesStep(bd: nat, u: map<char, set<nat>>, start: seq<set<char>>, imm0: seq<bool>,
                   prev: seq<set<char>>, immPrev: seq<bool>, now: seq<set<char>>, immNow: seq<bool>,
                   done: set<char>, v: char, placeholder: char)
    requires bd >= 1 && ValuesHandled(bd, u, start, imm0, prev, immPrev, done, placeholder) && v in u
    requires HoldersFilled(u, start, placeholder)
    requires Shrinks(prev, now, placeholder) && |immNow| == |prev|
    requires forall j :: 0 <= j < |prev| && (immPrev[j] || j in u[v]) ==> now[j] == prev[j]
    requires forall j :: 0 <= j < |prev| ==>
      (immNow[j] <==> immPrev[j] && !(j in u[v] && |BoxesOf(bd, u[v])| == 1))
    requires |BoxesOf(bd, u[v])| == 1 ==> BoxCleared(bd, now, immPrev, placeholder, u[v], v)
    ensures ValuesHandled(bd, u, start, imm0, now, immNow, done + {v}, placeholder)
  {
    ProtectedStep(bd, u, done, v);
    if CluesSingle(start, imm0) {
      forall j | 0 <= j < |start| && imm0[j]
        ensures now[j] == start[j] && (immNow[j] || !IsEmpty(now[j], placeholder))
      {
        if !immPrev[j] {
          assert |prev[j]| == 1 && Len(prev[j], placeholder) == 1;
        }
      }
    }
    forall w | w in done + {v} && w in u && |BoxesOf(bd, u[w])| == 1 ensures BoxCleared(bd, now, imm0, placeholder, u[w], w) {
      if w == v {
        BoxClearedWider(bd, now, immPrev, imm0, placeholder, u[v], v);
      } else {
        BoxClearedStable(bd, prev, now, imm0, placeholder, u[w], w);
      }
    }
  }

  /** `NormalizeValueInBox` as one round of the loop below. */
  method NormalizeValue(s: Sudoku, u: map<char, set<nat>>, v: char, ghost start: seq<set<char>>,
                        ghost imm0: seq<bool>, ghost done: set<char>) returns (changed: bool)
    requires s.Valid() && v in u && HoldersFilled(u, start, s.puzzle.placeholder)
    requires ValuesHandled(s.boxDimension, u, start, imm0, s.puzzle.contents[..], s.puzzle.immutable[..], done, s.puzzle.placeholder)
    modifies s.puzzle.contents, s.puzzle.immutable
    ensures ValuesHandled(s.boxDimension, u, start, imm0, s.puzzle.contents[..], s.puzzle.immutable[..], done + {v}, s.puzzle.placeholder)
    ensures changed ==> Total(s.puzzle.contents[..]) < Total(start)
    ensures changed ==> |BoxesOf(s.boxDimension, u[v])| == 1
  {
    var c, imm, ph, bd := s.puzzle.contents, s.puzzle.immutable, s.puzzle.placeholder, s.boxDimension;
    ghost var prev, immPrev := c[..], imm[..];
    ShrinksTotal(start, prev, ph);
    assert forall k :: k in u[v] ==> k < |start|;
    changed := NormalizeValueInBox(s, v, u[v]);
    ValuesStep(bd, u, start, imm0, prev, immPrev, c[..], imm[..], done, v, ph);
  }

  /** Every value handled so far is below every value still to come. */
  predicate Ascending(done: set<char>, keys: set<char>)
  {
    forall w, x :: w in done && x in keys ==> w <= x
  }

  /** Taking the least remaining key v keeps the keys split in ascending order, with v the greatest handled. */
  lemma KeysStep(all: set<char>, done: set<char>, keys: set<char>, v: char)
    requires keys <= all && done == all - keys && Ascending(done, keys)
    requires v in keys && forall w :: w in keys ==> v <= w
    ensures keys - {v} <= all && done + {v} == all - (keys - {v})
    ensures Ascending(done + {v}, keys - {v})
    ensures forall w :: w in done + {v} ==> w <= v
  {
  }

  /**
   * The loop of `normalize_box_intersection` over the dictionary u of the
   * line's values and the cells holding them, in ascending order of value.
   * `changed` is reset for every value, so the result is the last value's.
   */
  method NormalizeValues(s: Sudoku, u: map<char, set<nat>>) returns (changed: bool)
    requires s.Valid()
    requires HoldersFilled(u, s.puzzle.contents[..], s.puzzle.placeholder)
    modifies s.puzzle.contents, s.puzzle.immutable
    ensures ValuesHandled(s.boxDimension, u, old(s.puzzle.contents[..]), old(s.puzzle.immutable[..]),
      s.puzzle.contents[..], s.puzzle.immutable[..], u.Keys, s.puzzle.placeholder)
    ensures changed ==> (Total(s.puzzle.contents[..]) < Total(old(s.puzzle.contents[..]))
      && exists v :: LastInOneBox(s.boxDimension, u, u.Keys, v))
  {
    var c, imm, ph, bd := s.puzzle.contents, s.puzzle.immutable, s.puzzle.placeholder, s.boxDimension;
    ghost var start, imm0 := c[..], imm[..];
    changed := false;
    var keys := u.Keys;
    ghost var done: set<char> := {};
    ghost var last: char := ph;
    ValuesHandledInit(bd, u, start, imm0, ph);
    while keys != {}
      invariant keys <= u.Keys && done == u.Keys - keys && Ascending(done, keys)
      invariant ValuesHandled(bd, u, start, imm0, c[..], imm[..], done, ph)
      invariant changed ==> Total(c[..]) < Total(start) && LastInOneBox(bd, u, done, last)
      decreases |keys|
    {
      MinExists(keys);
      var v :| v in keys && forall w :: w in keys ==> v <= w;
      changed := NormalizeValue(s, u, v, start, imm0, done);
      KeysStep(u.Keys, done, keys, v);
      keys, done, last := keys - {v}, done + {v}, v;
    }
    assert changed ==> LastInOneBox(bd, u, u.Keys, last);
  }
}

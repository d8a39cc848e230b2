// Building a Sudoku (puzzles/sudoku.py, class SudokuBuilder, on top of the
// generic PuzzleBuilder of puzzles/puzzle.py): validation of the parameters,
// the cells, the row and column links and the four passes of
// `link_cells_by_box` that close every box into a circuit.
//
// Every exception raised while building is caught by `SudokuBuilder.__init__`
// and re-raised as SudokuBuildError, so every failure below is that one error.
module SudokuBuilding {
  import opened Outcome
  import opened Arith
  import opened Cells
  import opened Grid
  import opened Boxes
  import opened SudokuPuzzle

  /** `PuzzleBuilder.validate_placeholder`: one character that is not a value option. */
  function ValidatePlaceholder(placeholder: seq<char>, allPossibleValues: seq<char>): (r: Option<Error>)
    ensures r == None <==> |placeholder| == 1 && forall i :: 0 <= i < |allPossibleValues| ==> allPossibleValues[i] != placeholder[0]
    ensures r != None ==> r == Some(BuildError)
  {
    if |placeholder| == 1 && placeholder[0] in allPossibleValues then Some(BuildError)
    else if |placeholder| != 1 then Some(BuildError)
    else None
  }

  /** `SudokuBuilder.validate_dimension`: negative numbers and non-squares are refused. */
  function ValidateDimension(dimension: int): (r: Option<Error>)
    ensures r == None <==> dimension >= 0 && exists s: nat :: s * s == dimension
    ensures r != None ==> r == Some(SudokuBuildError)
  {
    if dimension < 0 then Some(SudokuBuildError)
    else
      IsSquareExact(dimension);
      if !IsSquare(dimension) then Some(SudokuBuildError) else None
  }

  /** Phase 1 of `link_cells_by_box`: each cell but the last of its row links to its right neighbour. */
  function AlongLink(d: nat, k: nat): int
    requires d >= 1
  {
    if k % d < d - 1 then k + 1 else -1
  }

  /** After phase 2: a cell on a box's right edge, above the last row, links to the box's left edge one row down. */
  function DownLink(d: nat, bd: nat, k: nat): int
    requires d >= 1
  {
    if k / d < d - 1 && BoxEdge(bd, k % d) then k + d - (bd - 1) else AlongLink(d, k)
  }

  /** The first double loop of `link_cells_by_box`. */
  method LinkNeighbours(s: Sudoku)
    requires s.Framed()
    requires forall k :: 0 <= k < s.boxNext.Length ==> s.boxNext[k] == -1
    modifies s.boxNext
    ensures forall k :: 0 <= k < s.boxNext.Length ==> s.boxNext[k] == AlongLink(s.dimension, k)
  {
    var d, links := s.dimension, s.boxNext;
    var r, base := 0, 0;
    while r < d
      invariant 0 <= r <= d && base == Idx(d, r, 0)
      invariant forall k :: 0 <= k < d * d ==> links[k] == if k < base then AlongLink(d, k) else -1
    {
      IdxBound(d, d, r, d - 1);
      var c := 0;
      while c < d - 1
        invariant 0 <= c <= d - 1
        invariant forall k :: 0 <= k < d * d ==> links[k] == if k < base + c then AlongLink(d, k) else -1
      {
        IdxParts(d, r, c);
        links[base + c] := base + c + 1;
        c := c + 1;
      }
      IdxParts(d, r, d - 1);
      IdxNextRow(d, r);
      r, base := r + 1, base + d;
    }
  }

  /* The next three functions give a cell's link by its row r, its column c and
     the index `base` of the first cell of its row, so that the loops that build
     one row at a time reason about sums only. */

  /** Phase 1's link for the cell at row r, column c. */
  function AlongAt(d: nat, base: nat, c: nat): int
  {
    if c < d - 1 then base + c + 1 else -1
  }

  /** Phase 2's link for the cell at row r, column c. */
  function DownAt(d: nat, bd: nat, r: nat, base: nat, c: nat): int
  {
    if r < d - 1 && BoxEdge(bd, c) then base + c + d - (bd - 1) else AlongAt(d, base, c)
  }

  /** The final box link of the cell at row r, column c. */
  function FinalAt(d: nat, bd: nat, r: nat, base: nat, c: nat): int
  {
    if BoxEdge(bd, r) && BoxEdge(bd, c) then base + c - (bd - 1) * d - (bd - 1)
    else DownAt(d, bd, r, base, c)
  }

  /** Along row r, phase 1's links by index are its links by row and column. */
  lemma AlongForms(d: nat, r: nat)
    requires d >= 1 && r < d
    ensures forall k :: Idx(d, r, 0) <= k < Idx(d, r, 0) + d ==> AlongLink(d, k) == AlongAt(d, Idx(d, r, 0), k - Idx(d, r, 0))
  {
    forall k | Idx(d, r, 0) <= k < Idx(d, r, 0) + d ensures AlongLink(d, k) == AlongAt(d, Idx(d, r, 0), k - Idx(d, r, 0)) {
      IdxParts(d, r, k - Idx(d, r, 0));
    }
  }

  /** Along row r, phase 2's links by index are its links by row and column. */
  lemma DownForms(d: nat, bd: nat, r: nat)
    requires d >= 1 && r < d
    ensures forall k :: Idx(d, r, 0) <= k < Idx(d, r, 0) + d ==> DownLink(d, bd, k) == DownAt(d, bd, r, Idx(d, r, 0), k - Idx(d, r, 0))
  {
    forall k | Idx(d, r, 0) <= k < Idx(d, r, 0) + d ensures DownLink(d, bd, k) == DownAt(d, bd, r, Idx(d, r, 0), k - Idx(d, r, 0)) {
      IdxParts(d, r, k - Idx(d, r, 0));
    }
  }

  /** Along row r, the final links by index are the final links by row and column. */
  lemma FinalForms(d: nat, bd: nat, r: nat)
    requires d >= 1 && r < d
    ensures forall k :: Idx(d, r, 0) <= k < Idx(d, r, 0) + d ==> BoxLinkBuilt(d, bd, k) == FinalAt(d, bd, r, Idx(d, r, 0), k - Idx(d, r, 0))
  {
    forall k | Idx(d, r, 0) <= k < Idx(d, r, 0) + d ensures BoxLinkBuilt(d, bd, k) == FinalAt(d, bd, r, Idx(d, r, 0), k - Idx(d, r, 0)) {
      IdxParts(d, r, k - Idx(d, r, 0));
    }
  }

  /** No box edge comes before the first one. */
  lemma NoEdgeBefore(bd: nat)
    ensures forall t: nat :: t < bd - 1 ==> !BoxEdge(bd, t)
  {
    forall t: nat | t < bd - 1 && BoxEdge(bd, t) ensures false {
      EdgeLeast(bd, t);
    }
  }

  /** No box edge lies strictly between two consecutive ones. */
  lemma EdgesApart(bd: nat, c: nat)
    requires BoxEdge(bd, c)
    ensures forall t: nat :: c < t < c + bd ==> !BoxEdge(bd, t)
  {
    forall t: nat | c < t < c + bd && BoxEdge(bd, t) ensures false {
      EdgeGap(bd, c, t);
    }
  }

  /** Indices from the start of row lo up to the start of row hi are the cells of rows lo..hi-1. */
  lemma RowOf(d: nat, lo: nat, hi: nat, k: nat)
    requires Idx(d, lo, 0) <= k < Idx(d, hi, 0) && k < d * d
    ensures lo <= k / d < hi
  {
    IdxSplit(d, d, k);
    if k / d < lo {
      assert (k / d + 1) * d == (k / d) * d + d;
      MulMono(k / d + 1, lo, d);
    }
    if k / d >= hi {
      MulMono(hi, k / d, d);
    }
  }

  /** Phase 2 leaves the last row alone. */
  lemma LastRow(d: nat, bd: nat, k: nat)
    requires d >= 1 && Idx(d, d - 1, 0) <= k < d * d
    ensures DownLink(d, bd, k) == AlongLink(d, k)
  {
    RowOf(d, d - 1, d, k);
  }

  /** Phase 3 leaves the rows above the first box-bottom row alone. */
  lemma BeforeCorners(d: nat, bd: nat)
    requires d >= 1 && bd >= 1
    ensures forall k :: 0 <= k < Idx(d, bd - 1, 0) && k < d * d ==> BoxLinkBuilt(d, bd, k) == DownLink(d, bd, k)
  {
    forall k | 0 <= k < Idx(d, bd - 1, 0) && k < d * d ensures BoxLinkBuilt(d, bd, k) == DownLink(d, bd, k) {
      RowOf(d, 0, bd - 1, k);
      if BoxEdge(bd, k / d) {
        EdgeLeast(bd, k / d);
      }
    }
  }

  /** Phase 3 leaves the rows strictly between two box-bottom rows alone. */
  lemma BetweenCorners(d: nat, bd: nat, r: nat)
    requires d >= 1 && BoxEdge(bd, r)
    ensures forall k :: Idx(d, r + 1, 0) <= k < Idx(d, r + bd, 0) && k < d * d ==>
      BoxLinkBuilt(d, bd, k) == DownLink(d, bd, k)
  {
    forall k | Idx(d, r + 1, 0) <= k < Idx(d, r + bd, 0) && k < d * d
      ensures BoxLinkBuilt(d, bd, k) == DownLink(d, bd, k)
    {
      RowOf(d, r + 1, r + bd, k);
      if BoxEdge(bd, k / d) {
        EdgeGap(bd, r, k / d);
      }
    }
  }

  /** Moving up and left by the same offset. */
  lemma CornerIndex(d: nat, r: nat, c: nat, offset: nat)
    requires offset <= r && offset <= c
    ensures Idx(d, r - offset, c - offset) == Idx(d, r, c) - offset * d - offset
  {
    assert r * d == (r - offset) * d + offset * d;
  }

  /** One pass of the second double loop: the right-edge cells of row r (not the last row). */
  method LinkEdgesDownInRow(s: Sudoku, r: nat)
    requires s.Framed() && r < s.dimension - 1
    requires forall k :: 0 <= k < s.boxNext.Length && Idx(s.dimension, r, 0) <= k < Idx(s.dimension, r, 0) + s.dimension ==>
      s.boxNext[k] == AlongAt(s.dimension, Idx(s.dimension, r, 0), k - Idx(s.dimension, r, 0))
    modifies s.boxNext
    ensures forall k :: 0 <= k < s.boxNext.Length ==>
      s.boxNext[k] == if Idx(s.dimension, r, 0) <= k < Idx(s.dimension, r, 0) + s.dimension
                      then DownAt(s.dimension, s.boxDimension, r, Idx(s.dimension, r, 0), k - Idx(s.dimension, r, 0)) else old(s.boxNext[k])
  {
    var d, bd, links := s.dimension, s.boxDimension, s.boxNext;
    var base, offset := Idx(d, r, 0), bd - 1;
    IdxBound(d, d, r, d - 1);
    NoEdgeBefore(bd);
    EdgeFirst(bd);
    var c := offset;
    while c < d
      invariant BoxEdge(bd, c) && offset <= c
      invariant forall k :: 0 <= k < links.Length ==>
        links[k] == if base <= k < base + c && k < base + d then DownAt(d, bd, r, base, k - base) else old(links[k])
    {
      IdxNextRow(d, r);
      links[base + c] := Idx(d, r + 1, c - offset);
      EdgesApart(bd, c);
      EdgeNext(bd, c);
      c := c + bd;
    }
  }

  /** The second double loop of `link_cells_by_box`. */
  method LinkEdgesDown(s: Sudoku)
    requires s.Framed()
    requires forall k :: 0 <= k < s.boxNext.Length ==> s.boxNext[k] == AlongLink(s.dimension, k)
    modifies s.boxNext
    ensures forall k :: 0 <= k < s.boxNext.Length ==> s.boxNext[k] == DownLink(s.dimension, s.boxDimension, k)
  {
    var d, bd, links := s.dimension, s.boxDimension, s.boxNext;
    var r, base := 0, 0;
    while r < d - 1
      invariant 0 <= r <= d - 1 && base == Idx(d, r, 0)
      invariant forall k :: 0 <= k < links.Length ==> links[k] == if k < base then DownLink(d, bd, k) else AlongLink(d, k)
    {
      AlongForms(d, r);
      DownForms(d, bd, r);
      LinkEdgesDownInRow(s, r);
      IdxNextRow(d, r);
      r, base := r + 1, base + d;
    }
    forall k | base <= k < links.Length ensures DownLink(d, bd, k) == AlongLink(d, k) {
      LastRow(d, bd, k);
    }
  }

  /** One pass of the third double loop: the bottom-right corners of the boxes in row r. */
  method LinkCornersInRow(s: Sudoku, r: nat)
    requires s.Framed() && r < s.dimension && BoxEdge(s.boxDimension, r)
    requires forall k :: 0 <= k < s.boxNext.Length && Idx(s.dimension, r, 0) <= k < Idx(s.dimension, r, 0) + s.dimension ==>
      s.boxNext[k] == DownAt(s.dimension, s.boxDimension, r, Idx(s.dimension, r, 0), k - Idx(s.dimension, r, 0))
    modifies s.boxNext
    ensures forall k :: 0 <= k < s.boxNext.Length ==>
      s.boxNext[k] == if Idx(s.dimension, r, 0) <= k < Idx(s.dimension, r, 0) + s.dimension
                      then FinalAt(s.dimension, s.boxDimension, r, Idx(s.dimension, r, 0), k - Idx(s.dimension, r, 0)) else old(s.boxNext[k])
  {
    var d, bd, links := s.dimension, s.boxDimension, s.boxNext;
    var base, offset := Idx(d, r, 0), bd - 1;
    IdxBound(d, d, r, d - 1);
    NoEdgeBefore(bd);
    EdgeFirst(bd);
    EdgeLeast(bd, r);
    var c := offset;
    while c < d
      invariant BoxEdge(bd, c) && offset <= c
      invariant forall k :: 0 <= k < links.Length ==>
        links[k] == if base <= k < base + c && k < base + d then FinalAt(d, bd, r, base, k - base) else old(links[k])
    {
      CornerIndex(d, r, c, offset);
      links[base + c] := Idx(d, r - offset, c - offset);
      EdgesApart(bd, c);
      EdgeNext(bd, c);
      c := c + bd;
    }
  }

  /** Row r of the third double loop, with the rows down to the next box-bottom row that it leaves alone. */
  method LinkCornersInBand(s: Sudoku, r: nat)
    requires s.Framed() && r < s.dimension && BoxEdge(s.boxDimension, r)
    requires forall k :: 0 <= k < s.boxNext.Length && Idx(s.dimension, r, 0) <= k ==>
      s.boxNext[k] == DownLink(s.dimension, s.boxDimension, k)
    modifies s.boxNext
    ensures forall k :: 0 <= k < s.boxNext.Length ==>
      s.boxNext[k] == if Idx(s.dimension, r, 0) <= k < Idx(s.dimension, r + s.boxDimension, 0)
                      then BoxLinkBuilt(s.dimension, s.boxDimension, k) else old(s.boxNext[k])
  {
    var d, bd, links := s.dimension, s.boxDimension, s.boxNext;
    var base := Idx(d, r, 0);
    DownForms(d, bd, r);
    FinalForms(d, bd, r);
    LinkCornersInRow(s, r);
    IdxNextRow(d, r);
    MulMono(r + 1, r + bd, d);
    BetweenCorners(d, bd, r);
  }

  /** Links below index base carry their final value, the rest still their phase-2 value. */
  ghost predicate CornersBelow(d: nat, bd: nat, links: seq<int>, base: nat)
    requires d >= 1
  {
    forall k :: 0 <= k < |links| ==> links[k] == if k < base then BoxLinkBuilt(d, bd, k) else DownLink(d, bd, k)
  }

  /** Finishing the band [lo, hi) moves the boundary of CornersBelow from lo to hi. */
  lemma CornersStep(d: nat, bd: nat, prev: seq<int>, cur: seq<int>, lo: nat, hi: nat)
    requires d >= 1 && |prev| == |cur| && lo <= hi && CornersBelow(d, bd, prev, lo)
    requires forall k :: 0 <= k < |cur| ==> cur[k] == if lo <= k < hi then BoxLinkBuilt(d, bd, k) else prev[k]
    ensures CornersBelow(d, bd, cur, hi)
  {
    forall k | 0 <= k < |cur| ensures cur[k] == if k < hi then BoxLinkBuilt(d, bd, k) else DownLink(d, bd, k) {
      if !(lo <= k < hi) {
        assert prev[k] == if k < lo then BoxLinkBuilt(d, bd, k) else DownLink(d, bd, k);
      }
    }
  }

  /** The third double loop of `link_cells_by_box`; afterwards every cell carries its final box link. */
  method LinkCornersBack(s: Sudoku)
    requires s.Framed()
    requires forall k :: 0 <= k < s.boxNext.Length ==> s.boxNext[k] == DownLink(s.dimension, s.boxDimension, k)
    modifies s.boxNext
    ensures forall k :: 0 <= k < s.boxNext.Length ==> s.boxNext[k] == BoxLinkBuilt(s.dimension, s.boxDimension, k)
  {
    var d, bd, links := s.dimension, s.boxDimension, s.boxNext;
    var r := bd - 1;
    var base := Idx(d, r, 0);
    BeforeCorners(d, bd);
    while r < d
      invariant BoxEdge(bd, r) && base == Idx(d, r, 0)
      invariant CornersBelow(d, bd, links[..], base)
    {
      ghost var prev := links[..];
      forall k | 0 <= k < links.Length && base <= k ensures links[k] == DownLink(d, bd, k) {
        assert links[k] == prev[k];
      }
      LinkCornersInBand(s, r);
      MulMono(r, r + bd, d);
      CornersStep(d, bd, prev, links[..], base, Idx(d, r + bd, 0));
      EdgeNext(bd, r);
      r, base := r + bd, Idx(d, r + bd, 0);
    }
    MulMono(d, r, d);
    forall k | 0 <= k < links.Length ensures links[k] == BoxLinkBuilt(d, bd, k) {
      assert links[..][k] == links[k];
    }
  }

  /** The box number `link_cells_by_box` gives cell k of a d x d grid with box side bd. */
  function NumberAt(d: nat, bd: nat, k: nat): nat
    requires d >= 1 && bd >= 1
  {
    BoxNumber(bd, k / d, k % d)
  }

  /** One pass of the last double loop: the box numbers of row r. */
  method NumberBoxesInRow(s: Sudoku, r: nat)
    requires s.Framed() && r < s.dimension
    modifies s.boxNumber
    ensures forall k :: 0 <= k < s.boxNumber.Length ==>
      s.boxNumber[k] == if Idx(s.dimension, r, 0) <= k < Idx(s.dimension, r, 0) + s.dimension
                        then NumberAt(s.dimension, s.boxDimension, k) else old(s.boxNumber[k])
  {
    var d, bd, numbers := s.dimension, s.boxDimension, s.boxNumber;
    var base := Idx(d, r, 0);
    IdxBound(d, d, r, d - 1);
    var c := 0;
    while c < d
      invariant 0 <= c <= d
      invariant forall k :: 0 <= k < numbers.Length ==>
        numbers[k] == if base <= k < base + c then BoxNumber(bd, r, k - base) else old(numbers[k])
    {
      numbers[Idx(d, r, c)] := BoxNumber(bd, r, c);
      c := c + 1;
    }
    forall k | base <= k < base + d ensures k / d == r && k % d == k - base {
      IdxParts(d, r, k - base);
    }
  }

  /** The last double loop of `link_cells_by_box`: every cell gets its 1-based box number. */
  method NumberBoxes(s: Sudoku)
    requires s.Framed()
    modifies s.boxNumber
    ensures forall k :: 0 <= k < s.boxNumber.Length ==>
      s.boxNumber[k] == NumberAt(s.dimension, s.boxDimension, k)
  {
    var d, bd, numbers := s.dimension, s.boxDimension, s.boxNumber;
    var r, base := 0, 0;
    while r < d
      invariant 0 <= r <= d && base == Idx(d, r, 0)
      invariant forall k :: 0 <= k < numbers.Length && k < base ==> numbers[k] == NumberAt(d, bd, k)
    {
      NumberBoxesInRow(s, r);
      IdxNextRow(d, r);
      r, base := r + 1, base + d;
    }
  }

  /**
   * `SudokuBuilder.link_cells_by_box` on a freshly allocated Sudoku: the
   * box links and box numbers it leaves; when the dimension is a perfect
   * square every box is a circuit and the Sudoku is fully built.
   */
  method LinkCellsByBox(s: Sudoku)
    requires s.Framed() && s.puzzle.Linked() && s.boxDimension == Isqrt(s.dimension)
    requires forall k :: 0 <= k < s.boxNext.Length ==> s.boxNext[k] == -1
    modifies s.boxNext, s.boxNumber
    ensures BoxLinked(s.boxNext[..], s.dimension, s.boxDimension)
    ensures forall k :: 0 <= k < s.boxNumber.Length ==>
      s.boxNumber[k] == NumberAt(s.dimension, s.boxDimension, k)
    ensures IsSquare(s.dimension) ==> s.Valid()
  {
    LinkNeighbours(s);
    LinkEdgesDown(s);
    LinkCornersBack(s);
    NumberBoxes(s);
  }

  /** The value options `SudokuBuilder.__init__` reads off the starting values: every one that is not the placeholder. */
  function ValueSet(values: seq<seq<char>>, placeholder: char): set<char>
  {
    set k | 0 <= k < |values| && |values[k]| == 1 && values[k][0] != placeholder :: values[k][0]
  }

  /**
   * The loop over `starting_values` in `SudokuBuilder.__init__`: an element
   * that is not a single character is refused; the others, placeholder
   * aside, are collected.
   */
  method ScanStartingValues(values: seq<seq<char>>, placeholder: char) returns (r: Result<set<char>>)
    ensures r.Ok? <==> forall k :: 0 <= k < |values| ==> |values[k]| == 1
    ensures r.Err? ==> r.error == SudokuBuildError
    ensures r.Ok? ==> r.value == ValueSet(values, placeholder)
  {
    var found: set<char> := {};
    var i := 0;
    while i < |values|
      invariant 0 <= i <= |values|
      invariant forall k :: 0 <= k < i ==> |values[k]| == 1
      invariant found == ValueSet(values[..i], placeholder)
    {
      if |values[i]| != 1 {
        return Err(SudokuBuildError);
      }
      if values[i][0] != placeholder {
        found := found + {values[i][0]};
      }
      assert values[..i + 1] == values[..i] + [values[i]];
      i := i + 1;
    }
    assert values[..i] == values;
    r := Ok(found);
  }

  /** Python's `list(a_set)`: every element once, in an order the model leaves open. */
  method SetToList(elements: set<char>) returns (r: seq<char>)
    ensures forall ch :: ch in r <==> ch in elements
    ensures forall i, j :: 0 <= i < j < |r| ==> r[i] != r[j]
    ensures |r| == |elements|
  {
    var rest := elements;
    r := [];
    while rest != {}
      invariant forall ch :: ch in r ==> ch in elements && ch !in rest
      invariant forall ch :: ch in elements ==> ch in r || ch in rest
      invariant rest <= elements
      invariant forall i, j :: 0 <= i < j < |r| ==> r[i] != r[j]
      invariant |r| + |rest| == |elements|
      decreases |rest|
    {
      var ch :| ch in rest;
      r, rest := r + [ch], rest - {ch};
    }
  }

  /**
   * When `SudokuBuilder.__init__` succeeds. With starting values: their
   * number is a square, each is one character, and there are enough of them
   * for a dimension x dimension grid (the grid takes its side from the
   * `dimension` parameter, not from the number of values). Without: the
   * dimension is a square, there is one value option per line, and the
   * placeholder is not one of them. Either way the placeholder is one
   * character and the dimension is positive.
   */
  predicate BuildAccepted(startingValues: Option<seq<seq<char>>>, dimension: int, allPossibleValues: seq<char>,
                          placeholder: seq<char>)
  {
    && |placeholder| == 1 && dimension >= 1
    && match startingValues
       case None =>
         IsSquare(dimension) && dimension == |allPossibleValues| && placeholder[0] !in allPossibleValues
       case Some(values) =>
         && IsSquare(|values|) && (forall k :: 0 <= k < |values| ==> |values[k]| == 1)
         && |values| >= dimension * dimension
  }

  /**
   * `SudokuBuilder.__init__` followed by `get_puzzle`: validate, pick the value
   * options, build and link the cells, then link them by box.
   */
  method Build(startingValues: Option<seq<seq<char>>>, dimension: int, allPossibleValues: seq<char>,
               placeholder: seq<char>) returns (r: Result<Sudoku>)
    ensures r.Err? <==> !BuildAccepted(startingValues, dimension, allPossibleValues, placeholder)
    ensures r.Err? ==> r.error == SudokuBuildError
    ensures r.Ok? ==> var s := r.value;
      && fresh(s) && fresh(s.puzzle) && fresh(s.puzzle.contents) && fresh(s.puzzle.immutable)
      && fresh(s.puzzle.rowNext) && fresh(s.puzzle.colNext) && fresh(s.boxNext) && fresh(s.boxNumber)
    ensures r.Ok? ==> var s := r.value;
      && s.dimension == dimension && s.boxDimension == Isqrt(s.dimension) && s.puzzle.placeholder == placeholder[0]
      && s.Framed() && s.puzzle.Linked() && s.puzzle.empties == []
      && BoxLinked(s.boxNext[..], s.dimension, s.boxDimension)
      && (forall k :: 0 <= k < s.boxNumber.Length ==> s.boxNumber[k] == NumberAt(s.dimension, s.boxDimension, k))
      && (IsSquare(s.dimension) ==> s.Valid())
    ensures r.Ok? ==> var s := r.value;
      forall k :: 0 <= k < dimension * dimension ==>
        CellInit(s.puzzle.contents[k], s.puzzle.immutable[k])
          == InitialState(Some(if startingValues == None then placeholder else startingValues.value[k]), placeholder[0])
    ensures r.Ok? && startingValues == None ==> r.value.valueOptions == allPossibleValues
    ensures r.Ok? && startingValues != None ==> var options := r.value.valueOptions;
      && (forall ch :: ch in options <==> ch in ValueSet(startingValues.value, placeholder[0]))
      && (forall i, j :: 0 <= i < j < |options| ==> options[i] != options[j])
  {
    var options := allPossibleValues;
    if startingValues != None {
      var values := startingValues.value;
      IsSquareExact(|values|);
      if ValidateDimension(|values|) != None {
        return Err(SudokuBuildError);
      }
      if |placeholder| != 1 {
        return Err(SudokuBuildError);
      }
      var scanned := ScanStartingValues(values, placeholder[0]);
      if scanned.Err? {
        return Err(SudokuBuildError);
      }
      options := SetToList(scanned.value);
    } else {
      if dimension >= 0 {
        IsSquareExact(dimension);
      }
      if ValidateDimension(dimension) != None {
        return Err(SudokuBuildError);
      }
      if dimension != |allPossibleValues| {
        return Err(SudokuBuildError);
      }
    }
    // `Sudoku(all_possible_values, dimension)`: the square root of a negative
    // dimension raises, and `Puzzle.__init__` refuses a side below 1.
    if dimension < 1 {
      return Err(SudokuBuildError);
    }
    if ValidatePlaceholder(placeholder, options) != None {
      return Err(SudokuBuildError);
    }
    var s := new Sudoku(options, dimension, placeholder[0]);
    var cellError := s.puzzle.BuildCells(startingValues);
    if cellError != None {
      return Err(SudokuBuildError);
    }
    s.puzzle.LinkRows();
    s.puzzle.LinkColumns();
    LinkCellsByBox(s);
    r := Ok(s);
  }
}

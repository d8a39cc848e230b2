/**
 * Two in-place list helpers of main.py's older generator: `resolve_singulars`,
 * which settles the characters that occur in exactly one multi-candidate cell
 * of a line, and the `Box` of 3 x 3 cells with its list of open cells.
 */
module Legacy {
  import opened Outcome

  /** `alpha_list`: the nine characters the older generator lays out. */
  const AlphaList: seq<char> := ['C', 'D', 'E', 'F', 'L', 'O', 'P', 'T', 'Z']

  /** A cell of a line is a string of candidate characters; more than one means undecided. */
  predicate Multi(cell: seq<char>)
  {
    |cell| > 1
  }

  // ---------------------------------------------------------------------------
  // resolve_singulars
  // ---------------------------------------------------------------------------

  /** `search_str`: the undecided cells of a line concatenated in order. */
  function Pool(line: seq<seq<char>>): seq<char>
  {
    if line == [] then []
    else Pool(line[..|line| - 1]) + (if Multi(line[|line| - 1]) then line[|line| - 1] else [])
  }

  /** The pool of two lines laid end to end is the two pools laid end to end. */
  lemma {:induction false} PoolConcat(a: seq<seq<char>>, b: seq<seq<char>>)
    ensures Pool(a + b) == Pool(a) + Pool(b)
  {
    if b == [] {
      assert a + b == a;
    } else {
      var b' := b[..|b| - 1];
      var last := b[|b| - 1];
      var tail := if Multi(last) then last else [];
      assert (a + b)[..|a + b| - 1] == a + b';
      assert (a + b)[|a + b| - 1] == last;
      assert Pool(a + b) == Pool(a + b') + tail;
      assert Pool(b) == Pool(b') + tail;
      PoolConcat(a, b');
    }
  }

  /** The pool of a single cell is the cell when it is undecided. */
  lemma PoolOne(cell: seq<char>)
    ensures Pool([cell]) == if Multi(cell) then cell else []
  {
    assert [cell][..0] == [];
  }

  /** The characters of cs whose count in the pool is exactly one, in the order of cs. */
  function Singles(cs: seq<char>, pool: seq<char>): (r: seq<char>)
    ensures forall c :: c in r <==> c in cs && multiset(pool)[c] == 1
  {
    if cs == [] then []
    else Singles(cs[..|cs| - 1], pool) + (if multiset(pool)[cs[|cs| - 1]] == 1 then [cs[|cs| - 1]] else [])
  }

  /** `singular_chars`: the alphabet's characters that occur once among the undecided cells. */
  function Singular(line: seq<seq<char>>): seq<char>
  {
    Singles(AlphaList, Pool(line))
  }

  /** An undecided cell's characters are all in the pool. */
  lemma {:induction false} InPool(line: seq<seq<char>>, i: nat, c: char)
    requires i < |line| && Multi(line[i]) && c in line[i]
    ensures multiset(Pool(line))[c] >= 1
  {
    var front := line[..|line| - 1];
    var last := line[|line| - 1];
    assert Pool(line) == Pool(front) + (if Multi(last) then last else []);
    if i < |line| - 1 {
      assert front[i] == line[i];
      InPool(front, i, c);
    }
  }

  /** Two undecided cells holding c put c in the pool at least twice. */
  lemma {:induction false} TwoInPool(line: seq<seq<char>>, i: nat, j: nat, c: char)
    requires i < j < |line|
    requires Multi(line[i]) && c in line[i] && Multi(line[j]) && c in line[j]
    ensures multiset(Pool(line))[c] >= 2
  {
    var front := line[..|line| - 1];
    var last := line[|line| - 1];
    assert Pool(line) == Pool(front) + (if Multi(last) then last else []);
    assert front[i] == line[i];
    if j == |line| - 1 {
      InPool(front, i, c);
    } else {
      assert front[j] == line[j];
      TwoInPool(front, i, j, c);
    }
  }

  /** No two undecided cells share a character that occurs only once in the pool. */
  lemma SingleHolder(line: seq<seq<char>>, c: char, i: nat, j: nat)
    requires multiset(Pool(line))[c] == 1
    requires i < j < |line|
    requires Multi(line[i]) && c in line[i]
    ensures !(Multi(line[j]) && c in line[j])
  {
    if Multi(line[j]) && c in line[j] {
      TwoInPool(line, i, j, c);
    }
  }

  /** The first undecided cell at or after lo holding c. */
  function FirstFrom(line: seq<seq<char>>, c: char, lo: nat): (r: Option<nat>)
    requires lo <= |line|
    ensures r.Some? ==> lo <= r.value < |line| && Multi(line[r.value]) && c in line[r.value]
    ensures r.Some? ==> forall i :: lo <= i < r.value ==> !(Multi(line[i]) && c in line[i])
    ensures r.None? ==> forall i :: lo <= i < |line| ==> !(Multi(line[i]) && c in line[i])
    decreases |line| - lo
  {
    if lo == |line| then None
    else if Multi(line[lo]) && c in line[lo] then Some(lo)
    else FirstFrom(line, c, lo + 1)
  }

  /** One pass of the inner loop: the first undecided cell holding c becomes c alone. */
  function Step(line: seq<seq<char>>, c: char): (r: seq<seq<char>>)
    ensures |r| == |line|
  {
    match FirstFrom(line, c, 0)
    case None => line
    case Some(i) => line[i := [c]]
  }

  /** The outer loop: Step for each character of cs in turn. */
  function Apply(line: seq<seq<char>>, cs: seq<char>): (r: seq<seq<char>>)
    ensures |r| == |line|
  {
    if cs == [] then line else Step(Apply(line, cs[..|cs| - 1]), cs[|cs| - 1])
  }

  /** The first character of cs that the cell holds. */
  function FirstIn(cell: seq<char>, cs: seq<char>): (r: Option<char>)
    ensures r.Some? ==> r.value in cs && r.value in cell
    ensures r.None? <==> forall c :: c in cs ==> c !in cell
  {
    if cs == [] then None
    else
      var p := FirstIn(cell, cs[..|cs| - 1]);
      if p.Some? then p
      else if cs[|cs| - 1] in cell then Some(cs[|cs| - 1])
      else None
  }

  /** What `resolve_singulars` leaves in one cell: its first singular character, if it was undecided and has one. */
  function Settled(cell: seq<char>, cs: seq<char>): seq<char>
  {
    if Multi(cell) && FirstIn(cell, cs).Some? then [FirstIn(cell, cs).value] else cell
  }

  /**
   * After the first m singular characters, each undecided cell holding one of
   * them holds the first of them alone, and every other cell is as it was.
   */
  lemma {:induction false} ApplyPrefix(line: seq<seq<char>>, cs: seq<char>, m: nat)
    requires forall c :: c in cs ==> multiset(Pool(line))[c] == 1
    requires m <= |cs|
    ensures forall i :: 0 <= i < |line| ==> Apply(line, cs[..m])[i] == Settled(line[i], cs[..m])
  {
    if m > 0 {
      ApplyPrefix(line, cs, m - 1);
      var before := cs[..m - 1];
      var c := cs[m - 1];
      assert cs[..m][..m - 1] == before;
      var cur := Apply(line, before);
      forall i | 0 <= i < |line| ensures Apply(line, cs[..m])[i] == Settled(line[i], cs[..m]) {
        assert FirstIn(line[i], cs[..m]) == if FirstIn(line[i], before).Some? then FirstIn(line[i], before)
          else if c in line[i] then Some(c) else None;
        match FirstFrom(cur, c, 0)
        case None =>
        case Some(h) =>
          assert cur[h] == line[h];
          if i != h && Multi(line[i]) && c in line[i] {
            if i < h {
              SingleHolder(line, c, i, h);
            } else {
              SingleHolder(line, c, h, i);
            }
          }
      }
    }
  }

  /**
   * `resolve_singulars` cell by cell: an undecided cell holding a character
   * that occurs once among the undecided cells becomes the first such
   * character in alphabet order; every other cell is unchanged.
   */
  lemma ResolvedCells(line: seq<seq<char>>)
    ensures |Apply(line, Singular(line))| == |line|
    ensures forall i :: 0 <= i < |line| ==> Apply(line, Singular(line))[i] == Settled(line[i], Singular(line))
    ensures Apply(line, Singular(line)) != line <==>
      exists i :: 0 <= i < |line| && Multi(line[i]) && FirstIn(line[i], Singular(line)).Some?
  {
    var s := Singular(line);
    ApplyPrefix(line, s, |s|);
    assert s[..|s|] == s;
  }

  /** The first loop of `resolve_singulars`: the undecided cells concatenated. */
  method SearchString(line: array<seq<char>>) returns (searchStr: seq<char>)
    ensures searchStr == Pool(line[..])
  {
    searchStr := [];
    var n := 0;
    while n < line.Length
      invariant 0 <= n <= line.Length && searchStr == Pool(line[..n])
    {
      assert line[..n + 1][..n] == line[..n];
      if |line[n]| > 1 {
        searchStr := searchStr + line[n];
      }
      n := n + 1;
    }
    assert line[..line.Length] == line[..];
  }

  /** The second loop of `resolve_singulars`: the alphabet's characters counted once in the string. */
  method SingularChars(searchStr: seq<char>) returns (singularChars: seq<char>)
    ensures singularChars == Singles(AlphaList, searchStr)
  {
    singularChars := [];
    var n := 0;
    while n < |AlphaList|
      invariant 0 <= n <= |AlphaList| && singularChars == Singles(AlphaList[..n], searchStr)
    {
      assert AlphaList[..n + 1][..n] == AlphaList[..n];
      if multiset(searchStr)[AlphaList[n]] == 1 {
        singularChars := singularChars + [AlphaList[n]];
      }
      n := n + 1;
    }
    assert AlphaList[..|AlphaList|] == AlphaList;
  }

  /**
   * What the outer loop of `resolve_singulars` has established once the
   * characters cs are done: the line is Apply's, only cells that became
   * single characters differ from the start, and changed says whether any did.
   */
  ghost predicate SettledSoFar(start: seq<seq<char>>, cur: seq<seq<char>>, cs: seq<char>, changed: bool)
  {
    && cur == Apply(start, cs)
    && |cur| == |start|
    && (forall i :: 0 <= i < |cur| && cur[i] != start[i] ==> |cur[i]| == 1)
    && (changed <==> cur != start)
  }

  /** One more character of the outer loop keeps SettledSoFar. */
  lemma SettledStep(start: seq<seq<char>>, prev: seq<seq<char>>, cs: seq<char>, c: char, changed: bool, hit: bool)
    requires SettledSoFar(start, prev, cs, changed)
    requires hit <==> FirstFrom(prev, c, 0).Some?
    ensures SettledSoFar(start, Step(prev, c), cs + [c], changed || hit)
  {
    assert (cs + [c])[..|cs|] == cs;
    match FirstFrom(prev, c, 0)
    case None =>
    case Some(i) =>
      assert prev[i] == start[i];
      assert Step(prev, c)[i] != start[i];
  }

  /**
   * `resolve_singulars(context, line_index, line)`: rewrites the line in place
   * and returns true iff some cell was replaced.
   */
  method ResolveSingulars(line: array<seq<char>>) returns (changed: bool)
    modifies line
    ensures line[..] == Apply(old(line[..]), Singular(old(line[..])))
    ensures changed <==> line[..] != old(line[..])
  {
    ghost var start := line[..];
    var searchStr := SearchString(line);
    var singularChars := SingularChars(searchStr);
    changed := false;
    var k := 0;
    while k < |singularChars|
      invariant 0 <= k <= |singularChars|
      invariant SettledSoFar(start, line[..], singularChars[..k], changed)
    {
      ghost var prev := line[..];
      var hit := SettleFirst(line, singularChars[k]);
      SettledStep(start, prev, singularChars[..k], singularChars[k], changed, hit);
      assert singularChars[..k + 1] == singularChars[..k] + [singularChars[k]];
      changed := changed || hit;
      k := k + 1;
    }
    assert singularChars[..|singularChars|] == singularChars;
  }

  /**
   * The inner loop of `resolve_singulars`: the first undecided cell holding c
   * becomes c alone; true iff there was one.
   */
  method SettleFirst(line: array<seq<char>>, c: char) returns (hit: bool)
    modifies line
    ensures line[..] == Step(old(line[..]), c)
    ensures hit <==> FirstFrom(old(line[..]), c, 0).Some?
  {
    ghost var cur := line[..];
    var cell := 0;
    while cell < line.Length
      invariant 0 <= cell <= line.Length && line[..] == cur
      invariant FirstFrom(cur, c, 0) == FirstFrom(cur, c, cell)
    {
      if |line[cell]| > 1 && c in line[cell] {
        line[cell] := [c];
        return true;
      }
      cell := cell + 1;
    }
    return false;
  }

  // ---------------------------------------------------------------------------
  // Box
  // ---------------------------------------------------------------------------

  /** `LineType`: ROW picks a coordinate's first half, COL its second. */
  datatype LineType = Row | Col

  /** A slot of a box: the blank 0 of `blank_box`, or a numeral put there. */
  datatype Slot = Blank | Numeral(value: char)

  /** The coordinate of an open cell that a line type compares. */
  function Along(x: (int, int), lineType: LineType): int
  {
    match lineType
    case Row => x.0
    case Col => x.1
  }

  /** The open cells that are not on the line: what `mask_line` keeps. */
  function OffLine(cells: seq<(int, int)>, lineType: LineType, n: int): (r: seq<(int, int)>)
    ensures |r| <= |cells|
  {
    if cells == [] then []
    else (if Along(cells[0], lineType) == n then [] else [cells[0]]) + OffLine(cells[1..], lineType, n)
  }

  /** `mask_line` keeps exactly the open cells off the line. */
  lemma {:induction false} OffLineMembers(cells: seq<(int, int)>, lineType: LineType, n: int)
    ensures forall x :: x in OffLine(cells, lineType, n) <==> x in cells && Along(x, lineType) != n
  {
    if cells != [] {
      OffLineMembers(cells[1..], lineType, n);
      assert cells == [cells[0]] + cells[1..];
    }
  }

  /** Masking a line twice is masking it once. */
  lemma {:induction false} OffLineTwice(cells: seq<(int, int)>, lineType: LineType, n: int)
    ensures OffLine(OffLine(cells, lineType, n), lineType, n) == OffLine(cells, lineType, n)
  {
    if cells != [] {
      var rest := OffLine(cells[1..], lineType, n);
      OffLineTwice(cells[1..], lineType, n);
      if Along(cells[0], lineType) == n {
        assert OffLine(cells, lineType, n) == rest;
      } else {
        var once := [cells[0]] + rest;
        assert OffLine(cells, lineType, n) == once;
        assert once[0] == cells[0] && once[1..] == rest;
      }
    }
  }

  /** One step of the backward deletion loop of `mask_line`, at position ndx. */
  lemma MaskStep(start: seq<(int, int)>, ndx: nat, lineType: LineType, n: int)
    requires ndx < |start|
    ensures |start[..ndx + 1] + OffLine(start[ndx + 1..], lineType, n)| > ndx
    ensures (start[..ndx + 1] + OffLine(start[ndx + 1..], lineType, n))[ndx] == start[ndx]
    ensures Along(start[ndx], lineType) == n ==>
      var cur := start[..ndx + 1] + OffLine(start[ndx + 1..], lineType, n);
      cur[..ndx] + cur[ndx + 1..] == start[..ndx] + OffLine(start[ndx..], lineType, n)
    ensures Along(start[ndx], lineType) != n ==>
      start[..ndx + 1] + OffLine(start[ndx + 1..], lineType, n) == start[..ndx] + OffLine(start[ndx..], lineType, n)
  {
    assert start[ndx..][0] == start[ndx];
    assert start[ndx..][1..] == start[ndx + 1..];
    assert start[..ndx + 1] == start[..ndx] + [start[ndx]];
    var cur := start[..ndx + 1] + OffLine(start[ndx + 1..], lineType, n);
    assert cur[..ndx] == start[..ndx];
    assert cur[ndx + 1..] == OffLine(start[ndx + 1..], lineType, n);
  }

  /**
   * The state of `mask_line`'s backward loop at index ndx: the entries up
   * to ndx untouched, the rest filtered; the list is empty only if it
   * started empty.
   */
  ghost predicate MaskedSoFar(start: seq<(int, int)>, cur: seq<(int, int)>, ndx: int, lineType: LineType, n: int)
  {
    && -1 <= ndx < |start|
    && cur == start[..ndx + 1] + OffLine(start[ndx + 1..], lineType, n)
    && (cur != [] || start == [])
  }

  /**
   * One turn of `mask_line`'s loop at ndx: the entry there is the original
   * one; deleting it when it is on the line either empties the list, which
   * happens only when the list was not empty and nothing off the line
   * remains, or keeps MaskedSoFar at ndx - 1, as does skipping it.
   */
  lemma MaskAdvance(start: seq<(int, int)>, cur: seq<(int, int)>, ndx: nat, lineType: LineType, n: int)
    requires MaskedSoFar(start, cur, ndx, lineType, n)
    ensures ndx < |cur| && cur[ndx] == start[ndx]
    ensures var next := if Along(cur[ndx], lineType) == n then cur[..ndx] + cur[ndx + 1..] else cur;
      && (next == [] ==> start != [] && OffLine(start, lineType, n) == [])
      && (next != [] ==> MaskedSoFar(start, next, ndx - 1, lineType, n))
  {
    MaskStep(start, ndx, lineType, n);
    var next := if Along(cur[ndx], lineType) == n then cur[..ndx] + cur[ndx + 1..] else cur;
    assert next == start[..ndx] + OffLine(start[ndx..], lineType, n);
    if next == [] {
      assert |start[..ndx]| == 0;
      assert start[ndx..] == start;
    }
  }

  /** The open cells without the coordinate p: what `set_numeral` keeps. */
  function Without(cells: seq<(int, int)>, p: (int, int)): (r: seq<(int, int)>)
    ensures |r| <= |cells|
  {
    if cells == [] then []
    else (if cells[0] == p then [] else [cells[0]]) + Without(cells[1..], p)
  }

  /** `set_numeral` keeps exactly the open cells other than p. */
  lemma {:induction false} WithoutMembers(cells: seq<(int, int)>, p: (int, int))
    ensures forall x :: x in Without(cells, p) <==> x in cells && x != p
  {
    if cells != [] {
      WithoutMembers(cells[1..], p);
      assert cells == [cells[0]] + cells[1..];
    }
  }

  /** One step of the backward deletion loop of `set_numeral`, at position ndx. */
  lemma WithoutStep(start: seq<(int, int)>, ndx: nat, p: (int, int))
    requires ndx < |start|
    ensures |start[..ndx + 1] + Without(start[ndx + 1..], p)| > ndx
    ensures (start[..ndx + 1] + Without(start[ndx + 1..], p))[ndx] == start[ndx]
    ensures start[ndx] == p ==>
      var cur := start[..ndx + 1] + Without(start[ndx + 1..], p);
      cur[..ndx] + cur[ndx + 1..] == start[..ndx] + Without(start[ndx..], p)
    ensures start[ndx] != p ==>
      start[..ndx + 1] + Without(start[ndx + 1..], p) == start[..ndx] + Without(start[ndx..], p)
  {
    assert start[ndx..][0] == start[ndx];
    assert start[ndx..][1..] == start[ndx + 1..];
    assert start[..ndx + 1] == start[..ndx] + [start[ndx]];
    var rest := Without(start[ndx + 1..], p);
    assert Without(start[ndx..], p) == (if start[ndx] == p then [] else [start[ndx]]) + rest;
    var cur := start[..ndx + 1] + rest;
    assert cur[..ndx] == start[..ndx];
    assert cur[ndx + 1..] == rest;
  }

  /** The nine coordinates of a box, row by row: `Box.open_cells`. */
  const AllCells: seq<(int, int)> := [(0, 0), (0, 1), (0, 2), (1, 0), (1, 1), (1, 2), (2, 0), (2, 1), (2, 2)]

  class Box {
    /** Where the box sits in the grid of boxes. */
    const row: int
    const col: int
    const contents: array2<Slot>
    var openCells: seq<(int, int)>

    ghost predicate Valid()
      reads this
    {
      contents.Length0 == 3 && contents.Length1 == 3
    }

    /** `Box(row, col)`: nine blank slots, all of them open. */
    constructor (row: int, col: int)
      ensures Valid() && this.row == row && this.col == col && fresh(contents)
      ensures forall i, j :: 0 <= i < 3 && 0 <= j < 3 ==> contents[i, j] == Blank
      ensures openCells == AllCells
    {
      this.row := row;
      this.col := col;
      contents := new Slot[3, 3]((i, j) => Blank);
      openCells := AllCells;
    }

    /**
     * `mask_line(line_type, line_nmbr)`: deletes, from the back, every open
     * cell on the line. CellExcept when a deletion empties the list, which
     * is when the list was not empty and every open cell was on the line.
     */
    method MaskLine(lineType: LineType, n: int) returns (r: Result<()>)
      modifies this
      ensures openCells == OffLine(old(openCells), lineType, n)
      ensures r.Err? <==> old(openCells) != [] && OffLine(old(openCells), lineType, n) == []
      ensures r.Err? ==> r.error == CellExcept
    {
      ghost var start := openCells;
      var ndx := |openCells| - 1;
      assert start[ndx + 1..] == [];
      while ndx >= 0
        invariant MaskedSoFar(start, openCells, ndx, lineType, n)
      {
        MaskAdvance(start, openCells, ndx, lineType, n);
        if Along(openCells[ndx], lineType) == n {
          openCells := openCells[..ndx] + openCells[ndx + 1..];
          if |openCells| == 0 {
            return Err(CellExcept);
          }
        }
        ndx := ndx - 1;
      }
      assert start[0..] == start;
      r := Ok(());
    }

    /**
     * `set_numeral(row, col, numeral)`: puts the numeral in the slot whatever
     * its open status, Python's negative indices included; IndexError, with
     * nothing changed, outside -3..2. The open list then loses the entry
     * equal to (row, col) as given.
     */
    method SetNumeral(row: int, col: int, numeral: char) returns (r: Result<()>)
      requires Valid()
      modifies this, contents
      ensures r.Err? <==> !(-3 <= row < 3 && -3 <= col < 3)
      ensures r.Err? ==> r.error == BadIndex && openCells == old(openCells)
      ensures r.Err? ==> forall i, j :: 0 <= i < 3 && 0 <= j < 3 ==> contents[i, j] == old(contents[i, j])
      ensures r.Ok? ==> openCells == Without(old(openCells), (row, col))
      ensures r.Ok? ==> forall i, j :: 0 <= i < 3 && 0 <= j < 3 ==>
        contents[i, j] == if i == row % 3 && j == col % 3 then Numeral(numeral) else old(contents[i, j])
    {
      if !(-3 <= row < 3 && -3 <= col < 3) {
        return Err(BadIndex);
      }
      contents[row % 3, col % 3] := Numeral(numeral);
      if |openCells| == 0 {
        assert openCells == [];
        return Ok(());
      }
      DropOpen(row, col);
      r := Ok(());
    }

    /** The backward loop of `set_numeral`: deletes every open entry equal to (row, col). */
    method DropOpen(row: int, col: int)
      modifies this
      ensures openCells == Without(old(openCells), (row, col))
    {
      ghost var start := openCells;
      var ndx := |openCells| - 1;
      assert start[ndx + 1..] == [];
      while ndx >= 0
        invariant -1 <= ndx < |start|
        invariant openCells == start[..ndx + 1] + Without(start[ndx + 1..], (row, col))
      {
        WithoutStep(start, ndx, (row, col));
        if openCells[ndx] == (row, col) {
          openCells := openCells[..ndx] + openCells[ndx + 1..];
        }
        ndx := ndx - 1;
      }
      assert start[0..] == start;
    }
  }

}

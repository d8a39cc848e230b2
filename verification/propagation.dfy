// What constraint propagation does to a grid's candidate sets, stated over
// snapshots of them (row-major sequences). Removal cascades
// (`remove_value_from_context`, `remove_value_from_view`) only ever shrink
// candidate sets, never touch given clues or solved cells, and leave every
// solved cell's value out of the mutable unsolved cells it can see.
module Propagation {
  import opened Arith
  import opened Cells
  import opened Grid
  import opened Boxes

  /** The number of candidates over all cells. */
  function Total(s: seq<set<char>>): nat
  {
    if s == [] then 0 else Total(s[..|s| - 1]) + |s[|s| - 1]|
  }

  /** Replacing one cell's candidates changes the total by the difference in size. */
  lemma {:induction false} TotalUpdate(s: seq<set<char>>, k: nat, x: set<char>)
    requires k < |s|
    ensures Total(s[k := x]) + |s[k]| == Total(s) + |x|
    decreases |s|
  {
    var t := s[k := x];
    if k < |s| - 1 {
      assert t[..|t| - 1] == s[..|s| - 1][k := x];
      TotalUpdate(s[..|s| - 1], k, x);
    } else {
      assert t[..|t| - 1] == s[..|s| - 1];
    }
  }

  /** Pointwise subsets: the total can only drop, and it stays put only if nothing changed. */
  lemma {:induction false} TotalShrinks(a: seq<set<char>>, b: seq<set<char>>)
    requires |a| == |b| && forall k :: 0 <= k < |a| ==> b[k] <= a[k]
    ensures Total(b) <= Total(a)
    ensures Total(b) == Total(a) ==> b == a
    decreases |a|
  {
    if a != [] {
      var n := |a| - 1;
      TotalShrinks(a[..n], b[..n]);
      SubsetSize(b[n], a[n]);
      if Total(b) == Total(a) {
        assert a[..n] == b[..n];
        assert b == b[..n] + [b[n]] && a == a[..n] + [a[n]];
      }
    }
  }

  lemma SubsetSize(x: set<char>, y: set<char>)
    requires x <= y
    ensures |x| <= |y| && (|x| == |y| ==> x == y)
  {
    assert y == x + (y - x) && x * (y - x) == {};
  }

  /**
   * `b` is a state propagation can reach from `a`: candidate sets only shrink,
   * given clues (`imm`) and solved cells (exactly one candidate) keep theirs.
   */
  ghost predicate Evolves(a: seq<set<char>>, b: seq<set<char>>, imm: seq<bool>, placeholder: char)
  {
    && |a| == |b| == |imm|
    && forall k :: 0 <= k < |a| ==> b[k] <= a[k] && (imm[k] || Len(a[k], placeholder) == 1 ==> b[k] == a[k])
  }

  /** Shrinking one cell that is neither a clue nor solved is a step of propagation; the total falls iff the cell lost something. */
  lemma ShrinkCell(prev: seq<set<char>>, k: nat, x: set<char>, imm: seq<bool>, placeholder: char)
    requires k < |prev| == |imm| && x <= prev[k]
    requires imm[k] || Len(prev[k], placeholder) == 1 ==> x == prev[k]
    ensures Evolves(prev, prev[k := x], imm, placeholder)
    ensures Total(prev[k := x]) <= Total(prev)
    ensures Total(prev[k := x]) < Total(prev) <==> x != prev[k]
  {
    SubsetSize(x, prev[k]);
    TotalUpdate(prev, k, x);
  }

  lemma EvolvesRefl(a: seq<set<char>>, imm: seq<bool>, placeholder: char)
    requires |a| == |imm|
    ensures Evolves(a, a, imm, placeholder)
  {
  }

  lemma EvolvesTrans(a: seq<set<char>>, b: seq<set<char>>, c: seq<set<char>>, imm: seq<bool>, placeholder: char)
    requires Evolves(a, b, imm, placeholder) && Evolves(b, c, imm, placeholder)
    ensures Evolves(a, c, imm, placeholder)
  {
  }

  /** Propagation never adds candidates, so the total never grows. */
  lemma EvolvesTotal(a: seq<set<char>>, b: seq<set<char>>, imm: seq<bool>, placeholder: char)
    requires Evolves(a, b, imm, placeholder)
    ensures Total(b) <= Total(a)
    ensures Total(b) == Total(a) ==> b == a
  {
    TotalShrinks(a, b);
  }

  /**
   * Cell j no longer conflicts with a solved value v: it is a given clue
   * (which propagation may not touch), it has lost v, or it is solved itself.
   */
  predicate Resolved(c: seq<set<char>>, imm: seq<bool>, placeholder: char, j: nat, v: char)
    requires j < |c| && j < |imm|
  {
    imm[j] || v !in c[j] || Len(c[j], placeholder) == 1
  }

  lemma ResolvedStable(a: seq<set<char>>, b: seq<set<char>>, imm: seq<bool>, placeholder: char, j: nat, v: char)
    requires Evolves(a, b, imm, placeholder) && j < |a| && Resolved(a, imm, placeholder, j, v)
    ensures Resolved(b, imm, placeholder, j, v)
  {
  }

  /** Cell j shares a row, a column or a box with cell k (k itself included). */
  predicate InView(bd: nat, k: nat, j: nat)
    requires bd >= 1
  {
    var d := bd * bd;
    j < d * d && (j / d == k / d || j % d == k % d || BoxOf(bd, j) == BoxOf(bd, k))
  }

  /** The view of k is what `remove_value_from_view` walks: k's row, column and box iterators. */
  lemma InViewMembers(bd: nat, k: nat, j: nat)
    requires bd >= 1 && k < bd * bd * (bd * bd)
    ensures InView(bd, k, j) <==>
      (j in RowFrom(bd * bd, bd * bd, k) || j in ColumnFrom(bd * bd, bd * bd, k) || j in BoxFrom(bd, k))
  {
    var d := bd * bd;
    RowFromMembers(d, d, k);
    ColumnFromMembers(d, d, k);
    BoxFromMembers(bd, k);
  }

  /** What the row, column and box iterators of cell k yield, as `remove_value_from_view` uses it. */
  lemma ViewWalks(bd: nat, k: nat)
    requires bd >= 1 && k < bd * bd * (bd * bd)
    ensures |RowFrom(bd * bd, bd * bd, k)| > 0 && RowFrom(bd * bd, bd * bd, k)[0] == k
    ensures |ColumnFrom(bd * bd, bd * bd, k)| > 0 && ColumnFrom(bd * bd, bd * bd, k)[0] == k
    ensures |BoxFrom(bd, k)| > 0 && BoxFrom(bd, k)[0] == k
    ensures forall t :: 0 <= t < |RowFrom(bd * bd, bd * bd, k)| ==> RowFrom(bd * bd, bd * bd, k)[t] < bd * bd * (bd * bd)
    ensures forall t :: 0 <= t < |ColumnFrom(bd * bd, bd * bd, k)| ==> ColumnFrom(bd * bd, bd * bd, k)[t] < bd * bd * (bd * bd)
    ensures forall t :: 0 <= t < |BoxFrom(bd, k)| ==> BoxFrom(bd, k)[t] < bd * bd * (bd * bd)
    ensures forall j :: j in RowFrom(bd * bd, bd * bd, k) <==> 0 <= j < bd * bd * (bd * bd) && j / (bd * bd) == k / (bd * bd)
    ensures forall j :: j in ColumnFrom(bd * bd, bd * bd, k) <==> 0 <= j < bd * bd * (bd * bd) && j % (bd * bd) == k % (bd * bd)
    ensures forall j :: j in BoxFrom(bd, k) <==> 0 <= j < bd * bd * (bd * bd) && BoxOf(bd, j) == BoxOf(bd, k)
  {
    var d := bd * bd;
    RowWalkStart(d, k);
    ColumnWalkStart(d, k);
    BoxWalkStart(bd, k);
    RowFromMembers(d, d, k);
    ColumnFromMembers(d, d, k);
    BoxFromMembers(bd, k);
  }

  lemma RowWalkStart(d: nat, k: nat)
    requires k < d * d
    ensures |RowFrom(d, d, k)| > 0 && RowFrom(d, d, k)[0] == k
    ensures forall t :: 0 <= t < |RowFrom(d, d, k)| ==> RowFrom(d, d, k)[t] < d * d
  {
    IdxSplit(d, d, k);
    assert RowFrom(d, d, k)[0] == RowRing(d, k / d)[k % d];
    var row := RowFrom(d, d, k);
    forall t | 0 <= t < |row| ensures row[t] < d * d {
      RowFromMembers(d, d, k);
      assert row[t] in row;
    }
  }

  lemma ColumnWalkStart(d: nat, k: nat)
    requires k < d * d
    ensures |ColumnFrom(d, d, k)| > 0 && ColumnFrom(d, d, k)[0] == k
    ensures forall t :: 0 <= t < |ColumnFrom(d, d, k)| ==> ColumnFrom(d, d, k)[t] < d * d
  {
    IdxSplit(d, d, k);
    assert ColumnFrom(d, d, k)[0] == ColumnRing(d, d, k % d)[k / d];
    var column := ColumnFrom(d, d, k);
    forall t | 0 <= t < |column| ensures column[t] < d * d {
      ColumnFromMembers(d, d, k);
      assert column[t] in column;
    }
  }

  lemma BoxWalkStart(bd: nat, k: nat)
    requires bd >= 1 && k < bd * bd * (bd * bd)
    ensures |BoxFrom(bd, k)| > 0 && BoxFrom(bd, k)[0] == k
    ensures forall t :: 0 <= t < |BoxFrom(bd, k)| ==> BoxFrom(bd, k)[t] < bd * bd * (bd * bd)
  {
    BoxPositionFacts(bd, k);
    assert BoxFrom(bd, k)[0] == BoxRing(bd, BoxOf(bd, k))[BoxPosition(bd, k)];
    var box := BoxFrom(bd, k);
    forall t | 0 <= t < |box| ensures box[t] < bd * bd * (bd * bd) {
      BoxFromMembers(bd, k);
      assert box[t] in box;
    }
  }

  /** Every cell in the view of k has been cleared of k's value. */
  ghost predicate PeersResolved(bd: nat, c: seq<set<char>>, imm: seq<bool>, placeholder: char, k: nat)
    requires bd >= 1 && k < bd * bd * (bd * bd) == |c| == |imm|
  {
    forall j, v :: 0 <= j < |c| && j != k && v in c[k] && InView(bd, k, j) ==> Resolved(c, imm, placeholder, j, v)
  }

  lemma PeersResolvedStable(bd: nat, a: seq<set<char>>, b: seq<set<char>>, imm: seq<bool>, placeholder: char, k: nat)
    requires bd >= 1 && k < bd * bd * (bd * bd) == |a| == |imm|
    requires Evolves(a, b, imm, placeholder) && Len(a[k], placeholder) == 1
    requires PeersResolved(bd, a, imm, placeholder, k)
    ensures PeersResolved(bd, b, imm, placeholder, k)
  {
    forall j, v | 0 <= j < |b| && j != k && v in b[k] && InView(bd, k, j) ensures Resolved(b, imm, placeholder, j, v) {
      ResolvedStable(a, b, imm, placeholder, j, v);
    }
  }

  /** Every cell that got solved between `a` and `b` has had its value cleared from its view. */
  ghost predicate NewlySolvedResolved(bd: nat, a: seq<set<char>>, b: seq<set<char>>, imm: seq<bool>, placeholder: char)
    requires bd >= 1 && bd * bd * (bd * bd) == |a| == |b| == |imm|
  {
    forall k :: 0 <= k < |b| && Len(b[k], placeholder) == 1 && Len(a[k], placeholder) != 1
      ==> PeersResolved(bd, b, imm, placeholder, k)
  }

  /** Two propagation steps in a row: the cells either step solved are resolved at the end. */
  lemma NewlySolvedTrans(bd: nat, a: seq<set<char>>, b: seq<set<char>>, c: seq<set<char>>, imm: seq<bool>, placeholder: char)
    requires bd >= 1 && bd * bd * (bd * bd) == |a| == |imm|
    requires Evolves(a, b, imm, placeholder) && Evolves(b, c, imm, placeholder)
    requires NewlySolvedResolved(bd, a, b, imm, placeholder) && NewlySolvedResolved(bd, b, c, imm, placeholder)
    ensures NewlySolvedResolved(bd, a, c, imm, placeholder)
  {
    forall k | 0 <= k < |c| && Len(c[k], placeholder) == 1 && Len(a[k], placeholder) != 1
      ensures PeersResolved(bd, c, imm, placeholder, k)
    {
      if Len(b[k], placeholder) == 1 {
        PeersResolvedStable(bd, b, c, imm, placeholder, k);
      }
    }
  }

  /** Two propagation steps make one: shrinking, resolving, total not growing. */
  lemma Chain(bd: nat, a: seq<set<char>>, b: seq<set<char>>, c: seq<set<char>>, imm: seq<bool>, placeholder: char)
    requires bd >= 1 && bd * bd * (bd * bd) == |a| == |imm|
    requires Evolves(a, b, imm, placeholder) && Evolves(b, c, imm, placeholder)
    requires NewlySolvedResolved(bd, a, b, imm, placeholder) && NewlySolvedResolved(bd, b, c, imm, placeholder)
    ensures Evolves(a, c, imm, placeholder) && NewlySolvedResolved(bd, a, c, imm, placeholder)
    ensures Total(c) <= Total(a)
  {
    NewlySolvedTrans(bd, a, b, c, imm, placeholder);
    EvolvesTotal(a, c, imm, placeholder);
  }

  /**
   * One step of a cascade: only cell k changed from `prev` to `mid`, and what
   * followed resolved every cell it solved, k included if k got solved.
   * Then every cell solved since `prev` is resolved.
   */
  lemma SolvedStep(bd: nat, prev: seq<set<char>>, mid: seq<set<char>>, end: seq<set<char>>, imm: seq<bool>,
                   placeholder: char, k: nat)
    requires bd >= 1 && bd * bd * (bd * bd) == |prev| == |mid| == |imm| && k < |prev|
    requires mid == prev[k := mid[k]]
    requires Evolves(mid, end, imm, placeholder) && NewlySolvedResolved(bd, mid, end, imm, placeholder)
    requires Len(mid[k], placeholder) == 1 && Len(prev[k], placeholder) != 1 ==> PeersResolved(bd, end, imm, placeholder, k)
    ensures NewlySolvedResolved(bd, prev, end, imm, placeholder)
  {
    forall j | 0 <= j < |end| && Len(end[j], placeholder) == 1 && Len(prev[j], placeholder) != 1
      ensures PeersResolved(bd, end, imm, placeholder, j)
    {
      if j != k {
        assert mid[j] == prev[j];
      }
    }
  }

  /**
   * One round of `remove_values_from_context` on cell k, stated over
   * snapshots: k, neither solved nor (unless a clue) kept, loses the values
   * (`mid`); when `called`, k's view was then cleared (`end`). The round is a
   * propagation step that clears the values from k, resolves every cell it
   * solved, and lowers the total exactly when something was removed.
   */
  lemma CellRemoval(bd: nat, prev: seq<set<char>>, mid: seq<set<char>>, end: seq<set<char>>, imm: seq<bool>,
                    placeholder: char, k: nat, values: set<char>, changed: bool, removed: bool, called: bool)
    requires bd >= 1 && bd * bd * (bd * bd) == |prev| == |imm| && k < |prev|
    requires Len(prev[k], placeholder) != 1
    requires mid == prev[k := if imm[k] then prev[k] else prev[k] - values]
    requires removed <==> !imm[k] && prev[k] * values != {}
    requires called <==> (changed || removed) && Len(mid[k], placeholder) == 1
    requires !called ==> end == mid
    requires called ==> (Evolves(mid, end, imm, placeholder) && NewlySolvedResolved(bd, mid, end, imm, placeholder)
                         && PeersResolved(bd, end, imm, placeholder, k))
    ensures Evolves(prev, end, imm, placeholder)
    ensures forall v :: v in values ==> Resolved(end, imm, placeholder, k, v)
    ensures NewlySolvedResolved(bd, prev, end, imm, placeholder)
    ensures removed <==> Total(end) < Total(prev)
    ensures !removed ==> end == prev
  {
    var x := if imm[k] then prev[k] else prev[k] - values;
    DiffChanges(prev[k], values);
    assert removed <==> x != prev[k];
    ShrinkCell(prev, k, x, imm, placeholder);
    if !called {
      EvolvesRefl(mid, imm, placeholder);
    }
    SolvedStep(bd, prev, mid, end, imm, placeholder, k);
    EvolvesTotal(mid, end, imm, placeholder);
    EvolvesTrans(prev, mid, end, imm, placeholder);
  }

  /**
   * Clearing v from the row, then the column, then the box of cell i (each
   * walked from i) clears it from the whole view of i.
   */
  lemma ViewResolved(bd: nat, s1: seq<set<char>>, s2: seq<set<char>>, s3: seq<set<char>>, imm: seq<bool>,
                     placeholder: char, i: nat, row: seq<nat>, column: seq<nat>, box: seq<nat>, v: char)
    requires bd >= 1 && i < bd * bd * (bd * bd) == |s1| == |imm|
    requires Evolves(s1, s2, imm, placeholder) && Evolves(s2, s3, imm, placeholder) && s3[i] == {v}
    requires forall j :: 0 <= j < |s1| && j / (bd * bd) == i / (bd * bd) ==> j in row
    requires forall j :: 0 <= j < |s1| && j % (bd * bd) == i % (bd * bd) ==> j in column
    requires forall j :: 0 <= j < |s1| && BoxOf(bd, j) == BoxOf(bd, i) ==> j in box
    requires |row| > 0 && row[0] == i && |column| > 0 && column[0] == i && |box| > 0 && box[0] == i
    requires forall t :: 1 <= t < |row| ==> row[t] < |s1| && Resolved(s1, imm, placeholder, row[t], v)
    requires forall t :: 1 <= t < |column| ==> column[t] < |s2| && Resolved(s2, imm, placeholder, column[t], v)
    requires forall t :: 1 <= t < |box| ==> box[t] < |s3| && Resolved(s3, imm, placeholder, box[t], v)
    ensures PeersResolved(bd, s3, imm, placeholder, i)
  {
    forall j, w | 0 <= j < |s3| && j != i && w in s3[i] && InView(bd, i, j)
      ensures Resolved(s3, imm, placeholder, j, w)
    {
      assert w == v;
      if j in row {
        var t :| 0 <= t < |row| && row[t] == j;
        ResolvedStable(s1, s3, imm, placeholder, j, v);
      } else if j in column {
        var t :| 0 <= t < |column| && column[t] == j;
        ResolvedStable(s2, s3, imm, placeholder, j, v);
      } else {
        var t :| 0 <= t < |box| && box[t] == j;
      }
    }
  }

  /** Every solved cell below position p, and every cell solved since `start`, is resolved. */
  ghost predicate SolvedBelowResolved(bd: nat, start: seq<set<char>>, c: seq<set<char>>, imm: seq<bool>,
                                      placeholder: char, p: nat)
    requires bd >= 1 && bd * bd * (bd * bd) == |start| == |c| == |imm|
  {
    forall k :: 0 <= k < |c| && Len(c[k], placeholder) == 1 && (k < p || Len(start[k], placeholder) != 1)
      ==> PeersResolved(bd, c, imm, placeholder, k)
  }

  /** `normalize` visiting cell p: if p is solved its value leaves its view, so position p + 1 is reached. */
  lemma NormalizeStep(bd: nat, start: seq<set<char>>, prev: seq<set<char>>, end: seq<set<char>>, imm: seq<bool>,
                      placeholder: char, p: nat)
    requires bd >= 1 && bd * bd * (bd * bd) == |start| == |prev| == |imm| && p < |prev|
    requires SolvedBelowResolved(bd, start, prev, imm, placeholder, p)
    requires Evolves(start, prev, imm, placeholder) && Evolves(prev, end, imm, placeholder)
    requires NewlySolvedResolved(bd, prev, end, imm, placeholder)
    requires Len(prev[p], placeholder) == 1 ==> PeersResolved(bd, end, imm, placeholder, p)
    ensures SolvedBelowResolved(bd, start, end, imm, placeholder, p + 1)
  {
    forall k | 0 <= k < |end| && Len(end[k], placeholder) == 1 && (k < p + 1 || Len(start[k], placeholder) != 1)
      ensures PeersResolved(bd, end, imm, placeholder, k)
    {
      if Len(prev[k], placeholder) == 1 && k != p {
        PeersResolvedStable(bd, prev, end, imm, placeholder, k);
      }
    }
  }

  /** The view of i is the union of what its three iterators yield. */
  lemma ViewUnion(bd: nat, i: nat, row: seq<nat>, column: seq<nat>, box: seq<nat>)
    requires bd >= 1 && i < bd * bd * (bd * bd)
    requires forall j :: j in row <==> 0 <= j < bd * bd * (bd * bd) && j / (bd * bd) == i / (bd * bd)
    requires forall j :: j in column <==> 0 <= j < bd * bd * (bd * bd) && j % (bd * bd) == i % (bd * bd)
    requires forall j :: j in box <==> 0 <= j < bd * bd * (bd * bd) && BoxOf(bd, j) == BoxOf(bd, i)
    ensures forall j :: InView(bd, i, j) <==> (j in row || j in column || j in box)
  {
  }
}

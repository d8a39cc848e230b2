// Circular contexts. Every cell links to the next cell of its row, column and
// (in a Sudoku) box; the last cell of a context links back to the first. In
// the arena model a link is an index into the grid's cell arrays, and a
// context is a "ring": the indices it visits, in link order.
module Rings {
  import opened Outcome

  /** No index occurs twice. */
  predicate Distinct(s: seq<nat>)
  {
    forall i, j :: 0 <= i < j < |s| ==> s[i] != s[j]
  }

  /** `ring` is a closed circuit of the links `succ`: each element links to the next, the last to the first. */
  ghost predicate IsRing(succ: seq<int>, ring: seq<nat>)
  {
    && |ring| > 0
    && Distinct(ring)
    && (forall k :: 0 <= k < |ring| ==> ring[k] < |succ|)
    && (forall k :: 0 <= k < |ring| - 1 ==> succ[ring[k]] == ring[k + 1])
    && succ[ring[|ring| - 1]] == ring[0]
  }

  /** The same circuit entered at position `k`. */
  function Rotate(ring: seq<nat>, k: nat): (r: seq<nat>)
    requires k < |ring|
    ensures |r| == |ring| && r[0] == ring[k]
    ensures forall j :: 0 <= j < |r| ==> r[j] == ring[if k + j < |ring| then k + j else k + j - |ring|]
    ensures forall x :: x in r <==> x in ring
  {
    ring[k..] + ring[..k]
  }

  /** Entering a circuit anywhere gives a circuit again. */
  lemma {:induction false} RotateRing(succ: seq<int>, ring: seq<nat>, k: nat)
    requires IsRing(succ, ring) && k < |ring|
    ensures IsRing(succ, Rotate(ring, k))
  {
    var r, m := Rotate(ring, k), |ring|;
    forall i, j | 0 <= i < j < m ensures r[i] != r[j] {
      var i' := if k + i < m then k + i else k + i - m;
      var j' := if k + j < m then k + j else k + j - m;
      assert i' != j';
    }
    forall j | 0 <= j < m - 1 ensures succ[r[j]] == r[j + 1] {
      if k + j == m - 1 {
        assert r[j] == ring[m - 1];
      }
    }
    if k > 0 {
      assert r[m - 1] == ring[k - 1];
    }
  }

  /**
   * `CellIterator` with its `RowIterator`/`ColumnIterator`/`BoxIterator`
   * `__next__` (puzzles/puzzle.py, puzzles/sudoku.py): starts at a cell,
   * follows one kind of link and stops before coming back to the start.
   * The iterator kinds differ only in the link they follow, so the link
   * array is a parameter here.
   */
  class ContextIterator {
    const links: array<int>
    const firstCell: nat
    var nextCell: nat
    var stop: bool
    ghost const ring: seq<nat>
    ghost var yielded: seq<nat>

    ghost predicate Valid()
      reads this, links
    {
      && IsRing(links[..], ring) && ring[0] == firstCell
      && |yielded| <= |ring| && yielded == ring[..|yielded|]
      && (stop <==> |yielded| == |ring|)
      && (!stop ==> nextCell == ring[|yielded|])
    }

    constructor (links: array<int>, cell: nat, ghost ring: seq<nat>)
      requires IsRing(links[..], ring) && ring[0] == cell
      ensures Valid() && this.links == links && this.ring == ring && yielded == []
    {
      this.links := links;
      this.ring := ring;
      firstCell, nextCell, stop := cell, cell, false;
      yielded := [];
    }

    /** `__next__`; `None` stands for StopIteration. */
    method Next() returns (cell: Option<nat>)
      requires Valid()
      modifies this`nextCell, this`stop, this`yielded
      ensures Valid()
      ensures old(stop) ==> cell == None && yielded == old(yielded)
      ensures !old(stop) ==> cell == Some(ring[|old(yielded)|]) && yielded == old(yielded) + [cell.value]
    {
      if stop {
        return None;
      }
      var current := nextCell;
      var k := |yielded|;
      assert links[current] == (if k + 1 < |ring| then ring[k + 1] else ring[0]);
      assert links[current] == firstCell <==> k + 1 == |ring| by {
        if k + 1 < |ring| {
          assert ring[k + 1] != ring[0];
        }
      }
      nextCell := links[current];
      if nextCell == firstCell {
        stop := true;
      }
      yielded := yielded + [current];
      cell := Some(current);
    }
  }

  /**
   * A Python `for cell in iterator` loop run to the end: collects the cells
   * the iterator yields, which is the whole circuit from its start.
   */
  method Walk(links: array<int>, start: nat, ghost ring: seq<nat>) returns (cells: seq<nat>)
    requires IsRing(links[..], ring) && ring[0] == start
    ensures cells == ring
  {
    var it := new ContextIterator(links, start, ring);
    cells := [];
    var next := it.Next();
    while next.Some?
      invariant it.Valid() && it.links == links && it.ring == ring
      invariant cells + (if next.Some? then [next.value] else []) == it.yielded
      invariant next.None? ==> it.yielded == ring
      decreases |ring| - |cells|
    {
      cells := cells + [next.value];
      next := it.Next();
    }
  }
}

/**
 The tic-tac-toe board: a 3x3 grid of cells stored row-major as a sequence
 of nine cells, so that the cell at (row, col) lives at index 3 * row + col.
 The original represents a cell by one of the display strings "[ ]", "[X]"
 and "[O]"; here a cell is one of three values (see module Glyphs for the
 correspondence).
 */
module Grid {

  /** A cell: free, the human player's mark, or the computer's mark. */
  datatype Cell = Empty | X | O

  /** A board: exactly nine cells in row-major order. */
  type Board = b: seq<Cell> | |b| == 9
    witness [Empty, Empty, Empty, Empty, Empty, Empty, Empty, Empty, Empty]

  /** A (row, col) coordinate inside the 3x3 grid. */
  predicate InGrid(rc: (int, int)) {
    0 <= rc.0 < 3 && 0 <= rc.1 < 3
  }

  /** The row-major index of a grid coordinate. */
  function Index(rc: (int, int)): (i: nat)
    requires InGrid(rc)
    ensures i < 9
    ensures Position(i) == rc
  {
    3 * rc.0 + rc.1
  }

  /** The grid coordinate of a row-major index. */
  function Position(i: nat): (rc: (int, int))
    requires i < 9
    ensures InGrid(rc)
    ensures 3 * rc.0 + rc.1 == i
  {
    (i / 3, i % 3)
  }

  /** The cell at a grid coordinate. */
  function At(s: Board, rc: (int, int)): Cell
    requires InGrid(rc)
  {
    s[Index(rc)]
  }

  /** Number of free cells. */
  function CountEmpty(s: seq<Cell>): nat {
    multiset(s)[Empty]
  }

  /** No cell is free. */
  predicate Full(s: Board) {
    forall i :: 0 <= i < 9 ==> s[i] != Empty
  }

  /** `a` holds mark `m` at index `p` and nothing anywhere else. */
  predicate IsSingle(a: Board, p: nat, m: Cell) {
    p < 9 && a[p] == m && forall q :: 0 <= q < 9 && q != p ==> a[q] == Empty
  }

  /** The one-mark board holding `m` at index `p`. */
  function Single(p: nat, m: Cell): (a: Board)
    requires p < 9
    ensures IsSingle(a, p, m)
  {
    seq(9, i requires 0 <= i < 9 => if i == p then m else Empty)
  }

  /** A free cell is counted: the board has at least one free cell. */
  lemma EmptyCellCounted(s: Board, i: nat)
    requires i < 9 && s[i] == Empty
    ensures CountEmpty(s) > 0
  {
    assert s[i] in multiset(s);
  }

  /** A board is full exactly when it has no free cell left to count. */
  lemma FullIffNoneCounted(s: Board)
    ensures Full(s) <==> CountEmpty(s) == 0
  {
    if !Full(s) {
      var i :| 0 <= i < 9 && s[i] == Empty;
      EmptyCellCounted(s, i);
    } else {
      assert Empty !in s;
    }
  }
}

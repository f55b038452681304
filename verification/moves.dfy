/**
 Applying a move (TicTacToe.py: result): the board is copied and every
 marked cell of a one-mark action board is written into the copy. The
 model is a pure function, so the caller's board is never changed.
 */
module Moves {
  import opened Grid
  import opened Rules

  /** Merges an action board into a board: marked cells of `a` win,
      everywhere else the board keeps its cell. */
  function Result(s: Board, a: Board): (r: Board)
    ensures forall i :: 0 <= i < 9 && a[i] == Empty ==> r[i] == s[i]
    ensures forall i :: 0 <= i < 9 && a[i] != Empty ==> r[i] == a[i]
  {
    seq(9, i requires 0 <= i < 9 => if a[i] != Empty then a[i] else s[i])
  }

  /** Merging a one-mark board is the single-cell update. */
  lemma ResultOfSingle(s: Board, a: Board, p: nat, m: Cell)
    requires m != Empty && IsSingle(a, p, m)
    ensures Result(s, a) == s[p := m]
  {
    assert forall i :: 0 <= i < 9 ==> Result(s, a)[i] == s[p := m][i];
  }

  /** The board reached by the `k`-th legal move: one free cell fewer
      remains. */
  function Child(s: Board, k: nat): (c: Board)
    requires k < CountEmpty(s)
    ensures CountEmpty(c) == CountEmpty(s) - 1
  {
    var p, m := EmptyCells(s)[k], MarkOf(Player(s));
    ResultOfSingle(s, Actions(s)[k], p, m);
    assert multiset(s[p := m]) == multiset(s) - multiset{Empty} + multiset{m};
    Result(s, Actions(s)[k])
  }

  /** The `k`-th move fills the `k`-th free cell with the mark of the side
      to move and changes nothing else. */
  lemma ChildFillsFreeCell(s: Board, k: nat)
    requires k < CountEmpty(s)
    ensures s[EmptyCells(s)[k]] == Empty
    ensures Child(s, k) == s[EmptyCells(s)[k] := MarkOf(Player(s))]
  {
    ResultOfSingle(s, Actions(s)[k], EmptyCells(s)[k], MarkOf(Player(s)));
  }
}

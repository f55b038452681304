/**
 The computer's move choice (TicTacToe.py: find_best_move). Every free
 cell is tried in row-major order with an O placed on it and scored by the
 pruned search from the root window, with the opponent to move; a cell is
 kept only when it scores strictly better than the best so far, so ties go
 to the earlier cell. With no free cell the answer is (-1, -1). The mark
 placed is O whoever is to move, as in the original.
 */
module BestMove {
  import opened Grid
  import opened Rules
  import opened Search

  /** The score of placing O on free cell `p`. */
  function Score(s: Board, p: nat): (v: int)
    requires p < 9
    ensures -1 <= v <= 1
  {
    Minimax(s[p := O], -100, 100, false)
  }

  /** Scores are exact: the pruned search from the root window gives the
      unpruned minimax value of the board after the move. */
  lemma ScoreIsExact(s: Board, p: nat)
    requires p < 9
    ensures Score(s, p) == Plain(s[p := O], false)
  {
    RootExact(s[p := O], false);
  }

  /** The scores of all nine cells. */
  function Scores(s: Board): (sc: seq<int>)
    ensures |sc| == 9
    ensures forall p :: 0 <= p < 9 ==> sc[p] == Score(s, p)
  {
    seq(9, p requires 0 <= p < 9 => Score(s, p))
  }

  /** `p` is a free cell whose score in `sc` is the best among the free
      cells below `limit`, and no earlier free cell scores as well. */
  predicate FirstBestBelow(s: Board, sc: seq<int>, limit: nat, p: nat)
    requires |sc| == 9 && limit <= 9
  {
    && p < limit && s[p] == Empty
    && (forall q :: 0 <= q < limit && s[q] == Empty ==> sc[q] <= sc[p])
    && (forall q :: 0 <= q < p && s[q] == Empty ==> sc[q] < sc[p])
  }

  /** No free cell below `limit`. */
  predicate NoneFreeBelow(s: Board, limit: nat) {
    forall q :: 0 <= q < limit && q < 9 ==> s[q] != Empty
  }

  /** What the scan has established after looking at the cells below `p`. */
  predicate Scanned(s: Board, sc: seq<int>, p: nat, bestVal: int, bestMove: (int, int))
    requires |sc| == 9 && p <= 9
  {
    || (NoneFreeBelow(s, p) && bestVal == -100 && bestMove == (-1, -1))
    || (InGrid(bestMove) && FirstBestBelow(s, sc, p, Index(bestMove))
        && bestVal == sc[Index(bestMove)] && -100 < bestVal)
  }

  /** The scan from cell `p` on, carrying the best value and move so far:
      it keeps the carried move unless some free cell from `p` on scores
      strictly above the carried value, and then it answers such a cell. */
  function BestFrom(s: Board, sc: seq<int>, p: nat, bestVal: int, bestMove: (int, int)): (r: (int, int))
    requires |sc| == 9 && p <= 9
    ensures r == bestMove
      || (InGrid(r) && p <= Index(r) && s[Index(r)] == Empty && sc[Index(r)] > bestVal)
    decreases 9 - p
  {
    if p == 9 then bestMove
    else if s[p] == Empty && sc[p] > bestVal then
      BestFrom(s, sc, p + 1, sc[p], Position(p))
    else BestFrom(s, sc, p + 1, bestVal, bestMove)
  }

  /** When no free cell from `p` on scores above the carried value, the
      scan keeps the carried move. */
  lemma BestFromKeeps(s: Board, sc: seq<int>, p: nat, bestVal: int, bestMove: (int, int))
    requires |sc| == 9 && p <= 9
    requires forall q :: p <= q < 9 && s[q] == Empty ==> sc[q] <= bestVal
    ensures BestFrom(s, sc, p, bestVal, bestMove) == bestMove
  {
  }

  /** One step of the scan: cell `p` is taken exactly when it is free and
      scores strictly above the best so far. */
  lemma BestFromStep(s: Board, sc: seq<int>, p: nat, bestVal: int, bestMove: (int, int))
    requires |sc| == 9 && p < 9
    ensures BestFrom(s, sc, p, bestVal, bestMove)
      == if s[p] == Empty && sc[p] > bestVal then BestFrom(s, sc, p + 1, sc[p], Position(p))
         else BestFrom(s, sc, p + 1, bestVal, bestMove)
  {
  }

  /** Taking cell `p` as the new best keeps what the scan has established. */
  lemma ScanTake(s: Board, sc: seq<int>, p: nat, bestVal: int, bestMove: (int, int))
    requires |sc| == 9 && p < 9
    requires Scanned(s, sc, p, bestVal, bestMove)
    requires s[p] == Empty && sc[p] > bestVal
    ensures Scanned(s, sc, p + 1, sc[p], Position(p))
  {
    assert Index(Position(p)) == p;
    assert FirstBestBelow(s, sc, p + 1, p);
  }

  /** Passing over cell `p` keeps what the scan has established. */
  lemma ScanSkip(s: Board, sc: seq<int>, p: nat, bestVal: int, bestMove: (int, int))
    requires |sc| == 9 && p < 9
    requires Scanned(s, sc, p, bestVal, bestMove)
    requires !(s[p] == Empty && sc[p] > bestVal)
    requires forall q :: 0 <= q < 9 ==> -100 < sc[q]
    ensures Scanned(s, sc, p + 1, bestVal, bestMove)
  {
    if s[p] == Empty {
      assert InGrid(bestMove) && FirstBestBelow(s, sc, p + 1, Index(bestMove));
    } else if NoneFreeBelow(s, p) && bestVal == -100 && bestMove == (-1, -1) {
      assert NoneFreeBelow(s, p + 1);
    } else {
      assert InGrid(bestMove) && FirstBestBelow(s, sc, p + 1, Index(bestMove));
    }
  }

  /** The scan from `p` on ends with the first best free cell, or with
      (-1, -1) when there is none. */
  lemma {:induction false} BestFromScans(s: Board, sc: seq<int>, p: nat, bestVal: int, bestMove: (int, int))
    requires |sc| == 9 && p <= 9
    requires forall q :: 0 <= q < 9 ==> -100 < sc[q]
    requires Scanned(s, sc, p, bestVal, bestMove)
    ensures var r := BestFrom(s, sc, p, bestVal, bestMove);
      (NoneFreeBelow(s, 9) && r == (-1, -1)) || (InGrid(r) && FirstBestBelow(s, sc, 9, Index(r)))
    decreases 9 - p
  {
    if p < 9 {
      if s[p] == Empty && sc[p] > bestVal {
        ScanTake(s, sc, p, bestVal, bestMove);
        BestFromScans(s, sc, p + 1, sc[p], Position(p));
      } else {
        ScanSkip(s, sc, p, bestVal, bestMove);
        BestFromScans(s, sc, p + 1, bestVal, bestMove);
      }
    }
  }

  /** The computer's move: (-1, -1) on a full board, otherwise the first
      free cell in row-major order whose score is maximal. */
  function FindBestMove(s: Board): (move: (int, int))
    ensures Full(s) ==> move == (-1, -1)
    ensures !Full(s) ==> InGrid(move) && FirstBestBelow(s, Scores(s), 9, Index(move))
  {
    var sc := Scores(s);
    BestFromScans(s, sc, 0, -100, (-1, -1));
    BestFrom(s, sc, 0, -100, (-1, -1))
  }

  /** At most one cell is the first best, so the contract of FindBestMove
      fixes its answer. */
  lemma FirstBestUnique(s: Board, sc: seq<int>, p: nat, q: nat)
    requires |sc| == 9
    requires FirstBestBelow(s, sc, 9, p) && FirstBestBelow(s, sc, 9, q)
    ensures p == q
  {
  }

  /** Places O on free cell `p`, scores the board, and clears the cell
      again. */
  method TryCell(state: array<Cell>, p: nat) returns (moveVal: int)
    requires state.Length == 9 && p < 9 && state[p] == Empty
    modifies state
    ensures state[..] == old(state[..])
    ensures moveVal == Score(old(state[..]), p)
  {
    ghost var s: Board := state[..];
    state[p] := O;
    assert state[..] == s[p := O];
    moveVal := Minimax(state[..], -100, 100, false);
    state[p] := Empty;
    assert state[..] == s;
  }

  /** One iteration of the original's inner loop: cell (i, j) is tried when
      it is free and kept when it scores strictly better; the scan from it
      on answers what the scan from the next cell answers. */
  method ScanCell(state: array<Cell>, ghost s: Board, ghost sc: seq<int>, i: nat, j: nat,
                  bestVal: int, move: (int, int))
    returns (bestVal': int, move': (int, int))
    requires state.Length == 9 && state[..] == s && sc == Scores(s) && i < 3 && j < 3
    modifies state
    ensures state[..] == s
    ensures BestFrom(s, sc, 3 * i + j + 1, bestVal', move') == BestFrom(s, sc, 3 * i + j, bestVal, move)
  {
    var p := Index((i, j));
    BestFromStep(s, sc, p, bestVal, move);
    bestVal', move' := bestVal, move;
    if state[p] == Empty {
      var moveVal := TryCell(state, p);
      if moveVal > bestVal {
        move' := (i, j);
        bestVal' := moveVal;
      }
    }
  }

  /** The original's place-then-undo scan on the caller's board: the board
      is the same on exit and the move is the one FindBestMove picks. */
  method FindBestMoveInPlace(state: array<Cell>) returns (move: (int, int))
    requires state.Length == 9
    modifies state
    ensures state[..] == old(state[..])
    ensures move == FindBestMove(old(state[..]))
  {
    ghost var s: Board := state[..];
    ghost var sc := Scores(s);
    ghost var goal := BestFrom(s, sc, 0, -100, (-1, -1));
    var bestVal := -100;
    move := (-1, -1);
    var i := 0;
    while i < 3
      invariant 0 <= i <= 3
      invariant state[..] == s
      invariant BestFrom(s, sc, 3 * i, bestVal, move) == goal
    {
      var j := 0;
      while j < 3
        invariant 0 <= j <= 3
        invariant state[..] == s
        invariant BestFrom(s, sc, 3 * i + j, bestVal, move) == goal
      {
        bestVal, move := ScanCell(state, s, sc, i, j, bestVal, move);
        j := j + 1;
      }
      i := i + 1;
    }
  }
}

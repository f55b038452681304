/**
 The rules of the game: the eight winning lines, game-over detection,
 scoring a finished board, whose turn it is, and the legal moves
 (TicTacToe.py: condense, terminal, value, player, actions).
 */
module Rules {
  import opened Grid

  /** The coordinates of the eight lines in the order the original lists
      them: the three rows, the three columns, the anti-diagonal and the
      main diagonal. */
  const Lines: seq<seq<(int, int)>> := [
    [(0, 0), (0, 1), (0, 2)],
    [(1, 0), (1, 1), (1, 2)],
    [(2, 0), (2, 1), (2, 2)],
    [(0, 0), (1, 0), (2, 0)],
    [(0, 1), (1, 1), (2, 1)],
    [(0, 2), (1, 2), (2, 2)],
    [(0, 2), (1, 1), (2, 0)],
    [(0, 0), (1, 1), (2, 2)]
  ]

  /** The lines are three grid cells each: the rows first, then the
      columns. */
  lemma LinesInGrid()
    ensures |Lines| == 8
    ensures forall k :: 0 <= k < 8 ==> |Lines[k]| == 3
    ensures forall k, j :: 0 <= k < 8 && 0 <= j < 3 ==> InGrid(Lines[k][j])
    ensures forall r, c :: 0 <= r < 3 && 0 <= c < 3 ==> Lines[r][c] == (r, c)
    ensures forall k, r :: 3 <= k < 6 && 0 <= r < 3 ==> Lines[k][r] == (r, k - 3)
  {
    forall r, c | 0 <= r < 3 && 0 <= c < 3 ensures Lines[r][c] == (r, c) {
      assert Lines[r] == [(r, 0), (r, 1), (r, 2)];
    }
    forall k, r | 3 <= k < 6 && 0 <= r < 3 ensures Lines[k][r] == (r, k - 3) {
      assert Lines[k] == [(0, k - 3), (1, k - 3), (2, k - 3)];
    }
  }

  /** `lines` holds, for every listed line, the cells of `s` it covers. */
  predicate CellsOfLines(s: Board, lines: seq<seq<Cell>>) {
    LinesInGrid();
    && |lines| == 8
    && (forall k :: 0 <= k < 8 ==> |lines[k]| == 3)
    && (forall k, j :: 0 <= k < 8 && 0 <= j < 3 ==> lines[k][j] == At(s, Lines[k][j]))
  }

  /** The rows and columns among the cells of the lines. */
  lemma RowsAndColumns(s: Board, lines: seq<seq<Cell>>)
    requires CellsOfLines(s, lines)
    ensures forall r, c :: 0 <= r < 3 && 0 <= c < 3 ==> lines[r][c] == s[3 * r + c]
    ensures forall k, r :: 3 <= k < 6 && 0 <= r < 3 ==> lines[k][r] == s[3 * r + k - 3]
  {
    LinesInGrid();
  }

  /** The diagonals among the cells of the lines. */
  lemma Diagonals(s: Board, lines: seq<seq<Cell>>)
    requires CellsOfLines(s, lines)
    ensures lines[6] == [s[2], s[4], s[6]] && lines[7] == [s[0], s[4], s[8]]
  {
    assert lines[6][0] == At(s, (0, 2)) && lines[6][1] == At(s, (1, 1)) && lines[6][2] == At(s, (2, 0));
    assert lines[7][0] == At(s, (0, 0)) && lines[7][1] == At(s, (1, 1)) && lines[7][2] == At(s, (2, 2));
  }

  /** The cells of every line, as three-cell sequences: the three rows, the
      three columns, the anti-diagonal and the main diagonal. */
  function Condense(s: Board): (lines: seq<seq<Cell>>)
    ensures |lines| == 8
    ensures forall k :: 0 <= k < 8 ==> |lines[k]| == 3
    ensures forall r, c :: 0 <= r < 3 && 0 <= c < 3 ==> lines[r][c] == s[3 * r + c]
    ensures forall k, r :: 3 <= k < 6 && 0 <= r < 3 ==> lines[k][r] == s[3 * r + k - 3]
    ensures lines[6] == [s[2], s[4], s[6]] && lines[7] == [s[0], s[4], s[8]]
  {
    LinesInGrid();
    var lines := seq(8, k requires 0 <= k < 8 =>
      seq(3, j requires 0 <= j < 3 => At(s, Lines[k][j])));
    RowsAndColumns(s, lines);
    Diagonals(s, lines);
    lines
  }

  // ---------------------------------------------------------------------
  // The eight lines are exactly the straight three-in-a-rows of the grid.

  /** The four directions a line can run in, read from its first cell. */
  predicate IsStep(d: (int, int)) {
    d == (0, 1) || d == (1, 0) || d == (1, -1) || d == (1, 1)
  }

  /** Three cells starting at `start`, each one step `d` from the last. */
  function Ray(start: (int, int), d: (int, int)): seq<(int, int)> {
    [start, (start.0 + d.0, start.1 + d.1), (start.0 + 2 * d.0, start.1 + 2 * d.1)]
  }

  /** `t` is a straight run of three grid cells. */
  predicate IsRay(t: seq<(int, int)>) {
    |t| == 3 && InGrid(t[0]) && InGrid(t[2]) &&
    var d := (t[1].0 - t[0].0, t[1].1 - t[0].1);
    IsStep(d) && t == Ray(t[0], d)
  }

  /** Every listed line is a straight run of three cells, and every straight
      run of three cells inside the grid is listed. */
  lemma {:induction false} LinesAreStraight()
    ensures forall k :: 0 <= k < |Lines| ==> IsRay(Lines[k])
    ensures forall start, d ::
      InGrid(start) && IsStep(d) && InGrid(Ray(start, d)[2]) ==> Ray(start, d) in Lines
  {
    forall start, d | InGrid(start) && IsStep(d) && InGrid(Ray(start, d)[2])
      ensures Ray(start, d) in Lines
    {
      var (r, c) := start;
      if d == (0, 1) {
        assert c == 0;
        assert Ray(start, d) == Lines[r];
      } else if d == (1, 0) {
        assert r == 0;
        assert Ray(start, d) == Lines[3 + c];
      } else if d == (1, -1) {
        assert r == 0 && c == 2;
        assert Ray(start, d) == Lines[6];
      } else {
        assert r == 0 && c == 0;
        assert Ray(start, d) == Lines[7];
      }
    }
  }

  /** The first three lines are the rows, so every cell sits on a line. */
  lemma RowsCoverBoard(s: Board, i: nat)
    requires i < 9
    ensures Condense(s)[i / 3][i % 3] == s[i]
  {
    assert Lines[i / 3][i % 3] == Position(i);
  }

  /** No line holds a free cell exactly when the board is full. */
  lemma FullByLines(s: Board)
    ensures (forall k :: 0 <= k < 8 ==> Empty !in Condense(s)[k]) <==> Full(s)
  {
    var lines := Condense(s);
    if forall k :: 0 <= k < 8 ==> Empty !in lines[k] {
      forall i | 0 <= i < 9 ensures s[i] != Empty {
        RowsCoverBoard(s, i);
        assert lines[i / 3][i % 3] in lines[i / 3];
      }
    }
  }

  // ---------------------------------------------------------------------
  // terminal and value

  /** Some line is entirely mark `m`. */
  predicate Wins(s: Board, m: Cell) {
    [m, m, m] in Condense(s)
  }

  /** The game is over: some line is all O or all X, or no cell is free.
      As in the original, "full" is computed line by line. */
  function Terminal(s: Board): (over: bool)
    ensures over <==> Wins(s, O) || Wins(s, X) || Full(s)
  {
    var lines := Condense(s);
    var full := forall k :: 0 <= k < 8 ==> Empty !in lines[k];
    FullByLines(s);
    (exists k :: 0 <= k < 8 && (lines[k] == [O, O, O] || lines[k] == [X, X, X])) || full
  }

  /** The value of a board, or the error the original raises when the board
      is not terminal. */
  datatype Evaluation = Scored(score: int) | StateNotTerminal

  /** 1 for a computer win, -1 for a player win, 0 for a draw; an O line is
      looked for before an X line. */
  function Value(s: Board): (r: Evaluation)
    ensures r == StateNotTerminal <==> !Wins(s, O) && !Wins(s, X) && !Full(s)
    ensures r == Scored(1) <==> Wins(s, O)
    ensures r == Scored(-1) <==> !Wins(s, O) && Wins(s, X)
    ensures r == Scored(0) <==> !Wins(s, O) && !Wins(s, X) && Full(s)
  {
    if !Terminal(s) then StateNotTerminal
    else
      var lines := Condense(s);
      if [O, O, O] in lines then Scored(1)
      else if [X, X, X] in lines then Scored(-1)
      else Scored(0)
  }

  // ---------------------------------------------------------------------
  // player

  /** Whose turn it is. */
  datatype Turn = PlayerTurn | CpuTurn

  /** The mark a side places: the computer plays O, the human X. */
  function MarkOf(t: Turn): (m: Cell)
    ensures m != Empty
  {
    if t == CpuTurn then O else X
  }

  /** Counts the occupied cells one by one. */
  function CountMarks(s: seq<Cell>): (n: nat)
    ensures n + CountEmpty(s) == |s|
  {
    if |s| == 0 then 0
    else
      assert s == [s[0]] + s[1..];
      (if s[0] != Empty then 1 else 0) + CountMarks(s[1..])
  }

  /** The computer moves when an odd number of cells is occupied, the
      player when an even number is. */
  function Player(s: Board): (t: Turn)
    ensures t == CpuTurn <==> (9 - CountEmpty(s)) % 2 == 1
  {
    if CountMarks(s) % 2 == 1 then CpuTurn else PlayerTurn
  }

  // ---------------------------------------------------------------------
  // actions

  /** `ps` is strictly increasing. */
  predicate Increasing(ps: seq<nat>) {
    forall k, k' :: 0 <= k < k' < |ps| ==> ps[k] < ps[k']
  }

  /** Every entry of `ps` is a free cell at index `i` or later. */
  predicate FreeFrom(s: Board, ps: seq<nat>, i: nat) {
    forall k :: 0 <= k < |ps| ==> i <= ps[k] < 9 && s[ps[k]] == Empty
  }

  /** Every free cell at index `i` or later is in `ps`. */
  predicate CoversFrom(s: Board, ps: seq<nat>, i: nat) {
    forall p :: i <= p < 9 && s[p] == Empty ==> p in ps
  }

  /** Putting free cell `i` in front of the free cells after it. */
  lemma PrependFree(s: Board, i: nat, rest: seq<nat>)
    requires i < 9 && s[i] == Empty
    requires Increasing(rest) && FreeFrom(s, rest, i + 1) && CoversFrom(s, rest, i + 1)
    ensures Increasing([i] + rest) && FreeFrom(s, [i] + rest, i) && CoversFrom(s, [i] + rest, i)
  {
    var ps := [i] + rest;
    assert forall k :: 1 <= k < |ps| ==> ps[k] == rest[k - 1];
  }

  /** Skipping occupied cell `i`. */
  lemma SkipMarked(s: Board, i: nat, rest: seq<nat>)
    requires i < 9 && s[i] != Empty
    requires FreeFrom(s, rest, i + 1) && CoversFrom(s, rest, i + 1)
    ensures FreeFrom(s, rest, i) && CoversFrom(s, rest, i)
  {
  }

  /** The free cells at index `i` or later, in increasing order. */
  function EmptyFrom(s: Board, i: nat): (ps: seq<nat>)
    requires i <= 9
    ensures |ps| == CountEmpty(s[i..])
    ensures Increasing(ps) && FreeFrom(s, ps, i) && CoversFrom(s, ps, i)
    decreases 9 - i
  {
    if i == 9 then []
    else
      var rest := EmptyFrom(s, i + 1);
      assert s[i..] == [s[i]] + s[i + 1..];
      assert multiset(s[i..]) == multiset{s[i]} + multiset(s[i + 1..]);
      if s[i] == Empty then
        PrependFree(s, i, rest);
        [i] + rest
      else
        SkipMarked(s, i, rest);
        rest
  }

  /** The free cells of the board in row-major order. */
  function EmptyCells(s: Board): (ps: seq<nat>)
    ensures |ps| == CountEmpty(s)
    ensures forall k :: 0 <= k < |ps| ==> ps[k] < 9 && s[ps[k]] == Empty
    ensures forall k, k' :: 0 <= k < k' < |ps| ==> ps[k] < ps[k']
    ensures forall p :: 0 <= p < 9 && s[p] == Empty ==> p in ps
  {
    assert s[0..] == s;
    EmptyFrom(s, 0)
  }

  /** One one-mark board per index of `ps`, in the same order. */
  function Singles(ps: seq<nat>, m: Cell): (acts: seq<Board>)
    requires forall k :: 0 <= k < |ps| ==> ps[k] < 9
    ensures |acts| == |ps|
    ensures forall k :: 0 <= k < |ps| ==> IsSingle(acts[k], ps[k], m)
  {
    if |ps| == 0 then [] else [Single(ps[0], m)] + Singles(ps[1..], m)
  }

  /** One one-mark action board per free cell, in row-major order, each
      carrying the mark of the side to move. */
  function Actions(s: Board): (acts: seq<Board>)
    ensures |acts| == CountEmpty(s)
    ensures forall k :: 0 <= k < |acts| ==> IsSingle(acts[k], EmptyCells(s)[k], MarkOf(Player(s)))
  {
    Singles(EmptyCells(s), MarkOf(Player(s)))
  }

  /** A one-mark board with a real mark names its cell uniquely. */
  lemma SingleUnique(a: Board, p: nat, q: nat, m: Cell)
    requires m != Empty && IsSingle(a, p, m) && IsSingle(a, q, m)
    ensures p == q
  {
  }

  /** The actions are exactly the free cells, each once, in row-major
      order, each marked for the side to move. */
  lemma ActionsAreFreeCells(s: Board)
    ensures forall p :: 0 <= p < 9 ==>
      (s[p] == Empty <==>
       exists k :: 0 <= k < |Actions(s)| && IsSingle(Actions(s)[k], p, MarkOf(Player(s))))
    ensures forall k, k', p, p' ::
      (0 <= k < k' < |Actions(s)| &&
       IsSingle(Actions(s)[k], p, MarkOf(Player(s))) &&
       IsSingle(Actions(s)[k'], p', MarkOf(Player(s)))) ==> p < p'
  {
    var acts, ps, m := Actions(s), EmptyCells(s), MarkOf(Player(s));
    forall p | 0 <= p < 9
      ensures s[p] == Empty <==> exists k :: 0 <= k < |acts| && IsSingle(acts[k], p, m)
    {
      if s[p] == Empty {
        var k :| 0 <= k < |ps| && ps[k] == p;
        assert IsSingle(acts[k], p, m);
      }
      if exists k :: 0 <= k < |acts| && IsSingle(acts[k], p, m) {
        var k :| 0 <= k < |acts| && IsSingle(acts[k], p, m);
        SingleUnique(acts[k], p, ps[k], m);
      }
    }
    forall k, k', p, p' |
      0 <= k < k' < |acts| && IsSingle(acts[k], p, m) && IsSingle(acts[k'], p', m)
      ensures p < p'
    {
      SingleUnique(acts[k], p, ps[k], m);
      SingleUnique(acts[k'], p', ps[k'], m);
    }
  }

  /** A board with every cell free is where a game starts: it is not over,
      the human player moves first, and every one of the nine cells is a
      move. */
  lemma OpeningPosition(s: Board)
    requires forall i :: 0 <= i < 9 ==> s[i] == Empty
    ensures !Terminal(s)
    ensures Player(s) == PlayerTurn
    ensures |Actions(s)| == 9
  {
    AllEmptyCounted(s);
    var lines := Condense(s);
    forall k | 0 <= k < 8 ensures lines[k][0] == Empty {
      LinesInGrid();
      assert lines[k][0] == s[Index(Lines[k][0])];
    }
  }

  /** A run of free cells is counted in full. */
  lemma {:induction false} AllEmptyCounted(s: seq<Cell>)
    requires forall i :: 0 <= i < |s| ==> s[i] == Empty
    ensures CountEmpty(s) == |s|
  {
    if |s| > 0 {
      assert s == [s[0]] + s[1..];
      assert multiset(s) == multiset{s[0]} + multiset(s[1..]);
      AllEmptyCounted(s[1..]);
    }
  }

  /** A board that is not over still has a move. */
  lemma OngoingHasAction(s: Board)
    requires !Terminal(s)
    ensures |Actions(s)| > 0
  {
    FullIffNoneCounted(s);
  }
}

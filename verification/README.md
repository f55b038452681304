# Tic-tac-toe engine: a Dafny model

This project models the game engine of a console tic-tac-toe program (`TicTacToe.py`). A human plays X against a computer that plays O. The computer picks its move with minimax search and alpha-beta pruning.

The model covers these parts of the engine:
- the board and its eight winning lines (`condense`);
- game-over detection (`terminal`) and scoring of a finished board (`value`);
- whose turn it is (`player`);
- the legal moves (`actions`) and how a move is applied (`result`);
- the pruned search (`minimax`);
- the computer's move choice (`find_best_move`);
- the mapping between console positions 1..9 and grid coordinates (`convert`, `revert`).

Modules:
- `Grid` (grid.dfy): cells, the nine-cell row-major board, coordinates.
- `Rules` (rules.dfy): the lines, terminal, value, player, actions.
- `Moves` (moves.dfy): result, and the child board reached by the k-th action.
- `Search` (search.dfy):
  - the pruned search;
  - an unpruned minimax over the same tree (`Plain`), used as the reference;
  - the proof that pruning is fail-soft and exact at the root window (-100, 100).
- `BestMove` (bestmove.dfy):
  - find_best_move as a pure function with a declarative contract;
  - the original's place-then-undo loop on an array, proved to return the same move and restore the board.
- `Coords` (coords.dfy): convert and revert.
- `Glyphs` (glyphs.dfy): the original stores cells as the strings "[ ]", "[X]" and "[O]" and decides the game with string tests. This module models those tests as written and proves they agree with the cell tests used everywhere else.

The main results are:
- `Search.RootExact`: the pruned search from the root window returns the unpruned minimax value.
- `BestMove.FindBestMove`: the move is the first free cell, in row-major order, with the maximal score. On a full board it is (-1, -1).
- `Glyphs.TerminalAsWritten` and `Glyphs.ValueAsWritten`: the string-level `terminal` and `value` equal the cell-level ones.

Facts about the code that the model keeps:
- On a full board, `find_best_move` returns (-1, -1).
- The root window is the finite (-100, 100). All game values lie in -1..1, and `Search.FailSoft` holds for any window with alpha < beta.
- The row of `convert` is written as the exact floor of 10n/31, which equals the floating-point formula `int(n // 3.1)` on 1..9; see `Coords.RowFormula` and the finding below.
- `find_best_move` places O whoever is to move.

## Model

| member | source | states |
|---|---|---|
| Rules.Condense | TicTacToe.py:37-61 | eight lines of three cells: lines 0-2 are the rows, lines 3-5 the columns, line 6 the anti-diagonal (cells 2, 4, 6) and line 7 the diagonal (cells 0, 4, 8) |
| Rules.LinesAreStraight | TicTacToe.py:37-61 | the eight condensed lines are straight runs of three grid cells, and every straight run of three cells in the grid is one of them |
| Rules.RowsCoverBoard | TicTacToe.py:46-50 | the first three condensed lines are the rows, so cell i is item i%3 of line i/3 |
| Rules.FullByLines | TicTacToe.py:71 | no condensed line holds a free cell exactly when no cell of the board is free |
| Rules.Terminal | TicTacToe.py:64-77 | the game is over exactly when some line is all O, some line is all X, or the board is full |
| Rules.Value | TicTacToe.py:80-96 | error exactly on a board that is not over; 1 exactly when an O line exists; -1 exactly when an X line exists and no O line; 0 exactly on a full board with no winning line |
| Rules.CountMarks | TicTacToe.py:105-109 | the occupied cells counted one by one plus the free cells make up the board |
| Rules.Player | TicTacToe.py:99-111 | the computer is to move exactly when the number of marks is odd |
| Rules.EmptyCells | TicTacToe.py:121-126 | the free cells, each once, strictly increasing in row-major order, and no free cell missing |
| Rules.EmptyFrom | TicTacToe.py:123-126 | the free cells from index i on: as many as the free cells of that suffix, strictly increasing, all free, none missing |
| Rules.Actions | TicTacToe.py:114-132 | one action per free cell; the k-th holds the mover's mark on the k-th free cell and nothing elsewhere |
| Rules.ActionsAreFreeCells | TicTacToe.py:114-132 | a cell has an action exactly when it is free, and actions appear in row-major order of their cells |
| Rules.OpeningPosition | TicTacToe.py:4-6 | on the all-free starting board the game is not over, X (the human) is to move, and there are nine actions |
| Rules.OngoingHasAction | TicTacToe.py:161-166 | a board that is not over has at least one action |
| Moves.Result | TicTacToe.py:135-148 | the merged board takes every mark of the action board and keeps the state's cell wherever the action board is free |
| Moves.ResultOfSingle | TicTacToe.py:142-148 | merging a one-mark action board is the single-cell update of the state |
| Moves.Child | TicTacToe.py:166-167 | the board after the k-th move has one free cell fewer, so the search terminates |
| Moves.ChildFillsFreeCell | TicTacToe.py:166-167 | the k-th move fills the k-th free cell with the mark of the side to move and changes nothing else |
| Search.Minimax | TicTacToe.py:151-182 | the search terminates, with the number of free cells as the bound, and returns a value in -1..1 |
| Search.MaxLoop | TicTacToe.py:164-172 | the maximising loop returns at least the running best and at most max(best, 1); with a child left it is at least -1 |
| Search.MinLoop | TicTacToe.py:174-182 | the minimising loop returns at most the running best and at least min(best, -1); with a child left it is at most 1 |
| Search.MaxStep | TicTacToe.py:167-171 | a fail-soft child result either keeps the maximising loop's invariant or cuts off with a fail high above the true value |
| Search.MinStep | TicTacToe.py:177-181 | a fail-soft child result either keeps the minimising loop's invariant or cuts off with a fail low below the true value |
| Search.MaxLoopFailSoft | TicTacToe.py:164-172 | the maximising loop, pruned, is fail-soft with respect to the unpruned maximum over the same children |
| Search.MaxCutFailSoft | TicTacToe.py:167-171 | when a child fails high the loop breaks, and its value is a lower bound of the unpruned maximum |
| Search.MaxGoOnFailSoft | TicTacToe.py:167-171 | when a child stays below beta the loop goes on with the raised alpha and keeps the guarantee |
| Search.MinLoopFailSoft | TicTacToe.py:174-182 | the minimising loop, pruned, is fail-soft with respect to the unpruned minimum over the same children |
| Search.MinCutFailSoft | TicTacToe.py:177-181 | when a child fails low the loop breaks, and its value is an upper bound of the unpruned minimum |
| Search.MinGoOnFailSoft | TicTacToe.py:177-181 | when a child stays above alpha the loop goes on with the lowered beta and keeps the guarantee |
| Search.FailSoft | TicTacToe.py:151-182 | for any window alpha < beta the pruned value bounds the unpruned minimax value from above on a fail low, from below on a fail high, and equals it inside the window |
| Search.RootExact | TicTacToe.py:200 | with the root window (-100, 100) the pruned search returns exactly the unpruned minimax value |
| BestMove.Score | TicTacToe.py:197-200 | the score of placing O on a cell is a game value in -1..1 |
| BestMove.ScoreIsExact | TicTacToe.py:197-200 | that score is the unpruned minimax value of the board after the move, with the opponent to move |
| BestMove.BestFrom | TicTacToe.py:195-208 | the scan from a cell on returns either the carried move or a later free cell that scores strictly above the carried value |
| BestMove.BestFromKeeps | TicTacToe.py:204-206 | when no free cell from a given cell on scores above the carried value, the scan returns the carried move |
| BestMove.BestFromStep | TicTacToe.py:196-206 | one scan step takes the cell as the new best exactly when it is free and scores strictly above the best so far |
| BestMove.ScanTake | TicTacToe.py:204-206 | a free cell scoring strictly above the best so far becomes the first best among the cells scanned |
| BestMove.ScanSkip | TicTacToe.py:195-206 | a cell that is taken, or does not score strictly better, leaves the first best among the cells scanned unchanged |
| BestMove.BestFromScans | TicTacToe.py:195-208 | the scan ends with the first best free cell, or with (-1, -1) when no cell is free |
| BestMove.FindBestMove | TicTacToe.py:185-208 | on a full board (-1, -1); otherwise a free cell whose score is maximal among the free cells, with every earlier free cell scoring strictly less |
| BestMove.FirstBestUnique | TicTacToe.py:204-206 | at most one cell is the first best, so ties go to the earliest cell in row-major order |
| BestMove.TryCell | TicTacToe.py:197-202 | placing O, scoring and clearing again leaves the board as it was and yields that cell's score |
| BestMove.ScanCell | TicTacToe.py:196-206 | one pass of the inner loop restores the board and carries the scan's answer on to the next cell |
| BestMove.FindBestMoveInPlace | TicTacToe.py:185-208 | the in-place loop over rows and columns restores the board and returns the move FindBestMove specifies |
| Coords.Revert | TicTacToe.py:223-230 | every grid coordinate maps to a position in 1..9 |
| Coords.Convert | TicTacToe.py:211-220 | every position in 1..9 maps to a grid coordinate that Revert maps back to that position |
| Coords.RowFormula | TicTacToe.py:218 | on 1..9 the row int(n // 3.1) is (n-1)/3, and convert gives ((n-1)/3, (n-1)%3) |
| Coords.ConvertRevert | TicTacToe.py:211-230 | every grid coordinate survives revert then convert |
| Coords.PyCell | TicTacToe.py:258 | Python's two-level board indexing: an index pair in -3..2 reaches a grid cell (the cell itself when already in the grid, otherwise the one with the same index modulo 3); any other pair raises an error |
| Coords.OutOfRangeInputs | TicTacToe.py:218-219 | convert accepts 0 and returns the grid cell of position 3; -1 gives (-1, 1), which indexing reads as the cell of position 8; 10 gives (3, 0), where indexing fails |
| Coords.NonPositiveInputsReachBoard | TicTacToe.py:218-219 | every input from -9 to 0 is converted to an index pair that the board indexing accepts, so none of them is refused |
| Coords.ParsePosition | TicTacToe.py:211-220 | the intended reading accepts exactly 1..9, each onto the grid coordinate of that position |
| Coords.ParseRevert | TicTacToe.py:211-230 | the position of every grid coordinate is accepted and parsed back to that coordinate |
| Glyphs.FreeGlyphIffFreeCell | TicTacToe.py:71 | "[ ]" occurs in a line's string exactly when a cell of the line is free |
| Glyphs.RenderInjective | TicTacToe.py:4-6 | two runs of cells have the same display string exactly when they are equal |
| Glyphs.WinStringIffWinLine | TicTacToe.py:91-94 | a line's string is "[O][O][O]" (or "[X][X][X]") exactly when the line is three O (or three X) |
| Glyphs.LineStrings | TicTacToe.py:37-61 | the condensed lines as display strings: eight strings of nine characters, character j of line k being character j%3 of the glyph of that line's cell j/3 |
| Glyphs.LineStringsFree | TicTacToe.py:71 | "[ ]" occurs in a line's string exactly when that condensed line has a free cell |
| Glyphs.WinString | TicTacToe.py:91-94 | the literal "[O][O][O]" (or "[X][X][X]") is among the line strings exactly when O (or X) has a full line |
| Glyphs.TerminalAsWritten | TicTacToe.py:64-77 | terminal computed on the strings, as written, is true exactly when the cell-level Terminal is |
| Glyphs.ValueAsWritten | TicTacToe.py:80-96 | value computed on the strings, as written, equals the cell-level Value, error case included |

## Left out

- print_board, clear_board, play and the interactive driver loop: console input and output, the global board, and `time.sleep`. They have no game logic beyond the modelled functions.
- The `depth` parameter of minimax: it is passed down and never read.
- `deepcopy` in result: the model is pure, so the caller's board is never shared.
- The error itself: `value` raises a string, which in Python 3 fails with a TypeError. The model returns `StateNotTerminal` instead, and Minimax never reaches that case.
- Concrete game outcomes, such as the value of the empty board or blocking a two-in-a-row: they need the whole search tree to be evaluated, which is too costly for the verifier. The model proves the general properties instead.
- Rules.Player: the marks are counted as written. Nothing checks that the board has a legal balance of X and O.
- Coords.Convert: the row is the exact floor of 10n/31, while Python computes `n // 3.1` in binary floating point. The two agree on 1..9. They differ at positive multiples of 31: `31 // 3.1` is 9.0 in Python, while the model gives 10. No negative input from -2000 to 0 is known to differ, and inputs beyond float precision are not modelled.

## Findings

| source | as written | input that shows it | evidently intended | confidence | as-written member | corrected member |
|---|---|---|---|---|---|---|
| TicTacToe.py:211-220 | convert maps any integer to a coordinate without a range check, and the driver (TicTacToe.py:253-259) checks only that the cell is free | 0 gives (0, 2), so entering 0 plays position 3; -1 gives (-1, 1), and `board[-1][1]` is cell (2, 1), so entering -1 plays position 8; 10 gives (3, 0), and `board[3]` raises an IndexError that the driver does not catch (its `except ValueError` at TicTacToe.py:254 covers only the reading of the number), so the program stops | positions outside 1..9 are rejected, as the prompt "Place 'X' on a cell from 1-9" says | medium, not executed | Coords.OutOfRangeInputs | Coords.ParsePosition |

/**
 The mapping between the console's positions 1..9 (row-major) and grid
 coordinates (TicTacToe.py: convert, revert). The original computes the
 row as int(n // 3.1) in floating point. For an integer n the exact
 quotient n / 3.1 is 10 * n / 31, and Python's floor division by a
 positive number is the floor, as is Dafny's `/` by a positive divisor,
 so the row is written here as (10 * n) / 31. Python's `n % 3` is also
 the non-negative remainder, like Dafny's `%`.
 */
module Coords {
  import opened Grid

  /** Grid coordinate to console position. */
  function Revert(rc: (int, int)): (n: int)
    ensures InGrid(rc) ==> 1 <= n <= 9
  {
    rc.0 * 3 + 1 + rc.1
  }

  /** Console position to grid coordinate, as the original computes it for
      any integer: positions 1..9 land in the grid and map back to the
      position they came from. */
  function Convert(n: int): (rc: (int, int))
    ensures 1 <= n <= 9 ==> InGrid(rc) && Revert(rc) == n
  {
    ((10 * n) / 31, if n % 3 != 0 then n % 3 - 1 else 2)
  }

  /** On 1..9 the floating-point row formula is the integer row formula. */
  lemma RowFormula(n: int)
    requires 1 <= n <= 9
    ensures (10 * n) / 31 == (n - 1) / 3
    ensures Convert(n) == ((n - 1) / 3, (n - 1) % 3)
  {
  }

  /** Every grid coordinate survives the trip to a console position and
      back. */
  lemma ConvertRevert(rc: (int, int))
    requires InGrid(rc)
    ensures Convert(Revert(rc)) == rc
  {
    var n := Revert(rc);
    RowFormula(n);
  }

  /** Python's `board[r][c]` on the 3x3 board: an index in -3..2 is
      accepted, a negative one counting from the end; any other index
      raises IndexError, here None. */
  function PyCell(rc: (int, int)): (cell: Option<(int, int)>)
    ensures cell.Some? <==> -3 <= rc.0 < 3 && -3 <= rc.1 < 3
    ensures cell.Some? ==> InGrid(cell.value)
    ensures InGrid(rc) ==> cell == Some(rc)
    ensures cell.Some? ==> cell.value.0 % 3 == rc.0 % 3 && cell.value.1 % 3 == rc.1 % 3
  {
    if -3 <= rc.0 < 3 && -3 <= rc.1 < 3 then Some(((rc.0 + 3) % 3, (rc.1 + 3) % 3))
    else None
  }

  /** Convert does not reject positions outside 1..9: 0 lands on the grid
      cell of position 3; -1 gives row -1, which Python's negative
      indexing reads as the bottom row, so it reaches the cell of
      position 8; 10 gives row 3, where indexing the board raises
      IndexError. */
  lemma OutOfRangeInputs()
    ensures Convert(0) == (0, 2) && InGrid(Convert(0)) && Revert(Convert(0)) == 3
    ensures Convert(-1) == (-1, 1) && !InGrid(Convert(-1))
    ensures PyCell(Convert(-1)) == Some((2, 1)) && Revert(PyCell(Convert(-1)).value) == 8
    ensures Convert(10) == (3, 0) && PyCell(Convert(10)) == None
  {
  }

  /** Every input from -9 to 0 reaches some cell of the board without an
      error, so none of them is refused by the indexing. */
  lemma NonPositiveInputsReachBoard(n: int)
    requires -9 <= n <= 0
    ensures PyCell(Convert(n)).Some?
  {
  }

  datatype Option<T> = None | Some(value: T)

  /** The intended reading of a console position: a coordinate for 1..9
      and nothing otherwise. */
  function ParsePosition(n: int): (r: Option<(int, int)>)
    ensures r.Some? <==> 1 <= n <= 9
    ensures r.Some? ==> InGrid(r.value) && Revert(r.value) == n
  {
    if 1 <= n <= 9 then Some(Convert(n)) else None
  }

  /** Every position of a grid coordinate is accepted and parsed back to
      it. */
  lemma ParseRevert(rc: (int, int))
    requires InGrid(rc)
    ensures ParsePosition(Revert(rc)) == Some(rc)
  {
    ConvertRevert(rc);
  }
}

/**
 The original stores cells as the display strings "[ ]", "[X]" and "[O]",
 concatenates each line into one string, and decides the game with string
 tests: a line is free-celled when "[ ]" occurs in it, and won when it is
 "[O][O][O]" or "[X][X][X]" (TicTacToe.py: terminal, value). This module
 models those string tests as written and proves that they agree with the
 cell tests the rest of the model uses.
 */
module Glyphs {
  import opened Grid
  import opened Rules

  /** The display string of a cell. */
  function Glyph(c: Cell): string {
    match c
    case Empty => "[ ]"
    case X => "[X]"
    case O => "[O]"
  }

  /** The concatenated display string of a run of cells. */
  function Render(line: seq<Cell>): (r: string)
    ensures |r| == 3 * |line|
  {
    if |line| == 0 then "" else Glyph(line[0]) + Render(line[1..])
  }

  /** The `n` characters of `hay` starting at `i`. */
  function Substring(hay: string, i: int, n: nat): string
    requires 0 <= i && i + n <= |hay|
  {
    hay[i..i + n]
  }

  /** Python's substring test `needle in hay`. */
  predicate Contains(hay: string, needle: string) {
    exists i :: 0 <= i <= |hay| - |needle| && Substring(hay, i, |needle|) == needle
  }

  /** Character `j` of a rendered line comes from cell j / 3. */
  lemma {:induction false} RenderAt(line: seq<Cell>, j: int)
    requires 0 <= j < 3 * |line|
    ensures Render(line)[j] == Glyph(line[j / 3])[j % 3]
  {
    if j >= 3 {
      RenderAt(line[1..], j - 3);
      assert (j - 3) / 3 == j / 3 - 1;
    }
  }

  /** Characters 3k .. 3k+3 of a rendered line are the glyph of cell k. */
  lemma {:induction false} RenderSlice(line: seq<Cell>, k: int)
    requires 0 <= k < |line|
    ensures Render(line)[3 * k..3 * k + 3] == Glyph(line[k])
  {
    var g, rest := Glyph(line[0]), Render(line[1..]);
    assert Render(line) == g + rest;
    if k == 0 {
      assert (g + rest)[0..3] == g;
    } else {
      RenderSlice(line[1..], k - 1);
      assert (g + rest)[3 * k..3 * k + 3] == rest[3 * (k - 1)..3 * (k - 1) + 3];
    }
  }

  /** "[ ]" occurs in a rendered line exactly when one of its cells is
      free: no occurrence can straddle two glyphs. */
  lemma FreeGlyphIffFreeCell(line: seq<Cell>)
    ensures Contains(Render(line), "[ ]") <==> Empty in line
  {
    var r := Render(line);
    if Contains(r, "[ ]") {
      var i :| 0 <= i <= |r| - 3 && Substring(r, i, 3) == "[ ]";
      assert r[i + 1] == Substring(r, i, 3)[1] == ' ';
      RenderAt(line, i + 1);
      assert line[(i + 1) / 3] == Empty;
    }
    if Empty in line {
      var k :| 0 <= k < |line| && line[k] == Empty;
      RenderSlice(line, k);
      assert Substring(r, 3 * k, 3) == "[ ]";
    }
  }

  /** The middle character of a glyph names its cell. */
  lemma GlyphMiddle(c: Cell, d: Cell)
    ensures Glyph(c)[1] == Glyph(d)[1] <==> c == d
  {
  }

  /** Rendering loses nothing: two runs of cells render alike exactly when
      they are equal. */
  lemma RenderInjective(a: seq<Cell>, b: seq<Cell>)
    ensures Render(a) == Render(b) <==> a == b
  {
    if Render(a) == Render(b) {
      assert |a| == |b|;
      forall k | 0 <= k < |a| ensures a[k] == b[k] {
        var j := 3 * k + 1;
        assert j / 3 == k && j % 3 == 1;
        RenderAt(a, j);
        RenderAt(b, j);
        GlyphMiddle(a[k], b[k]);
      }
    }
  }

  /** The condensed lines as the original's strings: character j of line
      k is character j % 3 of the glyph of cell j / 3 of that line. */
  function LineStrings(s: Board): (lines: seq<string>)
    ensures |lines| == 8
    ensures forall k :: 0 <= k < 8 ==> |lines[k]| == 9
    ensures forall k, j :: 0 <= k < 8 && 0 <= j < 9 ==>
      lines[k][j] == Glyph(Condense(s)[k][j / 3])[j % 3]
  {
    var cells := Condense(s);
    var lines := seq(8, k requires 0 <= k < 8 => Render(cells[k]));
    forall k, j | 0 <= k < 8 && 0 <= j < 9
      ensures lines[k][j] == Glyph(cells[k][j / 3])[j % 3]
    {
      RenderAt(cells[k], j);
    }
    lines
  }

  /** A rendered line is the winning string for `m` exactly when the line
      is three cells of `m`. */
  lemma WinStringIffWinLine(s: Board, m: Cell)
    ensures Render([m, m, m]) in LineStrings(s) <==> Wins(s, m)
  {
    var cells, lines := Condense(s), LineStrings(s);
    assert forall k :: 0 <= k < 8 ==> lines[k] == Render(cells[k]);
    if Render([m, m, m]) in lines {
      var k :| 0 <= k < 8 && lines[k] == Render([m, m, m]);
      RenderInjective(cells[k], [m, m, m]);
    }
    if Wins(s, m) {
      var k :| 0 <= k < 8 && cells[k] == [m, m, m];
      assert lines[k] == Render([m, m, m]);
    }
  }

  /** "[ ]" occurs in the string of a line exactly when the line has a free
      cell. */
  lemma LineStringsFree(s: Board)
    ensures forall k :: 0 <= k < 8 ==>
      (Contains(LineStrings(s)[k], "[ ]") <==> Empty in Condense(s)[k])
  {
    var cells, lines := Condense(s), LineStrings(s);
    forall k | 0 <= k < 8 ensures Contains(lines[k], "[ ]") <==> Empty in cells[k] {
      assert lines[k] == Render(cells[k]);
      FreeGlyphIffFreeCell(cells[k]);
    }
  }

  /** terminal as written, a line equal to "[O][O][O]" or "[X][X][X]" or no
      line containing "[ ]", decides the game as the cell-level test does. */
  function TerminalAsWritten(s: Board): (over: bool)
    ensures over == Terminal(s)
  {
    var lines := LineStrings(s);
    var full := forall k :: 0 <= k < 8 ==> !Contains(lines[k], "[ ]");
    var won := exists k :: 0 <= k < 8 && (lines[k] == "[O][O][O]" || lines[k] == "[X][X][X]");
    assert won <==> Wins(s, O) || Wins(s, X) by { WinTests(s); }
    assert full <==> Full(s) by { LineStringsFree(s); FullByLines(s); }
    won || full
  }

  /** Some line string is a winning string exactly when some line is won. */
  lemma WinTests(s: Board)
    ensures (exists k :: 0 <= k < 8 && (LineStrings(s)[k] == "[O][O][O]" || LineStrings(s)[k] == "[X][X][X]"))
      <==> Wins(s, O) || Wins(s, X)
  {
    WinString(s, O);
    WinString(s, X);
  }

  /** The literal winning strings of the original, "[O][O][O]" and
      "[X][X][X]", occur among the line strings exactly when that mark has
      won. */
  lemma WinString(s: Board, m: Cell)
    requires m != Empty
    ensures (if m == O then "[O][O][O]" else "[X][X][X]") in LineStrings(s) <==> Wins(s, m)
  {
    if m == O {
      assert Render([O, O, O]) == "[O][O][O]";
    } else {
      assert Render([X, X, X]) == "[X][X][X]";
    }
    WinStringIffWinLine(s, m);
  }

  /** value as written, on the same strings, scores the board as the
      cell-level Value does, error case included. */
  function ValueAsWritten(s: Board): (r: Evaluation)
    ensures r == Value(s)
  {
    if !TerminalAsWritten(s) then StateNotTerminal
    else
      var lines := LineStrings(s);
      assert "[O][O][O]" in lines <==> Wins(s, O) by { WinString(s, O); }
      assert "[X][X][X]" in lines <==> Wins(s, X) by { WinString(s, X); }
      if "[O][O][O]" in lines then Scored(1)
      else if "[X][X][X]" in lines then Scored(-1)
      else Scored(0)
  }
}

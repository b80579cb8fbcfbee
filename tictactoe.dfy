/**
 * The Tic-Tac-Toe helpers of the bot: the terminal check over the eight
 * winning lines and the text rendering of a 3x3 board.
 */
module TicTacToe {
  import opened Wrappers

  /** A mark a player puts on the board (the bot uses emoji); any non-empty string. */
  type Glyph = s: string | s != "" witness "X"

  /**
   * A board cell. JavaScript tests a cell for truthiness, so every falsy value
   * (undefined, null, the empty string) is one and the same `Empty`.
   */
  datatype Cell = Empty | Mark(glyph: Glyph)

  /** Nine cells, row-major: index 3 * row + column. */
  type Board = b: seq<Cell> | |b| == 9 witness seq(9, i => Empty)

  type Index = i: int | 0 <= i < 9

  /** A line of three cells that wins when all three hold the same mark. */
  datatype Line = Line(a: Index, b: Index, c: Index)

  /** The winning lines in the order they are scanned: rows, columns, diagonals. */
  const Lines: seq<Line> := [
    Line(0, 1, 2), Line(3, 4, 5), Line(6, 7, 8),
    Line(0, 3, 6), Line(1, 4, 7), Line(2, 5, 8),
    Line(0, 4, 8), Line(2, 4, 6)
  ]

  /** The three cells of `line` hold one and the same mark. */
  predicate Completes(board: Board, line: Line) {
    board[line.a].Mark? && board[line.a] == board[line.b] && board[line.a] == board[line.c]
  }

  /** The mark that completes `line`. */
  function Owner(board: Board, line: Line): Glyph
    requires Completes(board, line)
  {
    board[line.a].glyph
  }

  /** `Lines[k]` is the first completed line of the scan. */
  ghost predicate FirstCompleted(board: Board, k: int) {
    0 <= k < |Lines| && Completes(board, Lines[k]) &&
    forall j :: 0 <= j < k ==> !Completes(board, Lines[j])
  }

  /** The result of scanning `Lines` from position `k` on, returning at the first completed line. */
  function FirstWinFrom(board: Board, k: nat): (r: Option<Glyph>)
    requires k <= |Lines|
    ensures r == None <==> forall j :: k <= j < |Lines| ==> !Completes(board, Lines[j])
    ensures r.Some? ==>
      exists j :: k <= j < |Lines| && Completes(board, Lines[j]) && r.value == Owner(board, Lines[j]) &&
        forall i :: k <= i < j ==> !Completes(board, Lines[i])
    decreases |Lines| - k
  {
    if k == |Lines| then None
    else if Completes(board, Lines[k]) then Some(Owner(board, Lines[k]))
    else FirstWinFrom(board, k + 1)
  }

  /** The winner of `board`, or `None` when no line is completed. */
  function Winner(board: Board): (r: Option<Glyph>)
    ensures r == None <==> forall k :: 0 <= k < |Lines| ==> !Completes(board, Lines[k])
    ensures r.Some? ==> exists k :: FirstCompleted(board, k) && r.value == Owner(board, Lines[k])
  {
    FirstWinFrom(board, 0)
  }

  /** The terminal check: scans the lines in order and returns the mark of the first completed one. */
  method CheckWinner(board: Board) returns (r: Option<Glyph>)
    ensures r == Winner(board)
    ensures r.Some? <==> exists k :: 0 <= k < |Lines| && Completes(board, Lines[k])
    ensures forall k :: FirstCompleted(board, k) ==> r == Some(Owner(board, Lines[k]))
  {
    for k := 0 to |Lines|
      invariant FirstWinFrom(board, k) == Winner(board)
    {
      var line := Lines[k];
      if board[line.a].Mark? && board[line.a] == board[line.b] && board[line.a] == board[line.c] {
        return Some(board[line.a].glyph);
      }
    }
    return None;
  }

  /** At most one line can be the first completed one. */
  lemma FirstCompletedUnique(board: Board, k: int, k': int)
    requires FirstCompleted(board, k) && FirstCompleted(board, k')
    ensures k == k'
  {
  }

  /** The winner is the mark of the first completed line in scan order. */
  lemma {:induction false} WinnerIsFirst(board: Board, k: int)
    requires FirstCompleted(board, k)
    ensures Winner(board) == Some(Owner(board, Lines[k]))
  {
    var j :| FirstCompleted(board, j) && Winner(board).value == Owner(board, Lines[j]);
    FirstCompletedUnique(board, j, k);
  }

  /** An empty board has no winner. */
  lemma EmptyBoardNoWinner()
    ensures Winner(seq(9, i => Empty)) == None
  {
  }

  /** When only one mark is on the board and some line is completed, that mark wins. */
  lemma {:induction false} SingleMarkWins(board: Board, m: Glyph)
    requires forall i :: 0 <= i < 9 && board[i].Mark? ==> board[i].glyph == m
    requires exists k :: 0 <= k < |Lines| && Completes(board, Lines[k])
    ensures Winner(board) == Some(m)
  {
    assert Winner(board).Some?;
    var k :| FirstCompleted(board, k) && Winner(board).value == Owner(board, Lines[k]);
    var line := Lines[k];
    assert board[line.a].Mark?;
  }

  /** A completed top row wins for its mark, whatever the other cells hold. */
  lemma TopRowWins(board: Board, m: Glyph)
    requires board[0] == board[1] == board[2] == Mark(m)
    ensures Winner(board) == Some(m)
  {
    WinnerIsFirst(board, 0);
  }

  /** A full board on which no line is completed has no winner. */
  lemma FullBoardWithoutLine(x: Glyph, o: Glyph)
    requires x != o
    ensures Winner([Mark(x), Mark(o), Mark(x), Mark(o), Mark(x), Mark(o), Mark(o), Mark(x), Mark(o)]) == None
  {
  }

  // ----- Rendering -----

  /** What an empty cell is drawn as. */
  const EmptySquare: string := "⬜"

  /** The text of one cell. */
  function CellText(c: Cell): string {
    if c.Mark? then c.glyph else EmptySquare
  }

  /**
   * The board as the bot sends it: a leading line break, three rows of three
   * cells in row-major order each ended by a line break, then the two spaces
   * that indent the closing template delimiter.
   */
  function RenderBoard(board: Board): string {
    "\n" + RowText(board, 0) + "\n" + RowText(board, 1) + "\n" + RowText(board, 2) + "\n  "
  }

  /** The three cells of row `row`, left to right. */
  function RowText(board: Board, row: int): string
    requires 0 <= row < 3
  {
    CellText(board[3 * row]) + CellText(board[3 * row + 1]) + CellText(board[3 * row + 2])
  }

  /** Every mark on the board is a single character. */
  predicate SingleCharMarks(board: Board) {
    forall i :: 0 <= i < 9 && board[i].Mark? ==> |board[i].glyph| == 1
  }

  /** The one character a cell is drawn as, when its mark is a single character. */
  function CellChar(c: Cell): char
    requires c.Mark? ==> |c.glyph| == 1
  {
    if c.Mark? then c.glyph[0] else '⬜'
  }

  /** Where the character of cell `i` stands in the rendered text (row-major, four characters per row). */
  const CellPos: seq<nat> := [1, 2, 3, 5, 6, 7, 9, 10, 11]

  /**
   * With single-character marks the rendering is exactly fifteen characters:
   * line breaks at 0, 4, 8 and 12, two trailing spaces, and cell `i` at `CellPos[i]`.
   */
  lemma RenderLayout(board: Board)
    requires SingleCharMarks(board)
    ensures var s := RenderBoard(board);
      |s| == 15 && s[0] == s[4] == s[8] == s[12] == '\n' && s[13] == s[14] == ' ' &&
      forall i :: 0 <= i < 9 ==> s[CellPos[i]] == CellChar(board[i])
  {
    var r0, r1, r2 := RowChars(board, 0), RowChars(board, 1), RowChars(board, 2);
    var s := RenderBoard(board);
    var t := ['\n', r0[0], r0[1], r0[2], '\n', r1[0], r1[1], r1[2], '\n', r2[0], r2[1], r2[2], '\n', ' ', ' '];
    JoinRows(r0, r1, r2);
    forall i | 0 <= i < 9 ensures t[CellPos[i]] == CellChar(board[i]) {
      var row, col := i / 3, i % 3;
      assert i == 3 * row + col && CellPos[i] == 1 + 4 * row + col;
    }
  }

  /** Three rows of three characters joined as `RenderBoard` joins them, character by character. */
  lemma JoinRows(r0: string, r1: string, r2: string)
    requires |r0| == 3 && |r1| == 3 && |r2| == 3
    ensures "\n" + r0 + "\n" + r1 + "\n" + r2 + "\n  " ==
      ['\n', r0[0], r0[1], r0[2], '\n', r1[0], r1[1], r1[2], '\n', r2[0], r2[1], r2[2], '\n', ' ', ' ']
  {
    var s := "\n" + r0 + "\n" + r1 + "\n" + r2 + "\n  ";
    var t := ['\n', r0[0], r0[1], r0[2], '\n', r1[0], r1[1], r1[2], '\n', r2[0], r2[1], r2[2], '\n', ' ', ' '];
    forall k | 0 <= k < 15 ensures s[k] == t[k] {
    }
  }

  /** With single-character marks a row is the three cell characters. */
  function RowChars(board: Board, row: int): (r: string)
    requires SingleCharMarks(board) && 0 <= row < 3
    ensures r == RowText(board, row)
  {
    assert board[3 * row].Mark? ==> |board[3 * row].glyph| == 1;
    assert board[3 * row + 1].Mark? ==> |board[3 * row + 1].glyph| == 1;
    assert board[3 * row + 2].Mark? ==> |board[3 * row + 2].glyph| == 1;
    [CellChar(board[3 * row]), CellChar(board[3 * row + 1]), CellChar(board[3 * row + 2])]
  }

  /** Reads one drawn character back into a cell. */
  function ReadCell(ch: char): Cell {
    if ch == '⬜' then Empty else Mark([ch])
  }

  /** Reads a rendered board with single-character marks back; `None` when the layout is not that of `RenderBoard`. */
  function ReadBoard(s: string): Option<Board> {
    if |s| == 15 && s[0] == s[4] == s[8] == s[12] == '\n' && s[13] == s[14] == ' ' then
      Some(seq(9, i requires 0 <= i < 9 => ReadCell(s[CellPos[i]])))
    else None
  }

  /** Rendering loses nothing for single-character marks other than the empty square. */
  lemma RenderRoundTrip(board: Board)
    requires SingleCharMarks(board)
    requires forall i :: 0 <= i < 9 && board[i].Mark? ==> board[i].glyph != EmptySquare
    ensures ReadBoard(RenderBoard(board)) == Some(board)
  {
    RenderLayout(board);
    var s := RenderBoard(board);
    forall i | 0 <= i < 9 ensures ReadCell(s[CellPos[i]]) == board[i] {
      if board[i].Mark? {
        assert board[i].glyph == [board[i].glyph[0]];
      }
    }
    var read := seq(9, i requires 0 <= i < 9 => ReadCell(s[CellPos[i]]));
    assert read == board;
  }

  /** Two such boards that render to the same text are the same board. */
  lemma RenderInjective(b1: Board, b2: Board)
    requires SingleCharMarks(b1) && SingleCharMarks(b2)
    requires forall i :: 0 <= i < 9 && b1[i].Mark? ==> b1[i].glyph != EmptySquare
    requires forall i :: 0 <= i < 9 && b2[i].Mark? ==> b2[i].glyph != EmptySquare
    requires RenderBoard(b1) == RenderBoard(b2)
    ensures b1 == b2
  {
    RenderRoundTrip(b1);
    RenderRoundTrip(b2);
  }
}

/**
 * The match detector of the C-Crush match-3 game (game.c).
 *
 * The board is a fixed 8x8 grid of candies, each an int. A "window" is three
 * consecutive cells of one row or one column holding equal values. The
 * detector marks every cell covered by some window in a local match board,
 * then flags each marked cell of the real board by replacing its value v with
 * -|v|, and returns how many cells it flagged.
 *
 * The specification is stated on a value snapshot of the board (`Grid`):
 * `InMatch` says which cells are covered by a window, `MatchBoard` is the
 * mask the two scans build, `Flagged` is the board after flagging and
 * `MatchCount` is the returned count.
 */
module Game {

  const BoardWidth: nat := 8
  const BoardHeight: nat := 8
  const NumCandyTypes: nat := 4

  /** Bounds of a C `int` (32-bit two's complement). */
  const IntMin: int := -0x8000_0000
  const IntMax: int := 0x7fff_ffff

  /** A snapshot of the board, row by row: g[row][col]. */
  type Grid = seq<seq<int>>

  /** A boolean grid: the match board, or any other per-cell property. */
  type Mask = seq<seq<bool>>

  predicate IsBoard(g: Grid) {
    |g| == BoardHeight && forall r :: 0 <= r < |g| ==> |g[r]| == BoardWidth
  }

  predicate IsMask(m: Mask) {
    |m| == BoardHeight && forall r :: 0 <= r < |m| ==> |m[r]| == BoardWidth
  }

  /** A value of a C `int`. */
  predicate IsInt32(v: int) {
    IntMin <= v <= IntMax
  }

  /** The values the game puts on the board: 1..NUM_CANDY_TYPES. */
  predicate IsCandy(v: int) {
    1 <= v <= NumCandyTypes
  }

  predicate CandyBoard(g: Grid)
    requires IsBoard(g)
  {
    forall r, c :: 0 <= r < BoardHeight && 0 <= c < BoardWidth ==> IsCandy(g[r][c])
  }

  function Abs(v: int): int {
    if v < 0 then -v else v
  }

  // ---------------------------------------------------------------------------
  // Windows and the cells they cover
  // ---------------------------------------------------------------------------

  /** The horizontal window starting at (r, s) exists and holds three equal values. */
  predicate HWindow(g: Grid, r: int, s: int)
    requires IsBoard(g)
  {
    0 <= r < BoardHeight && 0 <= s < BoardWidth - 2 &&
    g[r][s] == g[r][s + 1] && g[r][s] == g[r][s + 2]
  }

  /** The vertical window starting at (s, c) exists and holds three equal values. */
  predicate VWindow(g: Grid, s: int, c: int)
    requires IsBoard(g)
  {
    0 <= c < BoardWidth && 0 <= s < BoardHeight - 2 &&
    g[s][c] == g[s + 1][c] && g[s][c] == g[s + 2][c]
  }

  /** Some horizontal window starting before column `lim` covers (r, c). */
  predicate HCovered(g: Grid, r: int, c: int, lim: int)
    requires IsBoard(g)
  {
    (c - 2 < lim && HWindow(g, r, c - 2)) ||
    (c - 1 < lim && HWindow(g, r, c - 1)) ||
    (c < lim && HWindow(g, r, c))
  }

  /** Some vertical window starting before row `lim` covers (r, c). */
  predicate VCovered(g: Grid, r: int, c: int, lim: int)
    requires IsBoard(g)
  {
    (r - 2 < lim && VWindow(g, r - 2, c)) ||
    (r - 1 < lim && VWindow(g, r - 1, c)) ||
    (r < lim && VWindow(g, r, c))
  }

  /**
   * The cell (r, c) lies inside a horizontal or vertical window of three
   * equal values. Windows start at columns (rows) 0 .. 5, as in the scans.
   */
  predicate InMatch(g: Grid, r: int, c: int)
    requires IsBoard(g)
  {
    HCovered(g, r, c, BoardWidth - 2) || VCovered(g, r, c, BoardHeight - 2)
  }

  /** The board has no window of three equal values along either axis. */
  predicate NoWindow(g: Grid)
    requires IsBoard(g)
  {
    (forall r, s :: 0 <= r < BoardHeight && 0 <= s < BoardWidth - 2 ==> !HWindow(g, r, s)) &&
    (forall s, c :: 0 <= s < BoardHeight - 2 && 0 <= c < BoardWidth ==> !VWindow(g, s, c))
  }

  // ---------------------------------------------------------------------------
  // Runs: an independent description of the matched cells
  // ---------------------------------------------------------------------------

  /** Row r holds a stretch of at least three equal values in columns s .. e-1. */
  predicate HRun(g: Grid, r: int, s: int, e: int)
    requires IsBoard(g)
  {
    0 <= r < BoardHeight && 0 <= s && s + 3 <= e <= BoardWidth &&
    forall k :: s <= k < e ==> g[r][k] == g[r][s]
  }

  /** Column c holds a stretch of at least three equal values in rows s .. e-1. */
  predicate VRun(g: Grid, c: int, s: int, e: int)
    requires IsBoard(g)
  {
    0 <= c < BoardWidth && 0 <= s && s + 3 <= e <= BoardHeight &&
    forall k :: s <= k < e ==> g[k][c] == g[s][c]
  }

  /** The cell (r, c) belongs to a run of three or more equal values along an axis. */
  ghost predicate InRun(g: Grid, r: int, c: int)
    requires IsBoard(g)
  {
    (exists s, e :: HRun(g, r, s, e) && s <= c < e) ||
    (exists s, e :: VRun(g, c, s, e) && s <= r < e)
  }

  // ---------------------------------------------------------------------------
  // What the detector computes
  // ---------------------------------------------------------------------------

  /** The local match board after both scans: true exactly at the covered cells. */
  function MatchBoard(g: Grid): Mask
    requires IsBoard(g)
  {
    seq(BoardHeight, r => seq(BoardWidth, c => InMatch(g, r, c)))
  }

  /** One cell after the flagging pass. */
  function FlagCell(v: int, marked: bool): int {
    if marked then -Abs(v) else v
  }

  /** The board after the flagging pass. */
  function Flagged(g: Grid): Grid
    requires IsBoard(g)
  {
    seq(BoardHeight, r requires 0 <= r < BoardHeight =>
      seq(BoardWidth, c requires 0 <= c < BoardWidth => FlagCell(g[r][c], InMatch(g, r, c))))
  }

  /** The number of true entries of a row. */
  function CountRow(row: seq<bool>): nat {
    if |row| == 0 then 0
    else CountRow(row[..|row| - 1]) + (if row[|row| - 1] then 1 else 0)
  }

  /** The number of true entries of a mask, summed row by row. */
  function CountMarked(m: Mask): nat {
    if |m| == 0 then 0
    else CountMarked(m[..|m| - 1]) + CountRow(m[|m| - 1])
  }

  /** The value the detector returns: the number of marked cells. */
  function MatchCount(g: Grid): nat
    requires IsBoard(g)
  {
    CountMarked(MatchBoard(g))
  }

  /** Which cells of a board are negative. */
  function NegativeMask(g: Grid): Mask
    requires IsBoard(g)
  {
    seq(BoardHeight, r requires 0 <= r < BoardHeight =>
      seq(BoardWidth, c requires 0 <= c < BoardWidth => g[r][c] < 0))
  }

  function NegativeCount(g: Grid): nat
    requires IsBoard(g)
  {
    CountMarked(NegativeMask(g))
  }

  /** The positions of the true entries of a mask, as a set of (row, col) pairs. */
  ghost function MarkedCells(m: Mask): set<(int, int)> {
    set r, c | 0 <= r < |m| && 0 <= c < |m[r]| && m[r][c] :: (r, c)
  }

  /** The cells the detector matches, each once. */
  ghost function MatchedCells(g: Grid): set<(int, int)>
    requires IsBoard(g)
  {
    set r, c | 0 <= r < BoardHeight && 0 <= c < BoardWidth && InMatch(g, r, c) :: (r, c)
  }

  /** A snapshot of the array as a grid. */
  ghost function Cells(board: array2<int>): (g: Grid)
    requires board.Length0 == BoardHeight && board.Length1 == BoardWidth
    reads board
    ensures IsBoard(g)
    ensures forall r, c :: 0 <= r < BoardHeight && 0 <= c < BoardWidth ==> g[r][c] == board[r, c]
  {
    seq(BoardHeight, r requires 0 <= r < BoardHeight reads board =>
      seq(BoardWidth, c requires 0 <= c < BoardWidth reads board => board[r, c]))
  }

  // ---------------------------------------------------------------------------
  // findAndFlagMatches
  // ---------------------------------------------------------------------------

  /**
   * The cell (r, c) is covered by a horizontal window the row-by-row scan has
   * already visited when it is about to look at the window starting at (row, col).
   */
  predicate HScanned(g: Grid, row: int, col: int, r: int, c: int)
    requires IsBoard(g)
  {
    (r < row && HCovered(g, r, c, BoardWidth - 2)) || (r == row && HCovered(g, r, c, col))
  }

  /**
   * The cell (r, c) is covered by a window the two scans have already visited
   * when the column-by-column scan is about to look at the window starting
   * at (row, col).
   */
  predicate VScanned(g: Grid, row: int, col: int, r: int, c: int)
    requires IsBoard(g)
  {
    HCovered(g, r, c, BoardWidth - 2) ||
    (c < col && VCovered(g, r, c, BoardHeight - 2)) || (c == col && VCovered(g, r, c, row))
  }

  /** Visiting the horizontal window at (row, col) adds exactly its three cells, if it matches. */
  lemma HScanStep(g: Grid, row: int, col: int, r: int, c: int)
    requires IsBoard(g) && 0 <= row < BoardHeight && 0 <= col < BoardWidth - 2
    ensures HScanned(g, row, col + 1, r, c) <==>
      HScanned(g, row, col, r, c) || (HWindow(g, row, col) && r == row && col <= c <= col + 2)
  {
  }

  /** Visiting the vertical window at (row, col) adds exactly its three cells, if it matches. */
  lemma VScanStep(g: Grid, row: int, col: int, r: int, c: int)
    requires IsBoard(g) && 0 <= row < BoardHeight - 2 && 0 <= col < BoardWidth
    ensures VScanned(g, row + 1, col, r, c) <==>
      VScanned(g, row, col, r, c) || (VWindow(g, row, col) && c == col && row <= r <= row + 2)
  {
  }

  /**
   * The horizontal scan (game.c, lines 59-68): marks in `matchBoard`, which
   * starts all zero, every cell covered by a horizontal window of three
   * equal values.
   */
  method MarkHorizontal(board: array2<int>, matchBoard: array2<int>)
    requires board.Length0 == BoardHeight && board.Length1 == BoardWidth
    requires matchBoard.Length0 == BoardHeight && matchBoard.Length1 == BoardWidth
    requires board != matchBoard
    requires forall r, c :: 0 <= r < BoardHeight && 0 <= c < BoardWidth ==> matchBoard[r, c] == 0
    modifies matchBoard
    ensures forall r, c :: 0 <= r < BoardHeight && 0 <= c < BoardWidth ==>
      matchBoard[r, c] == if HCovered(Cells(board), r, c, BoardWidth - 2) then 1 else 0
  {
    ghost var g := Cells(board);
    for row := 0 to BoardHeight
      invariant forall r, c :: 0 <= r < BoardHeight && 0 <= c < BoardWidth ==>
        matchBoard[r, c] == if HScanned(g, row, 0, r, c) then 1 else 0
    {
      for col := 0 to BoardWidth - 2
        invariant forall r, c :: 0 <= r < BoardHeight && 0 <= c < BoardWidth ==>
          matchBoard[r, c] == if HScanned(g, row, col, r, c) then 1 else 0
      {
        var candy := board[row, col];
        if candy == board[row, col + 1] && candy == board[row, col + 2] {
          matchBoard[row, col] := 1;
          matchBoard[row, col + 1] := 1;
          matchBoard[row, col + 2] := 1;
        }
        forall r, c | 0 <= r < BoardHeight && 0 <= c < BoardWidth
          ensures matchBoard[r, c] == if HScanned(g, row, col + 1, r, c) then 1 else 0
        {
          HScanStep(g, row, col, r, c);
        }
      }
    }
  }

  /**
   * The vertical scan (game.c, lines 71-80): adds to the marks of the
   * horizontal scan every cell covered by a vertical window of three equal
   * values, so that afterwards `matchBoard` is 1 exactly at the matched cells.
   */
  method MarkVertical(board: array2<int>, matchBoard: array2<int>)
    requires board.Length0 == BoardHeight && board.Length1 == BoardWidth
    requires matchBoard.Length0 == BoardHeight && matchBoard.Length1 == BoardWidth
    requires board != matchBoard
    requires forall r, c :: 0 <= r < BoardHeight && 0 <= c < BoardWidth ==>
      matchBoard[r, c] == if HCovered(Cells(board), r, c, BoardWidth - 2) then 1 else 0
    modifies matchBoard
    ensures forall r, c :: 0 <= r < BoardHeight && 0 <= c < BoardWidth ==>
      matchBoard[r, c] == if InMatch(Cells(board), r, c) then 1 else 0
  {
    ghost var g := Cells(board);
    for col := 0 to BoardWidth
      invariant forall r, c :: 0 <= r < BoardHeight && 0 <= c < BoardWidth ==>
        matchBoard[r, c] == if VScanned(g, 0, col, r, c) then 1 else 0
    {
      for row := 0 to BoardHeight - 2
        invariant forall r, c :: 0 <= r < BoardHeight && 0 <= c < BoardWidth ==>
          matchBoard[r, c] == if VScanned(g, row, col, r, c) then 1 else 0
      {
        var candy := board[row, col];
        if candy == board[row + 1, col] && candy == board[row + 2, col] {
          matchBoard[row, col] := 1;
          matchBoard[row + 1, col] := 1;
          matchBoard[row + 2, col] := 1;
        }
        forall r, c | 0 <= r < BoardHeight && 0 <= c < BoardWidth
          ensures matchBoard[r, c] == if VScanned(g, row + 1, col, r, c) then 1 else 0
        {
          VScanStep(g, row, col, r, c);
        }
      }
    }
  }

  /**
   * The flagging pass (game.c, lines 83-92): every cell marked 1 in
   * `matchBoard` becomes -|v| and is counted; the other cells keep their value.
   */
  method FlagMarked(board: array2<int>, matchBoard: array2<int>, ghost m: Mask) returns (matches: int)
    requires board.Length0 == BoardHeight && board.Length1 == BoardWidth
    requires matchBoard.Length0 == BoardHeight && matchBoard.Length1 == BoardWidth
    requires board != matchBoard && IsMask(m)
    requires forall r, c :: 0 <= r < BoardHeight && 0 <= c < BoardWidth ==>
      matchBoard[r, c] == if m[r][c] then 1 else 0
    modifies board
    ensures forall r, c :: 0 <= r < BoardHeight && 0 <= c < BoardWidth ==>
      board[r, c] == FlagCell(old(board[r, c]), m[r][c])
    ensures matches == CountMarked(m)
  {
    matches := 0;
    for row := 0 to BoardHeight
      invariant forall r, c :: 0 <= r < BoardHeight && 0 <= c < BoardWidth ==>
        board[r, c] == if r < row then FlagCell(old(board[r, c]), m[r][c]) else old(board[r, c])
      invariant matches == CountMarked(m[..row])
    {
      for col := 0 to BoardWidth
        invariant forall r, c :: 0 <= r < BoardHeight && 0 <= c < BoardWidth ==>
          board[r, c] ==
            if r < row || (r == row && c < col) then FlagCell(old(board[r, c]), m[r][c])
            else old(board[r, c])
        invariant matches == CountMarked(m[..row]) + CountRow(m[row][..col])
      {
        assert m[row][..col + 1][..col] == m[row][..col];
        if matchBoard[row, col] == 1 {
          matches := matches + 1;
          board[row, col] := -Abs(board[row, col]);
        }
      }
      assert m[row][..BoardWidth] == m[row];
      assert m[..row + 1][..row] == m[..row];
    }
    assert m[..BoardHeight] == m;
  }

  /**
   * findAndFlagMatches: marks every cell covered by a horizontal or vertical
   * window of three equal values, flags the marked cells of `board` as -|v|
   * and returns the number of cells flagged. Every window it reads lies
   * inside the board (the array accesses are checked).
   */
  method FindAndFlagMatches(board: array2<int>) returns (matches: int)
    requires board.Length0 == BoardHeight && board.Length1 == BoardWidth
    requires forall r, c :: 0 <= r < BoardHeight && 0 <= c < BoardWidth ==> IsInt32(board[r, c])
    // C's abs is undefined on INT_MIN, and it is applied to the matched cells only.
    requires forall r, c :: 0 <= r < BoardHeight && 0 <= c < BoardWidth && InMatch(Cells(board), r, c) ==>
      board[r, c] != IntMin
    modifies board
    ensures Cells(board) == Flagged(old(Cells(board)))
    ensures matches == MatchCount(old(Cells(board)))
    ensures 0 <= matches <= BoardWidth * BoardHeight
    ensures CandyBoard(old(Cells(board))) ==> matches == NegativeCount(Cells(board))
    ensures forall r, c :: 0 <= r < BoardHeight && 0 <= c < BoardWidth ==> IsInt32(board[r, c])
  {
    ghost var g := Cells(board);
    var matchBoard := new int[BoardHeight, BoardWidth]((r, c) => 0);
    MarkHorizontal(board, matchBoard);
    MarkVertical(board, matchBoard);
    matches := FlagMarked(board, matchBoard, MatchBoard(g));
    assert Cells(board) == Flagged(g) by {
      forall r | 0 <= r < BoardHeight ensures Cells(board)[r] == Flagged(g)[r] { }
    }
    MatchCountBounds(g);
    CandyFlagging(g);
  }
  // ---------------------------------------------------------------------------
  // Properties
  // ---------------------------------------------------------------------------

  /** Every cell of a horizontal run of three or more equal values is matched. */
  lemma HRunMatched(g: Grid, r: int, s: int, e: int, c: int)
    requires IsBoard(g) && HRun(g, r, s, e) && s <= c < e
    ensures InMatch(g, r, c)
  {
    var w := if c + 3 <= e then c else e - 3;
    assert g[r][w] == g[r][s] && g[r][w + 1] == g[r][s] && g[r][w + 2] == g[r][s];
    assert HWindow(g, r, w);
  }

  /** Every cell of a vertical run of three or more equal values is matched. */
  lemma VRunMatched(g: Grid, c: int, s: int, e: int, r: int)
    requires IsBoard(g) && VRun(g, c, s, e) && s <= r < e
    ensures InMatch(g, r, c)
  {
    var w := if r + 3 <= e then r else e - 3;
    assert g[w][c] == g[s][c] && g[w + 1][c] == g[s][c] && g[w + 2][c] == g[s][c];
    assert VWindow(g, w, c);
  }

  /** A matched cell lies in a run of three or more equal values. */
  lemma MatchedInRun(g: Grid, r: int, c: int)
    requires IsBoard(g) && InMatch(g, r, c)
    ensures InRun(g, r, c)
  {
    if HCovered(g, r, c, BoardWidth - 2) {
      var s := if HWindow(g, r, c - 2) then c - 2 else if HWindow(g, r, c - 1) then c - 1 else c;
      assert HRun(g, r, s, s + 3);
    } else {
      var s := if VWindow(g, r - 2, c) then r - 2 else if VWindow(g, r - 1, c) then r - 1 else r;
      assert VRun(g, c, s, s + 3);
    }
  }

  /**
   * The detector marks a cell exactly when it belongs to a horizontal or
   * vertical run of at least three equal values (runs of 4 or 5 included).
   */
  lemma InMatchIffInRun(g: Grid, r: int, c: int)
    requires IsBoard(g)
    ensures InMatch(g, r, c) <==> InRun(g, r, c)
  {
    if InMatch(g, r, c) {
      MatchedInRun(g, r, c);
    }
    if InRun(g, r, c) {
      if exists s, e :: HRun(g, r, s, e) && s <= c < e {
        var s, e :| HRun(g, r, s, e) && s <= c < e;
        HRunMatched(g, r, s, e, c);
      } else {
        var s, e :| VRun(g, c, s, e) && s <= r < e;
        VRunMatched(g, c, s, e, r);
      }
    }
  }

  /**
   * Flagging keeps the magnitude of every cell, and no matched cell is
   * positive afterwards.
   */
  lemma FlaggedCells(g: Grid, r: int, c: int)
    requires IsBoard(g) && 0 <= r < BoardHeight && 0 <= c < BoardWidth
    ensures IsBoard(Flagged(g))
    ensures Abs(Flagged(g)[r][c]) == Abs(g[r][c])
    ensures InMatch(g, r, c) ==> Flagged(g)[r][c] <= 0
  {
  }

  lemma {:induction false} CountRowBound(row: seq<bool>)
    ensures CountRow(row) <= |row|
  {
    if |row| > 0 {
      CountRowBound(row[..|row| - 1]);
    }
  }

  lemma {:induction false} CountMarkedBound(m: Mask)
    requires forall r :: 0 <= r < |m| ==> |m[r]| == BoardWidth
    ensures CountMarked(m) <= |m| * BoardWidth
  {
    if |m| > 0 {
      CountMarkedBound(m[..|m| - 1]);
      CountRowBound(m[|m| - 1]);
    }
  }

  /** The returned count lies between 0 and the number of cells, 64. */
  lemma MatchCountBounds(g: Grid)
    requires IsBoard(g)
    ensures 0 <= MatchCount(g) <= BoardWidth * BoardHeight
  {
    CountMarkedBound(MatchBoard(g));
  }

  lemma {:induction false} CountRowIsCardinality(row: seq<bool>, r: int)
    ensures CountRow(row) == |set c | 0 <= c < |row| && row[c] :: (r, c)|
  {
    var cells := set c | 0 <= c < |row| && row[c] :: (r, c);
    if |row| == 0 {
      assert cells == {};
    } else {
      var n := |row| - 1;
      var front := row[..n];
      var before := set c | 0 <= c < |front| && front[c] :: (r, c);
      CountRowIsCardinality(front, r);
      assert (r, n) !in before;
      if row[n] {
        assert cells == before + {(r, n)};
      } else {
        assert cells == before;
      }
    }
  }

  /** Counting a mask row by row counts each true position exactly once. */
  lemma {:induction false} CountMarkedIsCardinality(m: Mask)
    ensures CountMarked(m) == |MarkedCells(m)|
  {
    if |m| == 0 {
      assert MarkedCells(m) == {};
    } else {
      var n := |m| - 1;
      var front := m[..n];
      var last := set c | 0 <= c < |m[n]| && m[n][c] :: (n, c);
      CountMarkedIsCardinality(front);
      CountRowIsCardinality(m[n], n);
      assert MarkedCells(m) == MarkedCells(front) + last;
      assert MarkedCells(front) * last == {};
    }
  }

  /**
   * The returned count is the number of distinct matched cells: a cell
   * covered by several windows (a row and a column match crossing, or
   * overlapping windows in a run of 4 or more) is counted once.
   */
  lemma MatchCountIsDistinctCells(g: Grid)
    requires IsBoard(g)
    ensures MatchCount(g) == |MatchedCells(g)|
  {
    CountMarkedIsCardinality(MatchBoard(g));
    assert MarkedCells(MatchBoard(g)) == MatchedCells(g);
  }

  /**
   * The detector reports no match exactly when the board has no window of
   * three equal values; such a board is left unchanged.
   */
  lemma NoMatchIff(g: Grid)
    requires IsBoard(g)
    ensures MatchCount(g) == 0 <==> NoWindow(g)
    ensures NoWindow(g) ==> Flagged(g) == g
  {
    MatchCountIsDistinctCells(g);
    if NoWindow(g) {
      assert MatchedCells(g) == {};
      forall r | 0 <= r < BoardHeight ensures Flagged(g)[r] == g[r] { }
    } else {
      if exists r, s :: HWindow(g, r, s) {
        var r, s :| HWindow(g, r, s);
        assert HWindow(g, r, s);
        assert InMatch(g, r, s);
        assert (r, s) in MatchedCells(g);
      } else {
        var s, c :| VWindow(g, s, c);
        assert VWindow(g, s, c);
        assert InMatch(g, s, c);
        assert (s, c) in MatchedCells(g);
      }
    }
  }

  /**
   * On a board of candies (values 1..NUM_CANDY_TYPES), the flagged cells are
   * exactly the negative ones, the negation of each is its original candy,
   * and the count equals the number of negative cells.
   */
  lemma CandyFlagging(g: Grid)
    requires IsBoard(g)
    ensures IsBoard(Flagged(g))
    ensures CandyBoard(g) ==> NegativeMask(Flagged(g)) == MatchBoard(g)
    ensures CandyBoard(g) ==> NegativeCount(Flagged(g)) == MatchCount(g)
    ensures CandyBoard(g) ==> forall r, c :: 0 <= r < BoardHeight && 0 <= c < BoardWidth ==>
      (Flagged(g)[r][c] < 0 <==> InMatch(g, r, c)) &&
      (Flagged(g)[r][c] < 0 ==> -Flagged(g)[r][c] == g[r][c])
  {
    if CandyBoard(g) {
      forall r | 0 <= r < BoardHeight ensures NegativeMask(Flagged(g))[r] == MatchBoard(g)[r] { }
    }
  }
}

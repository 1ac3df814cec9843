# C-Crush match detector, modelled in Dafny

C-Crush is a small match-3 game written in C. Its board is a fixed 8x8 grid of
`int` candies, filled with values 1..4 (`NUM_CANDY_TYPES`). The algorithmic
part is `findAndFlagMatches` in game.c. It has three passes:

1. A horizontal scan visits every 3-wide window of every row. When a window
   holds three equal values, it sets its three cells to 1 in a local
   `matchBoard`.
2. A vertical scan does the same with the 3-tall windows of every column.
3. A flagging pass replaces every marked cell's value `v` by `-abs(v)`,
   counts the marked cells and returns that count.

`game.dfy` (module `Game`) models this function. `FindAndFlagMatches` is an
imperative method over an `array2<int>` of fixed size 8x8. It allocates a
fresh `matchBoard` and calls one method per pass: `MarkHorizontal`,
`MarkVertical` and `FlagMarked`. Each pass keeps the loop nesting and bounds of
the C code. The array accesses are checked, so every window the scans read is
proved to lie inside the board.

The specification works on a value snapshot of the board, `Cells(board)`, of
type `Grid` (`seq<seq<int>>`):

- `HWindow` / `VWindow`: a window of three equal values starting at a cell.
- `InMatch`: some window covers the cell.
- `MatchBoard`: the mask the two scans build.
- `Flagged`: the board after the flagging pass.
- `MatchCount`: the returned count, summed row by row over the mask.

The method promises these five things:

- The new board is `Flagged` of the old one.
- The result is `MatchCount` of the old board.
- The result lies in 0..64.
- On a board of candies, the result equals the number of negative cells
  afterwards.
- Every cell is still a 32-bit `int` afterwards.

Lemmas relate these definitions to independent descriptions:

- Runs of three or more equal values (`InRun`): a cell is matched exactly when
  it lies in such a run. This covers runs of 4 and 5.
- The set of matched cells: each matched cell is counted once.
- Boards with no window at all.
- Candy boards.

The array must be 8x8 and every cell must be a 32-bit `int`. C's `abs` is
undefined on `INT_MIN` and is applied only to matched cells, so a matched cell
must not hold `INT_MIN`. An unmatched cell may hold it, and it is left
unchanged. Under these conditions every cell is still a 32-bit `int`
afterwards. Values are otherwise unbounded Dafny `int`s. The counter never
exceeds 64, so it cannot overflow.

game.c has four candy types and no empty value. Equality is plain `int`
equality, and no value is skipped as a sentinel.

## Model

| member | source | states |
|---|---|---|
| Game.FindAndFlagMatches | game.c:54-93 | The board afterwards is the old board with every cell covered by a horizontal or vertical window of three equal values replaced by -abs of its value, and every other cell unchanged. The result is the number of such cells and lies in 0..64. On a candy board, the result also equals the number of negative cells afterwards. Every cell stays a 32-bit int. |
| Game.MarkHorizontal | game.c:59-68 | Starting from an all-zero match board, afterwards a cell holds 1 exactly when a horizontal 3-window of equal values covers it, and 0 otherwise. The board is only read. |
| Game.MarkVertical | game.c:71-80 | Starting from the horizontal marks, afterwards a cell holds 1 exactly when a horizontal or vertical 3-window of equal values covers it. Cells that are already marked stay marked. |
| Game.FlagMarked | game.c:83-92 | Every cell marked 1 becomes -abs(old value), every other cell keeps its value, and the result is the number of marked cells. |
| Game.HScanStep | game.c:60-66 | Visiting the window at (row, col) marks exactly its three cells when its three values are equal, and nothing else. |
| Game.VScanStep | game.c:72-78 | Visiting the vertical window at (row, col) marks exactly its three cells when its three values are equal, and nothing else. |
| Game.InMatchIffInRun | game.c:59-80 | A cell is marked if and only if it lies in a horizontal or vertical run of three or more equal values (both directions). |
| Game.HRunMatched | game.c:60-66 | Every cell of a horizontal run of length 3 or more (4 and 5 included) is marked, through overlapping 3-windows. |
| Game.VRunMatched | game.c:72-78 | Every cell of a vertical run of length 3 or more is marked. |
| Game.MatchedInRun | game.c:59-80 | A marked cell lies in some run of three equal values along one axis. |
| Game.FlaggedCells | game.c:85-87 | Flagging leaves abs of every cell unchanged, and a matched cell is never positive afterwards. |
| Game.MatchCountBounds | game.c:83-92 | The returned count lies between 0 and BOARD_WIDTH*BOARD_HEIGHT = 64. |
| Game.MatchCountIsDistinctCells | game.c:55-92 | The returned count is the cardinality of the set of matched cells. A cell covered by several windows, such as a row/column crossing or overlapping windows of a long run, is counted once. |
| Game.CountMarkedIsCardinality | game.c:83-90 | Counting the match board row by row, in the order of the flagging loop, counts each marked position exactly once. |
| Game.NoMatchIff | game.c:59-92 | The count is 0 if and only if the board has no horizontal or vertical window of three equal values. Such a board is left completely unchanged. |
| Game.CandyFlagging | game.c:83-92 | On a board of values 1..NUM_CANDY_TYPES (as main fills it, game.c line 24), a cell is negative afterwards exactly when it was matched. Each negative cell's negation is its original candy. The number of negative cells equals the count. |

## Left out

- `displayBoard` and the `printf` calls in `main`: terminal output only.
- The random population of the board in `main` (`srand(time(NULL))`, `rand() % NUM_CANDY_TYPES + 1`): it needs an external randomness source. Its only role here is the value range 1..4, which is the `CandyBoard` hypothesis of `CandyFlagging` and of the method's fourth postcondition.
- performance_test.c, main.c, functions.c and functions.h: a benchmark of passing a large struct by value versus by reference. It uses clocks, `malloc`/`memset` and floating-point timing. These have no behaviour a model can observe.
- 32-bit arithmetic: cell values are unbounded integers, restricted by precondition to the 32-bit range, with `INT_MIN` excluded from matched cells only. The source never computes a value outside that range, so wrap-around has no effect.
- The single C function is split into one Dafny method per pass. The split changes no behaviour: the method still allocates `matchBoard` and runs the passes in the C order.

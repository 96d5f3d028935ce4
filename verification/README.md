# n-rooks: a verified model of the board completer

The n-rooks program asks for the squares of up to eight rooks on an 8 x 8
chessboard. It then places the remaining rooks so that no two rooks share a
row or a column. This project models the two core files of that program and
proves properties of them:

- **`Util`** (`util.dfy`, modelling `src/util.ts`): the board and its constants.
  - The board is an 8 x 8 boolean `array2`; `true` is `ROOK`.
  - `EmptyBoard` models `EMPTY_BOARD`.
  - `ValidateBoard` is the in-place scan that rejects a board on which two rooks attack each other.
  - `ValidateInput` accepts a list of square labels only if every label matches `[A-H][1-8]` and no label repeats.
  - `ConvertCell` turns a label such as `"A5"` into row and column numbers. It follows JavaScript on malformed labels too: a missing character gives `NaN`, and a white-space column character reads as 0.
- **`Rooks`** (`rooks.dfy`, modelling `src/rooks.ts`): `SolveBoard`, the completer. It works in place in four steps:
  1. It collects the filled rows and columns (`ScanOccupied`).
  2. It lists the free rows and the free columns in ascending order (`FreeIndices`).
  3. It puts a rook on the i-th free row at the i-th free column.
  4. It returns the same board.

`SolveBoard` is proved against a reference definition, `Completion`. The proved properties of `Completion` are:

- On a non-attacking board it is a solution: one rook on every row and on every column, eight rooks in all, none attacking another.
- It keeps every original rook and changes nothing in an occupied row or column.
- It pairs free rows with free columns in order.
- It is the only solution with these properties.
- It can never repair an attacking board.
- It gives the expected boards for the empty, full, four-rook and seven-rook scenarios of the test suite.

## Model

| member | source | states |
|---|---|---|
| Util.EmptyBoard | src/util.ts:18-23 | the empty board is 8 x 8 with no rook on any square |
| Util.EmptyBoardNonAttacking | src/util.ts:18-23 | the empty board is a valid configuration |
| Util.SingleRookNonAttacking | src/util.ts:73-79 | a board with a single rook is valid: an attack needs two rooks |
| Util.ValidateBoard | src/util.ts:80-101 | returns true exactly when no two rooks share a row or a column |
| Util.ElementsCount | src/util.ts:126-131 | a list has as many distinct entries as entries exactly when no entry repeats, so the set-size test detects duplicates |
| Util.ValidateInput | src/util.ts:109-134 | returns true exactly when every label is a row letter A-H followed by a column digit 1-8 and no label occurs twice |
| Util.CellLabel | src/util.ts:61-68 | every square of the board has a label that passes the label check |
| Util.ConvertCell | src/util.ts:69-71 | a valid label converts to a square of the board whose label it is; an empty string gives (NaN, NaN); a one-character string gives a NaN column |
| Util.ConvertCellLabel | src/util.ts:61-71 | converting the label of square (row, col) gives back (row, col) |
| Util.ConvertCellInjective | src/util.ts:69-71 | two different valid labels never convert to the same square |
| Util.ConvertCellExamples | src/util.ts:65-71 | "A5" is (0, 4); "I4" and "A9" convert to squares off the board; "A " gives column -1; "Ax" gives a NaN column; "" gives (NaN, NaN) |
| Util.CellLabelExamples | src/test/util.test.ts:8-46 | "A9" and "I4" fail the label check; ["A1", "A1"] has only valid labels but repeats one; ["A1", "H8", "D3", "C7"] passes both checks |
| Rooks.ScanOccupied | src/rooks.ts:23-34 | returns exactly the rows that hold a rook and exactly the columns that hold a rook |
| Rooks.FreeIndicesSpec | src/rooks.ts:36-41 | the filter lists each unfilled index below n once, in ascending order, and nothing else |
| Rooks.FreeIndicesCount | src/rooks.ts:37-41 | when all filled indices are below n, n - (number filled) indices remain free |
| Rooks.FreeIndicesNoneFilled | src/rooks.ts:36-37 | with nothing filled the list is 0, 1, ..., n - 1 |
| Rooks.FreeLines | src/rooks.ts:39-41 | the free rows and the free columns of a board are listed completely and in ascending order |
| Rooks.FilledCount | src/rooks.ts:8-12 | on a non-attacking board the number of filled rows, of rooks and of filled columns are equal |
| Rooks.FreeCountsAgree | src/rooks.ts:40-45 | on a non-attacking board there are as many free rows as free columns, so the loop never reads past the free columns |
| Rooks.PairedIsFree | src/rooks.ts:43-46 | every square the loop fills lies on a free row and a free column |
| Rooks.CompletionNonAttacking | src/rooks.ts:8-17 | completing a non-attacking board creates no attacking pair |
| Rooks.CompletionFillsLines | src/rooks.ts:14-17 | after completing a non-attacking board, no row and no column is empty |
| Rooks.FullNonAttackingIsSolved | src/rooks.ts:8-10 | a non-attacking board with every row and column occupied has exactly one rook per row and per column, eight in all |
| Rooks.CompletionSolves | src/rooks.ts:3-21 | completing a non-attacking board solves it: non-attacking, one rook per row and per column, eight rooks |
| Rooks.CompletionKeepsAttack | src/rooks.ts:22-49 | the completed board is non-attacking exactly when the input board was |
| Rooks.CompletionExtends | src/rooks.ts:43-46 | every original rook stays; a square whose row or column already held a rook is unchanged |
| Rooks.CompletionPreservesOrder | src/rooks.ts:14-17 | of two added rooks, the one on the lower row is on the lower column |
| Rooks.CompletionIsUnique | src/rooks.ts:14-17 | any solution that keeps the original rooks and adds its rooks in row and column order equals the completion |
| Rooks.CompletionOfEmpty | src/test/rooks.test.ts:58-78 | the empty board is completed to the main diagonal |
| Rooks.CompletionOfFull | src/test/rooks.test.ts:80-100 | a board with a rook on every row is left unchanged |
| Rooks.CompletionOfFourRooks | src/test/rooks.test.ts:31-56 | rooks on (0,1), (2,5), (4,2), (6,7) are completed with (1,0), (3,3), (5,4), (7,6) |
| Rooks.CompletionOfSevenRooks | src/test/rooks.test.ts:6-29 | seven rooks are completed with the single rook at (2,5) |
| Rooks.SharedRowAttacks | src/test/util.test.ts:48-61 | a board with two rooks on row 3 is not a valid configuration |
| Rooks.SolveBoard | src/rooks.ts:22-49 | returns the same board; the new board is the completion of the old one; it keeps every old rook; it is non-attacking exactly when the old board was; and then it has one rook per row and per column |

## Left out

- `drawChessBoard` and its character constants: they only write to the console.
- The console messages that `validateBoard` and `validateInput` print before returning false.
- `src/index.ts` is not part of this model: the prompt, the splitting of the input line, `deepCopy` and `main`. It calls both validators but ignores their results. So `SolveBoard` and `ConvertCell` are modelled on any input rather than only on validated input.
- ValidateBoard, ScanOccupied, SolveBoard: only 8 x 8 boards are modelled. The JavaScript functions accept any nested array. On rows shorter than eight, `validateBoard` reads `undefined`, and `solveBoard`'s scan follows whatever shape it is given.
- SolveBoard: on an attacking board the free rows can outnumber the free columns. The source then assigns to `board[row][undefined]`, which adds a non-index property to the row array. The model's array has no such property, so that step changes no square.
- ConvertCell: strings are sequences of Unicode scalar values. JavaScript's `charCodeAt` and indexing see UTF-16 code units, so labels with characters outside the Basic Multilingual Plane are not converted as the source would convert them.
- ConvertCell: JavaScript numbers are floating point. The model uses exact integers plus `NaN`, which agree for single characters.
- ValidateInput: the regular expression `^[ABCDEFGH][12345678]$` is written as character comparisons; JavaScript's `Set` is modelled by Dafny's `set`.
- EmptyBoard: `EMPTY_BOARD` is one shared mutable array in the source; the model treats it as a value, so sharing it between callers is not modelled.

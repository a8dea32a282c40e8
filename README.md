# Sudoku solver: a verified model of the parser and the backtracking solver

The program reads a Sudoku puzzle as nine command-line arguments, one row each, written with the digits
`1`..`9` and `.` for a blank cell. It checks the input and then solves it by depth-first search. A solved
grid is reported only when the puzzle has exactly one solution. This project models two parts of it in
Dafny:

- **The parser** (`Parser.go`, module `Parser` in `parser.dfy`):
  - the argument count, row lengths and allowed characters;
  - building the `"A1".."I9"` map and counting the clues;
  - the 17-clue minimum;
  - the conflict check done by blanking each clue and asking `isValid`;
  - the empty-grid check.

  Each rejection is a `ParseError` value, and `Verdict` is the order in which the checks fire.
- **The solver** (`Solver.go`, module `Solver` in `solver.dfy`):
  - the per-row, per-column and per-box tables of used digits;
  - the minimum-remaining-values scan `findNextCell`;
  - the recursive `solve` closure, which counts solutions and saves the first one. From the second solution
    on, the level that counted returns at once;
  - `copyGrid`;
  - the outcome that `SolveSudoku` reports.

  The closures share state: the grid, the three tables, the solution counter and the saved grid. They
  become the fields of the class `Solver.Search` and the methods that update those fields in place.

Module `Grid` (`grid.dfy`) holds what both parts share:
- cell positions and the `"A1"` key naming;
- units (row, column, box by its corner);
- well-formed grids, conflicts and completions.

The Go map is a reference, so the grid is the class `Grid.GridMap`.

Module `SearchSpec` (`search_spec.dfy`) is the reference definition of the search:
- `NextCell` is the choice the scan must make.
- `Leaves(g)` is the sequence of full grids that the search reaches from `g`, in order.
- `Before(g, p, d)` is the part of that sequence produced by the digits below `d` at cell `p`.

These definitions support two groups of lemmas:
- The search is sound, complete and free of repeats.
- For a conflict-free grid, exactly one leaf means exactly one completion.

The solver's methods are proved against these definitions with the invariant `Tally`. `Tally` says what
the counter, the saved grid and the live grid are, for each prefix of the leaves explored so far.

Where the documentation and the code differ, the model follows the code, with one exception, the second
finding below:
- A puzzle with no blank cell is reported as not solved. See the first finding below.
- On each solution after the first, only the level that counted it returns, leaving its cell filled (Solver.go:117-118).
  Its caller undoes its own digit and tries the next one, so the search goes on and the counter can pass 2.
  Each such exit leaves one more cell filled, so the grid handed back with `false` is the caller's map, partly filled.
- On a conflict, `validateInitialGrid` returns with the conflicting cell still blanked. The parser then
  discards the grid.
- The check for an empty grid comes after the 17-clue check, so it can never fire.

## Model

| member | source | states |
|---|---|---|
| Grid.Name | Solver.go:48 | The key of an on-board cell is two runes, a row letter `A`..`I` then a column digit `1`..`9`, and reading it back gives the same cell. |
| Grid.KeyRoundTrip | Solver.go:48 | Conversely, every two-rune key of a letter `A`..`I` and a digit `1`..`9` names an on-board cell whose key is that key, so keys and cells correspond one to one. |
| Grid.Corner | Solver.go:53 | The subgrid key of a cell is an on-board cell whose row and column are multiples of three, with the cell inside the 3x3 block it starts. |
| Grid.CornerIsBoxCorner | Solver.go:53-57 | Every cell's subgrid key is one of the nine keys the box tables can have, and each of those nine is its own key. |
| Grid.SameBox | Solver.go:53 | Two cells have the same subgrid key exactly when their rows agree after division by three and their columns do too, which is exactly when the box numbers `(row/3)*3+col/3` agree. |
| Grid.PlaceDigit | Solver.go:109-110 | Writing a digit into a blank adds it to the digits of the cell's row, column and box, and to no other unit. |
| Grid.ClearDigit | Solver.go:122-123 | Blanking a digit that no peer holds removes it from the digits of the cell's three units, and from no other unit. |
| Grid.FillShrinks | Solver.go:107-112 | Filling a blank leaves strictly fewer blanks than the grid the search started from, so the recursion ends. |
| SearchSpec.OptionsZero | Solver.go:75-81 | A cell's option count is 0 exactly when no digit 1..9 may be placed there without repeating one in its row, column or box. |
| SearchSpec.MrvAfterChoice | Solver.go:69-88 | After scanning the first k cells: no cell and 10 exactly when none of them is blank. Otherwise the choice is a blank with the fewest options, the first such in scan order, and its count. |
| SearchSpec.NextCellChoice | Solver.go:68-90 | The full scan returns no cell (and 10) exactly when the grid has no blank. Otherwise it returns a blank among those with the fewest options, the first in A1..I9 order, and its option count. |
| SearchSpec.LeavesOfChoice | Solver.go:95-107 | When the chosen cell has no option the search reaches nothing. Otherwise it reaches, in order, what each digit 1..9 allowed in that cell reaches. |
| SearchSpec.BeforeStep | Solver.go:107-124 | Trying the next digit extends the leaves explored so far by the leaves of the grid with that digit placed, when the digit is allowed, and by nothing otherwise. |
| SearchSpec.LeavesOfFull | Solver.go:96-97 | A grid with no blank is itself the only full grid the search reaches from it. |
| SearchSpec.LeavesExtend | Solver.go:107-112 | Every grid the search reaches is well formed, full, and keeps every digit of the grid it started from. |
| SearchSpec.PlaceKeepsConflictFree | Solver.go:108-110 | Placing a digit the tables allow into a conflict-free grid keeps it conflict-free. |
| SearchSpec.LeavesSound | Solver.go:94-127 | From a conflict-free grid, every full grid the search reaches is a completion of it. |
| SearchSpec.LeavesComplete | Solver.go:94-127 | Every completion of a grid is among the full grids the search reaches from it, with no precondition of conflict-freedom. |
| SearchSpec.LeavesDistinct | Solver.go:107-125 | The search never reaches the same full grid twice. |
| SearchSpec.LeavesCount | Solver.go:15-18 | For a conflict-free grid: the search reaches nothing exactly when there is no completion, and exactly one grid exactly when the completion is unique. Its first leaf is a completion. |
| SearchSpec.BeforePrefix | Solver.go:107-125 | The leaves found with the digits below one bound are a prefix of those found below a higher bound. |
| Solver.CopyGrid | Solver.go:137-143 | The destination ends as its old contents overridden by every entry of the source, also when both are the same map. |
| Solver.SetupDone | Solver.go:45-60 | After all 81 cells, the row and column tables hold exactly each unit's digits. A box table exists exactly for the boxes that hold a clue, and holds that box's digits. |
| Solver.RecordTables | Solver.go:33-60 | The setup as written: the row and column tables hold exactly the digits of each row and column. A box table exists exactly for the boxes that hold a clue, and holds exactly that box's digits. |
| Solver.EmptyBoxNoTable | Solver.go:53-57 | A box without a clue gets no table, although its corner cell is blank and every completion writes a digit there. When the grid has a completion, the search reaches a full grid with a digit in that cell, so some write at line 110 targets a box table that does not exist. |
| Solver.LeafFillsCell | Solver.go:107-115 | When a grid has a completion, the search reaches a full grid, and that grid holds a digit in any given cell, so the search writes into every cell that starts blank. |
| Solver.BuildTables | Solver.go:33-60 | The setup with all nine box tables created up front: every table exists and holds exactly its unit's digits, whichever boxes hold a clue. |
| Solver.RecordRow | Solver.go:46-60 | Recording one row extends the tables from the cells before it to the cells up to its end. |
| Solver.RecordCell | Solver.go:48-58 | Recording one cell adds its digit to its row, column and box tables, creating the box table on first use. |
| Solver.TablesDecide | Solver.go:78 | When the tables mirror the grid, the box table of every cell exists. A digit is absent from all three tables exactly when it may be placed there. |
| Solver.PeerBlocks | Solver.go:108 | A digit held by any peer of a cell cannot be placed in that cell. |
| Solver.PlaceKeepsNoNewConflict | Solver.go:108-110 | Placing an allowed digit never creates a conflict that involves a digit the solver wrote. |
| Solver.PlaceKeeps | Solver.go:108-110 | Placing an allowed digit keeps the tables exact, once each of the three tables has gained the digit, and keeps the clues intact. |
| Solver.UnplaceKeeps | Solver.go:122-123 | Undoing a digit the solver wrote keeps the tables exact, once each of the three tables has lost the digit, and keeps the clues intact. |
| Solver.TallyPrefix | Solver.go:117-118 | Once more than one solution has been counted, the bookkeeping is already final for every later extension of the explored leaves. |
| Solver.TallySkip | Solver.go:108 | A digit the tables refuse adds no leaf and changes no state. |
| Solver.TallyChild | Solver.go:109-123 | Placing a digit, searching below it and undoing it tallies exactly the leaves below that digit. When the counter has passed one, the state is the one the search left behind. |
| Solver.TallyFromScratch | Solver.go:129-134 | From a zero counter, the counter ends at 1 exactly when one leaf was reached. The saved grid is then that leaf and the live grid is back as it was, which also holds whenever at most one leaf was reached. |
| Solver.Search.constructor | Solver.go:33-65 | For any well-formed grid, the search starts with tables that mirror it, including all nine box tables (the corrected setup, see Findings), a zero counter and a fresh, empty saved grid. |
| Solver.Search.FindNextCell | Solver.go:68-90 | The scan returns exactly the reference choice `NextCell` of the current grid (see `SearchSpec.NextCellChoice`). |
| Solver.Search.ScanRow | Solver.go:71-87 | Scanning a row carries the reference choice from the start of the row to its end. |
| Solver.Search.ScanCell | Solver.go:73-86 | Scanning one cell carries the reference choice past that cell, replacing the best cell only on a strictly smaller count. |
| Solver.Search.CountOptions | Solver.go:75-81 | The count from the tables is the number of digits that may be placed in the cell. |
| Solver.Search.Place | Solver.go:109-110 | The grid gains the digit, each of the three tables gains it, the counter is unchanged and the invariant holds. |
| Solver.Search.Unplace | Solver.go:122-123 | The cell is blank again, each of the three tables loses the digit, the counter is unchanged and the invariant holds. |
| Solver.Search.Solve | Solver.go:94-127 | Returns true exactly when the grid has no blank, and then changes nothing. Otherwise, while at most one solution has been counted, the counter, the saved grid and the restored live grid are those that exploring the reference leaves in order produces. Once a second solution is counted the counter stays above one, and later exits may leave cells filled. The grid only ever extends the one given. |
| Solver.Search.TryDigit | Solver.go:107-125 | One turn of the digit loop extends the tally from the digits below `num` to the digits up to `num`. The turn reports a stop only when more than one solution has been counted, and then its digit stays in the cell. |
| Solver.Search.Descend | Solver.go:109-123 | Placing the digit, recursing and undoing tallies the leaves below that digit. A stop means more than one solution has been counted; the placement then stays. Without a stop the cell is blank again. |
| Solver.Search.CountSolution | Solver.go:113-116 | The counter goes up by one and the live grid is unchanged. On the first solution the saved grid receives a copy of the live grid. |
| Solver.SolveSudoku | Solver.go:31-135 | Reports success exactly when the input has a blank and the search reaches exactly one full grid. Success hands back a fresh copy of that grid with the input untouched. Failure hands back the input map, extended, and untouched when at most one grid was reached. For a conflict-free input, success means the completion is unique, and a unique completion of a grid with a blank means success. |
| Solver.FullGridRejected | Solver.go:129-134 | A full conflict-free grid satisfies the solver's precondition and has exactly one completion, itself. It is also the search's only leaf, so `SolveSudoku` reports it as not solved. |
| Solver.SolveSudokuCounted | Solver.go:129-134 | With a top-level completion counted, success means exactly one leaf, and for a conflict-free grid exactly a unique completion, including a grid with no blank. |
| Parser.RowCheck | Parser.go:42-52 | A row passes exactly when it has 9 characters, each a digit `1`..`9` or `.`. A wrong length is reported before a bad character. |
| Parser.FirstRowError | Parser.go:39-65 | No row error is reported exactly when every row from the given one to row 9 passes. |
| Parser.FirstRowErrorIs | Parser.go:39-52 | A reported row error is the error of some row, and every row before that one passes. |
| Parser.GridOf | Parser.go:54-58 | The grid built from nine good rows has exactly the 81 cells, each a digit or a blank. |
| Parser.PrefixStep | Parser.go:55-63 | Reading one more cell writes it once under its own key, and adds one to the clue count exactly when it is not a dot. |
| Parser.PrefixAll | Parser.go:39-65 | After the 81 cells the map is exactly the grid of the input. |
| Parser.ScansCoverUnits | Parser.go:117-141 | The three scans of `isValid` pass exactly when no cell in the row, column or box of the position holds the digit. |
| Parser.IsValid | Parser.go:113-144 | True exactly when no cell in the row, the column or the 3x3 box of the position holds the digit. The position itself counts, and a missing key reads as the zero rune. |
| Parser.IsValidIffCanPlace | Parser.go:113-144 | On a well-formed grid `isValid` agrees with the solver's own rule for placing a digit. |
| Parser.ValidatesIffConflictFree | Parser.go:88-100 | Blanking each clue and asking `isValid` accepts a well-formed grid exactly when no digit repeats in a row, column or box. |
| Parser.ValidateInitialGrid | Parser.go:88-100 | Returns true exactly when every clue passes the blank-and-check test, and then leaves the grid as it was. On false the grid differs from the input only in one clue left blanked. |
| Parser.IsEmptyGrid | Parser.go:103-110 | True exactly when the grid holds no clue. |
| Parser.ParseRow | Parser.go:39-65 | Reading one row reports exactly that row's error. Without an error, the map and clue count cover every cell up to the end of the row. |
| Parser.ReadCell | Parser.go:48-63 | A character is rejected exactly when it is neither a digit `1`..`9` nor a dot. Otherwise it is stored under its key and counted when it is a clue. |
| Parser.ParseRows | Parser.go:39-65 | Reports the first failing row's error. Otherwise all nine rows pass, and the map is the input's grid with its exact clue count. |
| Parser.ParseInput | Parser.go:23-85 | The error is the one `Verdict` names: row count, then the first bad row, then too few clues, then conflicts, then empty. A grid is returned exactly when there is no error, and it is a fresh map of the input. |
| Parser.VerdictAccepts | Parser.go:23-85 | An input is accepted exactly when it has nine rows of nine allowed characters, at least 17 clues and no conflict. |
| Parser.RowReported | Parser.go:39-52 | A row's length or character error is reported exactly when every earlier row passes and that row fails. |
| Parser.RowErrorsInOrder | Parser.go:39-52 | The length error of row i is reported exactly when the earlier rows pass and row i is not 9 long. Its character error is reported exactly when the earlier rows pass, row i is 9 long and holds a character that is neither a digit nor a dot. |
| Parser.RowCountFirst | Parser.go:25-27 | The row-count error is reported exactly when there are not nine rows, and then with the number of rows given. |
| Parser.TooFewCluesCount | Parser.go:61-70 | The too-few-clues error is reported exactly when the rows are well shaped and hold fewer than 17 clues, and it carries the clue count. |
| Parser.EmptyGridUnreachable | Parser.go:67-81 | The empty-grid error is never reported: an empty grid has fewer than 17 clues and is rejected earlier. |

## Findings

| source | as written | input that shows it | evidently intended | confidence | as-written member | corrected member |
|---|---|---|---|---|---|---|
| Solver.go:129-134 | `solve` counts a solution only after placing a digit. A puzzle with no blank returns true from the top-level call, which `SolveSudoku` ignores, so the counter stays 0 and the result is `false`. | Any complete, conflict-free grid, for example the solved grid of any valid puzzle given as input (81 clues passes every parser check). | The header comment (Solver.go:15-18, 25-26) promises the solved grid whenever there is exactly one solution. A complete valid grid has exactly one, itself. | not executed; medium (a full grid might be meant as no puzzle) | Solver.SolveSudoku, Solver.FullGridRejected | Solver.SolveSudokuCounted |
| Solver.go:54-57 | A box's table of used digits is created only when the setup finds a clue in that box. Placing a digit in a clue-less box writes into a nil Go map, which panics. The parser checks the clue count and conflicts, not the boxes, so it accepts such grids. | Rows `...123456`, `...456789`, `...789123`, then six rows `.........`. That is 18 clues, no conflict and an empty top-left box. The search first picks a cell of that box, the one with the fewest options. | Every grid the parser accepts is solved without a crash: all nine box tables are created before the scan, as the row and column tables are at Solver.go:37-43. | not executed; high | Solver.RecordTables, Solver.EmptyBoxNoTable | Solver.BuildTables (used by Solver.Search.constructor, so Solver.SolveSudoku requires only a well-formed grid) |

## Left out

- Reading `os.Args` and printing results (`Main/main.go`) are not modelled. The argument vector is a parameter, with the program name first. Main/main.go is not part of this model beyond that.
- The `fmt.Errorf` messages are not modelled. Each message is a `ParseError` constructor that carries the numbers the message prints.
- Runes and UTF-8: each row is a sequence of characters taken as ASCII. Go's `len` counts bytes, while `range` walks runes. For a row with multi-byte characters the two differ, and the model does not follow that difference.
- Go's randomised map iteration order is not modelled. `validateInitialGrid` and `copyGrid` pick the next key with `:|`, so their proofs hold for every order.
- Solver.SolveSudoku: requires a well-formed grid, which is what the parser returns (`Parser.GridOf`). The panic on a clue-less box is not modelled as an outcome. It is shown by `Solver.EmptyBoxNoTable`, and the solver uses the corrected `Solver.BuildTables` (see Findings).
- Solver.Search.Solve: the `decreases` clause is the number of blanks. Running time and the depth of the Go call stack are not modelled.
- Parser.IsValid: requires an on-board position. In the source it is only called with keys of the parsed grid, and those are always on the board.
- Solver.Search.FindNextCell: the loop over rows and the loop over columns are the methods `ScanRow` and `ScanCell`, and the options loop is `CountOptions`. This splits one closure into three methods, without changing what they compute.
- Solver.Search.TryDigit: one turn of the digit loop of `solve` is a method, and the placement, recursive call and undo of a turn is `Descend`. Same computation, split for the proof.
- Concurrency does not arise: the program is single-threaded.

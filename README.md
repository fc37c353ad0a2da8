# Sudoku solver: a verified Dafny model

This project models the core of a Go Sudoku solver. `main.go` and `singleThread.go` carry
the same core; they differ only in how `init` fills the two lookup tables. The core has four
parts:

- the lookup tables `bitCount` and `firstDigit` over all nine-bit masks;
- the `Puzzle` record: a 9x9 grid of cells, the `rows`, `cols` and `boxes` digit masks and
  the `emptyCell` counter;
- the parser `ParsePuzzle` and the renderer `ToString`;
- the search: `getBox`, `getPossibilities`, `findBestCell`, `setCell`, `clearCell` and the
  recursive backtracking `solve`.

The model keeps the Go code's form. `Puzzle` is a class with its arrays. `setCell`,
`clearCell`, `solve` and the parser change them in place, and the nested loops of
`ParsePuzzle`, `ToString`, `findBestCell` and `init` stay loops. Each method is proved
against a specification on values:

- `Grid.State` holds the grid in row-major order, the three masks and the counter.
- `Grid.Place` and `Grid.Unplace` are `setCell` and `clearCell` on a state.
- `Grid.Consistent` is the representation invariant: each mask holds exactly the digits
  placed in its row, column or box, and the counter is the number of empty cells.
- `Puzzles.Parsed` is the state after reading a prefix of the text.

Files and modules:

- `bits.dfy`, module `Bits`: Go's `uint16` masks as naturals below 2^16. `|`, `&` and `^`
  are defined bit by bit, together with population count and lowest set bit.
- `lookup_tables.dfy`, module `LookupTables`: the tables, with both shapes of `init`.
- `grid.dfy`, module `Grid`: the grid, its rules (candidates, duplicates, solutions), the
  state and its invariant, and the text form.
- `grid_lemmas.dfy`, module `GridLemmas`: facts about writing into and clearing a cell,
  about candidates, and about solutions.
- `puzzle.dfy`, module `Puzzles`: the `Puzzle` class and the parse and solve entry points.

The main results:

- Parsing well-formed text gives a consistent puzzle, and rendering it gives the text back.
- `setCell` followed by `clearCell` restores the state exactly.
- `findBestCell` returns the cell its scan selects.
- `solve` is sound: a `true` result means the grid is complete, keeps every given digit,
  and has no duplicate when the givens had none.
- `solve` is complete: a `false` result means no solution keeps the givens, and the
  puzzle is back in its starting state.

## Model

Rows for the shared puzzle code cite main.go. In singleThread.go the same functions sit 24 lines earlier
(`ParsePuzzle` at 47-65 through `ToString` at 143-157), and the same rows apply there.


| member | source | states |
|---|---|---|
| LookupTables.CountSetBits | main.go:34-42 | The count of j in 0..8 with `i & (1 << j) != 0` is the number of set bits among bits 0..8 of i, between 0 and 9. |
| LookupTables.FindFirstBit | main.go:44-52 | The early-`break` scan returns the lowest set bit among bits 0..8, and -1 exactly when all of them are clear. |
| LookupTables.CountAndFindFirst | singleThread.go:22-37 | The combined scan returns both the bit count and the lowest set bit, and the first is -1 exactly when the count is 0. |
| LookupTables.Tables.SeparateLoops | main.go:34-52 | After the two passes, `bitCount[m]` is the population count of m's nine low bits and `firstDigit[m]` is m's lowest set bit or -1, for every m in 0..511. |
| LookupTables.Tables.CombinedLoop | singleThread.go:22-37 | The single pass builds the same two tables. |
| Bits.LowestBitSpec | main.go:44-52 | For a nine-bit mask, the lowest-bit index is -1 exactly for 0; otherwise that bit is set and every lower bit is clear. |
| Bits.PopCountZero | main.go:34-42 | A nine-bit mask has a bit count of 0 exactly when it is 0. |
| Bits.Not16 | main.go:97 | Bit i of `^a` on a `uint16` is set exactly when i < 16 and bit i of a is clear. |
| Bits.Or16 | main.go:97 | The bits of `a \| b` are the union of the bits of a and b, and the result stays a `uint16`. |
| Bits.And16 | main.go:97 | The bits of `a & b` are the common bits, and the result is at most each operand. |
| Bits.DigitBit | main.go:131 | `1 << d` for a digit index d has exactly bit d set. |
| Bits.ComplementMask | main.go:95-98 | `^(a \| b \| c) & ALL_BITS` is at most 0x1FF, and bit i is set exactly when i < 9 and none of a, b, c has bit i. |
| Bits.ClearAfterSet | main.go:129-145 | Clearing with `&= ^bit` a bit that `\|= bit` set gives back the original mask, when the bit was clear before. |
| Bits.ClearDecreases | main.go:162 | Clearing a set bit of `poss` makes it strictly smaller, so solve's loop terminates. |
| Bits.DropLowest | main.go:153-163 | When poss holds the untried candidates from some digit up, its lowest bit is the least untried candidate. Clearing that bit leaves exactly the candidates above it, and there is no candidate in between. |
| Grid.GetBox | main.go:91-93 | For a cell in range, the box index is in 0..8. |
| GridLemmas.GetBoxIsQuotient | main.go:91-93 | The box index equals getBox's `(row / 3) * 3 + col / 3`. The model computes the quotient by 3 by comparison (`Grid.Third`). |
| Grid.Cell | main.go:73-85 | Position k of the row-major text names a cell in range whose position is k. |
| Grid.CandidateCount | main.go:112-113 | A cell has at most nine candidates. |
| GridLemmas.CellOfIdx | main.go:73-85 | The cell named by position `row * 9 + col` is (row, col). |
| GridLemmas.IdxFacts | main.go:73-85 | Two cells share a row-major position exactly when they are the same cell. |
| GridLemmas.MasksAfterWrite | main.go:129-136 | Writing digit v into an empty cell and or-ing v's bit into its row, column and box masks keeps every mask equal to the digits placed in its unit. |
| GridLemmas.PlaceConsistent | main.go:129-136 | `setCell` on an empty cell keeps the representation invariant and makes the empty count one smaller. |
| GridLemmas.UnplaceAfterPlace | main.go:129-145 | `clearCell` after `setCell` with the same cell and a candidate digit gives back the state exactly: grid, all three masks and the counter. |
| GridLemmas.PossibilitiesAreCandidates | main.go:95-98 | In a consistent state, bit i of the possibilities mask is set exactly when digit i + 1 appears in none of the cell's row, column and box. |
| GridLemmas.PopCountIsCandidateCount | main.go:112-113 | In a consistent state, the table count of a cell's possibilities is its number of candidates. |
| GridLemmas.PlaceCandidateNoDuplicates | main.go:129-136 | Writing a candidate into an empty cell of a grid without duplicates creates none. |
| GridLemmas.NotInUnit | main.go:95-98 | A candidate digit of a cell is held by no cell of its row, column or box. |
| GridLemmas.SolutionValueIsCandidate | main.go:153-163 | The digit any solution puts at an empty cell is a candidate of that cell. |
| GridLemmas.SolutionUnits | main.go:147-165 | In a grid that solve's success describes (complete, no duplicates), every row, column and box holds each digit 1..9. Its nine cells hold no repeat, so it holds each digit exactly once. |
| GridLemmas.NoCandidateSolvable | main.go:153-164 | If no candidate written into an empty cell leads to a solution, the grid has none. Branching on one cell loses nothing. |
| GridLemmas.ExtendsAfterWrite | main.go:156-159 | A solution that keeps the grid after a write into an empty cell also keeps the grid before it. |
| GridLemmas.NoEmptyIsComplete | main.go:148-151 | A well-formed grid with no empty cell is complete. |
| GridLemmas.SomeEmptyCell | main.go:101-111 | A grid whose empty count is positive has an empty cell. |
| GridLemmas.MarksAreEmptyCells | main.go:82-84 | The number of '.' in a prefix of the text is the number of empty cells it produces. |
| GridLemmas.RenderGridOf | main.go:167-181 | Rendering the grid read from puzzle text gives back the text. |
| GridLemmas.GridOfRender | main.go:167-181 | Rendering a well-formed grid gives puzzle text that reads back as the same grid. |
| Puzzles.Puzzle.Parse | main.go:71-89 | Parsing 81 characters over '1'..'9' and '.' gives a puzzle whose grid is the text's digits. Its masks are exactly the digits of each row, column and box, and `emptyCell` is the number of '.'. |
| Puzzles.Puzzle.Fill | main.go:74-87 | The two nested loops leave the puzzle in the state reached by reading all 81 characters. |
| Puzzles.Puzzle.FillRow | main.go:75-86 | The inner loop moves the puzzle from the state after 9i characters to the state after 9(i + 1). |
| Puzzles.Puzzle.ReadCell | main.go:75-84 | Reading the character of cell (row, col): a digit is recorded as below, a '.' counts one more empty cell, and the puzzle becomes the state `ReadChar` gives for that character. |
| Puzzles.Puzzle.Record | main.go:76-81 | The digit branch writes digit + 1 into the cell and sets its bit in the row, column and box masks. It is `setCell` without the counter change, and nothing else moves. |
| Puzzles.Puzzle.ParsedValid | main.go:71-89 | The state after all 81 characters satisfies the representation invariant, its grid is the text's, and its counter is the number of '.'. |
| Puzzles.ParsedFacts | main.go:74-87 | After n characters, the first n cells hold the characters' values and the rest are empty. The masks match the grid, and the counter is the number of '.' read. |
| Puzzles.ParsedStep | main.go:76-85 | Reading one more character keeps that description. |
| Puzzles.StepGrid | main.go:76-85 | Reading character k writes its value into cell k and changes no other cell. |
| Puzzles.StepMasks | main.go:76-81 | Reading a digit into an empty cell keeps the masks matching the grid. |
| Puzzles.StepCount | main.go:82-84 | Reading character k adds one to the counter exactly when it is '.'. |
| Puzzles.ZeroMasksMatch | main.go:72 | The zeroed record (empty grid, zero masks) satisfies the mask invariant. |
| Puzzles.Puzzle.GetPossibilities | main.go:95-98 | The result is at most 0x1FF, and bit i is set exactly when i < 9 and bit i is clear in the cell's row, column and box masks. |
| Puzzles.Puzzle.CandidateBits | main.go:95-98 | In a consistent puzzle, bit i of getPossibilities is set exactly when digit i + 1 is a candidate of the cell. |
| Puzzles.Puzzle.FindBestCell | main.go:100-127 | Not found exactly when `emptyCell == 0`, and then (0, 0, 0). Otherwise the cell is empty, the mask is its getPossibilities, and every earlier empty cell has more candidates and not exactly one. Unless the cell has exactly one candidate, no empty cell has fewer. |
| Puzzles.ScanStep | main.go:111-122 | One cell of the scan: a filled cell or one with no fewer candidates keeps the best so far. A cell with fewer, but not exactly one, becomes the best. A cell with exactly one, fewer than the minimum, is the final answer. |
| Puzzles.KeepBest | main.go:111-123 | A filled cell, or one with no fewer candidates, keeps the current best cell. |
| Puzzles.NewBest | main.go:114-118 | An empty cell with strictly fewer candidates, but not exactly one, becomes the best cell, first in row-major order. |
| Puzzles.ScanDone | main.go:126 | After all 81 cells with some cell empty, the best cell is the first empty cell with the fewest candidates. |
| Puzzles.Puzzle.SetCell | main.go:129-136 | The new state is the old one with val written into the cell, val's bit set in the row, column and box masks, and one fewer empty cell. Nothing else changes. |
| Puzzles.Puzzle.ClearCell | main.go:138-145 | The new state is the old one with the cell emptied, val's bit cleared in the row, column and box masks, and one more empty cell. Nothing else changes. |
| Puzzles.Puzzle.Solve | main.go:147-165 | The invariant is kept. With no empty cell, it returns true and changes nothing. A true result leaves a complete grid that keeps every earlier digit, and a solution when the starting grid had no duplicates. A false result restores the puzzle exactly, and no solution keeps the starting grid. |
| Puzzles.Puzzle.TryDigit | main.go:154-162 | One try of solve's loop (setCell, recursive solve, clearCell on failure) either succeeds as solve does, or restores the state and shows the cell cannot hold that digit in any solution. |
| Puzzles.Exhausted | main.go:153-164 | When poss is empty and every candidate tried so far was refuted, the grid has no solution. |
| Puzzles.Puzzle.ToString | main.go:167-181 | The result is the 81 characters in row-major order, '.' for an empty cell and the digit otherwise. It is puzzle text that reads back as the grid. |
| Puzzles.ParseAndRender | main.go:167-181 | `ToString(ParsePuzzle(s))` is s for every well-formed text s. |
| Puzzles.SolveText | singleThread.go:176-183 | For one input line, a solved result is rendered text that completes the givens, and is a solution when the givens have no duplicates. An unsolved result is the failure line, and then the givens have no solution. |

## Left out

- `main` in both files and `solvePuzzles`: reading stdin, writing `solutions.txt`, timing and
  printing are I/O, and the worker pool with channels and a wait group is concurrency.
  `SolveText` models only one step of singleThread.go's loop; the `solved` counter and the
  writer are left out.
- `rowMasks`, `colMasks`, `boxMasks` and `digitValues` are filled by `init` in main.go but
  never read by the solver.
- Malformed input: `ParsePuzzle` checks neither length nor alphabet. The model requires 81
  characters over '1'..'9' and '.' instead of modelling Go's byte underflow and oversized
  shifts on other characters.
- Cells are `int` values in 0..9 rather than Go bytes; the conversions `byte(digit)` and
  `cells + '0'` never leave range for such values.
- Masks are naturals below 2^16 with the bitwise operators defined bit by bit. The Go
  `uint16` arithmetic never wraps on the values that occur.
- Puzzles.Puzzle.FindBestCell: minimality over all empty cells is stated only when the chosen
  cell does not have exactly one candidate. The code returns at the first one-candidate cell without
  scanning the rest, so a later cell with no candidates goes unseen. The contract says exactly
  what the code does.
- Puzzles.Puzzle.Solve: the ascending order of tries is a loop invariant of `Solve` (every
  smaller candidate has been refuted when a digit is tried), not part of its contract.
- The loop bodies of `ParsePuzzle` and `solve` are separate methods (`Fill`, `FillRow`,
  `ReadCell`, `Record`, `TryDigit`); Go writes them inline. `Record` computes the box index inline, as
  `ParsePuzzle` does.
- Nothing is claimed about running time or the benefit of the minimum-remaining-value
  choice.

# 6×6 Sudoku solver — Dafny model

A model of the `Sudoku` class of a backtracking solver for 6×6 Sudoku with
2×3 boxes. Each cell is either a single digit or a pair of two digits
(`two_vals`), and 0 marks an open slot. The model has three modules.

- `Board` (Board.dfy) is the value layer:
  - the `Cell` record and the 6×6 `Grid`;
  - the slots of a cell, and the test `locate_unsolved` applies to find an open cell;
  - the row, column and box scans as predicates, with the box found from `2*(r/2)` and `3*(c/3)`;
  - the count of open slots, which is the solver's termination measure;
  - what a *completion* of a grid is (`IsSolutionOf`): every open slot is
    filled with a digit 1..9, nothing else changes, and every filled digit
    differs from every other slot of its row, column and box, the other slot
    of its own cell included. This self-inclusive scope is exactly what the scans look at.
- `Solver` (Solver.dfy) is the class `Sudoku`, with its `grid` field updated in place:
  - `ValidRow`, `ValidCol` and `ValidBox` are the early-return scan loops, each proved equivalent to its predicate. `ValidEntry` has no loop of its own: it chains the three scans.
  - `LocateUnsolved` is the row-major search. The C++ reference parameters `r`, `c` become the inputs `r`, `c` and the outputs `row`, `col`.
  - `Solve` is the recursive search with undo. It is proved to succeed *exactly* when the entry grid has a completion, and then to leave one in the grid. When it fails, the grid is restored to its entry state.
- `Codec` (Codec.dfy) is the text format:
  - `std::stoi`, as sign, leading digits and a 32-bit range check;
  - reading one token into a cell, and the nested loop that reads 36 tokens into six rows. The `std::invalid_argument` and `std::out_of_range` that `std::stoi` throws on a malformed token become an `Err` result.
  - what `>>` leaves in its buffer, including after the input runs out;
  - the text `operator<<` prints and the text `Save` writes, proved equal;
  - splitting that text into tokens at blanks, as successive `>>` do. Reading back what was printed gives back the grid, for every grid whose cells can be stored as text.

`Solve` never checks the given digits against each other, so a grid with no open slot is reported solved even when its digits clash (`Board.ClashingFullGridIsSolved`, src/sudoku.cpp:71-74). `Solver.Sudoku.Solve` states this outright: no open slot on entry means success with the grid unchanged.

## Model

| member | source | states |
|---|---|---|
| Board.Target | src/sudoku.cpp:76-84 | the slot the solver fills is open; it is the second slot exactly when the cell is a pair whose first slot is already set |
| Board.WithSlot | src/sudoku.cpp:90-95 | writing a digit into one slot sets that slot, keeps every other slot of the grid and never changes whether a cell is a pair |
| Board.BoxTop | src/sudoku.cpp:181 | the box's top row `2*(r/2)` is even and lies within the two rows ending at r |
| Board.BoxLeft | src/sudoku.cpp:182 | the box's left column `3*(c/3)` is a multiple of 3 and lies within the three columns ending at c |
| Board.EntryFreeIffScopeFree | src/sudoku.cpp:201-203 | the row, column and box scans all passing is the same as no slot (either slot of any cell) in the digit's row, column or box holding it |
| Board.CellOpenCount | src/sudoku.cpp:123-134 | a cell has at most two open slots, and none exactly when the locate test passes it over |
| Board.PlaceDecreasesOpenCount | src/sudoku.cpp:88-97 | writing a non-zero digit into an open slot lowers the number of open slots by one, so the recursion terminates |
| Board.OpenCountZero | src/sudoku.cpp:66-74 | the number of open slots is zero exactly when no cell is open |
| Board.FullGridSolvesItself | src/sudoku.cpp:71-74 | a grid with no open slot is its own completion |
| Board.ClashingFullGridIsSolved | src/sudoku.cpp:71-74 | a full grid whose first row repeats the digit 1 still counts as its own completion |
| Board.FixedSlotKept | src/sudoku.cpp:90-95 | a slot that is not open on entry keeps its value in every completion |
| Board.SolutionAdmitsEntry | src/sudoku.cpp:88-89 | the digit any completion puts into the target slot is in 1..9 and passes the scans on the grid before it is written, so the ascending trial reaches it |
| Board.PlaceKeepsSolution | src/sudoku.cpp:90-97 | writing the digit a completion has into the target slot leaves that completion a completion of the new grid |
| Board.ExtendSolution | src/sudoku.cpp:89-98 | a digit that passes the scans, written into the target slot, turns every completion of the new grid into a completion of the old one |
| Board.RestoreSlot | src/sudoku.cpp:102-108 | resetting the target slot to 0 restores the grid, whether or not a digit was written |
| Solver.Sudoku.constructor | src/sudoku.hpp:17-23 | the object holds the six rows of six cells it is given |
| Solver.Sudoku.ValidRow | src/sudoku.cpp:147-154 | true exactly when no cell of row r has either slot equal to `val` |
| Solver.Sudoku.ValidCol | src/sudoku.cpp:163-170 | true exactly when no cell of column c has either slot equal to `val` |
| Solver.Sudoku.ValidBox | src/sudoku.cpp:179-191 | true exactly when no cell of the 2×3 box at `(2*(r/2), 3*(c/3))` has either slot equal to `val` |
| Solver.Sudoku.ValidEntry | src/sudoku.cpp:201-203 | true exactly when no slot in the row, column or box of (r, c) holds `val`, the cell's own other slot included |
| Solver.Sudoku.LocateUnsolved | src/sudoku.cpp:120-137 | returns the first cell in row-major order that is open (pair: either slot 0; single: first slot 0), or leaves (r, c) unchanged when there is none |
| Solver.Sudoku.Solve | src/sudoku.cpp:62-112 | succeeds exactly when the entry grid has a completion; on success the grid is a completion of the entry grid, so only open slots changed and only to clash-free digits 1..9; on failure the grid is as on entry; with no open slot it succeeds and changes nothing |
| Codec.Stoi | src/sudoku.cpp:46 | a successful read is a 32-bit `int` and the token holds a digit; it fails with `InvalidArgument` exactly when no digit follows the optional sign |
| Codec.StoiValue | src/sudoku.cpp:46 | after an optional sign, the maximal run of leading digits is read as a decimal number, negated after '-', and the rest of the token is ignored; a value outside the 32-bit `int` range gives `OutOfRange` |
| Codec.StoiNoDigits | src/sudoku.cpp:46 | a token whose optional sign is not followed by a digit (including "", "+" and "-") gives `InvalidArgument` |
| Codec.StoiSignExamples | src/sudoku.cpp:46 | "+5" reads as 5 and "-5" as -5 |
| Codec.StoiLeadingZeroExample | src/sudoku.cpp:46 | "07" reads as 7 |
| Codec.StoiTrailingExamples | src/sudoku.cpp:46 | "1x" reads as 1 (trailing text ignored), and "x1" fails with `InvalidArgument` |
| Codec.StoiOfNatText | src/sudoku.cpp:46 | reading the decimal text of a number up to `INT_MAX` gives the number |
| Codec.ParseToken | src/sudoku.cpp:24-48 | a token with '/' reads as a pair; any other as a single cell with second slot 0, and with first slot 0 when it holds '-'; a '/' token shorter than two characters fails |
| Codec.ParseTokenForms | src/sudoku.cpp:24-48 | the tokens `D` and `D/D`, with D a digit 1..9 or '-', read as the cell they denote, '-' as 0 |
| Codec.CellRoundTrip | src/sudoku.cpp:24-48 | reading the printed text of a cell gives the cell back, for pairs of digits 0..9 and for single cells up to `INT_MAX` |
| Codec.TokenAt | src/sudoku.cpp:23 | extraction n yields the n-th token while there is one; past the end `in` keeps what it last held, a token already read, or "" when there was none (`Codec.TokenAtPastEnd` pins it to the last token) |
| Codec.TokenAtPastEnd | src/sudoku.cpp:23 | every extraction after the input runs out yields the same text, the last token read |
| Codec.Collect | src/sudoku.cpp:21-54 | a successful read of n cells yields exactly n cells |
| Codec.CollectSpec | src/sudoku.cpp:21-54 | reading n cells succeeds exactly when each of the first n extractions reads as a cell, and then cell k is what extraction k read |
| Codec.ParseGrid | src/sudoku.cpp:21-54 | a grid read successfully has six rows of six cells |
| Codec.Rows | src/sudoku.cpp:50-53 | 36 cells become six rows of six, cell (i, j) being cell 6i+j |
| Codec.ParseGridSpec | src/sudoku.cpp:21-54 | reading succeeds exactly when each of the 36 extractions reads as a cell, and cell (i, j) is what extraction 6i+j read |
| Codec.ParseGridError | src/sudoku.cpp:21-54 | the first extraction that fails decides the error reading the grid raises |
| Codec.ReadGrid | src/sudoku.cpp:21-54 | the nested loop yields the grid, or the error, that reading the 36 tokens in order defines |
| Codec.ReadRow | src/sudoku.cpp:22-51 | the inner loop either extends the cells read so far by the six cells of row i, or fails with the grid's error |
| Codec.ReadStep | src/sudoku.cpp:23-50 | one extraction after k cells were read: if the token fails, reading the grid fails with that error; if it reads, the k+1 cells read are the k before and this one |
| Codec.CellTextShape | src/sudoku.cpp:216-220 | the text of a cell, printed the same way by `Save` (lines 241-245), is one non-empty token without blanks, and holds '/' exactly when the cell is a pair |
| Codec.StreamRowLayout | src/sudoku.cpp:214-225 | `operator<<` prints a row without a newline, with `|row| - 1` spaces, and single-spaced: every blank is ' ', the text neither starts nor ends with one, and no two are adjacent |
| Codec.StreamTextLayout | src/sudoku.cpp:211-229 | `operator<<` prints one newline per row, and its text ends in a newline |
| Codec.SaveRowLayout | src/sudoku.cpp:240-249 | `Save` writes columns j.. of a row without a newline and with `5 - j` spaces; the text is what `operator<<` prints for those cells, so it is single-spaced with no trailing space |
| Codec.SaveLinesLayout | src/sudoku.cpp:239-251 | `Save` writes one line per remaining row, each with five spaces |
| Codec.SaveTextLayout | src/sudoku.cpp:236-252 | the file `Save` writes has six newlines and thirty spaces |
| Codec.SaveRowIsStreamRow | src/sudoku.cpp:240-249 | for a row of six cells, what `Save` writes from column j on is what `operator<<` prints for cells j..5: the `j <= 4` test puts a space where the end-of-row test does |
| Codec.SaveLinesIsStreamText | src/sudoku.cpp:239-251 | the lines `Save` writes from row i on are the text `operator<<` prints for those rows |
| Codec.SaveMatchesStream | src/sudoku.cpp:236-252 | `Save` writes exactly the text `operator<<` prints |
| Codec.WordsAreWords | src/sudoku.cpp:23 | every token `>>` extracts is non-empty and holds no blank |
| Codec.WordThenSpace | src/sudoku.cpp:23 | a token followed by a blank is extracted as that token, and extraction goes on after the blank |
| Codec.WordsOfSaveRow | src/sudoku.cpp:240-249 | the tokens of a saved row, whatever its cells, are the texts of its cells, in order, followed by the tokens of what comes after the newline |
| Codec.WordsOfSaveLines | src/sudoku.cpp:239-251 | the tokens of the lines `Save` writes from row i on are the texts of those rows' cells, in row-major order |
| Codec.GridTextWords | src/sudoku.cpp:211-252 | for every grid, the text `Save` writes and the text `operator<<` prints both split into exactly the 36 cell texts, in row-major order |
| Codec.SaveThenRead | src/sudoku.cpp:239-251 | the saved text holds 36 tokens, and reading it back gives the saved grid whenever its cells can be stored as text |
| Codec.PrintThenRead | src/sudoku.cpp:211-229 | the same round trip for the text `operator<<` prints |

## Left out

- Opening files and streams, and I/O failure, are left out (src/sudoku.cpp:17, 237). `Solver.Sudoku.constructor` takes the grid that `Codec.ReadGrid` reads from the sequence of tokens. `Codec.Words` and `Codec.TokenAt` stand in for the stream and `>>`.
- `std::endl` flushing is left out: only the newline it writes is modelled.
- A read that fails for a reason other than end of input is left out.
- Codec.Stoi: does not skip leading whitespace, because the tokens `>>` extracts never contain any.
- Text is modelled as a sequence of characters, while `std::string::find` and `substr` index bytes. A token holding a multi-byte character can therefore read differently: in `1é-/` the model sees '-' at index 2, where `substr(2,1)` takes byte 2, the second byte of 'é' (0xA9).
- Exceptions other than those `std::stoi` throws are left out. The one `substr` could throw (`substr(2,1)` past the end) is preceded by a `std::stoi` that has already failed on the same token.
- Solver.Sudoku.Solve: states that *a* completion is found, not which one. The ascending trial finds the first in row-major, digit-ascending order.
- Solver.Sudoku.Solve: its running time is left out. The search is exhaustive backtracking, and the model proves only that it terminates.
- Solver.Sudoku.constructor: takes an already parsed grid instead of a file name, so the exceptions thrown while reading surface as `Codec.ReadGrid` errors rather than from the constructor.
- Codec.SaveThenRead: covers only cells whose text reads back unchanged. A pair slot outside 0..9, a negative value, or a single cell whose unused second slot is not 0 does not round-trip: only one character per pair slot is read, '-' means open, and the reader sets a single cell's second slot to 0 (src/sudoku.cpp:47). `Codec.GridTextWords` still holds for every grid. The solver never writes such values.

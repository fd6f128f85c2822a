# Minesweeper engine, verified in Dafny

This project models the game engine of a small Java Minesweeper. The engine is two classes:

- the board (`MinesweeperBoard`) holds a `boardHeight x boardWidth` grid of squares, the mine counter shown to the player, and the elapsed time;
- each square (`MineSquare`) holds its own state: revealed, mine, flagged, its number of adjacent mines, and whether it accepts clicks.

A new game builds a grid of fresh squares. It places the mines by rejection sampling, then sets every square's number to the count of mines among its in-bounds Moore (8-)neighbours.

Revealing a square whose number is 0 makes the square call back into the board's "clear all around" (the chord). The chord reveals every neighbour that is neither flagged nor revealed, and those neighbours may cascade in turn. This mutual recursion is the flood fill. The model proves that it terminates, by the number of hidden squares.

The model keeps the source's form:
- `MineSquare` and `MinesweeperBoard` are classes with the source's fields;
- the grid is an `array2`;
- methods change fields in place, with field-level `modifies` frames;
- `SetRevealed` and `ClearAllAround` are mutually recursive methods.

`Valid()` ties the grid to a ghost set `Squares`: square `(i, j)` exists, stores `(i, j)` and belongs to the board. The methods are specified against ghost views of the board:
- `RevealedSquares`, `FlaggedSquares` and `MineSquares`;
- `NumbersCorrect`, `Settled` (no hidden, unflagged neighbour) and `ChordAllowed`.

Module `Neighbourhood` holds the pure arithmetic: the eight offsets in the board code's order, the bounds test, and `AdjacentCount` together with its cardinality characterisation. Module `AsWritten` keeps the chord's bounds tests exactly as the code writes them, for the findings below.

The model follows the code where a player might expect otherwise:
- a left click on a flagged, hidden square reveals it, because the click handler (src/def/MineSquare.java:190-193) does not test the flag;
- nothing ends the game when a mine is revealed, because the call at src/def/MineSquare.java:153 is commented out, and there is no win check.

Where the code evidently does not do what was meant, the code as written is modelled beside the intended behaviour, and the rest of the model uses the intended one (see "## Findings"). There are four such places:
- the chord's bounds tests disagree with the bounds the number computation uses;
- `unflag`'s guard disagrees with its comment;
- the direction in which flags move the mine counter disagrees with the counter's comment;
- a new game keeps the counter, which disagrees with the counter's comment once flags were set.

The flood fill's reach is stated with two predicates. `ClosedIn(C, N)` says that every square of N beside a zero square of C is itself in C. `ReachedFrom(A, N)` says that the only part of N that contains A and is closed in this sense is N itself. Together they mean that every square of N is reached from A through a chain of zero squares in N.

## Model

| member | source | states |
|---|---|---|
| Neighbourhood.AdjacentIff | src/def/MinesweeperBoard.java:93-100 | the eight offsets the board tests are exactly the Moore neighbours: q differs from p by at most one in each coordinate and is not p |
| Neighbourhood.NeighboursAreAdjacent | src/def/MinesweeperBoard.java:93-100 | a position is an in-bounds neighbour exactly when it is on the board and adjacent |
| Neighbourhood.CountOver | src/def/MinesweeperBoard.java:93-100 | a count over a list of offsets is at most the list's length, so an adjacent-mine number lies in [0, 8] |
| Neighbourhood.AdjacentCountExpanded | src/def/MinesweeperBoard.java:92-100 | the adjacent count is the sum of the eight guarded tests, in the code's order NW, N, NE, W, E, SW, S, SE |
| Neighbourhood.CountOverSnoc | src/def/MinesweeperBoard.java:92-100 | counting one more offset adds that offset's test to the running count |
| Neighbourhood.NeighboursOverMembers | src/def/MinesweeperBoard.java:93-100 | the squares the tests visit are the on-board positions at the listed offsets |
| Neighbourhood.CountOverIsCardinality | src/def/MinesweeperBoard.java:92-100 | over distinct offsets, the running count is the number of marked positions the tests visit |
| Neighbourhood.AdjacentCountIsCardinality | src/def/MinesweeperBoard.java:92-100 | a square's number is the size of the set of its in-bounds neighbours that are mines |
| Neighbourhood.NoneMarkedAround | src/def/MinesweeperBoard.java:92-101 | a square whose count is 0 has no marked in-bounds neighbour |
| Neighbourhood.FlagsCoverMines | src/def/MinesweeperBoard.java:151-160 | when every flag is on a mine and the flagged-neighbour count equals the mine count, every mine around the square is flagged |
| Neighbourhood.RowCellsSize | src/def/MinesweeperBoard.java:73-75 | a row of the grid has boardWidth positions |
| Neighbourhood.CellsSplit | src/def/MinesweeperBoard.java:72-76 | the grid is its last row plus the disjoint rows above it |
| Neighbourhood.CellsSize | src/def/MinesweeperBoard.java:72-76 | the grid has height * width positions |
| Minesweeper.MineSquare.constructor | src/def/MineSquare.java:48-66 | a new square stores its coordinates and board and is hidden, not a mine, not flagged, and interactable |
| Minesweeper.MineSquare.SetNumber | src/def/MineSquare.java:72-74 | the square's number becomes n and nothing else changes |
| Minesweeper.MineSquare.SetMine | src/def/MineSquare.java:95-97 | the square is a mine afterwards whatever it was before, so a second call changes nothing |
| Minesweeper.MineSquare.SetInteractable | src/def/MineSquare.java:141-143 | interactable becomes b and nothing else changes |
| Minesweeper.MineSquare.Flag | src/def/MineSquare.java:110-116 | the guard and flag update of `flag`, with the counter moving as the field's comment at src/def/MinesweeperBoard.java:36 says it should (it holds the mines not yet flagged): a hidden, unflagged square becomes flagged and the counter goes down by one; otherwise nothing changes; the flagged set gains exactly this square; counter plus flag count is preserved |
| Minesweeper.MineSquare.FlagAsWritten | src/def/MineSquare.java:110-116 | the code as written: a hidden, unflagged square becomes flagged and the counter goes UP by one; otherwise nothing changes; counter minus flag count is preserved, so the counter counts flags on top of the mines |
| Minesweeper.MineSquare.Unflag | src/def/MineSquare.java:118-127 | the documented behaviour: a hidden flagged square loses its flag and the counter of unflagged mines goes up by one; otherwise nothing changes; the flagged set loses exactly this square; counter plus flag count is preserved |
| Minesweeper.MineSquare.UnflagAsWritten | src/def/MineSquare.java:121-127 | the code as written never changes a flag, and on a hidden unflagged square still moves the counter down by one |
| Minesweeper.MineSquare.SetRevealed | src/def/MineSquare.java:145-161 | the square is revealed; the revealed set only grows; no other flagged square is revealed; a mine or a numbered square reveals only itself; a zero square leaves no hidden unflagged neighbour; every zero square uncovered was expanded; with correct numbers no other mine is uncovered; every square it reveals is reached from this square through a chain of zero squares it uncovered |
| Minesweeper.MineSquare.MouseClicked | src/def/MineSquare.java:184-208 | a non-interactable square ignores clicks; a right click on a hidden square toggles its flag by calling the corrected `Flag` and the documented `Unflag` (as written, `unflag` at line 122 never removes a flag), so the counter goes down on a flag and up on an unflag; a left click on a hidden square reveals it with SquareClicked's guarantees: the revealed set only grows, no other flagged square is revealed, uncovered zero squares are settled and everything revealed is reached from this square; a middle or double click on a revealed square is the chord with ClearAllAround's guarantees: nothing changes when it is refused, the square is settled when it is honoured, no flagged square is revealed, uncovered zero squares are settled and everything revealed is reached from its revealed neighbours; every other click changes nothing; every click preserves counter plus flag count |
| Minesweeper.MineSquare.Reveal | src/def/MineSquare.java:192-194 | the left click on a hidden square, which calls `squareClicked`: the square ends revealed, no flag changes, no other newly revealed square is flagged, every uncovered zero square is settled and everything newly revealed is reached from this square |
| Minesweeper.MineSquare.Chord | src/def/MineSquare.java:199-206 | the chord of a double or middle click, which calls `clearAllAround`: no flag changes; a refused chord changes nothing; an honoured one settles the square; no newly revealed square is flagged, every uncovered zero square is settled and everything newly revealed is reached from the square's newly revealed neighbours |
| Minesweeper.MinesweeperBoard.ZeroIsSafe | src/def/MinesweeperBoard.java:88-101 | with correct numbers, no square numbered 0 has a mine beside it |
| Minesweeper.MinesweeperBoard.ChordIsSafe | src/def/MinesweeperBoard.java:146-169 | with correct numbers, a chord the board honours on a zero square, or on a square whose flags all lie on mines, has no unflagged mine among its neighbours |
| Minesweeper.MinesweeperBoard.PositionAt | src/def/MinesweeperBoard.java:71-76 | a position is among those of a set of squares exactly when it is on the board and the square there is in the set |
| Minesweeper.MinesweeperBoard.PositionsSize | src/def/MinesweeperBoard.java:71-76 | distinct squares of the grid sit at distinct positions |
| Minesweeper.MinesweeperBoard.SquaresCount | src/def/MinesweeperBoard.java:71-76 | the grid holds exactly boardHeight * boardWidth squares |
| Minesweeper.MinesweeperBoard.constructor | src/def/MinesweeperBoard.java:192-221 | the start-up: the board has the given size, mine count and correct numbers; the counter starts at the number of mines, which is counter plus flag count, and the time at 0; no square is revealed or flagged; the mines sit at drawn positions, all numMines are placed exactly when the draws hold numMines distinct positions, and otherwise every drawn position is a mine |
| Minesweeper.MinesweeperBoard.NewGame | src/def/MinesweeperBoard.java:68-111 | a fresh valid grid with correct numbers, nothing revealed or flagged and every square interactable; at most numMines mines; `placed` exactly when there are numMines of them, and then numMines is at most the grid size; the mines sit at drawn positions; `placed` exactly when the draws hold numMines distinct positions, and otherwise the mines are exactly the drawn positions; the time is 0 and the counter unchanged |
| Minesweeper.MinesweeperBoard.Restart | src/def/MinesweeperBoard.java:68-111 | the corrected new game: NewGame's fresh grid, correct numbers and draw guarantees, with the counter set back so that counter plus flag count is numMines, as the field's comment says |
| Minesweeper.MinesweeperBoard.BuildBoard | src/def/MinesweeperBoard.java:70-76 | a fresh boardHeight x boardWidth grid in which square (i, j) stores (i, j) and is hidden, unflagged, mine-free and interactable |
| Minesweeper.MinesweeperBoard.Populate | src/def/MinesweeperBoard.java:77-104 | mines then numbers: every number correct, and the mines and `placed` related to the draws as for NewGame |
| Minesweeper.MinesweeperBoard.PlaceMines | src/def/MinesweeperBoard.java:77-85 | at most numMines mines; `placed` exactly when there are numMines of them, and then numMines is at most the number of squares; every mine is at a drawn position; when the draws run out, every drawn position is a mine |
| Minesweeper.MinesweeperBoard.PlaceOne | src/def/MinesweeperBoard.java:80-84 | one round of placement: it consumes draws from d; either the draws run out, all drawn squares are mines and nothing changes, or exactly one square that was not a mine, the one at the last draw consumed, becomes one |
| Minesweeper.MinesweeperBoard.DrawSquare | src/def/MinesweeperBoard.java:81-83 | the do-while: it returns the square at the first draw from d that is not a mine, having skipped only mines, or null when every draw is a mine; it changes nothing |
| Minesweeper.MinesweeperBoard.DrawsCount | src/def/MinesweeperBoard.java:79-85 | from PlaceMines' guarantees: the mine positions are a subset of the distinct drawn positions, equal to them when placement fails, and placement succeeds exactly when the draws hold at least numMines distinct positions |
| Minesweeper.MinesweeperBoard.DrawsAllMines | src/def/MinesweeperBoard.java:81-83 | when every drawn square is a mine, every drawn position is the position of a mine |
| Minesweeper.MinesweeperBoard.SetNumbers | src/def/MinesweeperBoard.java:86-104 | every square's number is its adjacent-mine count and lies in [0, 8] |
| Minesweeper.MinesweeperBoard.SetRowNumbers | src/def/MinesweeperBoard.java:89-103 | every number in row i is its adjacent-mine count; the mines are unchanged |
| Minesweeper.MinesweeperBoard.MinesAround | src/def/MinesweeperBoard.java:91-100 | the eight guarded tests count exactly the mines among the in-bounds neighbours, never indexing off the board |
| Minesweeper.MinesweeperBoard.FlaggedAround | src/def/MinesweeperBoard.java:147-158 | the corrected flag count of the chord: exactly the flagged squares among the in-bounds neighbours |
| Minesweeper.MinesweeperBoard.SquareClicked | src/def/MinesweeperBoard.java:113-116 | on a revealed square nothing changes; otherwise the square is revealed, with SetRevealed's guarantees, and every square revealed is reached from it through a chain of zero squares revealed by the click; only `revealed` fields are in its frame, so no flag changes |
| Minesweeper.MinesweeperBoard.ClearAllAround | src/def/MinesweeperBoard.java:146-170 | if the flag count is not the number and the number is not 0, nothing changes; otherwise no hidden unflagged neighbour remains; no flagged square is revealed; the revealed set only grows; uncovered zero squares are expanded; a chord on a safe square uncovers no mine; every square revealed is reached from a revealed neighbour of the sender through a chain of zero squares the chord uncovered |
| Minesweeper.MinesweeperBoard.RevealNeighbours | src/def/MinesweeperBoard.java:160-169 | all eight neighbours, with corrected bounds, end revealed or flagged; no flagged square is revealed; with safe neighbours no mine is uncovered; every square revealed is reached from a revealed neighbour of the sender through a chain of newly revealed zero squares |
| Minesweeper.MinesweeperBoard.ChordComplete | src/def/MinesweeperBoard.java:161-168 | once all eight offsets are handled, the sender has no hidden unflagged neighbour |
| Minesweeper.MinesweeperBoard.AroundStep | src/def/MinesweeperBoard.java:161-168 | the neighbours at the first k + 1 offsets are those at the first k plus the on-board square at offset k |
| Minesweeper.MinesweeperBoard.RevealStep | src/def/MinesweeperBoard.java:161-168 | one guarded reveal of the chord keeps its progress and moves it from k to k + 1 offsets |
| Minesweeper.MinesweeperBoard.AroundKept | src/def/MinesweeperBoard.java:161-168 | settling the square at offset k extends "all neighbours handled" from k to k + 1 offsets |
| Minesweeper.MinesweeperBoard.SafetyKept | src/def/MinesweeperBoard.java:161-168 | a reveal that can uncover a mine only at an unflagged neighbour of a safe sender keeps the chord mine-free |
| Minesweeper.MinesweeperBoard.RevealIfHidden | src/def/MinesweeperBoard.java:161 | the square at q, when on the board, ends revealed or flagged; only it can be a newly uncovered mine; either nothing is revealed, or the square at q is and every square revealed is reached from it through a chain of newly revealed zero squares; earlier sound reveals stay sound |
| Minesweeper.MinesweeperBoard.RevealHidden | src/def/MinesweeperBoard.java:161 | a hidden unflagged neighbour ends revealed; it is the only possible newly uncovered mine; every square revealed is reached from it through a chain of newly revealed zero squares; earlier sound reveals stay sound |
| Minesweeper.MinesweeperBoard.Uncover | src/def/MineSquare.java:149-159 | revealing a hidden square, seen from the board: it ends revealed, the cascade reveals no other flagged square and expands every zero square it uncovers, and every square revealed is reached from it through a chain of newly revealed zero squares |
| Minesweeper.MinesweeperBoard.SeedReaches | src/def/MineSquare.java:155-158 | a zero square that reveals itself and then runs a chord whose squares are reached from its neighbours has reached everything it revealed from itself |
| Minesweeper.MinesweeperBoard.SeedAlone | src/def/MineSquare.java:150-154 | a mine or a numbered square, which reveals only itself, has reached that set from itself |
| Minesweeper.MinesweeperBoard.NothingReached | src/def/MinesweeperBoard.java:160 | a chord that is not honoured reveals nothing, and the empty set is trivially reached |
| Minesweeper.MinesweeperBoard.ReachGrows | src/def/MinesweeperBoard.java:161-168 | if a chord has reached A from the squares of A beside the sender, and then reveals a neighbour y of the sender with the squares B reached from y, it has reached A + B from the squares of A + B beside the sender |
| Minesweeper.MinesweeperBoard.ReachedIsFed | src/def/MinesweeperBoard.java:146-170 | reachability implies the one-step form: every reached square outside the seeds is beside a zero square of the same reveal |
| Minesweeper.MinesweeperBoard.LocalityKept | src/def/MinesweeperBoard.java:161-168 | one more guarded reveal of a neighbour, which reveals nothing or reaches its squares from that neighbour, keeps every square the chord revealed reached from a revealed neighbour of the sender |
| Minesweeper.MinesweeperBoard.FailGame | src/def/MinesweeperBoard.java:134-144 | every square is no longer interactable; the revealed, flagged and mine sets are unchanged |
| Minesweeper.MinesweeperBoard.IncrementMineCount | src/def/MinesweeperBoard.java:121-124 | the counter goes up by exactly one |
| Minesweeper.MinesweeperBoard.DecrementMineCount | src/def/MinesweeperBoard.java:129-132 | the counter goes down by exactly one |
| Minesweeper.MinesweeperBoard.ActionPerformed | src/def/MinesweeperBoard.java:173-182 | the time goes up by one exactly when the event comes from the time timer |
| AsWritten.LiteralChordTargets | src/def/MinesweeperBoard.java:151-168 | the positions the chord's literal guards admit are all adjacent to the sender |
| AsWritten.LiteralNeverEast | src/def/MinesweeperBoard.java:155 | the literal east test `j + 1 < j` never holds: the east neighbour is never counted or revealed |
| AsWritten.LiteralLeavesBoard | src/def/MinesweeperBoard.java:156-158 | on the 10 x 19 start-up board the chord on (9, 5) admits (10, 4) and (10, 5), in row 10, which is off the board |
| AsWritten.LiteralMissesNeighbour | src/def/MinesweeperBoard.java:165 | on the 10 x 19 board the chord on (0, 0) skips (0, 1), an on-board neighbour |
| AsWritten.LiteralGuardOnSquareBoard | src/def/MinesweeperBoard.java:151-158 | on a square board each literal guard but the east one is the true bounds test |
| AsWritten.LiteralOnSquareBoard | src/def/MinesweeperBoard.java:161-168 | on a square board the literal chord reaches every in-bounds neighbour except the east one |
| Minesweeper.RestartAfterFlag | src/def/MinesweeperBoard.java:68-111 | as written, a new game after one flag (placed by the corrected `Flag`) on a 2 x 2 board with one mine leaves no flag and a counter of 0, one below the number of unflagged mines |

## Left out

- Rendering is left out: icons, labels, `setIcon`/`setGraphic`, the JavaFX scene, `FaceLabel`, `LocalImage`, the mouse-preview handlers and the `printf` debugging. None of it affects game state.
- Timers are left out. The Swing timers and the double-click detection (`clickedOnce`) are input timing. `MouseClicked` takes a `doubleClick` flag instead, and a first left click on a revealed square changes nothing.
- `java.util.Random` is replaced by a sequence of draws that the caller supplies. When the draws run out before all mines are placed, `NewGame` returns `placed == false`; the code would keep drawing. On a non-empty grid with fewer squares than `numMines`, the code never terminates. On an empty grid with `numMines` at least 1, `rand.nextInt(0)` at src/def/MinesweeperBoard.java:82 throws `IllegalArgumentException`.
- Minesweeper.MinesweeperBoard.constructor takes the height, width and mine count as parameters. The start-up code fixes them at 10, 19 and 10.
- Getters (`getNumber`, `isMine`, `isFlagged`, `isRevealed`, `getx`, `gety`) are field reads in the model.
- MinesweeperBoard's eight literal `if` tests are written as one loop over the eight offsets, in the same order. `AdjacentCountExpanded` states that the count is the same eight-term sum.
- Minesweeper.MinesweeperBoard.FailGame is never called, because the call in `setRevealed` is commented out. So no game-over, and no win condition, exists in the model either. Its mine-icon display and timer stop are rendering and are left out.
- The mine-safety properties are additions, not promises of the code: `ZeroIsSafe`, `ChordIsSafe`, and the "uncovers no mine" clauses of `SetRevealed`, `ClearAllAround` and `RevealNeighbours`.
- `NewGame` leaves `currentNumMines` unchanged, as the code does, and clears every flag. Counter plus flag count equals numMines at start-up. A new game started while k squares are flagged leaves the counter k below numMines with no flag on the board (see "## Findings"). `Restart` is the corrected new game.

## Findings

| source | as written | input that shows it | evidently intended | confidence | as-written member | corrected member |
|---|---|---|---|---|---|---|
| src/def/MinesweeperBoard.java:151-168 | the chord compares columns with `boardHeight`, rows with `boardWidth`, and tests the east neighbour with `j + 1 < j` | on the 10 x 19 start-up board, a chord on (9, 5) evaluates `board[10][4]` at line 156 and throws `ArrayIndexOutOfBoundsException`, so every chord on the bottom row, including one a cascade reaches, aborts; a chord on (0, 0) never counts or reveals (0, 1) | rows tested against the height and columns against the width, as in the number computation at lines 93-100, with the east neighbour included | not executed | AsWritten.LiteralLeavesBoard | Minesweeper.MinesweeperBoard.FlaggedAround |
| src/def/MineSquare.java:121-127 | `unflag` acts only when the square is hidden and NOT flagged | a right click on a flagged hidden square calls `unflag`, which leaves it flagged, so no flag can ever be removed | act when hidden and flagged, as the method's comment at line 119 says | not executed | Minesweeper.MineSquare.UnflagAsWritten | Minesweeper.MineSquare.Unflag |
| src/def/MineSquare.java:110-127 | `flag` increments the mine counter and `unflag` decrements it | on the 10 x 19 start-up board with 10 mines, flagging one hidden square makes the counter show 11 | the counter holds "the number of mines currently not flagged" (the field's comment at src/def/MinesweeperBoard.java:36), so a flag decrements it and an unflag increments it | medium, not executed | Minesweeper.MineSquare.FlagAsWritten | Minesweeper.MineSquare.Flag |
| src/def/MinesweeperBoard.java:68-111 | `newGame` builds a grid with no flags but never resets `currentNumMines`, which only start-up sets (line 214) | on a 2 x 2 board with one mine, flag (0, 0) (with the counter moving down, as the corrected `Flag` does), then start a new game: no square is flagged and the counter shows 0 instead of 1 | the counter is set back to numMines with the fresh grid, so that it holds "the number of mines currently not flagged" (line 36) | medium, not executed | Minesweeper.RestartAfterFlag | Minesweeper.MinesweeperBoard.Restart |

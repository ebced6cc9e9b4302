# Random Mines — a Dafny model of the board engine

Random Mines is a JavaFX Minesweeper game. The board is a row-major
`width * height` grid held in three parallel arrays: `field` stores either
the mine marker `-1` or the number of mines among the cell's (up to eight)
neighbours; `revealed` records which cells are open; `flagged` holds each
cell's flag state (none, flag, question mark). A flag counter tracks the
flags on the board. Revealing a mine loses the game. Revealing a `0`
uncovers the zero-connected region and its border (flood fill). After every
safe reveal, the "random" variant moves each mine the player has not flagged
onto a hidden empty cell. It then recounts the board and expands every
revealed zero again. The same repository holds a number-placing game, and
its ascending placement rule is modelled too.

The model has these modules:

- `Counting` (`counting.dfy`): counting the `true` entries of a boolean
  sequence, with lemmas for updating, splitting and bounding the count.
- `Grid` (`grid.dfy`): the neighbour enumeration of `forEachNeighbor`, which
  visits up to eight on-board positions in row-offset then column-offset
  order. It is proved to yield exactly the adjacent cells. The module also
  defines mine tallies over a neighbour list and the consistency of a field
  with its counts.
- `Flood` (`flood.dfy`): the vocabulary shared by the reveal and its lemmas,
  stated over sequences. It has a neighbour table `nb` (`nb[m]` lists cell
  `m`'s neighbours), "every uncovered zero is expanded" (`ZeroClosed`), and
  the reveal trail: the order in which cells were uncovered, each next to the
  origin or to an earlier zero (`Spreads`), or, for the expansion pass after
  relocation, next to a zero revealed before the pass (`SpreadsFrom`). Its lemmas show that on a
  consistent field the flood never uncovers a mine.
- `MinesGame` (`mines.dfy`): the class `Mines` with the three arrays, the
  counter and the board dimensions. Its methods model `generateField`,
  `reveal`, `popFieldVoid`, `flag`, `checkWin`, `randomizeRemaining` and the
  state setup of `startGame`. Every method is proved against a contract over
  its arrays. The invariant `Sound` (every count is right, the announced
  number of mines is on the board, no revealed mine) is proved preserved by
  every operation that keeps the game going.
- `AscendingPlacement` (`placement.dfy`): `isValidPlacement` and
  `canPlaceNext`. Each is a loop method proved equal to a declarative
  predicate. Lemmas relate the two checks.
- `BoardExamples` (`examples_board.dfy`): the 4 by 4 board of the
  repository's flood-fill test, with the exact outcome of revealing its
  top-left cell derived from `Reveal`'s contract. It also has a method that
  runs `Reveal` on that board.

Random draws (`rand.nextInt` in the rejection-sampling loops) become Dafny
`:|` choices among the cells the loop would accept. Rejected draws change
nothing, so they are not modelled. The neighbour table `nb` and the reveal
`trail` are ghost: they exist only for the proofs.

Some behaviours of the code that the model keeps as written, including two
where the code and its tests differ:

- `reveal` (`Mines.java:501-530`) does not refuse a flagged cell, and
  `Reveal` does not either. The test at `MinesTest.java:96-104` expects an
  exception there.
- On the 4 by 4 board of `MinesTest.java:150-205`, revealing cell 0 opens
  every cell except cell 3. The test checks only eight of them. The cells it
  does not check include cell 2 (a neighbour of zero cell 1) and the mine at
  cell 12 (a neighbour of zero cell 8, whose stored count of 0 is
  inconsistent with the layout).
- The win test (`Mines.java:320-343`) checks two conditions: no hidden safe
  cell, and a revealed count equal to the number of cells minus
  `totalMines`. The model requires both.
- The click handler calls `randomizeRemaining` (`Mines.java:406`) without
  looking at the `randomMode` flag, which is only toggled and displayed
  (`Mines.java:276-277`).
- `isValidPlacement` accepts a value equal to a neighbouring value, but
  `canPlaceNext` compares strictly. The two can therefore disagree about
  repeated values (`AscendingPlacement.EqualValueAcceptedButNotBracketed`).

## Model

| member | source | states |
|---|---|---|
| Counting.CountUpdate | src/code/ca/bcit/comp2522/project/Mines.java:201-205 | changing one entry changes the count by exactly the entry's change; this is how each placed mine and each flag click is counted |
| Counting.CountSplit | src/code/ca/bcit/comp2522/project/Mines.java:433-447 | a count splits into the counts of two disjoint masks that cover it (kept and moved mines, safe cells and mines) |
| Counting.CountZero | src/code/ca/bcit/comp2522/project/Mines.java:455-465 | the count is zero exactly when no entry is set, so a positive count of free cells means the draw loop has a cell to pick |
| Counting.CountFull | src/code/ca/bcit/comp2522/project/Mines.java:196-206 | the count equals the length exactly when every entry is set, so fewer mines than cells leaves a cell to pick |
| Counting.CountStrict | src/code/ca/bcit/comp2522/project/Mines.java:522 | revealing a hidden cell strictly raises the number of revealed cells, which is why the mutual recursion of reveal and expansion ends |
| Counting.CountMonotone | src/code/ca/bcit/comp2522/project/Mines.java:455-465 | a mask contained in another has no larger count (every moved mine leaves a free hidden cell behind) |
| Grid.Neighbors | src/code/ca/bcit/comp2522/project/Mines.java:146-182 | the enumeration yields at most eight positions, all on the board |
| Grid.NeighborsExact | src/code/ca/bcit/comp2522/project/Mines.java:146-182 | a position is yielded exactly when it is on the board, differs from the cell, and lies within one row and one column of it |
| Grid.NeighborsSymmetric | src/code/ca/bcit/comp2522/project/Mines.java:146-182 | `j` is a neighbour of `i` exactly when `i` is a neighbour of `j` |
| Grid.NeighborsDistinct | src/code/ca/bcit/comp2522/project/Mines.java:156-181 | the enumeration visits no cell twice, since the eight offsets give positions with different rows or columns |
| Grid.FirstCornerNeighbors | src/code/ca/bcit/comp2522/project/Mines.java:156-181 | the top-left corner's neighbours are `1, w, w + 1`, in the loop's order |
| Grid.LastCornerNeighbors | src/code/ca/bcit/comp2522/project/Mines.java:156-181 | the bottom-right corner's neighbours are its upper-left, upper and left cells, in the loop's order |
| Grid.MineCount | src/code/ca/bcit/comp2522/project/Mines.java:215-224 | a cell's neighbour mine count is at most 8 |
| Grid.MinesAmongCountsSet | src/code/ca/bcit/comp2522/project/Mines.java:215-222 | over a list without repeats, the tally of mines equals the number of distinct mine cells listed |
| Grid.MineCountIsAdjacentMines | src/code/ca/bcit/comp2522/project/Mines.java:208-225 | a cell's count is the number of cells adjacent to it (within one row and one column, not itself) that hold a mine |
| Grid.MinesAmongSameMines | src/code/ca/bcit/comp2522/project/Mines.java:467-484 | a tally depends only on where the mines are, so rewriting counts in place does not disturb later tallies |
| Grid.MinesAmongZero | src/code/ca/bcit/comp2522/project/Mines.java:524-527 | a zero tally means none of the listed cells is a mine |
| Grid.ZeroCellHasNoMineNeighbor | src/code/ca/bcit/comp2522/project/Mines.java:228-242 | on a consistent field no neighbour of a cell showing 0 is a mine |
| Flood.BoardLists | src/code/ca/bcit/comp2522/project/Mines.java:146-182 | the table of all neighbour lists of a board lists `Neighbors` for every cell, and only on-board cells |
| Flood.CountsMatchConsistent | src/code/ca/bcit/comp2522/project/Mines.java:208-225 | counts matched along the table are exactly the consistency of the field (both directions) |
| Flood.CountsMatchZerosClear | src/code/ca/bcit/comp2522/project/Mines.java:208-225 | a field whose counts match has no mine next to a zero |
| Flood.ZeroClosedFromOrigin | src/code/ca/bcit/comp2522/project/Mines.java:522-527 | revealing a cell and then fully expanding it leaves every zero it uncovered expanded |
| Flood.RecordsTrans | src/code/ca/bcit/comp2522/project/Mines.java:230-241 | two reveals in a row newly reveal the concatenation of their trails |
| Flood.ZeroClosedTrans | src/code/ca/bcit/comp2522/project/Mines.java:230-241 | two reveals in a row leave every uncovered zero expanded |
| Flood.SpreadsConcat | src/code/ca/bcit/comp2522/project/Mines.java:230-241 | two trails spreading from the same origin, one after the other, spread from it |
| Flood.SpreadsFromExtend | src/code/ca/bcit/comp2522/project/Mines.java:486-498 | expanding a zero that was revealed before the pass or uncovered earlier in it appends cells that are still reached, through zeros only, from the zeros revealed before the pass |
| Flood.SpreadNeverHitsMine | src/code/ca/bcit/comp2522/project/Mines.java:486-498 | when no zero has a mine neighbour, nothing a zero's expansion uncovers is a mine |
| Flood.FloodNeverRevealsMine | src/code/ca/bcit/comp2522/project/Mines.java:501-530 | when no zero has a mine neighbour, a reveal that did not hit a mine uncovers no mine at all |
| MinesGame.FlagCycle | src/code/ca/bcit/comp2522/project/Mines.java:300-302 | a flag click moves a cell to another of the three flag states, and three clicks bring it back |
| MinesGame.MineAdded | src/code/ca/bcit/comp2522/project/Mines.java:201-204 | putting a mine on a cell without one adds exactly one mine |
| MinesGame.MineOnFreeCell | src/code/ca/bcit/comp2522/project/Mines.java:460-464 | putting a mine on a hidden empty cell adds one mine and removes one free cell |
| MinesGame.FlagChanged | src/code/ca/bcit/comp2522/project/Mines.java:302-315 | changing one flag state changes the number of flagged cells by that cell's change alone |
| MinesGame.MinesSplit | src/code/ca/bcit/comp2522/project/Mines.java:433-447 | every mine is either a flagged mine (kept) or an unflagged one (moved), never both |
| MinesGame.SafeCount | src/code/ca/bcit/comp2522/project/Mines.java:343 | the safe cells number the cells minus the mines |
| MinesGame.WonIff | src/code/ca/bcit/comp2522/project/Mines.java:320-343 | when the field holds `totalMines` mines, the win test holds exactly when the revealed cells are precisely the safe cells |
| MinesGame.Mines.constructor | src/code/ca/bcit/comp2522/project/Mines.java:249-255 | a new game has the given dimensions and mine total, no flags, every cell hidden and unflagged, and satisfies `Sound` |
| MinesGame.Mines.GenerateField | src/code/ca/bcit/comp2522/project/Mines.java:184-226 | fresh arrays with every cell hidden and unflagged, exactly `mines` mines, and every other cell holding its neighbour mine count |
| MinesGame.Mines.CountNeighborMines | src/code/ca/bcit/comp2522/project/Mines.java:215-222 | the count accumulated over the neighbour enumeration is the number of mines among the cell's neighbours |
| MinesGame.Mines.CountMinesAmong | src/code/ca/bcit/comp2522/project/Mines.java:217-222 | the count accumulated along a list of cells is the number of mines among them |
| MinesGame.Mines.CountPass | src/code/ca/bcit/comp2522/project/Mines.java:208-225 | the mines stay where they are and every other cell ends up holding its neighbour mine count |
| MinesGame.Mines.Reveal | src/code/ca/bcit/comp2522/project/Mines.java:501-530 | an already revealed cell changes nothing and is no loss; otherwise the loss signal is "the cell is a mine", the cell is revealed, nothing is hidden again, the newly revealed cells are exactly the trail (the cell, then cells reached only through zeros), every uncovered zero has all its neighbours revealed, and on a sound board a non-losing reveal keeps the board sound |
| MinesGame.Mines.PopFieldVoid | src/code/ca/bcit/comp2522/project/Mines.java:228-242 | every neighbour of the cell ends up revealed, nothing is hidden again, every zero uncovered is expanded, and the new cells form a trail spreading from the cell |
| MinesGame.Mines.PopNeighbor | src/code/ca/bcit/comp2522/project/Mines.java:230-240 | one neighbour step: the neighbour ends up revealed, nothing is hidden again, the newly revealed cells are exactly the returned part, every zero uncovered is expanded, and the part spreads from the expanded cell; a neighbour already revealed yields an empty part, otherwise the part is a reveal trail of the neighbour (the neighbour, then, only if it is a zero, cells reached from it through zeros) |
| MinesGame.Mines.Flag | src/code/ca/bcit/comp2522/project/Mines.java:300-318 | only the clicked cell's flag state changes, to the next state in the cycle; the counter moves by +1 on flag, -1 on question mark, 0 on clearing, so it keeps counting the flags; the new state is returned |
| MinesGame.Mines.CheckWin | src/code/ca/bcit/comp2522/project/Mines.java:320-343 | the scan answers exactly the win test `HasWon` |
| MinesGame.Mines.RandomizeRemaining | src/code/ca/bcit/comp2522/project/Mines.java:427-499 | same number of mines, flagged mines stay, every mine is a kept flagged mine or on a cell hidden before, counts consistent again, nothing hidden again, no mine newly revealed, every revealed zero expanded, and the newly revealed cells are exactly a trail in which each cell neighbours a zero revealed before the call or a zero earlier in the trail; soundness preserved |
| MinesGame.Mines.ClearUnflagged | src/code/ca/bcit/comp2522/project/Mines.java:429-447 | every cell becomes empty except flagged mines, and the result is the number of unflagged mines removed |
| MinesGame.Mines.PlaceRelocated | src/code/ca/bcit/comp2522/project/Mines.java:449-465 | existing mines stay, new mines land only on hidden cells, exactly `regenMine` mines are added, and every cell still holds either a mine or 0 |
| MinesGame.Mines.ExpandRevealedZeros | src/code/ca/bcit/comp2522/project/Mines.java:486-498 | nothing is hidden again, no mine is uncovered, every revealed zero ends up with all its neighbours revealed, and the newly revealed cells are exactly a trail in which each cell neighbours a zero revealed before the pass or a zero earlier in the trail |
| AscendingPlacement.IsValidPlacement | src/code/ca/bcit/comp2522/project/AscendingPlacement.java:10-32 | the answer is true exactly when no occupied slot before `index` holds a larger value and no occupied slot after it holds a smaller one |
| AscendingPlacement.CanPlaceNext | src/code/ca/bcit/comp2522/project/AscendingPlacement.java:35-76 | the answer is true exactly when some empty slot's nearest occupied neighbours (or the `int` extremes when there are none) strictly bracket the value |
| AscendingPlacement.NearestLeft | src/code/ca/bcit/comp2522/project/AscendingPlacement.java:50-58 | the left bound is the value of the nearest occupied slot to the left, or `Integer.MIN_VALUE` when every slot to the left is empty |
| AscendingPlacement.NearestRight | src/code/ca/bcit/comp2522/project/AscendingPlacement.java:60-68 | the right bound is the value of the nearest occupied slot to the right, or `Integer.MAX_VALUE` when every slot to the right is empty |
| AscendingPlacement.BracketedSlotIsValid | src/code/ca/bcit/comp2522/project/AscendingPlacement.java:10-76 | in an ascending row, a slot `canPlaceNext` accepts also passes `isValidPlacement`, before and after the value is written |
| AscendingPlacement.ValidKeepsAscending | src/code/ca/bcit/comp2522/project/AscendingPlacement.java:10-32 | writing a valid placement keeps the row ascending |
| AscendingPlacement.FreshValidSlotBrackets | src/code/ca/bcit/comp2522/project/AscendingPlacement.java:10-76 | an empty slot that validly takes a value no occupied slot holds, strictly between the extremes, brackets it, so `canPlaceNext` accepts |
| AscendingPlacement.FullRejects | src/code/ca/bcit/comp2522/project/AscendingPlacement.java:37-42 | a row with no empty slot accepts no value |
| AscendingPlacement.EmptyRow | src/code/ca/bcit/comp2522/project/AscendingPlacement.java:10-76 | on an empty row every placement is valid, and a value fits exactly when it lies strictly between the `int` extremes |
| AscendingPlacement.OwnSlotIgnored | src/code/ca/bcit/comp2522/project/AscendingPlacement.java:12-28 | the slot being filled takes no part in the check |
| AscendingPlacement.EqualValueAcceptedButNotBracketed | src/code/ca/bcit/comp2522/project/AscendingPlacement.java:22-23 | on the row `[5, 0]` the value 5 is a valid placement at slot 1, yet no empty slot brackets it strictly |
| BoardExamples.ZeroCellNeighbors | src/tests/ca/bcit/comp2522/project/MinesTest.java:153-166 | on the 4 by 4 board the neighbour lists of cells 0, 5, 9 and 10 contain the cells the flood reaches |
| BoardExamples.OnlyTopRightNeighbors | src/tests/ca/bcit/comp2522/project/MinesTest.java:153-166 | on the 4 by 4 board only cells 2, 6 and 7 list cell 3 as a neighbour |
| BoardExamples.TopRightStaysHidden | src/tests/ca/bcit/comp2522/project/MinesTest.java:182-205 | no trail of a reveal of cell 0 on the test field reaches cell 3, since none of its neighbours is a zero |
| BoardExamples.FloodOfTestField | src/tests/ca/bcit/comp2522/project/MinesTest.java:150-205 | any result meeting `Reveal`'s contract for cell 0 of the test field reveals every cell except cell 3 (a superset of the cells the test checks) |
| BoardExamples.RevealTestField | src/tests/ca/bcit/comp2522/project/MinesTest.java:170-205 | running `Reveal(0)` on the hidden test field loses nothing and leaves every cell except cell 3 revealed |

## Left out

- The JavaFX interface is not modelled: windows, buttons, button styles and text, labels, alerts, the menu and the click handler of `createGrid`. The click handler's sequence of reveal, win check and relocation is described by the separate contracts of those operations.
- The timer is not modelled (`startTimer`, `stopTimer`, the seconds counter).
- The `randomMode` flag and its toggle button are not modelled. In `Mines.java` the flag does not gate `randomizeRemaining`.
- `java.util.Random` is not modelled. Each accepted draw is a nondeterministic choice among the cells the loop accepts, and rejected draws are not modelled. Nothing about the distribution of mines is stated.
- MinesGame.Mines.RandomizeRemaining: requires every unflagged mine to be hidden. The click handler only relocates after a non-losing reveal, and on a sound board that is the case. This is what guarantees that the draw loop finds a free hidden cell for every moved mine; otherwise the Java loop would not terminate.
- MinesGame.Mines.PlaceRelocated: requires at least `regenMine` hidden empty cells, for the same reason.
- MinesGame.Mines.GenerateField: requires `mines <= width * height`; with more mines the Java loop never terminates.
- 32-bit overflow of `width * height` and of the neighbour index arithmetic is not modelled. Board sizes are unbounded naturals.
- The neighbour table `nb` of the class is a ghost value fixed at construction. It stands for the `forEachNeighbor` enumeration and is proved equal to it (`Flood.BoardLists`); the code recomputes the enumeration at each call.
- `forEachNeighbor` takes a callback. The model calls `Grid.Neighbors` to get the list and loops over it, which visits the same cells in the same order.
- `Mines.main`, `start` and the rest of `startGame` (lines 257-297) only build the interface and are not modelled.
- `NumberGame`, `RandomNumberGenerator`, `PlacementRule` (an abstract base class with no logic of its own) and the score file code are not part of this model.
- The tests' `toggleFlag`, `hasWon`, `isMine` accessors and `InvalidMoveException` belong to a different version of the class than `Mines.java`. Only the 4 by 4 flood-fill board of those tests is modelled.

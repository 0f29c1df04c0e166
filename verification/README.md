# Two Sudoku engines and a DM9000 driver, verified

This project models three programs kept in the blog repository and proves what they are for.

**The puzzle page, `static/tools/sudoku/js/Sudo.js`** (modules `Search`, `Pruning`, `Ambiguity`,
`Sudo`). A hand-rolled backtracking search fills the grid: a cursor, a board, a shuffled candidate list
per cell that is not recomputed when the search comes back, and a count of the candidates used. Proved:
the search terminates for every sequence of shuffles, each abandoned candidate has no completion, the
exit for "everything backtracked" is never taken, the result is the first solved grid in the order of
the shuffled lists, and with the shuffles left open every solved grid can be the result. The page then
removes the ambiguity it calls "several answers": it lists swapped rectangles and gives away a corner of
each that is all blank. Proved: for grids judged by rows and columns alone, all-blank swapped rectangles
are exactly the second answers that differ in fewer than six cells; with the box rule, exactly those
inside one band or one stack are. So the pass removes every such second answer, and also closes
rectangles across two bands and two stacks that hide none. The comments in the source promise a unique
answer. That promise is false: puzzles with at most five blanks keep it, a puzzle with six blanks and two
answers is exhibited, and every level from 1 to 4 can pose it.

**The game page, `static/tools/sudoku/js/sudoku.js`** (modules `Filler`, `Exactness`, `Seeds`, `Game`). A
recursive filler completes a grid with three seeded blocks. On a filled cell it falls through into the loop
that tries digits, which is harmless exactly when no digit passes the check there. Proved: on seeded boards
the filler decides whether a completion exists and never writes a seed. On other boards without conflicts it
still succeeds whenever there is a completion, but what it leaves need not keep the clues, and it can
succeed where there is none; both failures are exhibited on boards made from any solved grid. The exact
condition is read off the board and the order of the digits before the call. A loss is a filled cell in which
a digit passes the check once the empty cells before it are filled without conflict in a way that has no
completion and that comes, in the order of the digits, before every completion of the board. The call is
exact (success completes the board, failure leaves it, no clue is written) exactly when there is no loss; on
a board without completion the order drops out. The test for the end of the game compares sums with 45;
proved exact on boards without conflicts, and those are the only boards a game reaches.

**The network driver, `static/coding/xnetdev.c`** (modules `Receive`, `Dm9000`, `Transmit`, `Reception`,
`Xnet`). Proved over every interleaving of `xnet_xmit` with interrupts and with the chip's own events:
accepted frames go over the wire once each, in order and intact, at most two are open, the queue is
stopped exactly when two are open and is always woken, a frame offered to an awake queue is always taken,
and an interrupt between the two port accesses of a register access acts exactly as one taken before the
access. The receive loop is a parser: it delivers exactly the acceptable packets that get a buffer, and behind
unread packets the idle driver has an interrupt being delivered. Reception is switched off by a byte above 1
where a header is looked for, and by nothing else. Through every step of the driver the frames passed up are
those of the packets read so far, in order of arrival, as long as nothing but packets gets into the receive
memory, and no frame passed up, stored byte or arrived packet is ever taken back. The handler is taken to run
only while the chip raises an interrupt. On a shared line it could run in the middle of `xnet_xmit`; for a run
between the test of the packet count and its increment, the exact condition under which the second packet is
stranded is given.

`Grid`, `Units`, `Counting`, `Lists` and `Chance` hold what the parts share: boards and their rules, rows,
columns and boxes as lists of cells, counting facts, candidate lists, and `Math.random` as an arbitrary
choice. The random comparator given to `sort` is an arbitrary reordering. What the chip finishes during a
handler and which buffers are granted are parameters (`Env`).

`Sudo.js` is modelled for boxes of any width n with `size = n * n`. The literals 8, 9 and 3 in its code are
read as `size - 1`, `size` and `n`, which is what they are at the only size the page uses, 9. Likewise the
bound 10 on an entered number is read as "at most `size`", and looking for the character 0 in the joined
grid as "some cell is blank".

## Model

| member | source | states |
|---|---|---|
| Sudo.Puzzle.Init | static/tools/sudoku/js/Sudo.js:27-39 | Layout, clues, candidate positions and every candidate entry are zero |
| Sudo.Puzzle.GetAnswer | static/tools/sudoku/js/Sudo.js:41-67 | The candidate list of the cell holds each digit that is legal there once and nothing else; the lists of all other cells stay |
| Sudo.Puzzle.RandomAnswer | static/tools/sudoku/js/Sudo.js:69-82 | The block of the cell is reordered and nothing outside it changes |
| Sudo.Puzzle.GetAnswerCount | static/tools/sudoku/js/Sudo.js:84-90 | The number of candidates of the cell |
| Sudo.Puzzle.GetAnswerNum | static/tools/sudoku/js/Sudo.js:92-106 | The candidate at that position among the filled entries, 0 past the last |
| Search.Listed | static/tools/sudoku/js/Sudo.js:112-113 | A cell listed on its first visit joins the search invariant |
| Search.Forward | static/tools/sudoku/js/Sudo.js:142-156 | Placing the next candidate keeps the invariant: earlier lists right, later cells empty, earlier candidates refuted |
| Search.Exhausted | static/tools/sudoku/js/Sudo.js:130-133 | When all candidates of a cell are refuted, no solved grid starts with the cells before it |
| Search.Backward | static/tools/sudoku/js/Sudo.js:118-142 | Stepping back keeps the invariant although the earlier lists are not recomputed, and refutes the candidate given up |
| Search.NeverExhausted | static/tools/sudoku/js/Sudo.js:115-117 | If any solved grid exists, the first cell never runs out, so the exit for a completed backtrack is dead |
| Search.FoundIsSolved | static/tools/sudoku/js/Sudo.js:111-157 | With the cursor past the last cell the board is solved |
| Search.FoundIsFirst | static/tools/sudoku/js/Sudo.js:111-157 | Where any other solved grid first departs from the one found, it takes a later candidate of that cell's list |
| Search.ForwardTerminates | static/tools/sudoku/js/Sudo.js:149-155 | A placement lowers the remaining effort, whatever the shuffles |
| Search.BackwardTerminates | static/tools/sudoku/js/Sudo.js:119-141 | Each backtrack lowers the remaining effort |
| Search.RunKeeps | static/tools/sudoku/js/Sudo.js:111-157 | Over every run of loop turns: earlier lists right, later cells empty, earlier candidates refuted |
| Search.FindsExactlySolved | static/tools/sudoku/js/Sudo.js:108-158 | With the shuffles left open, the grids a run can end with are exactly the solved ones |
| Units.PatternSolved | static/tools/sudoku/js/Sudo.js:115-117 | A solved grid exists for every box width |
| Units.SolvedIffPermutations | static/tools/sudoku/js/Sudo.js:45-65 | Solved boards are those whose rows, columns and boxes are all permutations of the digits |
| Sudo.FirstCellHasMore | static/tools/sudoku/js/Sudo.js:115-117 | With the cursor on the first cell a candidate is always left |
| Sudo.Puzzle.Visit | static/tools/sudoku/js/Sudo.js:112-114 | The cursor cell has a right candidate list and its size is returned |
| Sudo.Puzzle.GoBack | static/tools/sudoku/js/Sudo.js:119-141 | Both backtrack branches: the new board, counts and cursor are those of freeing the cell before; the invariant holds, the effort falls |
| Sudo.Puzzle.GoAhead | static/tools/sudoku/js/Sudo.js:143-155 | The new board, counts and cursor are those of writing the next candidate; the invariant holds, the effort falls |
| Sudo.Puzzle.Generate | static/tools/sudoku/js/Sudo.js:108-158 | Terminates with a solved grid at the end of a run of loop turns, the first one in the order of the cached candidate lists; the clues are blank |
| Sudo.Puzzle.Dig | static/tools/sudoku/js/Sudo.js:233-255 | Each cell is a clue equal to the layout or an editable blank as its own draw says, in the way ClueShare and DugIsMonotone pin down |
| Sudo.ClueShare | static/tools/sudoku/js/Sudo.js:236-249 | A level shows a clue for exactly its share of the four draws, the largest ones: 4 - level of them at levels 0 to 3, one at level 4, none from 5 on; larger draws and lower levels show no fewer |
| Sudo.DugShare | static/tools/sudoku/js/Sudo.js:236-249 | Four cells with the four different draws keep as many clues as the level's share |
| Sudo.DugIsMonotone | static/tools/sudoku/js/Sudo.js:236-249 | On any board a higher level and smaller draws leave no clue that was blank before |
| Sudo.AnyCluesIff | static/tools/sudoku/js/Sudo.js:236-254 | The draws can leave every choice of clues exactly at the levels 1 to 4 |
| Sudo.Puzzle.CheckUnique | static/tools/sudoku/js/Sudo.js:296-313 | Returns every swapped rectangle of the layout exactly once |
| Sudo.Puzzle.CloseOne | static/tools/sudoku/js/Sudo.js:316-331 | An all-blank rectangle gets exactly the one corner that the draw names, and else nothing changes; afterwards it is not all blank |
| Sudo.Puzzle.Regenerate | static/tools/sudoku/js/Sudo.js:314-334 | The turns of the pass one after the other: every listed rectangle is closed, all clues are kept, only corners of rectangles that were open are given away, and no more cells than there were of these |
| Sudo.CornersByDraw | static/tools/sudoku/js/Sudo.js:326-331 | The four draws name the four corners |
| Sudo.ClosedByIsRight | static/tools/sudoku/js/Sudo.js:314-334 | What the pass leaves on any clues, list and draws: closed rectangles, kept clues, and at most one cell given away for each rectangle that was open |
| Sudo.Puzzle.InitLayout | static/tools/sudoku/js/Sudo.js:224-262 | The puzzle posed is what the draws left with the drawn corners given away; it has a solved layout and no open swapped rectangle, and at most one cell was added for each rectangle that was open |
| Ambiguity.SixOrRectangle | static/tools/sudoku/js/Sudo.js:295-313 | Two different grids with permutation rows and columns differ in at least six cells or in exactly one swapped rectangle |
| Ambiguity.SmallAmbiguityIff | static/tools/sudoku/js/Sudo.js:256-261 | Judged by rows and columns alone: a second answer that differs in one to five cells exists exactly when some swapped rectangle is all blank |
| Ambiguity.NearSolutionIff | static/tools/sudoku/js/Sudo.js:256-261 | With the box rule: a second solved answer that differs in one to five cells exists exactly when some swapped rectangle inside one band or one stack is all blank |
| Ambiguity.NearAnswerOpens | static/tools/sudoku/js/Sudo.js:302-307 | Such an answer is the exchange of an all-blank swapped rectangle |
| Ambiguity.OtherAnswersAreFar | static/tools/sudoku/js/Sudo.js:256-261 | After the pass every other answer differs in at least six cells |
| Ambiguity.FewBlanksUnique | static/tools/sudoku/js/Sudo.js:256-261 | After the pass a puzzle with at most five blanks has one answer |
| Ambiguity.NotAlwaysUnique | static/tools/sudoku/js/Sudo.js:256-261 | A puzzle that the pass leaves alone and that has two answers, six cells apart |
| Ambiguity.UniqueUpToFiveBlanks | static/tools/sudoku/js/Sudo.js:256-261 | All puzzles the pass leaves with at most m blanks have one answer exactly when m is at most five |
| Sudo.TwoAnswersCanBePosed | static/tools/sudoku/js/Sudo.js:224-262 | At each level from 1 to 4 some shuffles and draws lead to a puzzle that the pass leaves alone and that has two answers |
| Ambiguity.ExchangeSolvesIff | static/tools/sudoku/js/Sudo.js:302-307 | Exchanging a swapped rectangle gives a second solved grid exactly when it lies in one band or one stack |
| Sudo.Puzzle.CheckCell | static/tools/sudoku/js/Sudo.js:346-361 | Marks exactly the cells that clash with the given one, and that one if there is any |
| Sudo.Puzzle.Check | static/tools/sudoku/js/Sudo.js:344-363 | The marked cells are exactly those equal to another related filled cell, though only editable cells are scanned |
| Sudo.NoConflictIff | static/tools/sudoku/js/Sudo.js:344-363 | A board has no conflicting cell exactly when it obeys the rules |
| Sudo.Puzzle.CheckAllAnswer | static/tools/sudoku/js/Sudo.js:277-288 | Counts the cells that differ from the generated answer |
| Sudo.Puzzle.Input | static/tools/sudoku/js/Sudo.js:200-217 | Writes accepted numbers only, leaves exactly the conflicting cells marked, and checks the answer when the grid is full; a rejected number changes no cell and no mark |
| Sudo.AcceptedOrSixFlags | static/tools/sudoku/js/Sudo.js:211-215 | A full grid without marks is the generated answer or is faulted in at least six cells |
| Game.SudokuPage.CheckColumn | static/tools/sudoku/js/sudoku.js:32-40 | The column does not hold the value |
| Game.SudokuPage.CheckRow | static/tools/sudoku/js/sudoku.js:42-50 | The row does not hold the value |
| Game.SudokuPage.CheckBlock | static/tools/sudoku/js/sudoku.js:52-64 | The block does not hold the value |
| Game.SudokuPage.Check | static/tools/sudoku/js/sudoku.js:66-72 | True exactly for digits that no related cell, the cell itself included, holds |
| Filler.FillSound | static/tools/sudoku/js/sudoku.js:133-162 | From any board without conflicts: none arises, earlier cells stay, success fills the rest, failure only empties cells |
| Filler.FillComplete | static/tools/sudoku/js/sudoku.js:133-162 | From any board without conflicts: if a completion exists the call succeeds; nothing is said of the clues, which need not survive |
| Filler.FillExact | static/tools/sudoku/js/sudoku.js:133-162 | Where filled cells are pinned: success is a completion, failure means there is none and the board is as it was, only empty cells are ever written |
| Exactness.ExactIffLossless | static/tools/sudoku/js/sudoku.js:133-162 | From any board without conflicts: success is a completion, failure leaves the board, and no clue is written, exactly when no filled cell is a loss: reached before every completion, behind cells filled without a completion, with a digit that passes the check |
| Exactness.CleanFailureIff | static/tools/sudoku/js/sudoku.js:133-162 | On a board without completion, for every order of digits: a failure with the board as it was exactly when every filled cell is pinned however the empty cells before it are filled without conflict |
| Filler.FallThroughIff | static/tools/sudoku/js/sudoku.js:144-161 | The fall-through on a filled cell is harmless exactly when no digit passes the check there |
| Filler.FilledCellExactIff | static/tools/sudoku/js/sudoku.js:144-161 | Success and failure: on a filled cell the call is exact exactly when passing over it is exact and succeeds or no digit passes the check there |
| Filler.WrongClueIsLost | static/tools/sudoku/js/sudoku.js:144-161 | A single wrong clue behind filled cells only is overwritten: success is reported on a board without completion |
| Seeds.UnpinnedClueIsLost | static/tools/sudoku/js/sudoku.js:144-161 | From the first cell, for every solved grid and every order of digits: success on a board that cannot be completed, with its first clue lost |
| Seeds.CompletableBoardIsSpoiled | static/tools/sudoku/js/sudoku.js:144-161 | From the first cell, for every solved grid and some orders of digits: success on a board that has a completion, but a right clue is overwritten |
| Seeds.SeededIsReady | static/tools/sudoku/js/sudoku.js:208-213 | The three seeded blocks do not conflict, and no digit passes the check in any of their cells |
| Seeds.SeededFillIff | static/tools/sudoku/js/sudoku.js:206-217 | On a seeded board the filler succeeds exactly when a completion exists, and writes no seeded cell on any path |
| Seeds.SolvedGridGivesSeeds | static/tools/sudoku/js/sudoku.js:206-217 | The three blocks of any solved grid are seeds that have a completion, so createSudoku can succeed |
| Game.SudokuPage.TryIt | static/tools/sudoku/js/sudoku.js:133-162 | The recursion with its loop computes the outcome, final board and written cells that the lemmas are about |
| Game.SudokuPage.SetBlockRandomly | static/tools/sudoku/js/sudoku.js:167-176 | The block holds all nine digits in a new order; all other cells stay |
| Game.ThreeBlocksSeed | static/tools/sudoku/js/sudoku.js:211-213 | Seeding blocks 3, 5 and 7 of a cleared grid gives a seeded board |
| Game.SudokuPage.CreateSudoku | static/tools/sudoku/js/sudoku.js:206-217 | The blocks seeded are those from the upper right to the lower left corner; it succeeds exactly when the seeds drawn can be completed; then the grid completes them, else it still holds them alone |
| Seeds.SumsDecide | static/tools/sudoku/js/sudoku.js:74-127 | On a board without conflicts each of the three sum tests alone holds exactly when the board is solved |
| Seeds.SolvedIffSumsAndNoConflict | static/tools/sudoku/js/sudoku.js:129-131 | On any board: solved means right sums and no conflict |
| Seeds.SumsCanBeFooled | static/tools/sudoku/js/sudoku.js:129-131 | A board with conflicts passes all three sum tests |
| Game.SudokuPage.ColumnOK | static/tools/sudoku/js/sudoku.js:74-80 | The column sums to 45 |
| Game.SudokuPage.RowOK | static/tools/sudoku/js/sudoku.js:91-97 | The row sums to 45 |
| Game.SudokuPage.BlockOK | static/tools/sudoku/js/sudoku.js:108-118 | The block with that number sums to 45 |
| Game.SudokuPage.SudokuOK | static/tools/sudoku/js/sudoku.js:129-131 | On a board without conflicts, true exactly when it is solved |
| Game.SudokuPage.Copy | static/tools/sudoku/js/sudoku.js:230-238 | An equal grid that shares nothing with the original |
| Game.SudokuPage.DigHoles | static/tools/sudoku/js/sudoku.js:245-249 | In every row exactly the drawn columns are emptied, difficulty or difficulty + 1 draws with repetition, and all other cells stay; so a row has at least one and at most difficulty + 1 holes |
| Game.SudokuPage.CreateGame | static/tools/sudoku/js/sudoku.js:240-250 | It goes on exactly while the seeds drawn have no completion; a game made has a completion of the last seeds as answer, in a grid of its own, and that grid with holes as puzzle |
| Game.SudokuPage.SetTable | static/tools/sudoku/js/sudoku.js:194-204 | Exactly the empty cells become inputs |
| Game.SudokuPage.Change | static/tools/sudoku/js/sudoku.js:264-267 | A made game is in play: no conflicts, and its clues are the puzzle |
| Game.SudokuPage.OnInput | static/tools/sudoku/js/sudoku.js:309-327 | A legal number is written, any other entry changes nothing, and the game is over exactly on a completion of the clues |
| Game.RunsKeepRules | static/tools/sudoku/js/sudoku.js:309-327 | Over every run of moves: no conflict, clues kept, and each sum test won only with a completion |
| Game.MoveIsTakenIff | static/tools/sudoku/js/sudoku.js:309-320 | A number is taken exactly when it passes the check, and then changes its cell alone |
| Game.CompletionIsPlayed | static/tools/sudoku/js/sudoku.js:309-327 | Every completion of a board can be reached by entering its digits one by one |
| Receive.OnePacket | static/coding/xnetdev.c:226-262 | A stored packet of admissible length is consumed whole, and passed up exactly when it has 64 to 1536 bytes, no status bit of the mask 0xbf and a buffer |
| Receive.StatusMask | static/coding/xnetdev.c:243 | The status test is the mask 0xbf, for the driver and for the packets spoken of here |
| Receive.PacketsFirst | static/coding/xnetdev.c:225-273 | Whatever follows: the frames of admissible packets in front come up first, in order, and the parser stands behind them |
| Receive.ReceivesStored | static/coding/xnetdev.c:225-273 | Stored packets before a byte that is not ready: exactly the deliverable frames that get a buffer come up, in order |
| Receive.StopsAtOverLong | static/coding/xnetdev.c:239-242 | The first over-long packet ends reception behind its header with a reset request |
| Receive.StopsAtGarbage | static/coding/xnetdev.c:263-271 | The parser ends at a byte above 1 in place of a header and asks for a reset |
| Dm9000.InterruptDelivers | static/coding/xnetdev.c:275-310 | With the receive flag set, exactly the deliverable frames that get a buffer are appended to those passed up, the packets are consumed and reception stays switched as it is; without it nothing is touched |
| Dm9000.InterruptHalts | static/coding/xnetdev.c:263-271 | A byte above 1 in place of a header: the packets before it are delivered, the receive control register becomes 0 and a reset is asked for |
| Dm9000.InterruptGivesUp | static/coding/xnetdev.c:239-242 | An over-long packet: the packets before it are delivered and a reset is asked for, but the receive control register stays |
| Dm9000.InterruptWaits | static/coding/xnetdev.c:217-273 | While a reset is asked for nothing is passed up, and the receive control register changes exactly at a byte above 1 |
| Dm9000.HandlerRunsAlone | static/coding/xnetdev.c:287-302 | From its first step to its last the handler runs with the chip raising no interrupt |
| Dm9000.InterruptParses | static/coding/xnetdev.c:275-310 | On any memory contents: an interrupt with the receive flag set runs the parser once and clears the flag; without it reception stays as it is |
| Reception.InterruptReceives | static/coding/xnetdev.c:275-310 | An interrupt reads all packets that have arrived up to an over-long one, and keeps the frames passed up those of the packets read |
| Reception.RunReceives | static/coding/xnetdev.c:217-310 | Over every run of arrivals, noise, finished transmissions and interrupts: without noise the frames passed up are those of the packets read that got a buffer, and nothing is lost or reordered |
| Reception.UnreadPacketsInterrupt | static/coding/xnetdev.c:302 | In the idle driver unread packets have an interrupt being delivered, unless a reset is asked for |
| Reception.IdleIsInterruptedIff | static/coding/xnetdev.c:302 | The idle driver is interrupted exactly while the transmit or the receive flag is up |
| Reception.InterruptReadsAll | static/coding/xnetdev.c:275-310 | An interrupt leaves nothing unread in front of the first over-long packet |
| Reception.ReceptionStaysOn | static/coding/xnetdev.c:217-310 | Over every run in which only packets of admissible length arrive, no reset is asked for and the receive control register stays |
| Reception.RunGrows | static/coding/xnetdev.c:217-310 | Over every run: frames passed up, stored bytes, packets read and arrived and a request for a reset are never taken back, and the receive control register changes only to 0 and only with such a request |
| Xnet.Driver.ReadFrame | static/coding/xnetdev.c:245-253 | The words of a packet go into a buffer of length + 4 without passing its end, and the payload is the first length - 4 bytes |
| Xnet.Driver.DoXnetRx | static/coding/xnetdev.c:217-273 | On any memory contents the loop terminates with exactly the effect that the lemmas on the parser and the control register are about |
| Xnet.Driver.DoXnetTx | static/coding/xnetdev.c:193-215 | Has exactly the effect that DoTxServes is about |
| Transmit.DoTxServes | static/coding/xnetdev.c:199-213 | Serving a finished packet closes it, puts the queued one on the wire and wakes the queue |
| Xnet.Driver.XnetInterrupt | static/coding/xnetdev.c:275-310 | Has exactly the effect that InterruptKeeps, InterruptDelivers and InterruptHalts are about; everything between masking and unmasking runs with no interrupt raised |
| Transmit.InterruptKeeps | static/coding/xnetdev.c:275-310 | Whatever the chip finishes meanwhile, the handler keeps every packet accounted for and closes one exactly when it finds it finished |
| Transmit.SharedLineIff | static/coding/xnetdev.c:360-377 | If the handler ran between the test of the count and its increment, the second packet would be accounted for exactly when the first is not found finished; otherwise it is counted and never polled for |
| Dm9000.InterruptKeepsIndex | static/coding/xnetdev.c:285-304 | The handler neither depends on the selected register nor changes it |
| Dm9000.InterruptIsTransparent | static/coding/xnetdev.c:389-399 | An interrupt between the two port accesses of a register access gives the same state and value as one before it |
| Transmit.StoppedQueueWakes | static/coding/xnetdev.c:199-213 | Behind a stopped queue there is always a transmission or an interrupt that will wake it |
| Xnet.Driver.constructor | static/coding/xnetdev.c:182-190 | An initialised driver with a silent chip satisfies the invariant of the idle driver, with reception on and both interrupts unmasked |
| Xnet.Driver.Elapsing | static/coding/xnetdev.c:275-310 | Whatever happens between two steps of the driver is a run of events as in Reception.RunReceives, and keeps the transmit side right |
| Xnet.Driver.XnetXmit | static/coding/xnetdev.c:345-387 | With interrupts at every unmasked point: the frame is refused only when two are open, else accepted once; the invariant of the idle driver holds, nothing received is taken back, and reception is switched off only with a request for a reset |
| Xnet.Driver.WriteFrame | static/coding/xnetdev.c:355-362 | The transmit memory is extended by the frame in whole words |
| Xnet.Driver.SendFirst | static/coding/xnetdev.c:365-373 | A first packet is counted and put on the wire with its own length |
| Xnet.Driver.TransmitFirst | static/coding/xnetdev.c:368-371 | The three register writes put the counted packet on the wire, with events between them |
| Xnet.Driver.QueueSecond | static/coding/xnetdev.c:374-377 | A second packet is counted and waits with its length |
| Xnet.Driver.IowtOpen | static/coding/xnetdev.c:389-393 | The value reaches the register that was selected although interrupts may come in between |
| Xnet.Driver.Traffic | static/coding/xnetdev.c:345-387 | Over any run, one log entry per frame offered: each is offered to the idle driver that has accepted the frames taken so far, and is taken exactly when the queue is awake; the accepted frames are those taken, in order; nothing received is taken back |
| Xnet.EachIsAnswered | static/coding/xnetdev.c:345-387 | What a log says of its i-th frame, seen from the frames taken before it |

## Left out

- Game.SudokuPage.CreateGame: the retry loop has no bound in the source; here it is given a number of attempts, and each attempt fails only when the seeds drawn have no completion. That every choice of three seeded blocks has a completion is not shown.
- Filler.FillExact: one direction, from a condition that is quick to check on a board; Exactness.ExactIffLossless has the exact one.
- Ambiguity.FewBlanksUnique: one direction for a single puzzle; with more blanks a puzzle may or may not be unique, and UniqueUpToFiveBlanks shows that no larger number of blanks vouches for all.
- Xnet.Driver.XnetXmit: frames are shorter than 65536 bytes, the range of the length registers; the network layer's limit is far below.
- Xnet.Driver.DoXnetRx: packets that arrive during the loop count as stored before it or after it, and a transmission that ends during the loop counts as ending at the next register access.
- Sizes of Sudo.js other than squares, and the behaviour of its literal 8 at sizes other than 9.
- DOM, CSS, timers, dialogs and the dropdown of both pages; the tint of boxes; pause, reset and showing the answer; that a rejected entry clears the input element while the board keeps the earlier digit.
- The difficulty setters and `changeTimeToString`: easy members.
- Probing, initialisation, PHY access, open and stop of the driver, time stamps, the protocol field and header handling of `eth_type_trans`.
- More than one processor, and a second interrupt nested behind the end of the handler.
- Xnet.Driver.TakeInterrupt: the handler is registered as shared and does not check whose interrupt it is; here it runs only while the chip raises one. Called for another device it would also unmask the chip in the middle of xnet_xmit. Transmit.SharedLineIff says what it does between the test of the count and its increment; the other places are not modelled.
- Recovery from `device_wait_reset`, which the driver does not have.
- The other programs under `static/coding` and the articles under `content`.

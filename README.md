# Snake Ludo: the game rules, verified

Snake Ludo is a multi-process snakes-and-ladders game. The coordinator
(`LA4/ludo.c`) loads the board and reads commands. The player-parent
(`LA4/players.c`) picks whose turn it is, and each player process throws
the dice and moves. The board process (`LA4/board.c`) draws the 10x10 grid.
The processes share two segments:

- a 101-cell board, where each cell holds the offset of the ladder or
  snake that starts there, or 0;
- a players segment, where slots `0..N-1` hold positions (0 is home,
  100 is the finish) and slot `N` holds the number of players not yet at
  100.

This project models the game rules inside those processes. The processes
themselves are not modelled. A turn is one atomic step, and the dice that
`rand()` would throw are an input sequence.

Modules, one concern each:

- `Basics` (`basics.dfy`): the board size, the finish cell, the
  26-player limit and an `Option` type.
- `Rules` (`rules.dfy`): the rules of `players.c` as pure functions:
  - the dice rule and the occupancy test;
  - the ladder/snake chain (`Chain`);
  - one turn (`TurnOutcome`, `AfterTurn`);
  - round-robin selection;
  - the lemmas about all of these.
- `Players` (`players.dfy`): the player-parent and player processes as a
  `Game` class. It holds the two segments as arrays and the round-robin
  cursor. Its methods are proved against the `Rules` functions.
- `BoardFile` (`board_file.dfy`): `read_board_from_file`, over the records
  `fscanf` would read. It comes in two versions:
  - as the source writes it;
  - corrected with a bounds check.
- `Fifo` (`fifo.dfy`): `read_line_from_fifo` over the results of
  successive one-byte `read()` calls, C's `atoi`, and
  `read_pid_from_pipe`.
- `Ludo` (`ludo.dfy`): the coordinator. It covers:
  - argument checking;
  - initialisation of the players segment;
  - command parsing and the `delay` clamp;
  - the game loop, as a `Coordinator` class whose `Move` stands for
    "signal the player-parent, wait for the board's ACK";
  - the same loop as a function of its input (`Pass`, `Played`, with
    `AfterMove` and `AfterMoves` for the moves it requests), which the
    class's loop is proved to follow pass by pass;
  - start-up, as `Launch`.
- `Display` (`display.dfy`): the zigzag grid geometry and the
  players-on-cell bitmask of `board.c`.

Three facts about the code that the model keeps as written:

- **Rank.** The rank is computed from the active count *before* it is
  decremented (`N - active + 1` at `LA4/players.c:203`, decrement at
  `LA4/players.c:206`), so the first player to finish is ranked 1.
- **Positions.** Positions are not monotone: a snake moves a player back,
  and nothing in the turn prevents that.
- **Board targets.** The loader never checks a record's `to` value
  (`LA4/ludo.c:85-92`), so "every target lies in 1..100" is not a load
  invariant. The lemmas that need it take it as the hypothesis
  `WellFormed(board)`.

## Model

| member | source | states |
|---|---|---|
| Rules.Throws | LA4/players.c:61-76 | a roll throws 1 to 3 dice, every die before the last is a 6, and the last die thrown is not a 6 unless three were thrown |
| Rules.DiceTotal | LA4/players.c:52-86 | the roll is 0 exactly when the first three dice are all 6; any other roll is in 1..17 and is never a multiple of 6 |
| Players.RollDice | LA4/players.c:52-86 | the loop that throws dice returns DiceTotal of the dice supplied, the sum of the dice thrown or 0 for three 6s |
| Players.Game.constructor | LA4/players.c:24-31 | attaches to the two segments with the round-robin cursor at -1 |
| Players.Game.IsCellOccupied | LA4/players.c:89-99 | returns true exactly when the cell is in 1..99 and one of the first n players other than `me` stands on it (home and 100 are never occupied) |
| Rules.ChainMoves | LA4/players.c:105-124 | when the target of an unvisited ladder or snake is free, the chain continues from that target with one more cell marked visited |
| Rules.ChainBlocked | LA4/players.c:105-122 | when the target of an unvisited ladder or snake holds another player, the chain stays on the cell before the jump |
| Rules.ChainEnds | LA4/players.c:105 | a neutral cell, a cell outside 1..99 or an already visited cell ends the chain where it is |
| Rules.Chain | LA4/players.c:102-128 | the cell where the ladder/snake chain ends; what it promises is stated by Rules.ChainMoves, ChainBlocked, ChainEnds, ChainInRange and ChainAvoidsOthers |
| Players.Game.ApplyChain | LA4/players.c:102-128 | the visited-guarded loop returns exactly the end of the chain that Chain defines from the start cell, and runs at most 99 iterations (each marks a new cell of 1..99) |
| Rules.HopsLeft | LA4/players.c:103-125 | the visited cells plus the iterations still to come never exceed 99, since each iteration marks a new cell of 1..99 |
| Rules.ChainTerminates | LA4/players.c:102-128 | the chain loop makes at most 99 iterations from any start |
| Rules.ChainInRange | LA4/players.c:102-128 | on a board whose every jump lands in 1..100, a chain that starts in 1..100 ends in 1..100 |
| Rules.ChainAvoidsOthers | LA4/players.c:102-128 | a neutral or off-board start is returned unchanged, and the chain never ends on a cell another player holds unless it never moved |
| Rules.TurnFrame | LA4/players.c:150-218 | a turn is rejected, and leaves the segment as it was, exactly when the player is at 100, the roll is cancelled, it overshoots 100 or it lands on a taken cell below 100; any other turn writes only the player's slot and, on finishing, lowers the active count by one |
| Rules.TurnOutcome | LA4/players.c:150-206 | the outcome of one turn: already at 100, a cancelled roll, an overshoot, a blocked landing, a move or a finish with its rank; its contract is stated by Rules.TurnFrame, TurnKeepsBounds, TurnKeepsActiveInv and TurnKeepsExclusive |
| Rules.AfterTurn | LA4/players.c:183-206 | the players segment after a turn; its contract is stated by Rules.TurnFrame |
| Rules.TurnKeepsBounds | LA4/players.c:172-199 | on a well-formed board, positions in 0..100 stay in 0..100 after a turn |
| Rules.ActiveCountUpdate | LA4/players.c:199-206 | writing one position changes the count of players not at 100 by exactly the change in that slot |
| Rules.ActiveCountZero | LA4/players.c:280-282 | the count of players not at 100 is 0 exactly when every player is at 100 |
| Rules.TurnKeepsActiveInv | LA4/players.c:199-206 | the active count stays equal to the number of players not at 100, and a finishing player's rank is N minus the count before the decrement plus 1, which lies in 1..N |
| Rules.TurnKeepsExclusive | LA4/players.c:183-199 | if no two players share a cell of 1..99 before a turn, none do after it |
| Players.Game.Turn | LA4/players.c:150-218 | one turn's outcome is TurnOutcome and the players segment afterwards is AfterTurn of the old segment |
| Rules.Cyclic | LA4/players.c:225 | the j-th player after the cursor, in cyclic order, is a valid index 0..n-1 |
| Rules.FirstActive | LA4/players.c:223-232 | the search returns -1 or a player index below n, and a player it returns is not at 100 |
| Rules.NextActive | LA4/players.c:223-232 | the player dispatched after the cursor is -1 or an index below n, and never a player already at 100 |
| Rules.FirstActiveSpec | LA4/players.c:223-232 | the search from the j-th step on returns -1 exactly when all remaining players are at 100; otherwise it returns a player not at 100, and every player it passes over is at 100 |
| Rules.NextActiveSpec | LA4/players.c:223-232 | round-robin returns -1 exactly when all n players are at 100; otherwise it returns the first player cyclically after the cursor that is not at 100 |
| Players.WrapStep | LA4/players.c:225 | for 0 <= x <= n, C's x % n only wraps n back to 0 |
| Players.CyclicStep | LA4/players.c:224-225 | advancing the cursor once more with % n gives the next player in cyclic order |
| Players.Game.NextPlayer | LA4/players.c:223-232 | the loop returns NextActive from the old cursor and leaves the cursor on the player returned (or n steps on, for -1) |
| Players.Game.Dispatch | LA4/players.c:276-292 | nothing is dispatched while the active count is not positive; otherwise the player dispatched is the first one after the cursor, cyclically, not at 100, it becomes the cursor, and one exists whenever the active count is right |
| Players.Game.Advance | LA4/players.c:276-292 | a move request dispatches nobody and changes nothing while the active count is not positive; otherwise it dispatches the first player after the cursor not at 100, which becomes the cursor, and runs exactly that player's turn |
| BoardFile.Cleared | LA4/ludo.c:67-69 | the board before any record is read: all 101 cells 0 |
| BoardFile.Fill | LA4/ludo.c:74-94 | the load yields a 101-cell board and status 0 or -1 |
| BoardFile.FillFails | LA4/ludo.c:74-94 | the load fails exactly when some record before the first `E` lacks its two integers or starts a ladder or snake outside 1..100 |
| BoardFile.FillStopsAtEnd | LA4/ludo.c:74-77 | an `E` record ends the load: whatever follows it has no effect |
| BoardFile.FillKeepsUnnamed | LA4/ludo.c:85-93 | a cell named by no ladder or snake record keeps its value, so it stays 0 after clearing; records with another letter change nothing |
| BoardFile.FillLastWins | LA4/ludo.c:85-93 | after the last ladder or snake record `from to` for a cell, that cell holds `to - from`, so `from + board[from] == to`, whatever earlier records said |
| BoardFile.LoadBoard | LA4/ludo.c:59-98 | a missing file returns -1 and leaves the board alone; otherwise the board and status are the corrected load's from a cleared board |
| BoardFile.AsWrittenStoresOffBoard | LA4/ludo.c:85-87 | the loader as written stores a ladder starting on cell 150 at index 150 of the 101-cell board and reports success |
| BoardFile.FillAsWritten | LA4/ludo.c:74-94 | the loader as written returns 0 or -1 and makes at most one store per record |
| BoardFile.FillAgreesOnBoard | LA4/ludo.c:74-94 | when every ladder and snake starts in 1..100, the loader as written stores only on the board and the corrected load gives its status and board |
| Ludo.Initial | LA4/ludo.c:130-134 | after initialisation positions 0..25 are 0 and slot n holds n |
| Ludo.InitPlayers | LA4/ludo.c:130-134 | the initialising loop leaves the players segment equal to Initial |
| Ludo.ActiveCountAllHome | LA4/ludo.c:130-134 | when every player is at home, all of them count as active |
| Ludo.InitialState | LA4/ludo.c:130-134 | right after initialisation the active count equals the number of players not at 100 (all n), positions are in 0..100, and no two players share a cell of 1..99 |
| Fifo.ScanSpec | LA4/ludo.c:243-263 | from any point of the read loop, the bytes stored are the bytes read less the ending newline, at most the room left, and the return value is -1 or their count |
| Fifo.ScanEnds | LA4/ludo.c:252-258 | a read that stops without writing a NUL returns -1 with nothing stored, and returns its count only at end of input or end of file |
| Fifo.Scan | LA4/ludo.c:243-263 | the read loop from any point only moves forward through the read results and keeps the bytes already stored at the front of what it stores |
| Fifo.ScanPaths | LA4/ludo.c:246-262 | a read loop that ends on a newline or a full buffer writes the NUL and returns the count; one that ends on end of file writes no NUL and returns the count, or -1 when nothing was stored |
| Fifo.ReadLineSpec | LA4/ludo.c:243-263 | the line read_line_from_fifo reads into a buffer of max_len bytes; what it promises is stated by Fifo.ReadLineFacts and Fifo.ReadLine |
| Fifo.ReadLineFacts | LA4/ludo.c:243-263 | at most max_len-1 bytes are stored and never the newline; the return value is the count stored or -1; end of file before any byte gives -1; the newline and full-buffer paths write the NUL, and the end-of-file path with data does not |
| Fifo.ReadLine | LA4/ludo.c:243-263 | the byte loop returns ReadLineSpec's value and leaves the buffer as the bytes stored, then a NUL if one was written, then the old contents |
| Fifo.SkipSpace | LA4/ludo.c:284 | atoi's skip returns a suffix of the text, everything it drops is white space, and what remains does not start with white space |
| Fifo.Atoi | LA4/ludo.c:284 | C's atoi as used at lines 284, 310 and 424: leading white space, an optional sign, then digits up to the first other character; its contract is stated by Fifo.AtoiStopsAtNul and the lemmas beside it |
| Fifo.DigitsStopAtNul | LA4/ludo.c:284 | a NUL ends a run of digits: text after it cannot change the number |
| Fifo.SkipSpaceStopsAtNul | LA4/ludo.c:284 | skipping white space never goes past a NUL |
| Fifo.SignedStopsAtNul | LA4/ludo.c:284 | a NUL after the sign and digits leaves the value unchanged |
| Fifo.AtoiStopsAtNul | LA4/ludo.c:284 | atoi reads no further than a NUL |
| Fifo.PidOfLine | LA4/ludo.c:279-288 | an identity other than -1 comes only from a read that stored a line starting with `PID:` |
| Fifo.PidAsWritten | LA4/ludo.c:281-287 | the source's parse of the whole buffer after the read: an identity other than -1 comes only from a successful read and a buffer starting with `PID:` |
| Fifo.PidAgreesWhenTerminated | LA4/ludo.c:279-288 | whenever the read wrote its NUL, the source's parse of the whole buffer equals the parse of the line read |
| Fifo.UnterminatedPidReadsStaleBytes | LA4/ludo.c:254 | the bytes `PI` then end of file, read into a buffer whose indeterminate contents read `PID:7`, make the source's parse return 7 although the line is not a PID line |
| Fifo.ReadPidFromPipe | LA4/ludo.c:279-288 | returns the PID of the line read, parsing only the bytes stored; whenever the read wrote its NUL this is what the source returns |
| Ludo.PlayerCount | LA4/ludo.c:305-314 | an accepted count is in 2..26, and a missing argument is the exit with status 1 |
| Ludo.CommandText | LA4/ludo.c:414 | the command is the line up to its first newline or NUL, and contains neither |
| Ludo.ParseCommand | LA4/ludo.c:416-433 | a `delay ` command carries atoi of the text after its 6-character prefix; an unknown command is the non-empty text itself |
| Ludo.ParseCommandCases | LA4/ludo.c:416-433 | `quit`, `next`, `autoplay` are recognised exactly by their text, `delay` exactly by its prefix, and an empty line exactly as blank |
| Ludo.ClampDelay | LA4/ludo.c:424-426 | the delay set is never negative: a negative value becomes 0, any other is kept |
| Ludo.Coordinator.constructor | LA4/ludo.c:301-302 | the coordinator starts with a 1000 ms delay and interactive mode (lines 301-302), and with the game not over, as `game_over` is 0 from its declaration at LA4/ludo.c:44 |
| Ludo.Coordinator.Move | LA4/ludo.c:420-422 | one move request dispatches the first player after the cursor not at 100 (nobody once the active count reaches 0), makes it the cursor, runs exactly its turn, so that players and cursor become AfterMove of the old ones; it keeps the active count right and players on distinct cells, and on a well-formed board keeps positions in 0..100 |
| Ludo.Coordinator.Handle | LA4/ludo.c:416-433 | quit sets game over, next requests exactly one move (players and cursor become AfterMove of the old ones), delay sets the clamped delay, autoplay switches mode, and anything else changes nothing, cursor included |
| Ludo.Coordinator.Run | LA4/ludo.c:394-435 | the coordinator afterwards, with the lines and rolls taken, is exactly Played from where it started: so players and cursor are AfterMoves of the old ones over the rolls taken, every one of those moves requested while some player was active (MovesWhileActive), and nothing is read once the game is over or no player is active; the game is over exactly when it was before or the last line read was `quit`, and no earlier line was; autoplay is on only if it was before or some line read was `autoplay`; the delay is the old one or the clamped value of some `delay` line read; the game invariants hold; when it stops with the active count not positive, every player is at 100; `cmds` holds the command each line parses to |
| Ludo.Coordinator.Loop | LA4/ludo.c:394-435 | the loop, run from any state with the game invariants, keeps them and positions in 0..100, and ends in exactly the state Played gives from where it started |
| Ludo.Coordinator.Step | LA4/ludo.c:395-434 | one pass changes the coordinator as Pass does from the state before it, or not at all when the input that mode needs is used up; it uses at most one line and one roll, one of them unless it stops, and it stops only in a state where the loop is over (Stopped) |
| Ludo.Coordinator.AutoStep | LA4/ludo.c:395-405 | an autoplay pass with a roll left takes it and makes players and cursor AfterMove of the old ones with it; with none left it stops and changes nothing |
| Ludo.Coordinator.LineStep | LA4/ludo.c:406-433 | an interactive pass with no line or no roll left stops and changes nothing; otherwise it handles the next line's command: quit sets game over and stops, next takes one roll and makes players and cursor AfterMove of the old ones with it, delay sets the clamped delay, autoplay switches mode, and any command but next leaves players and cursor alone |
| Ludo.AfterMove | LA4/players.c:276-292 | one move request, as the player-parent serves it: nothing while the active count is not positive; otherwise only the dispatched player (and the count) can change |
| Ludo.MoveKeeps | LA4/players.c:276-292 | a move keeps the active count right and players on distinct cells and, on a well-formed board, positions in 0..100 |
| Ludo.AfterMoves | LA4/ludo.c:394-435 | the players and cursor after one move request per roll, in order |
| Ludo.MovesAfterEnd | LA4/players.c:279-282 | once the active count is not positive, any further move requests change nothing |
| Ludo.MovesKeep | LA4/ludo.c:394-435 | any number of move requests keeps the active count right, players on distinct cells and, on a well-formed board, positions in 0..100 |
| Ludo.Pass | LA4/ludo.c:395-433 | one pass of the loop: it takes a roll exactly when it requests a move, and then players and cursor are AfterMove of the old ones; otherwise no one moves |
| Ludo.Played | LA4/ludo.c:394-435 | the loop run from a state to its end: it ends in a state where the loop is over (Stopped), takes input only forward, and changes nothing from a state where it is already over |
| Ludo.PlayedMoves | LA4/ludo.c:394-435 | the players and cursor at the end of the loop are AfterMoves over exactly the rolls it took, and every one of those moves was requested while some player was active |
| Ludo.PlayedQuits | LA4/ludo.c:416-419 | a `quit` ends the loop: it can only be the last line taken |
| Ludo.PlayedTraced | LA4/ludo.c:394-435 | the loop keeps the settings accounted for by the lines it took (Traced) |
| Ludo.PlayedFromStart | LA4/ludo.c:394-435 | the loop from its start leaves the game over exactly when it was or the last line taken is `quit` and no earlier one is, autoplay and the delay old or set by lines taken, and the players and cursor AfterMoves over the rolls taken, each requested while some player was active |
| Ludo.ParseLines | LA4/ludo.c:410-416 | every sequence of lines has the sequence of commands they parse to, one per line |
| Ludo.TracedLine | LA4/ludo.c:416-433 | handling one more command keeps the settings accounted for: game over exactly when that command is quit, autoplay by an earlier autoplay or this one, the delay by the first value, an earlier delay or this one |
| Ludo.TracedMeans | LA4/ludo.c:416-433 | settings accounted for by the lines read mean that autoplay is on only after an `autoplay` among them, and the delay differs from the first only as set by a `delay` among them |
| Ludo.Launch | LA4/ludo.c:300-352 | start-up exits with 1 exactly when the player count is rejected, the board file is missing or the load fails; otherwise all players are at home, the board is the loaded one, and the game invariants hold |
| Display.DisplayCell | LA4/board.c:41-51 | every grid position in 0..9 x 0..9 shows a cell in 1..100, and row r shows a cell from the decade 9 - r |
| Display.DisplayRow | LA4/board.c:41-51 | every cell 1..100 is drawn in a row 0..9 |
| Display.DisplayCol | LA4/board.c:41-51 | every cell 1..100 is drawn in a column 0..9 |
| Display.DisplayRoundTrip | LA4/board.c:41-51 | the cell shown at a position is drawn back at that same position |
| Display.DisplayOnto | LA4/board.c:41-51 | every cell 1..100 is shown at the position DisplayRow and DisplayCol give |
| Display.DisplayInjective | LA4/board.c:41-51 | two positions show the same cell only if they are the same position, so the map is a bijection onto 1..100 |
| Display.DisplayRowDirection | LA4/board.c:42-50 | row r shows exactly the cells 10*(9-r)+1 .. 10*(9-r)+10; an even base row starts with its lowest cell and climbs to the right, and an odd base row starts with its highest and descends |
| Display.MaskBits | LA4/board.c:53-61 | bit i of the mask is set exactly when i < n, player i is on the cell, and the cell is in 1..99; no bit at or above n is set |
| Display.MaskOffBoard | LA4/board.c:53-61 | the mask is 0 for home (0) and the finish (100) |
| Display.MaskOccupied | LA4/board.c:53-61 | a cell is occupied for player `me` exactly when the board's mask has a bit set for another player |
| Display.PlayersOnCell | LA4/board.c:53-61 | the loop returns MaskOf of the first n positions |

## Left out

- Processes and signals are not modelled. This covers `fork`, the xterm
  windows, `check_xterm`, `waitpid`, `cleanup`, SIGUSR1/SIGUSR2, `pause` and
  `kill`. It also covers SIGINT, whose handler (`LA4/ludo.c:46`, installed
  at `LA4/ludo.c:324`) sets `game_over` and so also ends the loop; the
  game-over clause of `Ludo.Coordinator.Run` counts only a `quit` line.
  A move request is one sequential call (`Ludo.Coordinator.Move` →
  `Players.Game.Advance`) that completes before the next command.
- Shared memory calls (`shmget`, `shmat`, `shmdt`, `shmctl`) are not
  modelled. The two segments are arrays.
- `rand()` and `srand()` are not modelled. The dice are an input sequence
  of values in 1..6.
- Console output is not modelled. This covers `printf`, the ANSI rendering,
  `print_board` and the game-over summary. Ranks are computed but not
  printed.
- FIFO plumbing is not modelled. This covers creating and opening the FIFO,
  the board's writes of `PID:` and `ACK`, `wait_for_ack` (which only prints
  a warning) and the `sleep`/`nanosleep` timing.
- The two PID reads in `main` (`LA4/ludo.c:370-381`) are not part of this
  model. They only feed `kill`. `Fifo.ReadPidFromPipe` models the function
  on its own.
- `fscanf` is not modelled. The board file is the sequence of records it
  would yield.
- `fgets` is not modelled in full.
  - Lines are given already split.
  - Its 127-character limit is not modelled, so an overlong line is not
    split into several commands.
  - Running out of lines stands for `fgets` returning NULL.
- `Fifo.Atoi`: integers are unbounded. An `atoi` of a number beyond 32-bit
  `int` range, which is undefined in C, is not modelled.
- `Ludo.Coordinator.Run` also stops when the supplied lines or dice run
  out. With finite input it can stop while the game is still running, and
  its contract says only which input was used up then.
- `Ludo.Coordinator.Run`: the autoplay branch's second test of the loop
  condition after the sleep (`LA4/ludo.c:400-401`) is the loop test
  itself. Nothing can change the state during the sleep in a sequential
  model.
- `Rules.TurnKeepsBounds` and `Rules.ChainInRange` hold only on a
  well-formed board, one where every jump lands in 1..100. The loader never
  checks `to`, so this is a hypothesis rather than a consequence of
  loading.
- `Players.Game.ApplyChain` keeps the visited buffer as a sequence value
  rather than an array. The buffer is a local of the function and is never
  shared, so no aliasing is lost.
- The player processes' own argument parsing and the board process's
  command line are not part of this model. Neither is the redraw loop
  (`LA4/players.c:320-380`, `LA4/board.c:168-230`).

## Findings

| source | as written | input that shows it | evidently intended | confidence | as-written member | corrected member |
|---|---|---|---|---|---|---|
| LA4/ludo.c:85-91 | a ladder or snake record stores `to - from` at `shm_board[from]` without checking `from` | a board file whose first record is `L 150 160`: the load writes index 150 of the 101-cell board and returns 0 | a record starting outside 1..100 is a load error, as a record without two integers is | not executed | BoardFile.AsWrittenStoresOffBoard | BoardFile.FillFails |
| LA4/ludo.c:254 | on end of file after some bytes, `read_line_from_fifo` returns their count without writing a NUL, and `read_pid_from_pipe` then parses the whole buffer, an uninitialised local (`LA4/ludo.c:280`) | a 64-byte buffer whose indeterminate stack contents happen to read `PID:7`, and a read that yields `P`, `I`, end of file: the parse returns 7 | the parse looks only at the bytes the read stored and returns -1 for a line that is not a PID line | not executed | Fifo.UnterminatedPidReadsStaleBytes | Fifo.ReadPidFromPipe |

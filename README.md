# Tic-tac-toe game core in Dafny

This project models the game logic of `tic-tac-toe/script.js`, a browser tic-tac-toe game with a computer opponent. The model covers:

- the 3x3 board and the eight winning triples;
- the win and full-board tests;
- the enumeration of empty cells;
- the minimax search that picks O's move;
- the difficulty policy (`getAIMove`);
- the controller that keeps the script's globals (`gameState`, `currentPlayer`, `gameActive`, `gameMode`, `xWins`, `oWins`, `draws`).

The modules follow the script's parts:

- `Wrappers`: `Option`, where `None` stands for JavaScript's `undefined`.
- `Board` (`board.dfy`): cells, players, `winPatterns`, `isWinnerFromState`, the full-board test and the empty-cell list. A geometric description of a line (row, column, diagonal) is proved equivalent to the source's table-driven test.
- `Search` (`minimax.dfy`): `Minimax` is the search written as a function, with a fold over the empty cells. `MinimaxSearch` is the search as the source runs it. It copies the array for each branch and collects the moves in a `for` loop. That loop is the method `CollectMoves`, which calls `MinimaxSearch` in turn. The moves are then reduced in a second loop. It is proved to return exactly what `Minimax` returns, and to leave the caller's array alone.
- `Policy` (`policy.dfy`): `getAIMove` with its two random draws as parameters. `coin` is the outcome of `Math.random() < 0.5`. `k` is the position `Math.floor(Math.random() * n)`.
- `Rules` (`rules.dfy`): the globals as one `Session` value, with one pure transition per script function. The properties of play are proved about these transitions: the alternation invariant, scoring once per game, ignored clicks and the resets.
- `Controller` (`controller.dfy`): class `Game`. Its fields are the globals and the board is a nine-cell array. Each method updates the fields in place, and its postcondition ties the new state to the matching `Rules` transition.

## Model

| member | source | states |
|---|---|---|
| `Board.Other` | tic-tac-toe/script.js:78 | the player who moves next is never the current one |
| `Board.OtherInvolutive` | tic-tac-toe/script.js:78 | toggling twice gives back the player; X is followed by O and O by X |
| `Board.WinnerIffLine` | tic-tac-toe/script.js:170-174 | the win test over `winPatterns` holds exactly when the player owns a whole row, column or diagonal of the 3x3 grid (both directions) |
| `Board.IsWinnerFromState` | tic-tac-toe/script.js:170-174 | the win test; `Board.WinnerIffLine` proves it equal to owning a row, column or diagonal, and `Board.TableIffTriples` unfolds it into the eight triples |
| `Board.IsFull` | tic-tac-toe/script.js:96 | the full-board test; `Board.EmptyIndices` proves the empty-cell list is empty exactly when it holds |
| `Board.TripleHeld` | tic-tac-toe/script.js:171-172 | a pattern `[a,b,c]` is held exactly when all three of its cells carry the player's mark |
| `Board.TableIffTriples` | tic-tac-toe/script.js:170-174 | the table-driven win test holds exactly when the player owns one of the eight listed triples |
| `Board.RowsIffTriples` | tic-tac-toe/script.js:18 | a row of the grid is held exactly when one of the three row triples of the table is owned |
| `Board.ColumnsIffTriples` | tic-tac-toe/script.js:19 | a column of the grid is held exactly when one of the three column triples of the table is owned |
| `Board.EmptyBoardCounts` | tic-tac-toe/script.js:33 | the fresh board holds no mark of either player |
| `Board.EmptyBoardHasNoWinner` | tic-tac-toe/script.js:33 | the fresh board has no line for either player and is not full |
| `Board.SingleMarkNoLine` | tic-tac-toe/script.js:17-21 | a player with at most one mark on the board has no line: every triple uses three different cells |
| `Board.PlacingKeepsOtherLines` | tic-tac-toe/script.js:170-174 | writing p's mark never creates a line for the other player |
| `Board.EmptyFrom` | tic-tac-toe/script.js:148 | the empty cells from a start index: exactly the unmarked cells at or past it, each once, ascending |
| `Board.EmptyIndices` | tic-tac-toe/script.js:131 | the empty-cell list holds exactly the unmarked cells, in strictly ascending order, and is empty exactly when the board is full |
| `Board.FillShrinks` | tic-tac-toe/script.js:157-158 | filling an empty cell removes exactly that cell from the set of empty cells: the search's decreasing measure |
| `Board.EmptyCountFill` | tic-tac-toe/script.js:72 | each write into an empty cell (here in `makeMove`, and at lines 157-158 in `minimax`) leaves exactly one empty cell fewer, so a draw in range for the board after X's move is in range for the reply |
| `Board.CountFill` | tic-tac-toe/script.js:72 | writing p's mark into an empty cell adds one mark of p and leaves the other player's count alone |
| `Search.Moves` | tic-tac-toe/script.js:154-162 | the loop yields one move per empty cell |
| `Search.MovesAt` | tic-tac-toe/script.js:156-162 | move k is cell k of the list, scored by searching a copy of the board with the mover's mark there and the opponent to move |
| `Search.ReduceFirstBest` | tic-tac-toe/script.js:164-166 | over moves in ascending cell order, the strict-comparison reduce returns one of them that no move beats and that beats every move at a lower cell: the first best one |
| `Search.MovesFirstBest` | tic-tac-toe/script.js:154-166 | the reduced move is a listed cell with its own score, no listed cell scores better, and every lower listed cell scores strictly worse |
| `Search.Minimax` | tic-tac-toe/script.js:147-167 | the search as a function; `Search.MinimaxTerminal`, `Search.MinimaxChoice`, `Search.MinimaxScoreRange` and `Search.MinimaxSeesImmediateWin` state what it returns |
| `Search.MinimaxChoice` | tic-tac-toe/script.js:147-167 | with no winner and an empty cell, minimax returns an empty cell and its child score; no empty cell beats it (maximum for O, minimum for X); every empty cell below it scores strictly worse, so ties go to the lowest index |
| `Search.MinimaxScoreRange` | tic-tac-toe/script.js:150-152 | every score is -10, 0 or +10 (no depth discount), by induction over the empty cells |
| `Search.MinimaxTerminal` | tic-tac-toe/script.js:150-152 | terminal checks in the source's order: an X line gives -10 even if O also has one, then an O line +10, then a full board 0; a move is returned exactly when none applies |
| `Search.MinimaxSeesImmediateWin` | tic-tac-toe/script.js:146-167 | if the mover can complete a line now, the board is valued as the mover's win (+10 for O, -10 for X) |
| `Search.MinimaxSearch` | tic-tac-toe/script.js:147-167 | the loop-and-copy search returns exactly the minimax result; it has no `modifies` clause, so the caller's array is left as it was |
| `Search.CollectMoves` | tic-tac-toe/script.js:154-162 | the loop that copies the board per empty cell and searches each copy builds exactly the move list of `Moves` |
| `Search.CopyWith` | tic-tac-toe/script.js:157-158 | the copy is a fresh array equal to the board with the one cell overwritten |
| `Search.ReduceMoves` | tic-tac-toe/script.js:164-166 | the loop over the moves returns the left fold `Reduce`, which `ReduceFirstBest` shows is the first best move |
| `Policy.RandomPick` | tic-tac-toe/script.js:134 | the drawn position gives a listed cell when it is in range and `undefined` otherwise |
| `Policy.HardMove` | tic-tac-toe/script.js:143 | `minimax(gameState, "O").index` is defined exactly on an open board; it is then an empty cell with O's best child score, the lowest such cell |
| `Policy.AIChoice` | tic-tac-toe/script.js:130-144 | any defined move is an empty cell; on an open board a move is always defined; easy (and medium on heads) takes the drawn empty cell; every other token, not only "hard", takes the minimax move |
| `Policy.EasyReachesEveryEmptyCell` | tic-tac-toe/script.js:133-135 | every empty cell is chosen by some draw in easy mode |
| `Policy.MediumMixesBoth` | tic-tac-toe/script.js:137-141 | medium plays as hard on one coin outcome and as easy on the other |
| `Rules.ClickNow` | tic-tac-toe/script.js:47-58 | a reply is scheduled exactly when X moves into an empty cell of an active game, the move does not end the game and the mode is not "pvp"; a "pvp" game never schedules one; a scheduled reply finds the game active, the mark written and O to move |
| `Rules.Reset` | tic-tac-toe/script.js:33-35 | the state reset of `createBoard`; `Rules.ResetSpec` states it |
| `Rules.WithMode` | tic-tac-toe/script.js:178 | `setMode`; `Rules.ModeChangeResets` states it together with the reset that follows |
| `Rules.Place` | tic-tac-toe/script.js:72 | `makeMove`; `Rules.ClickNowBoard`, `Rules.AIReplyBoard` and `Board.CountFill` state its effect on the board |
| `Rules.Switch` | tic-tac-toe/script.js:78 | `switchTurn`; `Rules.SwitchTwice` states it |
| `Rules.Record` | tic-tac-toe/script.js:114-117 | `updateScore`; `Rules.CheckOverSpec` states which counter rises |
| `Rules.CheckOver` | tic-tac-toe/script.js:88-104 | `checkGameOver`; `Rules.CheckOverSpec` states it |
| `Rules.AIReply` | tic-tac-toe/script.js:59-66 | the deferred reply; `Rules.AIReplyBoard` and `Rules.ReplyKeepsConsistent` state it |
| `Rules.Click` | tic-tac-toe/script.js:47-68 | `handleCellClick` with the reply applied at once; `Rules.ClickIgnored`, `Rules.ClickScoresOnce`, `Rules.ClickKeepsConsistent` and `Rules.ComputerRepliesAtOnce` state it |
| `Rules.ResetSpec` | tic-tac-toe/script.js:33-35 | reset gives nine empty cells, X to move and an active game; it keeps the mode and all three counters; resetting twice equals resetting once; the result satisfies the invariant of play |
| `Rules.ModeChangeResets` | tic-tac-toe/script.js:183-186 | a mode change installs the new mode and starts a fresh game with X to move; X's wins, O's wins and draws each stay as they were |
| `Rules.SwitchTwice` | tic-tac-toe/script.js:78 | `switchTurn` changes the player; applying it twice restores the session |
| `Rules.CheckOverSpec` | tic-tac-toe/script.js:88-104 | over exactly on a line of p or a full board; p's line counts as p's win even on a full board; a draw needs a full board and no line of p; on game end exactly one counter rises by one and the game becomes inactive; otherwise nothing changes |
| `Rules.ClickIgnored` | tic-tac-toe/script.js:50 | a click on an occupied cell or after the game ended changes nothing |
| `Rules.ClickScoresOnce` | tic-tac-toe/script.js:47-68 | no counter falls, a finished game stays finished, the mode stays, and the games total rises by one exactly when this click ended the game |
| `Rules.MoveKeepsConsistent` | tic-tac-toe/script.js:52-56 | one move by the player to move, with its game-over check and turn switch, keeps the invariant of play |
| `Rules.ReplyKeepsConsistent` | tic-tac-toe/script.js:59-66 | O's reply on a consistent active board with O to move always finds a cell (`getAIMove` is never `undefined` there) and keeps the invariant of play |
| `Rules.ClickKeepsConsistent` | tic-tac-toe/script.js:47-68 | along the click path with the reply applied at once, X has as many marks as O or one more, the player to move matches the counts, and an active game has no line and an empty cell |
| `Rules.ComputerRepliesAtOnce` | tic-tac-toe/script.js:58-66 | against the computer, a click by X that leaves the game running adds one X and one O and gives the turn back to X |
| `Rules.ClickNowBoard` | tic-tac-toe/script.js:52 | after a real move the board has the mover's mark in the clicked cell, whether or not the game ended |
| `Rules.AIReplyBoard` | tic-tac-toe/script.js:61 | after the reply the board has O in the chosen cell, whether or not the game ended |
| `Rules.FreshGameConsistent` | tic-tac-toe/script.js:10-15 | the initial game satisfies the invariant of play |
| `Rules.OpeningClick` | tic-tac-toe/script.js:47-58 | against the computer, the first click of a fresh game places X, keeps the game going, passes the turn to O and schedules the reply |
| `Rules.SecondClick` | tic-tac-toe/script.js:50-56 | a click on another cell while the reply is pending places O there and leaves the computer a move |
| `Rules.RaceCounts` | tic-tac-toe/script.js:72 | one X and then two O on an unmarked board give one X against two O |
| `Rules.ClickDuringReplyBreaksAlternation` | tic-tac-toe/script.js:50-66 | as written, against the computer, a second click on any other cell inside the reply window plays for O, and the reply plays O again: one X against two O |
| `Rules.ReplyAfterRestartBreaksAlternation` | tic-tac-toe/script.js:59-66 | as written, against the computer, a restart inside the reply window leaves the reply pending; it plays O first on the fresh board, whatever cell X clicked |
| `Controller.Game.constructor` | tic-tac-toe/script.js:10-15 | the initial globals: empty board, X to move, active, the selected mode, zero scores |
| `Controller.Game.CreateBoard` | tic-tac-toe/script.js:31-35 | a new empty array, X to move, active; mode and scores unchanged |
| `Controller.Game.SetMode` | tic-tac-toe/script.js:177-179 | only the mode changes |
| `Controller.Game.ChangeMode` | tic-tac-toe/script.js:183-186 | the new mode and then a reset |
| `Controller.Game.MakeMove` | tic-tac-toe/script.js:71-72 | the cell gets the player's mark; nothing else changes |
| `Controller.Game.SwitchTurn` | tic-tac-toe/script.js:77-78 | the player to move toggles; nothing else changes |
| `Controller.Game.IsWinner` | tic-tac-toe/script.js:107-111 | true exactly when the player owns a row, column or diagonal of the live board |
| `Controller.Game.UpdateScore` | tic-tac-toe/script.js:114-117 | the matching counter rises by one |
| `Controller.Game.CheckGameOver` | tic-tac-toe/script.js:88-104 | the state change and result of `checkGameOver` (see `Rules.CheckOverSpec`) |
| `Controller.Game.GetAIMove` | tic-tac-toe/script.js:130-144 | the move `Policy.AIChoice` specifies, computed with `MinimaxSearch` over the live array without writing to it |
| `Controller.Game.ReplyCallback` | tic-tac-toe/script.js:59-66 | the deferred callback changes the state exactly as `Rules.AIReply` |
| `Controller.Game.HandleCellClick` | tic-tac-toe/script.js:47-68 | the state after the click and the immediate reply is `Rules.Click` of the old state; the invariant of play is kept |

## Left out

- DOM work is presentation only and is not modelled: element lookup, cell creation, `textContent` writes, the status line (`updateStatus`), event-listener registration and the `initGame` call. The constructor of `Controller.Game` takes the selected mode as a parameter. A cell index is an integer 0..8, not the string `dataset.index`.
- The 400 ms `setTimeout` deferral is not modelled as event-loop timing. `HandleCellClick` calls `ReplyCallback`, the callback, right after the human move, and `Rules.Click` does the same. The source's actual deferral appears only in the two Findings lemmas, which run `Rules.ClickNow` and `Rules.AIReply` as separate steps with other events in between.
- `Math.random` is a floating-point runtime call, so it is replaced by parameters. `coin` stands for `Math.random() < 0.5`, and `k` for the drawn position in the list of empty cells. Only positions `Math.floor(Math.random() * n)` can produce are admitted. The probability distribution itself is not modelled.
- `getAIMove` returns `undefined` only on a board that is already decided. `makeMove(undefined, "O")` then throws at its display update, before any other state changes. This is modelled as "nothing changes". The stray `gameState["undefined"]` property it writes first is not modelled. `Rules.ReplyKeepsConsistent` shows that this case cannot happen when the reply runs on a consistent board, as it does along the click path.
- `Controller.Game.IsAIPlaying` (`isAIPlaying`, lines 125-127) is a one-line test. It has no contract of its own, and `HandleCellClick` states its effect.
- The "unbeatable" claim (line 146) is not proved. It says that perfect play from the empty board is worth 0, and proving it would mean enumerating the whole game tree. Only the local selection rule of `minimax` is specified.
- Where the code does something a player might not expect, the model follows the code:
  - An unknown mode token is not treated as "pvp". Any token other than "pvp" turns the computer on, and any token other than "easy" or "medium" plays minimax.
  - Clicks are not blocked while a reply is pending, and a restart does not cancel the reply (see Findings).
  - `checkGameOver` tests only the mover's line. Only `minimax` checks X before O.

## Findings

| source | as written | input that shows it | evidently intended | confidence | as-written member | corrected member |
|---|---|---|---|---|---|---|
| tic-tac-toe/script.js:50-66 | while O's reply is pending, line 50 checks only `gameActive` and occupancy, so a click plays for O; the reply then plays O again | any mode other than "pvp", fresh board: click one cell, then another within 400 ms; the reply then adds a second O | clicks are ignored until the reply has been applied, so X and O alternate | not executed | `Rules.ClickDuringReplyBreaksAlternation` | `Rules.ClickKeepsConsistent` |
| tic-tac-toe/script.js:59-66 | a restart does not cancel the pending reply; the callback never re-checks the board, so O plays first on the new board and the turn passes to O | any mode other than "pvp", fresh board: click any cell, press restart within 400 ms | a restart discards the pending reply, so the new game starts with X to move on an empty board | not executed | `Rules.ReplyAfterRestartBreaksAlternation` | `Rules.ResetSpec` |

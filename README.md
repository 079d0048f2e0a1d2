# Tic-tac-toe game rules and computer opponent

This is a Dafny model of the game logic of a browser tic-tac-toe game, the
`Game` class in `src/scripts/main.js`, with the page rendering removed.

Two players, X and O, take turns on a nine-cell board. X always opens a
round. A round ends when a player completes one of the eight lines (three
rows, three columns, two diagonals) or when the board is full. The winner of
a round scores one point. A series ends when a score reaches five. Otherwise
the next round starts after a short delay.

In computer mode, O is played by the program. Its difficulty sets how it
moves:
- hard: takes a winning cell, else blocks X's winning cell, else plays a
  random free cell;
- medium: does the hard search on a coin flip, else plays randomly;
- easy: always plays randomly.

The project has four modules:

- `Board` (`board.dfy`) holds the board and what can be read off it:
  - the players, the cells and the eight lines (`Combinations`);
  - the winner check `Winner`, which finds the first completed line in the fixed order;
  - the draw check `IsDraw`;
  - the list of free cells, `AvailableCells`;
  - the one-move lookahead `WinningMove`, the lowest free cell where a player would complete a line.
- `Opponent` (`opponent.dfy`) holds the computer's choice of cell, `Choice`. The two random draws of the game are its parameters:
  - `searchRoll` is the medium-difficulty coin flip;
  - `pick` is the position in the list of free cells that the random fallback takes.
- `Rules` (`rules.dfy`) holds the whole game state as a value, `GameState`:
  - one function per operation gives the state after that operation, together with the call the game would defer with a timer (`Deferred`);
  - `Consistent` is the invariant every reachable state keeps: the round is over exactly when a line is completed or the board is full, and the mark counts alternate with the turn;
  - lemmas state what each operation promises.
- `TicTacToe` (`game.dfy`) holds the class `Game`:
  - the board is an `array` that is written in place; the other fields are updated in place too;
  - `CheckWinner` and `FindWinningMove` are the game's loops, with their early returns;
  - the constructor, `HandleCellClick`, `MakeMove`, `ComputerMove`, `RoundRestart`, `FullRestart`, `SetGameMode` and `SetDifficulty` are each proved to leave exactly the state that the matching `Rules` function or constant gives, and to keep `Consistent`;
  - the three helpers that `MakeMove` calls work on the state just after the mark is written, where `Consistent` need not hold yet: `CheckEndCondition` and `EndGame` ensure the fields and the scheduled call that `Rules.EndCondition` and `Rules.EndRound` give, and `SwitchPlayer` ensures the other player is to move with every other field unchanged.

A timer callback of the game becomes a returned `Deferred` value. The caller
then makes the deferred call (`ComputerMove` or `RoundRestart`) as a later,
explicit method call.

Some consequences of the code that the model makes explicit:

- The series is decided when a score *equals* 5 (`src/scripts/main.js:145`). Scores start at zero and rise by one per round, and once a score is 5 no round restart is scheduled. Only a round restart that was already pending, or a direct call to `RoundRestart`, could reopen a round in the model and let a score pass 5, after which `SeriesOver` is false again. In the game only the hidden board table (`src/scripts/main.js:153`, which is rendering) keeps such a round from being played.
- On the board `[X,X,_, O,O,_, _,_,_]` with the computer to move on hard difficulty, the search for O's own win runs before the block (`src/scripts/main.js:174-179`). O completes the middle row at 5, so the computer plays 5 rather than the block at 2. `Opponent.WinBeforeBlockExample` proves 5.
- The board is "locked" while the computer thinks only through pointer-events styling (`src/scripts/main.js:78`, `302-306`). The rules themselves reject a click only when the round is over, the index is off the board, or the cell is taken.
- A computer move scheduled before a restart still runs after it. The round is open again, so it plays, and it plays for X, who is to move (`Rules.DeferredMoveAfterRestart`).
- `findWinningMove` checks every line of the copied board. A line that is already complete for the player counts, even if it does not pass through the tried cell. `Board.WinsWith` keeps that reading. In reachable states no line is complete while the round is open, so this never shows.

## Model

| member | source | states |
|---|---|---|
| Board.Winner | src/scripts/main.js:114-126 | None exactly when no line holds three equal marks; otherwise the report names the first completed line in the fixed order and the owner of its marks |
| Board.AvailableCells | src/scripts/main.js:223-225 | every listed index is an empty cell and every empty cell is listed |
| Board.AvailableAscending | src/scripts/main.js:223-225 | the free cells are listed in strictly ascending order |
| Board.IsDraw | src/scripts/main.js:128-130 | the draw check: every cell is marked |
| Board.WinsWith | src/scripts/main.js:207-216 | some line holds three of the player's marks on a copy of the board with the player's mark written into the cell |
| Board.DrawIffNoneAvailable | src/scripts/main.js:128-130 | the board is full exactly when no cell is available |
| Board.WinningMove | src/scripts/main.js:205-221 | -1 exactly when no empty cell completes a line for the player; otherwise an empty cell that does, with no lower empty cell that does |
| Board.WinningMoveUnique | src/scripts/main.js:205-221 | those three conditions determine the lookahead's answer, so any search meeting them agrees with it |
| Opponent.WinOrBlock | src/scripts/main.js:174-180 | an empty cell or -1; -1 exactly when no empty cell completes a line for O or for X |
| Opponent.Choice | src/scripts/main.js:166-203 | the cell played is always empty, and nothing is played exactly when the board is full |
| Opponent.HardTakesWin | src/scripts/main.js:174-176 | on hard difficulty, when O can complete a line, the computer plays the lowest cell that does |
| Opponent.HardBlocks | src/scripts/main.js:177-179 | on hard difficulty, when O cannot win but X could, the computer plays the lowest cell that completes a line for X |
| Opponent.HardFallsBackToPick | src/scripts/main.js:192-194 | on hard difficulty with neither a win nor a block, the computer plays the free cell at position `pick` |
| Opponent.EasyIsRandom | src/scripts/main.js:182-194 | easy difficulty plays as medium difficulty on a lost coin flip: the free cell at position `pick` |
| Opponent.MediumSearchIsHard | src/scripts/main.js:182-190 | medium difficulty on a won coin flip plays exactly as hard difficulty |
| Opponent.WinBeforeBlockExample | src/scripts/main.js:174-180 | on [X,X,_, O,O,_, _,_,_] X's winning cell is 2, yet hard difficulty plays O's own win at 5 |
| Opponent.CornerOpeningReply | src/scripts/main.js:192-194 | after X opens at 0 there is neither a win nor a block, so hard difficulty plays the free cell at `pick`, which is one of cells 1 to 8 |
| Rules.Scores.Bump | src/scripts/main.js:137 | the winner's score rises by exactly one and the other score is unchanged |
| Rules.SeriesOver | src/scripts/main.js:145 | the series is decided when either score equals 5 |
| Rules.EndRound | src/scripts/main.js:132-150 | the round is over; a winner gains one point and the other score stays; a draw changes no score; the next round is scheduled exactly when neither score equals 5 |
| Rules.EndCondition | src/scripts/main.js:96-112 | the round ends exactly when a line is completed or the board is full; a completed line wins even on a full board |
| Rules.Play | src/scripts/main.js:83-94 | only the chosen cell changes, and it takes the mover's mark; the turn passes exactly when the round did not end; the score changes only for the owner of a completed line; mode and difficulty stay |
| Rules.Click | src/scripts/main.js:63-81 | the click changes nothing exactly when the round is over, the index is off the board or the cell is taken; otherwise the chosen cell takes the mover's mark and the state is that of `Rules.Play`; the computer's move is scheduled exactly when it plays, the round is open and O is to move; otherwise the call scheduled is that of `Rules.Play`, so a click that ends the round schedules the next round unless a score equals 5 |
| Rules.ComputerPlay | src/scripts/main.js:166-203 | nothing happens exactly when the round is over or the board is full; otherwise it is `Rules.Play` at the empty cell `Opponent.Choice` picks, and it never schedules another computer move |
| Rules.HardComputerPlayWins | src/scripts/main.js:174-176 | on hard difficulty with O to move and a winning cell for O, the computer's move plays O's lowest winning cell, ends the round and gives O exactly one more point |
| Rules.AfterRoundRestart | src/scripts/main.js:227-230 | the state after a round restart: board cleared, round open, X to move |
| Rules.AfterFullRestart | src/scripts/main.js:241-246 | the state after a full restart: a round restart with both scores zero |
| Rules.AfterSetGameMode | src/scripts/main.js:253-255 | the state after choosing a mode: that mode, then a full restart |
| Rules.AfterSetDifficulty | src/scripts/main.js:274-275 | the state after choosing a difficulty: only the difficulty changes |
| Rules.InitialConsistent | src/scripts/main.js:26-35 | the starting state satisfies the invariant |
| Rules.PlayConsistent | src/scripts/main.js:83-94 | a move into an empty cell of an open round keeps the invariant |
| Rules.PlayCreditsMover | src/scripts/main.js:132-137 | from a consistent open round, a completed line belongs to the player who just moved, who gains exactly one point while the other score stays |
| Rules.ClickConsistent | src/scripts/main.js:63-81 | a click keeps the invariant |
| Rules.ComputerPlayConsistent | src/scripts/main.js:166-203 | the computer's move keeps the invariant |
| Rules.GameOverIgnoresInput | src/scripts/main.js:64-66 | once the round is over, a click and the computer's move change nothing and schedule nothing |
| Rules.ComputerPlayMarksOneCell | src/scripts/main.js:196-200 | in an open round that is not full, the computer's move writes the mark of whoever is to move into one empty cell and leaves the other cells alone |
| Rules.DeferredMoveAfterRestart | src/scripts/main.js:227-230 | a computer move that runs after a round restart writes X's mark into an otherwise empty board |
| Rules.RoundRestartClears | src/scripts/main.js:227-239 | after a round restart every cell is free, the round is open, X is to move, and scores, mode and difficulty are kept; the invariant holds |
| Rules.FullRestartClears | src/scripts/main.js:241-251 | a full restart is a round restart that also sets both scores to zero |
| Rules.SettingsConsistent | src/scripts/main.js:253-275 | choosing a mode is a full restart in that mode; choosing a difficulty changes only the difficulty; both keep the invariant |
| Rules.DrawExample | src/scripts/main.js:96-112 | in any series not yet decided, X's last move into cell 8 of [X,O,X, X,O,O, O,X,_] draws: no score changes, X stays to move, the next round is scheduled |
| TicTacToe.Game.constructor | src/scripts/main.js:26-35 | the game starts with an empty board, X to move, both scores zero, computer mode on hard difficulty |
| TicTacToe.Game.HandleCellClick | src/scripts/main.js:63-81 | the fields after the click and the call it schedules are those of `Rules.Click` |
| TicTacToe.Game.MakeMove | src/scripts/main.js:83-94 | the mark is written in place and the fields end as `Rules.Play` gives |
| TicTacToe.Game.CheckEndCondition | src/scripts/main.js:96-112 | reports whether the round ended, and changes the fields as `Rules.EndCondition` gives, or not at all |
| TicTacToe.Game.CheckWinner | src/scripts/main.js:114-126 | the scan over the lines returns `Board.Winner` of the board |
| TicTacToe.Game.EndGame | src/scripts/main.js:132-150 | the fields and the scheduled call are those of `Rules.EndRound` |
| TicTacToe.Game.SwitchPlayer | src/scripts/main.js:162-164 | the other player is to move and no other field changes |
| TicTacToe.Game.ComputerMove | src/scripts/main.js:166-203 | the fields after the computer's move and the call it schedules are those of `Rules.ComputerPlay` |
| TicTacToe.Game.FindWinningMove | src/scripts/main.js:205-221 | trying each free cell on a copy of the board returns `Board.WinningMove`; the board is not changed |
| TicTacToe.Game.FirstAvailableWins | src/scripts/main.js:206-215 | the first free cell, in list order, that completes a line is the lowest such cell |
| TicTacToe.Game.NoAvailableWins | src/scripts/main.js:218-220 | when no free cell completes a line, the lookahead answers -1 |
| TicTacToe.Game.RoundRestart | src/scripts/main.js:227-239 | the board is cleared in place and the fields are those of a round restart; the invariant holds |
| TicTacToe.Game.FullRestart | src/scripts/main.js:241-251 | the fields are those of a full restart |
| TicTacToe.Game.SetGameMode | src/scripts/main.js:253-255 | the mode is set, then a full restart |
| TicTacToe.Game.SetDifficulty | src/scripts/main.js:274-275 | only the difficulty changes, and the invariant is kept |

## Left out

- Rendering is left out. This covers the page lookups, the event-listener wiring, the cell, panel and button styling, `updateUI`, `disableBoard`, `enableBoard` and `showFinalWinner` (`src/scripts/main.js:6-24`, `46-61`, `85-86`, `138-140`, `152-160`, `257-271`, `277-314`). None of them changes the game state.
- The timers (`src/scripts/main.js:79`, `148`) are not modelled as time. An operation returns the call it would defer, and the caller makes that call later. How deferred calls interleave with clicks and restarts is up to the caller.
- `Math.random` (`src/scripts/main.js:183`, `193`) becomes two parameters. The coin flip is the boolean `searchRoll`. The position `pick` is required to be inside the list of free cells whenever that list is non-empty. Nothing is said about the distribution.
- `parseInt` of the cell's data attribute and the `NaN` test (`src/scripts/main.js:69-71`) are not modelled. The click takes an integer index, and an index off the board is ignored, as `board[index]` is then `undefined`, not `null`.
- The player names, the mode names and the difficulty names are enumerations, not strings. A difficulty other than the three named ones cannot be expressed.
- Scores are unbounded naturals. The game's numbers would only lose precision far beyond any reachable score.

/** The game object: one board array and the game-state fields that the
    click handler, the deferred computer move and the restart buttons update
    in place. Every operation is proved to leave the state that the matching
    function of `Rules` gives, and to keep `Rules.Consistent`. Where the game
    would start a timer, the method returns the deferred call instead. */
module TicTacToe {
  import opened Board
  import opened Opponent
  import opened Rules

  class Game {
    var board: array<Cell>
    var currentPlayer: Player
    var scores: Scores
    var gameMode: GameMode
    var difficulty: Difficulty
    var isGameOver: bool

    /** The fields as one game-state value. */
    function State(): GameState
      reads this, board
      requires board.Length == 9
    {
      GameState(board[..], currentPlayer, scores, gameMode, difficulty, isGameOver)
    }

    ghost predicate Valid()
      reads this, board
    {
      board.Length == 9 && Consistent(State())
    }

    constructor ()
      ensures Valid() && fresh(board)
      ensures State() == Initial
    {
      board := new Cell[9](_ => Empty);
      currentPlayer := X;
      scores := Scores(0, 0);
      gameMode := VersusComputer;
      difficulty := Hard;
      isGameOver := false;
      new;
      assert board[..] == EmptyBoard;
      InitialConsistent();
    }

    /** A click on cell `index`; returns the call the game defers (the
        computer's move, or the next round). */
    method HandleCellClick(index: int) returns (next: Deferred)
      requires Valid()
      modifies this, board
      ensures Valid() && board == old(board)
      ensures Step(State(), next) == Click(old(State()), index)
    {
      ClickConsistent(State(), index);
      if isGameOver {
        return NoCall;
      }
      if !(0 <= index < board.Length) || board[index] != Empty {
        return NoCall;
      }
      next := MakeMove(index);
      if gameMode == VersusComputer && !isGameOver && currentPlayer == O {
        next := ComputerMoveCall;
      }
    }

    /** Writes the current player's mark into an empty cell, then ends the
        round or hands the turn over. */
    method MakeMove(index: Index) returns (next: Deferred)
      requires Valid() && !isGameOver && board[index] == Empty
      modifies this, board
      ensures Valid() && board == old(board)
      ensures Step(State(), next) == Play(old(State()), index)
    {
      PlayConsistent(State(), index);
      board[index] := Mark(currentPlayer);
      var ended;
      ended, next := CheckEndCondition();
      if ended {
        return;
      }
      SwitchPlayer();
    }

    /** Ends the round when a line is completed or the board is full. */
    method CheckEndCondition() returns (ended: bool, next: Deferred)
      requires board.Length == 9
      modifies this
      ensures board == old(board)
      ensures ended == EndCondition(old(State())).Some?
      ensures ended ==> Step(State(), next) == EndCondition(old(State())).value
      ensures !ended ==> State() == old(State()) && next == NoCall
    {
      var winnerInfo := CheckWinner();
      if winnerInfo.Some? {
        next := EndGame(Some(winnerInfo.value.winner));
        return true, next;
      }
      if IsDraw(board[..]) {
        next := EndGame(None);
        return true, next;
      }
      return false, NoCall;
    }

    /** The first combination, in the fixed order, whose three cells hold the
        same mark. */
    method CheckWinner() returns (r: Option<Win>)
      requires board.Length == 9
      ensures r == Winner(board[..])
    {
      var k := 0;
      while k < |Combinations|
        invariant 0 <= k <= |Combinations|
        invariant WinnerFrom(board[..], k) == Winner(board[..])
      {
        var combination := Combinations[k];
        var (a, b, c) := combination;
        if board[a] != Empty && board[a] == board[b] && board[a] == board[c] {
          return Some(Win(board[a].owner, combination));
        }
        k := k + 1;
      }
      return None;
    }

    /** Marks the round over and credits the winner, if any. */
    method EndGame(winner: Option<Player>) returns (next: Deferred)
      requires board.Length == 9
      modifies this
      ensures board == old(board)
      ensures Step(State(), next) == EndRound(old(State()), winner)
    {
      isGameOver := true;
      if winner.Some? {
        scores := scores.Bump(winner.value);
      }
      if scores.x == SeriesWins || scores.o == SeriesWins {
        next := NoCall;
      } else {
        next := RoundRestartCall;
      }
    }

    method SwitchPlayer()
      modifies this
      ensures currentPlayer == old(currentPlayer).Other()
      ensures scores == old(scores) && gameMode == old(gameMode) && difficulty == old(difficulty)
      ensures isGameOver == old(isGameOver) && board == old(board)
    {
      currentPlayer := if currentPlayer == X then O else X;
    }

    /** The computer's deferred move, with the coin flip of medium
        difficulty as `searchRoll` and the random fallback as the position
        `pick` in the list of available cells. */
    method ComputerMove(searchRoll: bool, pick: nat) returns (next: Deferred)
      requires Valid() && PickFits(board[..], pick)
      modifies this, board
      ensures Valid() && board == old(board)
      ensures Step(State(), next) == ComputerPlay(old(State()), searchRoll, pick)
    {
      ComputerPlayConsistent(State(), searchRoll, pick);
      if isGameOver {
        return NoCall;
      }
      var moveIndex := -1;
      var availableCells := AvailableCells(board[..]);
      if difficulty == Hard {
        moveIndex := FindWinningMove(O);
        if moveIndex == -1 {
          moveIndex := FindWinningMove(X);
        }
      }
      if difficulty == Medium {
        if searchRoll {
          moveIndex := FindWinningMove(O);
          if moveIndex == -1 {
            moveIndex := FindWinningMove(X);
          }
        }
      }
      assert moveIndex == if difficulty == Hard || (difficulty == Medium && searchRoll)
                           then WinOrBlock(board[..]) else -1;
      // Reading past the end of an empty list leaves no move: -1 stands for it.
      if moveIndex == -1 && |availableCells| > 0 {
        moveIndex := availableCells[pick];
      }
      assert Choice(board[..], difficulty, searchRoll, pick) == if moveIndex == -1 then None else Some(moveIndex);
      if moveIndex != -1 {
        next := MakeMove(moveIndex);
      } else {
        next := NoCall;
      }
    }

    /** The lowest empty cell where `player`'s mark would complete a line,
        found by trying each available cell on a copy of the board; -1 when
        there is none. */
    method FindWinningMove(player: Player) returns (r: int)
      requires board.Length == 9
      ensures r == WinningMove(board[..], player)
    {
      var snapshot: Board := board[..];
      var cells := AvailableCells(snapshot);
      var n := 0;
      while n < |cells|
        invariant 0 <= n <= |cells|
        invariant forall j :: 0 <= j < n ==> !WinsWith(snapshot, cells[j], player)
      {
        var index := cells[n];
        var tempBoard := snapshot[index := Mark(player)];
        var k := 0;
        while k < |Combinations|
          invariant 0 <= k <= |Combinations|
          invariant forall j :: 0 <= j < k ==> !AllOf(tempBoard, Combinations[j], player)
        {
          var (a, b, c) := Combinations[k];
          if tempBoard[a] == Mark(player) && tempBoard[b] == Mark(player) && tempBoard[c] == Mark(player) {
            assert AllOf(tempBoard, Combinations[k], player);
            FirstAvailableWins(snapshot, player, cells, n);
            return index;
          }
          k := k + 1;
        }
        n := n + 1;
      }
      NoAvailableWins(snapshot, player, cells);
      return -1;
    }

    /** The list search stops at the same cell as the search over indices. */
    static lemma FirstAvailableWins(b: Board, p: Player, cells: seq<Index>, n: nat)
      requires cells == AvailableCells(b) && n < |cells|
      requires forall j :: 0 <= j < n ==> !WinsWith(b, cells[j], p)
      requires WinsWith(b, cells[n], p)
      ensures cells[n] == WinningMove(b, p)
    {
      AvailableAscending(b);
      forall i | 0 <= i < cells[n] && b[i] == Empty
        ensures !WinsWith(b, i, p)
      {
        assert i in cells;
        var m :| 0 <= m < |cells| && cells[m] == i;
        assert m < n;
      }
      WinningMoveUnique(b, p, cells[n]);
    }

    /** When no available cell wins, neither does the search over indices. */
    static lemma NoAvailableWins(b: Board, p: Player, cells: seq<Index>)
      requires cells == AvailableCells(b)
      requires forall j :: 0 <= j < |cells| ==> !WinsWith(b, cells[j], p)
      ensures WinningMove(b, p) == -1
    {
      forall i | 0 <= i < 9 && b[i] == Empty
        ensures !WinsWith(b, i, p)
      {
        assert i in cells;
      }
    }

    /** Clears the board in place and opens a new round with X to move. */
    method RoundRestart()
      requires board.Length == 9
      modifies this, board
      ensures Valid() && board == old(board)
      ensures State() == AfterRoundRestart(old(State()))
    {
      RoundRestartClears(State());
      forall i | 0 <= i < board.Length {
        board[i] := Empty;
      }
      isGameOver := false;
      currentPlayer := X;
      assert board[..] == EmptyBoard;
    }

    /** A new round with both scores zero. */
    method FullRestart()
      requires board.Length == 9
      modifies this, board
      ensures Valid() && board == old(board)
      ensures State() == AfterFullRestart(old(State()))
    {
      FullRestartClears(State());
      RoundRestart();
      scores := Scores(0, 0);
    }

    method SetGameMode(mode: GameMode)
      requires board.Length == 9
      modifies this, board
      ensures Valid() && board == old(board)
      ensures State() == AfterSetGameMode(old(State()), mode)
    {
      gameMode := mode;
      FullRestart();
    }

    method SetDifficulty(level: Difficulty)
      requires Valid()
      modifies this
      ensures Valid()
      ensures State() == AfterSetDifficulty(old(State()), level)
    {
      SettingsConsistent(State(), gameMode, level);
      difficulty := level;
    }
  }
}

/** The rule engine on an explicit game-state value: placing a mark, ending a
    round, the guard on a clicked cell, the computer's turn, the restarts and
    the two settings. Each function gives the state the game is in after the
    corresponding operation, together with the call the game would defer with
    a timer (the computer's move, or the next round). */
module Rules {
  import opened Board
  import opened Opponent

  datatype GameMode = VersusPlayer | VersusComputer

  /** Round wins of each player in the current series. */
  datatype Scores = Scores(x: nat, o: nat) {
    function Of(p: Player): nat {
      if p == X then x else o
    }

    /** One more round won by `p`. */
    function Bump(p: Player): (r: Scores)
      ensures r.Of(p) == Of(p) + 1
      ensures r.Of(p.Other()) == Of(p.Other())
    {
      if p == X then this.(x := x + 1) else this.(o := o + 1)
    }
  }

  /** A call the game defers with a timer after an operation. */
  datatype Deferred = NoCall | ComputerMoveCall | RoundRestartCall

  datatype GameState = GameState(
    board: Board,
    currentPlayer: Player,
    scores: Scores,
    gameMode: GameMode,
    difficulty: Difficulty,
    isGameOver: bool)

  /** The state after an operation, with the call it defers. */
  datatype Step = Step(state: GameState, next: Deferred)

  /** The state a new game starts in. */
  const Initial := GameState(EmptyBoard, X, Scores(0, 0), VersusComputer, Hard, false)

  /** Round wins that take the series. */
  const SeriesWins := 5

  /** The series is decided once a score equals `SeriesWins`. */
  predicate SeriesOver(scores: Scores) {
    scores.x == SeriesWins || scores.o == SeriesWins
  }

  /** Ending a round: the game is over, the winner (if any) scores a round,
      and the next round is scheduled unless the series is decided. */
  function EndRound(s: GameState, winner: Option<Player>): (r: Step)
    ensures r.state == s.(isGameOver := true, scores := r.state.scores)
    ensures winner.Some? ==> r.state.scores.Of(winner.value) == s.scores.Of(winner.value) + 1
    ensures winner.Some? ==> r.state.scores.Of(winner.value.Other()) == s.scores.Of(winner.value.Other())
    ensures winner.None? ==> r.state.scores == s.scores
    ensures r.next == RoundRestartCall <==> !SeriesOver(r.state.scores)
    ensures r.next != ComputerMoveCall
  {
    var scores := if winner.Some? then s.scores.Bump(winner.value) else s.scores;
    Step(s.(isGameOver := true, scores := scores), if SeriesOver(scores) then NoCall else RoundRestartCall)
  }

  /** The end-of-round check: a completed line ends the round in that line's
      owner's favour, even on a full board; otherwise a full board ends it
      drawn; otherwise the round goes on (None). */
  function EndCondition(s: GameState): (r: Option<Step>)
    ensures r.Some? <==> RoundEnded(s.board)
    ensures Winner(s.board).Some? ==> r == Some(EndRound(s, Some(Winner(s.board).value.winner)))
    ensures Winner(s.board).None? && IsDraw(s.board) ==> r == Some(EndRound(s, None))
  {
    match Winner(s.board)
    case Some(w) => Some(EndRound(s, Some(w.winner)))
    case None => if IsDraw(s.board) then Some(EndRound(s, None)) else None
  }

  /** Placing the current player's mark in cell `index`, then ending the
      round or handing the turn to the other player. */
  function Play(s: GameState, index: Index): (r: Step)
    ensures r.state.board == s.board[index := Mark(s.currentPlayer)]
    ensures r.state.gameMode == s.gameMode && r.state.difficulty == s.difficulty
    ensures r.state.isGameOver <==> s.isGameOver || RoundEnded(r.state.board)
    ensures r.state.currentPlayer == if RoundEnded(r.state.board) then s.currentPlayer else s.currentPlayer.Other()
    ensures Winner(r.state.board).None? ==> r.state.scores == s.scores
    ensures Winner(r.state.board).Some? ==>
      var p := Winner(r.state.board).value.winner;
      r.state.scores.Of(p) == s.scores.Of(p) + 1 && r.state.scores.Of(p.Other()) == s.scores.Of(p.Other())
    ensures r.next == RoundRestartCall <==> RoundEnded(r.state.board) && !SeriesOver(r.state.scores)
    ensures r.next != ComputerMoveCall
  {
    var placed := s.(board := s.board[index := Mark(s.currentPlayer)]);
    match EndCondition(placed)
    case Some(ended) => ended
    case None => Step(placed.(currentPlayer := s.currentPlayer.Other()), NoCall)
  }

  /** A click on cell `index`: ignored while the round is over, for an index
      outside the board and for a marked cell; otherwise a move, after which
      the computer's move is scheduled when it plays and O is to move. */
  function Click(s: GameState, index: int): (r: Step)
    ensures r.state == s <==> s.isGameOver || !(0 <= index < 9) || s.board[index] != Empty
    ensures r.state == s ==> r.next == NoCall
    ensures r.state != s ==> r.state.board == s.board[index := Mark(s.currentPlayer)]
    ensures r.state != s ==> r.state == Play(s, index).state
    ensures r.state != s && r.next != ComputerMoveCall ==> r.next == Play(s, index).next
    ensures r.next == ComputerMoveCall <==>
      r.state != s && r.state.gameMode == VersusComputer && !r.state.isGameOver && r.state.currentPlayer == O
  {
    if s.isGameOver || !(0 <= index < 9) || s.board[index] != Empty then Step(s, NoCall)
    else
      var played := Play(s, index);
      assert played.state.board[index] != s.board[index];
      if played.state.gameMode == VersusComputer && !played.state.isGameOver && played.state.currentPlayer == O
      then Step(played.state, ComputerMoveCall)
      else played
  }

  /** The computer's deferred move: nothing once the round is over (also when
      a restart came in between, then it plays for X), else the move `Choice`
      picks for the current player. */
  function ComputerPlay(s: GameState, searchRoll: bool, pick: nat): (r: Step)
    requires PickFits(s.board, pick)
    ensures r.state == s <==> s.isGameOver || IsDraw(s.board)
    ensures r.state == s ==> r.next == NoCall
    // Follows from the next clause and `Choice`'s; kept as the witness that
    // `ComputerPlayMarksOneCell` picks.
    ensures r.state != s ==> exists i: Index :: s.board[i] == Empty && r == Play(s, i)
    ensures r.state != s ==> r == Play(s, Choice(s.board, s.difficulty, searchRoll, pick).value)
    ensures r.next != ComputerMoveCall
  {
    if s.isGameOver then Step(s, NoCall)
    else
      match Choice(s.board, s.difficulty, searchRoll, pick)
      case None => Step(s, NoCall)
      case Some(i) =>
        assert Play(s, i).state.board[i] != s.board[i];
        Play(s, i)
  }

  /** A new round: every cell empty, X to move, the round open; scores,
      mode and difficulty kept. */
  function AfterRoundRestart(s: GameState): GameState {
    s.(board := EmptyBoard, isGameOver := false, currentPlayer := X)
  }

  /** A new series: a new round with both scores zero. */
  function AfterFullRestart(s: GameState): GameState {
    AfterRoundRestart(s).(scores := Scores(0, 0))
  }

  /** Choosing a mode starts a new series in that mode. */
  function AfterSetGameMode(s: GameState, mode: GameMode): GameState {
    AfterFullRestart(s.(gameMode := mode))
  }

  /** Choosing a difficulty changes nothing else. */
  function AfterSetDifficulty(s: GameState, level: Difficulty): GameState {
    s.(difficulty := level)
  }

  /** X moves first and the players take turns, so X has as many marks as O
      or one more: one more exactly when O is to move or, once the round is
      over, when X made the last move. */
  predicate TurnsAlternate(b: Board, currentPlayer: Player, isGameOver: bool) {
    multiset(b)[Mark(X)] == multiset(b)[Mark(O)] + if (currentPlayer == O) != isGameOver then 1 else 0
  }

  /** What holds of every state the game reaches: the round is over exactly
      when a line is completed or the board is full, and turns alternate. */
  predicate Consistent(s: GameState) {
    (s.isGameOver <==> RoundEnded(s.board)) && TurnsAlternate(s.board, s.currentPlayer, s.isGameOver)
  }

  lemma InitialConsistent()
    ensures Consistent(Initial)
  {
    forall j | 0 <= j < |Combinations|
      ensures !Completed(EmptyBoard, Combinations[j])
    {
    }
    assert EmptyBoard[0] == Empty;
  }

  /** A move into an empty cell of an open round keeps the invariant. */
  lemma PlayConsistent(s: GameState, index: Index)
    requires Consistent(s) && !s.isGameOver && s.board[index] == Empty
    ensures Consistent(Play(s, index).state)
  {
    var b := s.board[index := Mark(s.currentPlayer)];
    assert multiset(b) == multiset(s.board) - multiset{Empty} + multiset{Mark(s.currentPlayer)};
  }

  /** In an open round no line is completed yet, so a line completed by a
      move runs through the cell just marked and belongs to the mover: the
      mover's score goes up by one and the other score stays. */
  lemma PlayCreditsMover(s: GameState, index: Index)
    requires Consistent(s) && !s.isGameOver && s.board[index] == Empty
    ensures var r := Play(s, index).state;
      Winner(r.board).Some? ==> Winner(r.board).value.winner == s.currentPlayer
    ensures var r := Play(s, index).state;
      r.scores.Of(s.currentPlayer) == s.scores.Of(s.currentPlayer) + (if Winner(r.board).Some? then 1 else 0) &&
      r.scores.Of(s.currentPlayer.Other()) == s.scores.Of(s.currentPlayer.Other())
  {
    var b := s.board[index := Mark(s.currentPlayer)];
    if Winner(b).Some? {
      var j :| 0 <= j < |Combinations| && Completed(b, Combinations[j]) && Winner(b).value == WinAt(b, j);
      assert !Completed(s.board, Combinations[j]);
      var c := Combinations[j];
      assert c.0 == index || c.1 == index || c.2 == index;
    }
  }

  /** A click keeps the invariant. */
  lemma ClickConsistent(s: GameState, index: int)
    requires Consistent(s)
    ensures Consistent(Click(s, index).state)
  {
    if !(s.isGameOver || !(0 <= index < 9) || s.board[index] != Empty) {
      PlayConsistent(s, index);
    }
  }

  /** The computer's move keeps the invariant. */
  lemma ComputerPlayConsistent(s: GameState, searchRoll: bool, pick: nat)
    requires Consistent(s) && PickFits(s.board, pick)
    ensures Consistent(ComputerPlay(s, searchRoll, pick).state)
  {
    if !s.isGameOver {
      var c := Choice(s.board, s.difficulty, searchRoll, pick);
      if c.Some? {
        PlayConsistent(s, c.value);
      }
    }
  }

  /** Once a round is over, clicks and the computer's move change nothing
      and schedule nothing, until a restart. */
  lemma GameOverIgnoresInput(s: GameState, index: int, searchRoll: bool, pick: nat)
    requires s.isGameOver && PickFits(s.board, pick)
    ensures Click(s, index) == Step(s, NoCall)
    ensures ComputerPlay(s, searchRoll, pick) == Step(s, NoCall)
  {
  }

  /** A round restart empties every cell (all nine are available again),
      opens the round with X to move and keeps scores, mode and difficulty. */
  lemma RoundRestartClears(s: GameState)
    ensures var r := AfterRoundRestart(s);
      Consistent(r) && r.currentPlayer == X && !r.isGameOver &&
      r.scores == s.scores && r.gameMode == s.gameMode && r.difficulty == s.difficulty
    ensures forall i :: 0 <= i < 9 ==> i in AvailableCells(AfterRoundRestart(s).board)
  {
    InitialConsistent();
    EmptyBoardAvailable();
  }

  lemma EmptyBoardAvailable()
    ensures forall i :: 0 <= i < 9 ==> i in AvailableCells(EmptyBoard)
  {
    forall i | 0 <= i < 9
      ensures i in AvailableCells(EmptyBoard)
    {
      assert EmptyBoard[i] == Empty;
    }
  }

  /** On hard difficulty with O to move, when some empty cell completes a
      line for O, the computer's move plays the lowest such cell, which ends
      the round with one more point for O. */
  lemma HardComputerPlayWins(s: GameState, searchRoll: bool, pick: nat, i: Index)
    requires Consistent(s) && !s.isGameOver && s.difficulty == Hard && s.currentPlayer == O
    requires PickFits(s.board, pick)
    requires s.board[i] == Empty && WinsWith(s.board, i, O)
    ensures var c := WinningMove(s.board, O);
      0 <= c <= i && ComputerPlay(s, searchRoll, pick) == Play(s, c)
    ensures var r := ComputerPlay(s, searchRoll, pick).state;
      r.isGameOver && r.scores.o == s.scores.o + 1 && r.scores.x == s.scores.x
  {
    HardTakesWin(s.board, searchRoll, pick, i);
    var c := WinningMove(s.board, O);
    var b := s.board[c := Mark(O)];
    var k :| 0 <= k < |Combinations| && AllOf(b, Combinations[k], O);
    assert Completed(b, Combinations[k]);
    PlayCreditsMover(s, c);
  }

  /** The computer's move writes the mark of whoever is to move into one
      empty cell and leaves the other cells as they were. */
  lemma ComputerPlayMarksOneCell(s: GameState, searchRoll: bool, pick: nat)
    requires !s.isGameOver && !IsDraw(s.board) && PickFits(s.board, pick)
    ensures var b := ComputerPlay(s, searchRoll, pick).state.board;
      exists i :: 0 <= i < 9 && s.board[i] == Empty && b[i] == Mark(s.currentPlayer) &&
        forall j :: 0 <= j < 9 && j != i ==> b[j] == s.board[j]
  {
    var r := ComputerPlay(s, searchRoll, pick);
    var i: Index :| s.board[i] == Empty && r == Play(s, i);
    assert r.state.board == s.board[i := Mark(s.currentPlayer)];
  }

  /** A computer move that was scheduled before a round restart still runs
      afterwards: the round is open, so it plays, and it writes X's mark,
      since X is to move in a new round. */
  lemma DeferredMoveAfterRestart(t: GameState, searchRoll: bool, pick: nat)
    requires PickFits(AfterRoundRestart(t).board, pick)
    ensures var b := ComputerPlay(AfterRoundRestart(t), searchRoll, pick).state.board;
      exists i :: 0 <= i < 9 && b[i] == Mark(X) &&
        forall j :: 0 <= j < 9 && j != i ==> b[j] == Empty
  {
    RestartedRoundOpen(t);
    ComputerPlayMarksOneCell(AfterRoundRestart(t), searchRoll, pick);
  }

  /** After a round restart the round is open, X is to move and every cell
      is empty. */
  lemma RestartedRoundOpen(t: GameState)
    ensures var s := AfterRoundRestart(t);
      !s.isGameOver && !IsDraw(s.board) && s.currentPlayer == X &&
      forall j :: 0 <= j < 9 ==> s.board[j] == Empty
  {
    assert EmptyBoard[0] == Empty;
  }

  /** A full restart is a round restart that also zeroes both scores. */
  lemma FullRestartClears(s: GameState)
    ensures Consistent(AfterFullRestart(s))
    ensures AfterFullRestart(s).scores.Of(X) == 0 && AfterFullRestart(s).scores.Of(O) == 0
    ensures AfterFullRestart(s).(scores := s.scores) == AfterRoundRestart(s)
  {
    InitialConsistent();
  }

  /** Choosing a mode is a full restart in that mode; choosing a difficulty
      changes only the difficulty. Both keep the invariant. */
  lemma SettingsConsistent(s: GameState, mode: GameMode, level: Difficulty)
    ensures AfterSetGameMode(s, mode) == AfterFullRestart(s).(gameMode := mode)
    ensures Consistent(AfterSetGameMode(s, mode))
    ensures AfterSetDifficulty(s, level).(difficulty := s.difficulty) == s
    ensures Consistent(s) ==> Consistent(AfterSetDifficulty(s, level))
  {
    InitialConsistent();
  }

  /** The full board [X,O,X, X,O,O, O,X,X] completes no line, so X's last
      move into cell 8 ends the round drawn: no score changes, X stays to
      move and the next round is scheduled. */
  lemma DrawExample(s: GameState)
    requires s.board == [Mark(X), Mark(O), Mark(X), Mark(X), Mark(O), Mark(O), Mark(O), Mark(X), Empty]
    requires s.currentPlayer == X && !s.isGameOver && !SeriesOver(s.scores)
    ensures var r := Play(s, 8);
      r.state.isGameOver && r.state.scores == s.scores && r.state.currentPlayer == X && r.next == RoundRestartCall
  {
    var b := s.board[8 := Mark(X)];
    forall j | 0 <= j < |Combinations|
      ensures !Completed(b, Combinations[j])
    {
      CombinationCases(j);
    }
    assert IsDraw(b);
  }
}

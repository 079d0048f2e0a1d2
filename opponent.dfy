/** How the computer opponent (always O's search, whoever is to move) picks a
    cell. The two draws of the random source become parameters: `searchRoll`
    is the medium-difficulty coin flip that decides whether to search for a
    win or block, and `pick` is the position in the list of available cells
    that the random fallback takes. */
module Opponent {
  import opened Board

  datatype Difficulty = Easy | Medium | Hard

  /** Take O's winning cell if there is one, else block X's winning cell,
      else -1. */
  function WinOrBlock(b: Board): (r: int)
    ensures r == -1 || (0 <= r < 9 && b[r] == Empty)
    ensures r == -1 <==>
      forall i :: 0 <= i < 9 && b[i] == Empty ==> !WinsWith(b, i, O) && !WinsWith(b, i, X)
  {
    var w := WinningMove(b, O);
    if w != -1 then w else WinningMove(b, X)
  }

  /** The admissible values of the random fallback position: a position in the
      list of available cells, or 0 when that list is empty. */
  predicate PickFits(b: Board, pick: nat) {
    AvailableCells(b) != [] ==> pick < |AvailableCells(b)|
  }

  /** The cell the computer plays on board `b`; None stands for the fallback
      reading past the end of an empty list, when nothing is played. */
  function Choice(b: Board, difficulty: Difficulty, searchRoll: bool, pick: nat): (r: Option<Index>)
    requires PickFits(b, pick)
    ensures r.Some? ==> b[r.value] == Empty
    ensures r.None? <==> IsDraw(b)
  {
    DrawIffNoneAvailable(b);
    var searched := if difficulty == Hard || (difficulty == Medium && searchRoll) then WinOrBlock(b) else -1;
    if searched != -1 then Some(searched)
    else if AvailableCells(b) == [] then None
    else Some(AvailableCells(b)[pick])
  }

  /** On hard difficulty the computer never misses a win: when some empty cell
      completes a line for O, it plays the lowest such cell. */
  lemma HardTakesWin(b: Board, searchRoll: bool, pick: nat, i: Index)
    requires PickFits(b, pick)
    requires b[i] == Empty && WinsWith(b, i, O)
    ensures Choice(b, Hard, searchRoll, pick).Some?
    ensures var c := Choice(b, Hard, searchRoll, pick).value; WinsWith(b, c, O) && c <= i
    ensures forall j :: 0 <= j < Choice(b, Hard, searchRoll, pick).value && b[j] == Empty ==> !WinsWith(b, j, O)
  {
    var w := WinningMove(b, O);
    assert w != -1;
  }

  /** On hard difficulty, when O cannot win at once but X could, the computer
      plays the lowest cell that completes a line for X. */
  lemma HardBlocks(b: Board, searchRoll: bool, pick: nat, i: Index)
    requires PickFits(b, pick)
    requires forall j :: 0 <= j < 9 && b[j] == Empty ==> !WinsWith(b, j, O)
    requires b[i] == Empty && WinsWith(b, i, X)
    ensures Choice(b, Hard, searchRoll, pick).Some?
    ensures var c := Choice(b, Hard, searchRoll, pick).value; WinsWith(b, c, X) && c <= i
    ensures forall j :: 0 <= j < Choice(b, Hard, searchRoll, pick).value && b[j] == Empty ==> !WinsWith(b, j, X)
  {
    assert WinningMove(b, O) == -1;
    var w := WinningMove(b, X);
    assert w != -1;
  }

  /** On hard difficulty, with neither a win nor a block on the board, the
      computer plays the available cell at position `pick`. */
  lemma HardFallsBackToPick(b: Board, searchRoll: bool, pick: nat)
    requires PickFits(b, pick)
    requires forall j :: 0 <= j < 9 && b[j] == Empty ==> !WinsWith(b, j, O) && !WinsWith(b, j, X)
    ensures Choice(b, Hard, searchRoll, pick) ==
      if AvailableCells(b) == [] then None else Some(AvailableCells(b)[pick])
  {
  }

  /** Easy difficulty never searches: it always plays the available cell at
      position `pick`, and so does medium difficulty on a lost coin flip. */
  lemma EasyIsRandom(b: Board, searchRoll: bool, pick: nat)
    requires PickFits(b, pick)
    ensures Choice(b, Easy, searchRoll, pick) == Choice(b, Medium, false, pick)
    ensures AvailableCells(b) != [] ==> Choice(b, Easy, searchRoll, pick) == Some(AvailableCells(b)[pick])
  {
  }

  /** Medium difficulty on a won coin flip plays exactly as hard difficulty. */
  lemma MediumSearchIsHard(b: Board, searchRoll: bool, pick: nat)
    requires PickFits(b, pick)
    ensures Choice(b, Medium, true, pick) == Choice(b, Hard, searchRoll, pick)
  {
  }

  /** The board [X,X,_, O,O,_, _,_,_] with O to move: O's search runs first
      and finds O's own row win at 5, so hard difficulty plays 5 rather than
      the block at 2. */
  lemma WinBeforeBlockExample(b: Board, searchRoll: bool, pick: nat)
    requires b == [Mark(X), Mark(X), Empty, Mark(O), Mark(O), Empty, Empty, Empty, Empty]
    requires PickFits(b, pick)
    ensures WinningMove(b, X) == 2
    ensures Choice(b, Hard, searchRoll, pick) == Some(5)
  {
    ExampleOWinsAtFive(b);
    ExampleXWinsAtTwo(b);
  }

  lemma ExampleOWinsAtFive(b: Board)
    requires b == [Mark(X), Mark(X), Empty, Mark(O), Mark(O), Empty, Empty, Empty, Empty]
    ensures WinningMove(b, O) == 5
  {
    assert AllOf(b[5 := Mark(O)], Combinations[1], O);
    forall k | 0 <= k < |Combinations|
      ensures !AllOf(b[2 := Mark(O)], Combinations[k], O)
    {
      CombinationCases(k);
    }
    WinningMoveUnique(b, O, 5);
  }

  lemma ExampleXWinsAtTwo(b: Board)
    requires b == [Mark(X), Mark(X), Empty, Mark(O), Mark(O), Empty, Empty, Empty, Empty]
    ensures WinningMove(b, X) == 2
  {
    assert AllOf(b[2 := Mark(X)], Combinations[0], X);
    WinningMoveUnique(b, X, 2);
  }

  /** After X opens in a corner, O has neither a win nor a block, so hard
      difficulty falls back to the available cell at `pick`, which is one of
      cells 1 to 8. */
  lemma CornerOpeningReply(b: Board, searchRoll: bool, pick: nat)
    requires b == [Mark(X), Empty, Empty, Empty, Empty, Empty, Empty, Empty, Empty]
    requires PickFits(b, pick)
    ensures AvailableCells(b) != [] && Choice(b, Hard, searchRoll, pick) == Some(AvailableCells(b)[pick])
    ensures 1 <= Choice(b, Hard, searchRoll, pick).value
  {
    CornerOpeningNoLine(b);
    assert WinOrBlock(b) == -1;
    var cells := AvailableCells(b);
    assert b[1] == Empty && 1 in cells;
    assert b[cells[pick]] == Empty;
  }

  lemma CornerOpeningNoLine(b: Board)
    requires b == [Mark(X), Empty, Empty, Empty, Empty, Empty, Empty, Empty, Empty]
    ensures forall i: Index :: !WinsWith(b, i, O) && !WinsWith(b, i, X)
  {
    forall i: Index
      ensures !WinsWith(b, i, O) && !WinsWith(b, i, X)
    {
      forall k | 0 <= k < |Combinations|
        ensures !AllOf(b[i := Mark(O)], Combinations[k], O)
        ensures !AllOf(b[i := Mark(X)], Combinations[k], X)
      {
        CombinationDistinct(k);
      }
    }
  }
}

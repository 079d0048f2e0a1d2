/** The board of a tic-tac-toe round: nine cells in row-major order, the eight
    fixed winning triples, winner and draw detection, the list of free cells,
    and the one-move lookahead the computer opponent uses. */
module Board {

  datatype Option<T> = None | Some(value: T)

  datatype Player = X | O {
    /** The player who moves after this one. */
    function Other(): (q: Player)
      ensures q != this
    {
      if this == X then O else X
    }
  }

  /** A cell is empty (`null` in the game) or carries a player's mark. */
  datatype Cell = Empty | Mark(owner: Player)

  type Index = i: int | 0 <= i < 9

  type Board = b: seq<Cell> | |b| == 9
    witness [Empty, Empty, Empty, Empty, Empty, Empty, Empty, Empty, Empty]

  const EmptyBoard: Board := [Empty, Empty, Empty, Empty, Empty, Empty, Empty, Empty, Empty]

  /** Three cell indices that form a line. */
  type Combination = (Index, Index, Index)

  /** Rows, then columns, then the two diagonals; `Winner` scans them in this order. */
  const Combinations: seq<Combination> :=
    [(0, 1, 2), (3, 4, 5), (6, 7, 8),
     (0, 3, 6), (1, 4, 7), (2, 5, 8),
     (0, 4, 8), (2, 4, 6)]

  /** Splits on which of the eight combinations `Combinations[k]` is. */
  lemma CombinationCases(k: nat)
    requires k < |Combinations|
    ensures k == 0 || k == 1 || k == 2 || k == 3 || k == 4 || k == 5 || k == 6 || k == 7
  {
  }

  /** Each combination names three different cells. */
  lemma CombinationDistinct(k: nat)
    requires k < |Combinations|
    ensures Combinations[k].0 != Combinations[k].1
    ensures Combinations[k].1 != Combinations[k].2
    ensures Combinations[k].0 != Combinations[k].2
  {
    CombinationCases(k);
  }

  /** All three cells of `c` carry the same mark. */
  predicate Completed(b: Board, c: Combination) {
    b[c.0] != Empty && b[c.1] == b[c.0] && b[c.2] == b[c.0]
  }

  /** What the winner check reports: who won, along which line. */
  datatype Win = Win(winner: Player, combination: Combination)

  /** The report for the completed combination at position `j`. */
  function WinAt(b: Board, j: nat): Win
    requires j < |Combinations| && Completed(b, Combinations[j])
  {
    Win(b[Combinations[j].0].owner, Combinations[j])
  }

  /** The first completed combination at position `k` or later. */
  function WinnerFrom(b: Board, k: nat): (r: Option<Win>)
    requires k <= |Combinations|
    ensures r.None? <==> forall j :: k <= j < |Combinations| ==> !Completed(b, Combinations[j])
    ensures r.Some? ==>
      exists j :: k <= j < |Combinations| && Completed(b, Combinations[j]) && r.value == WinAt(b, j) &&
        forall i :: k <= i < j ==> !Completed(b, Combinations[i])
    decreases |Combinations| - k
  {
    if k == |Combinations| then None
    else if Completed(b, Combinations[k]) then Some(WinAt(b, k))
    else WinnerFrom(b, k + 1)
  }

  /** The winner check: the first combination, in the fixed order, whose
      three cells hold the same mark; None when there is none. */
  function Winner(b: Board): (r: Option<Win>)
    ensures r.None? <==> forall j :: 0 <= j < |Combinations| ==> !Completed(b, Combinations[j])
    ensures r.Some? ==>
      exists j :: 0 <= j < |Combinations| && Completed(b, Combinations[j]) && r.value == WinAt(b, j) &&
        forall i :: 0 <= i < j ==> !Completed(b, Combinations[i])
  {
    WinnerFrom(b, 0)
  }

  /** The draw check: every cell is marked (it does not look for a winner). */
  predicate IsDraw(b: Board) {
    forall i :: 0 <= i < 9 ==> b[i] != Empty
  }

  /** A round is over once some line is completed or no cell is left. */
  predicate RoundEnded(b: Board) {
    Winner(b).Some? || IsDraw(b)
  }

  /** The indices of the empty cells among `cells`, which are the last
      `|cells|` cells of a board, in ascending order. */
  function AvailableIn(cells: seq<Cell>, offset: nat): (r: seq<Index>)
    requires offset + |cells| == 9
    ensures forall j :: 0 <= j < |r| ==> offset <= r[j] && cells[r[j] - offset] == Empty
    ensures forall i {:trigger i in r} :: offset <= i < 9 && cells[i - offset] == Empty ==> i in r
    decreases |cells|
  {
    if cells == [] then []
    else
      var tail := cells[1..];
      var rest := AvailableIn(tail, offset + 1);
      assert forall i :: 0 < i < |cells| ==> cells[i] == tail[i - 1];
      (if cells[0] == Empty then [offset] else []) + rest
  }

  /** The indices of the empty cells: each listed cell is empty and each
      empty cell is listed (`AvailableAscending` gives the order). */
  function AvailableCells(b: Board): (r: seq<Index>)
    ensures forall j :: 0 <= j < |r| ==> b[r[j]] == Empty
    ensures forall i {:trigger i in r} :: 0 <= i < 9 && b[i] == Empty ==> i in r
  {
    AvailableIn(b, 0)
  }

  /** Strictly ascending, so also free of repeats. */
  predicate Ascending(s: seq<int>) {
    forall j, j' :: 0 <= j < j' < |s| ==> s[j] < s[j']
  }

  lemma {:induction false} AvailableInAscending(cells: seq<Cell>, offset: nat)
    requires offset + |cells| == 9
    ensures Ascending(AvailableIn(cells, offset))
    decreases |cells|
  {
    if cells != [] {
      AvailableInAscending(cells[1..], offset + 1);
      var rest := AvailableIn(cells[1..], offset + 1);
      assert Ascending(rest);
      var head: seq<Index> := if cells[0] == Empty then [offset] else [];
      var r := AvailableIn(cells, offset);
      assert r == head + rest;
      forall j, j' | 0 <= j < j' < |r|
        ensures r[j] < r[j']
      {
        if j < |head| {
          assert r[j] == offset && r[j'] == rest[j' - |head|];
          assert offset + 1 <= rest[j' - |head|];
        } else {
          assert r[j] == rest[j - |head|] && r[j'] == rest[j' - |head|];
          assert rest[j - |head|] < rest[j' - |head|];
        }
      }
    }
  }

  /** The available cells are listed in strictly ascending order. */
  lemma AvailableAscending(b: Board)
    ensures Ascending(AvailableCells(b))
  {
    AvailableInAscending(b, 0);
    assert AvailableCells(b) == AvailableIn(b, 0);
  }

  /** A full board is exactly a board with no available cell. */
  lemma DrawIffNoneAvailable(b: Board)
    ensures IsDraw(b) <==> AvailableCells(b) == []
  {
    var r := AvailableCells(b);
    if !IsDraw(b) {
      var i :| 0 <= i < 9 && b[i] == Empty;
      assert i in r;
    }
    if r != [] {
      assert b[r[0]] == Empty;
    }
  }

  /** All three cells of `c` carry `p`'s mark. */
  predicate AllOf(b: Board, c: Combination, p: Player) {
    b[c.0] == Mark(p) && b[c.1] == Mark(p) && b[c.2] == Mark(p)
  }

  /** With `p`'s mark written into cell `i` of a copy of the board, some
      combination holds three of `p`'s marks. */
  predicate WinsWith(b: Board, i: Index, p: Player) {
    exists k :: 0 <= k < |Combinations| && AllOf(b[i := Mark(p)], Combinations[k], p)
  }

  /** The lowest empty cell at index `k` or later where `p` would complete a
      line, or -1. */
  function WinningMoveFrom(b: Board, p: Player, k: nat): (r: int)
    requires k <= 9
    ensures r == -1 || (k <= r < 9 && b[r] == Empty && WinsWith(b, r, p))
    ensures r == -1 <==> forall i :: k <= i < 9 && b[i] == Empty ==> !WinsWith(b, i, p)
    ensures r != -1 ==> forall i :: k <= i < r && b[i] == Empty ==> !WinsWith(b, i, p)
    decreases 9 - k
  {
    if k == 9 then -1
    else if b[k] == Empty && WinsWith(b, k, p) then k
    else WinningMoveFrom(b, p, k + 1)
  }

  /** The lowest empty cell where `p` would complete a line, or -1 when no
      empty cell does. */
  function WinningMove(b: Board, p: Player): (r: int)
    ensures r == -1 || (0 <= r < 9 && b[r] == Empty && WinsWith(b, r, p))
    ensures r == -1 <==> forall i :: 0 <= i < 9 && b[i] == Empty ==> !WinsWith(b, i, p)
    ensures r != -1 ==> forall i :: 0 <= i < r && b[i] == Empty ==> !WinsWith(b, i, p)
  {
    WinningMoveFrom(b, p, 0)
  }

  /** The three conditions on `WinningMove` single out one value. */
  lemma WinningMoveUnique(b: Board, p: Player, r: int)
    requires r == -1 || (0 <= r < 9 && b[r] == Empty && WinsWith(b, r, p))
    requires r == -1 <==> forall i :: 0 <= i < 9 && b[i] == Empty ==> !WinsWith(b, i, p)
    requires r != -1 ==> forall i :: 0 <= i < r && b[i] == Empty ==> !WinsWith(b, i, p)
    ensures r == WinningMove(b, p)
  {
    var w := WinningMove(b, p);
    if r != -1 && w != -1 {
      assert b[r] == Empty && WinsWith(b, r, p);
      assert b[w] == Empty && WinsWith(b, w, p);
    }
  }
}

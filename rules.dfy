/**
 The board and the rules of the game: the two players, the nine cells, the eight
 winning lines, the win test `checkWin` and the list of free cells `emptySquares`.
 */
module Rules {
  import opened Wrappers

  /** The human plays 'O' (`huPlayer`), the computer plays 'X' (`aiPlayer`). */
  datatype Player = Human | Computer

  function Opponent(p: Player): Player
  {
    if p == Human then Computer else Human
  }

  /** A cell is free or carries one player's mark. */
  datatype Cell = Empty | Mark(player: Player)

  type Index = i: int | 0 <= i < 9

  /** The 3x3 grid, cells numbered 0..8 row by row. */
  type Board = b: seq<Cell> | |b| == 9
    witness [Empty, Empty, Empty, Empty, Empty, Empty, Empty, Empty, Empty]

  const EmptyBoard: Board := [Empty, Empty, Empty, Empty, Empty, Empty, Empty, Empty, Empty]

  /** A winning line: three cell indices. */
  type Line = (Index, Index, Index)

  /** `winCombos`: three rows, three columns, two diagonals, in this order. */
  const WinCombos: seq<Line> := [
    (0, 1, 2), (3, 4, 5), (6, 7, 8),
    (0, 3, 6), (1, 4, 7), (2, 5, 8),
    (0, 4, 8), (6, 4, 2)
  ]

  /** The result of `checkWin`: which line was found, and for whom. */
  datatype Win = Win(index: nat, player: Player)

  /** Writes player p's mark into cell i. */
  function Place(b: Board, i: Index, p: Player): (r: Board)
    ensures r[i] == Mark(p)
    ensures forall j :: 0 <= j < 9 && j != i ==> r[j] == b[j]
  {
    b[i := Mark(p)]
  }

  /** Every cell holds a mark. */
  predicate Full(b: Board)
  {
    forall i :: 0 <= i < 9 ==> b[i] != Empty
  }

  /** Every cell of line l carries p's mark. */
  predicate LineComplete(b: Board, l: Line, p: Player)
  {
    b[l.0] == Mark(p) && b[l.1] == Mark(p) && b[l.2] == Mark(p)
  }

  /** Player p has completed some winning line. */
  predicate Wins(b: Board, p: Player)
  {
    exists k :: 0 <= k < |WinCombos| && LineComplete(b, WinCombos[k], p)
  }

  /**
   The indices below n whose cell equals c, collected left to right: the
   shape of both the `reduce` in `checkWin` and the `filter` in `emptySquares`.
   */
  function Positions(b: Board, c: Cell, n: nat): (r: seq<Index>)
    requires n <= 9
    ensures forall i :: i in r <==> 0 <= i < n && b[i] == c
    ensures forall j, k :: 0 <= j < k < |r| ==> r[j] < r[k]
  {
    if n == 0 then []
    else
      var prefix := Positions(b, c, n - 1);
      assert forall j :: 0 <= j < |prefix| ==> prefix[j] in prefix;
      prefix + (if b[n - 1] == c then [n - 1] else [])
  }

  /** `plays` in `checkWin`: the cells player p occupies, in ascending order. */
  function Plays(b: Board, p: Player): (r: seq<Index>)
    ensures forall i :: i in r <==> 0 <= i < 9 && b[i] == Mark(p)
    ensures forall j, k :: 0 <= j < k < |r| ==> r[j] < r[k]
  {
    Positions(b, Mark(p), 9)
  }

  /** `emptySquares`: the free cells, in ascending order; none exactly when the board is full. */
  function EmptySquares(b: Board): (r: seq<Index>)
    ensures forall i :: i in r <==> 0 <= i < 9 && b[i] == Empty
    ensures forall j, k :: 0 <= j < k < |r| ==> r[j] < r[k]
    ensures r == [] <==> Full(b)
  {
    var r := Positions(b, Empty, 9);
    assert r != [] ==> r[0] in r;
    r
  }

  /** The number of marks player p has on the board. */
  function Count(b: Board, p: Player): nat
  {
    |Plays(b, p)|
  }

  /**
   The reference meaning of `checkWin`: the first line, from index k on, that
   p has completed.
   */
  function FirstWinFrom(b: Board, p: Player, k: nat): (r: Option<Win>)
    requires k <= |WinCombos|
    decreases |WinCombos| - k
    ensures r.Some? ==> && k <= r.value.index < |WinCombos|
                        && r.value.player == p
                        && LineComplete(b, WinCombos[r.value.index], p)
                        && forall j :: k <= j < r.value.index ==> !LineComplete(b, WinCombos[j], p)
    ensures r.None? ==> forall j :: k <= j < |WinCombos| ==> !LineComplete(b, WinCombos[j], p)
  {
    if k == |WinCombos| then None
    else if LineComplete(b, WinCombos[k], p) then Some(Win(k, p))
    else FirstWinFrom(b, p, k + 1)
  }

  /**
   `checkWin` is non-null exactly when p has a complete line; it then names the
   first complete line in `winCombos` order, and player p.
   */
  function FirstWin(b: Board, p: Player): (r: Option<Win>)
    ensures r.Some? <==> Wins(b, p)
    ensures r.Some? ==> && r.value.index < |WinCombos|
                        && r.value.player == p
                        && LineComplete(b, WinCombos[r.value.index], p)
                        && forall j :: 0 <= j < r.value.index ==> !LineComplete(b, WinCombos[j], p)
  {
    FirstWinFrom(b, p, 0)
  }

  /**
   `checkWin(board, player)`: collects the cells the player holds, then scans
   `winCombos` and stops at the first line all of whose cells are held.
   */
  method CheckWin(board: Board, player: Player) returns (gameWon: Option<Win>)
    ensures gameWon == FirstWin(board, player)
  {
    var plays := Plays(board, player);
    gameWon := None;
    var index := 0;
    while index < |WinCombos|
      invariant 0 <= index <= |WinCombos|
      invariant gameWon == None
      invariant forall j :: 0 <= j < index ==> !LineComplete(board, WinCombos[j], player)
    {
      var win := WinCombos[index];
      assert (win.0 in plays && win.1 in plays && win.2 in plays) <==> LineComplete(board, win, player);
      if win.0 in plays && win.1 in plays && win.2 in plays {
        gameWon := Some(Win(index, player));
        break;
      }
      index := index + 1;
    }
    FirstWinUnique(board, player, gameWon);
  }

  /** The properties of FirstWin determine its value. */
  lemma FirstWinUnique(b: Board, p: Player, r: Option<Win>)
    requires r.None? ==> forall j :: 0 <= j < |WinCombos| ==> !LineComplete(b, WinCombos[j], p)
    requires r.Some? ==> && r.value.index < |WinCombos|
                         && r.value.player == p
                         && LineComplete(b, WinCombos[r.value.index], p)
                         && forall j :: 0 <= j < r.value.index ==> !LineComplete(b, WinCombos[j], p)
    ensures r == FirstWin(b, p)
  {
    var f := FirstWin(b, p);
    if r.Some? && f.Some? {
      assert !(r.value.index < f.value.index) && !(f.value.index < r.value.index);
    }
  }

  /** The eight lines written out: p wins exactly when one of them is all p's. */
  lemma WinsExplicit(b: Board, p: Player)
    ensures Wins(b, p) <==>
      || LineComplete(b, (0, 1, 2), p) || LineComplete(b, (3, 4, 5), p)
      || LineComplete(b, (6, 7, 8), p) || LineComplete(b, (0, 3, 6), p)
      || LineComplete(b, (1, 4, 7), p) || LineComplete(b, (2, 5, 8), p)
      || LineComplete(b, (0, 4, 8), p) || LineComplete(b, (6, 4, 2), p)
  {
    if Wins(b, p) {
      var k :| 0 <= k < |WinCombos| && LineComplete(b, WinCombos[k], p);
      assert k == 0 || k == 1 || k == 2 || k == 3 || k == 4 || k == 5 || k == 6 || k == 7;
    }
    if LineComplete(b, (0, 1, 2), p) { assert LineComplete(b, WinCombos[0], p); }
    if LineComplete(b, (3, 4, 5), p) { assert LineComplete(b, WinCombos[1], p); }
    if LineComplete(b, (6, 7, 8), p) { assert LineComplete(b, WinCombos[2], p); }
    if LineComplete(b, (0, 3, 6), p) { assert LineComplete(b, WinCombos[3], p); }
    if LineComplete(b, (1, 4, 7), p) { assert LineComplete(b, WinCombos[4], p); }
    if LineComplete(b, (2, 5, 8), p) { assert LineComplete(b, WinCombos[5], p); }
    if LineComplete(b, (0, 4, 8), p) { assert LineComplete(b, WinCombos[6], p); }
    if LineComplete(b, (6, 4, 2), p) { assert LineComplete(b, WinCombos[7], p); }
  }

  /** Overwriting cell i with x changes the number of cells equal to c by what left and what arrived. */
  lemma {:induction false} PositionsUpdate(b: Board, i: Index, x: Cell, c: Cell, n: nat)
    requires n <= 9
    ensures |Positions(b[i := x], c, n)|
         == |Positions(b, c, n)| - (if i < n && b[i] == c then 1 else 0) + (if i < n && x == c then 1 else 0)
  {
    if n > 0 {
      PositionsUpdate(b, i, x, c, n - 1);
    }
  }

  /** Every cell below n is free or held by exactly one of the players. */
  lemma {:induction false} PositionsPartition(b: Board, n: nat)
    requires n <= 9
    ensures |Positions(b, Empty, n)| + |Positions(b, Mark(Human), n)| + |Positions(b, Mark(Computer), n)| == n
  {
    if n > 0 {
      PositionsPartition(b, n - 1);
      match b[n - 1]
      case Empty =>
      case Mark(Human) =>
      case Mark(Computer) =>
    }
  }

  /** Marks and free cells always add up to nine. */
  lemma CountsAddUp(b: Board)
    ensures Count(b, Human) + Count(b, Computer) + |EmptySquares(b)| == 9
  {
    PositionsPartition(b, 9);
  }

  /** A move into a free cell uses up that cell and adds one mark for the mover only. */
  lemma PlaceCounts(b: Board, i: Index, p: Player)
    requires b[i] == Empty
    ensures |EmptySquares(Place(b, i, p))| == |EmptySquares(b)| - 1
    ensures Count(Place(b, i, p), p) == Count(b, p) + 1
    ensures Count(Place(b, i, p), Opponent(p)) == Count(b, Opponent(p))
  {
    PositionsUpdate(b, i, Mark(p), Empty, 9);
    PositionsUpdate(b, i, Mark(p), Mark(p), 9);
    PositionsUpdate(b, i, Mark(p), Mark(Opponent(p)), 9);
  }

  /** A move into a free cell neither creates nor destroys the other player's win. */
  lemma PlaceKeepsOtherWins(b: Board, i: Index, p: Player)
    requires b[i] == Empty
    ensures Wins(Place(b, i, p), Opponent(p)) <==> Wins(b, Opponent(p))
  {
    var q := Opponent(p);
    var b' := Place(b, i, p);
    if Wins(b', q) {
      var k :| 0 <= k < |WinCombos| && LineComplete(b', WinCombos[k], q);
      assert LineComplete(b, WinCombos[k], q);
    }
    if Wins(b, q) {
      var k :| 0 <= k < |WinCombos| && LineComplete(b, WinCombos[k], q);
      assert LineComplete(b', WinCombos[k], q);
    }
  }
}

/**
 The round controller of the page: `startGame`, `turn`, `checkTie`, `bestSpot`
 and the click handler `turnClick`, with every DOM call removed. Whether the
 cells still carry their click handlers is kept as `listening`: `gameOver`
 and a tie in `checkTie` detach them, `startGame` attaches them again.
 */
module Round {
  import opened Wrappers
  import opened Rules
  import opened Search

  /** What the controller holds between two clicks. */
  datatype RoundState = RoundState(board: Board, listening: bool)

  /** `startGame`: an empty board, and every cell listening for clicks. */
  function StartState(): RoundState
  {
    RoundState(EmptyBoard, true)
  }

  /**
   `turn(squareId, player)`: the mark is written without any check, and a win
   for the mover ends the round.
   */
  function AfterTurn(s: RoundState, id: Index, p: Player): (r: RoundState)
    ensures r.board == Place(s.board, id, p)
    ensures r.listening <==> s.listening && !Wins(r.board, p)
  {
    var b := Place(s.board, id, p);
    RoundState(b, s.listening && FirstWin(b, p).None?)
  }

  /**
   `turnClick(square)`: a click counts only while the cells listen and only on
   a free cell. The human's mark is placed; then, unless no free cell is left,
   the computer plays the cell `bestSpot` chooses. On a board the human has
   just won, `bestSpot` yields no cell and the computer does not move.
   */
  function Click(s: RoundState, id: int): (r: RoundState)
    ensures !(s.listening && 0 <= id < 9 && s.board[id] == Empty) ==> r == s
    ensures s.listening && 0 <= id < 9 && s.board[id] == Empty ==>
      var h := Place(s.board, id, Human);
      && r.board[id] == Mark(Human)
      && (Terminal(h) ==> r.board == h)
      && (!Terminal(h) ==> && Minimax(h, Computer).index.Some?
                           && h[Minimax(h, Computer).index.value] == Empty
                           && r.board == Place(h, Minimax(h, Computer).index.value, Computer))
      && (Wins(h, Human) || Full(h) ==> !r.listening)
      && (!Terminal(h) ==> (r.listening <==> !Wins(r.board, Computer)))
  {
    if s.listening && 0 <= id < 9 && s.board[id] == Empty then
      var afterHuman := AfterTurn(s, id, Human);
      if EmptySquares(afterHuman.board) == [] then
        afterHuman.(listening := false)
      else
        match Minimax(afterHuman.board, Computer).index
        case None => afterHuman
        case Some(c) => AfterTurn(afterHuman, c, Computer)
    else
      s
  }

  /**
   The states a round can be in: the human has as many marks as the computer
   or one more, at most one player has a line, the cells listen exactly while
   the board is not terminal, and while they listen it is the human's turn.
   */
  predicate Legal(s: RoundState)
  {
    var humans := Count(s.board, Human);
    var computers := Count(s.board, Computer);
    && (humans == computers || humans == computers + 1)
    && !(Wins(s.board, Human) && Wins(s.board, Computer))
    && (s.listening <==> !Terminal(s.board))
    && (s.listening ==> humans == computers)
  }

  lemma StartLegal()
    ensures Legal(StartState())
  {
    var b := EmptyBoard;
    WinsExplicit(b, Human);
    WinsExplicit(b, Computer);
    assert b[0] == Empty;
    assert Count(b, Human) == 0 by { assert Plays(b, Human) == []; }
    assert Count(b, Computer) == 0 by { assert Plays(b, Computer) == []; }
  }

  /** Every click keeps a round legal. */
  lemma ClickKeepsLegal(s: RoundState, id: int)
    requires Legal(s)
    ensures Legal(Click(s, id))
  {
    if s.listening && 0 <= id < 9 && s.board[id] == Empty {
      var h := Place(s.board, id, Human);
      HumanMoveCounts(s.board, id);
      if !Terminal(h) {
        ComputerReplyCounts(h, Minimax(h, Computer).index.value);
      }
    }
  }

  /** The human's move on a board where both have equally many marks and the computer has no line. */
  lemma HumanMoveCounts(b: Board, id: Index)
    requires b[id] == Empty
    requires Count(b, Human) == Count(b, Computer)
    requires !Wins(b, Computer)
    ensures var h := Place(b, id, Human);
      && Count(h, Human) == Count(h, Computer) + 1
      && !Wins(h, Computer)
  {
    PlaceCounts(b, id, Human);
    PlaceKeepsOtherWins(b, id, Human);
  }

  /**
   The computer's reply after the human's move: the counts are equal again,
   the human still has no line, and a free cell is left.
   */
  lemma ComputerReplyCounts(h: Board, c: Index)
    requires h[c] == Empty
    requires Count(h, Human) == Count(h, Computer) + 1
    requires !Wins(h, Human)
    ensures var f := Place(h, c, Computer);
      && Count(f, Human) == Count(f, Computer)
      && !Wins(f, Human)
      && !Full(f)
  {
    var f := Place(h, c, Computer);
    PlaceCounts(h, c, Computer);
    PlaceKeepsOtherWins(h, c, Computer);
    CountsAddUp(h);
    CountsAddUp(f);
  }

  /** The page's game: the board array `origBoard` and the click handlers. */
  class Game {
    var board: array<Cell>
    var listening: bool

    ghost predicate Valid()
      reads this
    {
      board.Length == 9
    }

    ghost function State(): RoundState
      reads this, board
      requires Valid()
    {
      RoundState(board[..], listening)
    }

    /** Loading the page runs `startGame` once. */
    constructor ()
      ensures Valid() && fresh(board)
      ensures State() == StartState()
    {
      board := new Cell[9](_ => Empty);
      listening := true;
      new;
      assert board[..] == EmptyBoard;
    }

    /** `startGame` (also the replay button): a new board array and listening cells. */
    method StartGame()
      modifies this
      ensures Valid() && fresh(board)
      ensures State() == StartState()
    {
      board := new Cell[9](_ => Empty);
      listening := true;
      assert board[..] == EmptyBoard;
    }

    /** `turn`: write the mark; on a win, `gameOver` detaches the click handlers. */
    method Turn(squareId: Index, player: Player)
      requires Valid()
      modifies this, board
      ensures Valid() && board == old(board)
      ensures State() == AfterTurn(old(State()), squareId, player)
    {
      board[squareId] := Mark(player);
      var gameWon := CheckWin(board[..], player);
      if gameWon.Some? {
        listening := false;
      }
    }

    /** `checkTie`: true when no cell is free, and then the click handlers are detached. */
    method CheckTie() returns (tie: bool)
      requires Valid()
      modifies this
      ensures Valid() && board == old(board)
      ensures tie <==> Full(board[..])
      ensures listening == (old(listening) && !tie)
    {
      var spots := EmptySquares(board[..]);
      tie := |spots| == 0;
      if tie {
        listening := false;
      }
    }

    /** `bestSpot`: the cell the search picks for the computer on the current board, if any. */
    method BestSpot() returns (spot: Option<Index>)
      requires Valid()
      modifies board
      ensures board[..] == old(board[..])
      ensures spot == Minimax(board[..], Computer).index
    {
      var best := MinimaxInPlace(board, Computer);
      spot := best.index;
    }

    /** `turnClick`, run for a click on the cell with id `squareId`. */
    method TurnClick(squareId: int)
      requires Valid()
      modifies this, board
      ensures Valid() && board == old(board)
      ensures State() == Click(old(State()), squareId)
    {
      if !listening {
        return;
      }
      if 0 <= squareId < 9 && board[squareId] == Empty {
        Turn(squareId, Human);
        var tie := CheckTie();
        if !tie {
          var spot := BestSpot();
          if spot.Some? {
            Turn(spot.value, Computer);
          }
        }
      }
    }
  }
}

/**
 The computer's move search: exhaustive minimax without pruning and without a
 depth discount. `Minimax` is the reference definition over board values;
 `MinimaxInPlace` is the algorithm as the game runs it, writing trial marks
 into one shared array and undoing each of them.
 */
module Search {
  import opened Wrappers
  import opened Rules

  /**
   What `minimax` returns: a score, and the chosen cell. A terminal board
   is scored without choosing a cell, so the index is then absent.
   */
  datatype Move = Move(index: Option<Index>, score: int)

  /** A board on which the search stops: someone has won, or no cell is free. */
  predicate Terminal(b: Board)
  {
    Wins(b, Human) || Wins(b, Computer) || Full(b)
  }

  /** The scores a search can produce: -10, 0 and +10. */
  predicate IsScore(s: int)
  {
    s == -10 || s == 0 || s == 10
  }

  /** Score x is strictly better than y for p: the computer maximises, the human minimises. */
  predicate Better(p: Player, x: int, y: int)
  {
    if p == Computer then x > y else x < y
  }

  /**
   The selection loops of `minimax`, as a fold over the candidate list: the
   position of the first candidate with the strictly best score for p.
   */
  function SelectBest(moves: seq<Move>, p: Player): (k: nat)
    requires |moves| > 0
    ensures k < |moves|
    ensures forall j :: 0 <= j < |moves| ==> !Better(p, moves[j].score, moves[k].score)
    ensures forall j :: 0 <= j < k ==> Better(p, moves[k].score, moves[j].score)
  {
    if |moves| == 1 then 0
    else
      var k := SelectBest(moves[..|moves| - 1], p);
      assert forall j :: 0 <= j < |moves| - 1 ==> moves[..|moves| - 1][j] == moves[j];
      if Better(p, moves[|moves| - 1].score, moves[k].score) then |moves| - 1 else k
  }

  /**
   `minimax(newBoard, player)`: a human win scores -10, otherwise a computer
   win +10, otherwise a full board 0; on any other board every free cell is
   tried for p, scored by the search for the other player, and the first
   strictly best candidate is returned.
   */
  function Minimax(b: Board, p: Player): (m: Move)
    decreases |EmptySquares(b)|, 2, 0
    ensures IsScore(m.score)
    ensures Wins(b, Human) ==> m == Move(None, -10)
    ensures !Wins(b, Human) && Wins(b, Computer) ==> m == Move(None, 10)
    ensures !Wins(b, Human) && !Wins(b, Computer) && Full(b) ==> m == Move(None, 0)
    ensures !Terminal(b) ==> m.index.Some? && b[m.index.value] == Empty
  {
    var availSpots := EmptySquares(b);
    if FirstWin(b, Human).Some? then Move(None, -10)
    else if FirstWin(b, Computer).Some? then Move(None, 10)
    else if |availSpots| == 0 then Move(None, 0)
    else
      var moves := Candidates(b, p, availSpots, |availSpots|);
      moves[SelectBest(moves, p)]
  }

  /** Every listed spot is a free cell of b. */
  predicate AllFree(b: Board, spots: seq<Index>)
  {
    forall k :: 0 <= k < |spots| ==> b[spots[k]] == Empty
  }

  /**
   The `moves` list of `minimax` after the first n spots: one entry per spot,
   pushed in the order given, each scored by the search that follows p's
   mark in that spot.
   */
  function Candidates(b: Board, p: Player, spots: seq<Index>, n: nat): (moves: seq<Move>)
    requires AllFree(b, spots) && n <= |spots|
    decreases |EmptySquares(b)|, 1, n
    ensures |moves| == n
    ensures forall k :: 0 <= k < n ==> moves[k].index == Some(spots[k]) && IsScore(moves[k].score)
  {
    if n == 0 then []
    else Candidates(b, p, spots, n - 1) + [Move(Some(spots[n - 1]), Value(b, p, spots[n - 1]))]
  }

  /** The score minimax gives to p playing free cell c: the search for the other player after that move. */
  function Value(b: Board, p: Player, c: Index): (v: int)
    requires b[c] == Empty
    decreases |EmptySquares(b)|, 0, 0
    ensures IsScore(v)
  {
    PlaceCounts(b, c, p);
    Minimax(Place(b, c, p), Opponent(p)).score
  }

  /** Entry k of the candidate list is spot k with the score of playing it. */
  lemma {:induction false} CandidatesAt(b: Board, p: Player, spots: seq<Index>, n: nat, k: nat)
    requires AllFree(b, spots) && n <= |spots|
    requires k < n
    ensures Candidates(b, p, spots, n)[k] == Move(Some(spots[k]), Value(b, p, spots[k]))
  {
    var moves := Candidates(b, p, spots, n);
    assert moves == Candidates(b, p, spots, n - 1) + [Move(Some(spots[n - 1]), Value(b, p, spots[n - 1]))];
    if k < n - 1 {
      CandidatesAt(b, p, spots, n - 1, k);
    }
  }

  /**
   The selection rule: on a board that is not terminal, minimax picks a free
   cell whose score is the best p can get from any free cell, and every free
   cell with a lower index scores strictly worse for p.
   */
  lemma MinimaxSelects(b: Board, p: Player)
    requires !Terminal(b)
    ensures var m := Minimax(b, p);
      && m.index.Some? && b[m.index.value] == Empty
      && m.score == Value(b, p, m.index.value)
      && (forall c: Index {:trigger Value(b, p, c)} :: b[c] == Empty ==> !Better(p, Value(b, p, c), m.score))
      && (forall c: Index {:trigger Value(b, p, c)} :: b[c] == Empty && c < m.index.value ==> Better(p, m.score, Value(b, p, c)))
  {
    var spots := EmptySquares(b);
    var moves := Candidates(b, p, spots, |spots|);
    assert Minimax(b, p) == moves[SelectBest(moves, p)];
    SelectedIsBest(b, p, spots);
    SelectedIsFirst(b, p, spots);
  }

  /** No free cell is strictly better for p than the selected candidate. */
  lemma SelectedIsBest(b: Board, p: Player, spots: seq<Index>)
    requires spots == EmptySquares(b) && spots != []
    ensures var moves := Candidates(b, p, spots, |spots|);
      var k := SelectBest(moves, p);
      && moves[k] == Move(Some(spots[k]), Value(b, p, spots[k]))
      && (forall c: Index {:trigger Value(b, p, c)} :: b[c] == Empty ==> !Better(p, Value(b, p, c), moves[k].score))
  {
    var moves := Candidates(b, p, spots, |spots|);
    var k := SelectBest(moves, p);
    CandidatesAt(b, p, spots, |spots|, k);
    forall c: Index | b[c] == Empty
      ensures !Better(p, Value(b, p, c), moves[k].score)
    {
      assert c in spots;
      var j :| 0 <= j < |spots| && spots[j] == c;
      CandidatesAt(b, p, spots, |spots|, j);
    }
  }

  /** Every free cell below the selected one is strictly worse for p. */
  lemma SelectedIsFirst(b: Board, p: Player, spots: seq<Index>)
    requires spots == EmptySquares(b) && spots != []
    ensures var moves := Candidates(b, p, spots, |spots|);
      var k := SelectBest(moves, p);
      forall c: Index {:trigger Value(b, p, c)} :: b[c] == Empty && c < spots[k] ==> Better(p, moves[k].score, Value(b, p, c))
  {
    var moves := Candidates(b, p, spots, |spots|);
    var k := SelectBest(moves, p);
    forall c: Index | b[c] == Empty && c < spots[k]
      ensures Better(p, moves[k].score, Value(b, p, c))
    {
      assert c in spots;
      var j :| 0 <= j < |spots| && spots[j] == c;
      assert j < k;
      CandidatesAt(b, p, spots, |spots|, j);
      assert moves[j].score == Value(b, p, c);
    }
  }

  /**
   `minimax` as the game runs it, on the shared board array. The board is
   left exactly as it was, and the result is the one `Minimax` defines.
   */
  method MinimaxInPlace(newBoard: array<Cell>, player: Player) returns (best: Move)
    requires newBoard.Length == 9
    modifies newBoard
    decreases |EmptySquares(newBoard[..])|, 2
    ensures newBoard[..] == old(newBoard[..])
    ensures best == Minimax(old(newBoard[..]), player)
  {
    var availSpots := EmptySquares(newBoard[..]);
    var humanWin := CheckWin(newBoard[..], Human);
    if humanWin.Some? {
      return Move(None, -10);
    }
    var computerWin := CheckWin(newBoard[..], Computer);
    if computerWin.Some? {
      return Move(None, 10);
    }
    if |availSpots| == 0 {
      return Move(None, 0);
    }
    var moves := TryMoves(newBoard, player, availSpots);
    var bestMove := PickBest(moves, player);
    best := moves[bestMove];
  }

  /**
   The first loop of `minimax`: every spot in turn is tried, and its entry
   is pushed onto the `moves` list.
   */
  method TryMoves(newBoard: array<Cell>, player: Player, availSpots: seq<Index>) returns (moves: seq<Move>)
    requires newBoard.Length == 9
    requires AllFree(newBoard[..], availSpots)
    modifies newBoard
    decreases |EmptySquares(newBoard[..])|, 1
    ensures newBoard[..] == old(newBoard[..])
    ensures moves == Candidates(old(newBoard[..]), player, availSpots, |availSpots|)
  {
    ghost var start: Board := newBoard[..];
    moves := [];
    var i := 0;
    while i < |availSpots|
      invariant 0 <= i <= |availSpots|
      invariant newBoard[..] == start
      invariant moves == Candidates(start, player, availSpots, i)
    {
      var spot := availSpots[i];
      assert start[spot] == Empty;
      var score := TryMove(newBoard, player, spot);
      moves := moves + [Move(Some(spot), score)];
      i := i + 1;
    }
  }

  /**
   One pass of that loop: the spot gets the player's mark, the board is
   scored by a recursive search for the other player, and the spot gets its
   old contents back, so the board is as it was.
   */
  method TryMove(newBoard: array<Cell>, player: Player, spot: Index) returns (score: int)
    requires newBoard.Length == 9
    requires newBoard[spot] == Empty
    modifies newBoard
    decreases |EmptySquares(newBoard[..])|, 0
    ensures newBoard[..] == old(newBoard[..])
    ensures score == Value(old(newBoard[..]), player, spot)
  {
    ghost var start: Board := newBoard[..];
    var saved := newBoard[spot];
    newBoard[spot] := Mark(player);
    assert newBoard[..] == Place(start, spot, player);
    PlaceCounts(start, spot, player);
    var result := MinimaxInPlace(newBoard, Opponent(player));
    score := result.score;
    newBoard[spot] := saved;
    assert newBoard[..] == start;
  }

  /**
   The two selection loops at the end of `minimax`: starting from a sentinel
   score no candidate can reach, keep the first candidate that strictly beats
   the best so far (greater for the computer, smaller for the human).
   */
  method PickBest(moves: seq<Move>, player: Player) returns (bestMove: nat)
    requires |moves| > 0
    requires forall k :: 0 <= k < |moves| ==> IsScore(moves[k].score)
    ensures bestMove == SelectBest(moves, player)
  {
    bestMove := 0;
    if player == Computer {
      var bestScore := -10000;
      var j := 0;
      while j < |moves|
        invariant 0 <= j <= |moves|
        invariant j == 0 ==> bestScore == -10000
        invariant j > 0 ==> bestMove == SelectBest(moves[..j], player) && bestScore == moves[bestMove].score
      {
        assert moves[..j + 1][..j] == moves[..j];
        if moves[j].score > bestScore {
          bestScore := moves[j].score;
          bestMove := j;
        }
        j := j + 1;
      }
    } else {
      var bestScore := 10000;
      var j := 0;
      while j < |moves|
        invariant 0 <= j <= |moves|
        invariant j == 0 ==> bestScore == 10000
        invariant j > 0 ==> bestMove == SelectBest(moves[..j], player) && bestScore == moves[bestMove].score
      {
        assert moves[..j + 1][..j] == moves[..j];
        if moves[j].score < bestScore {
          bestScore := moves[j].score;
          bestMove := j;
        }
        j := j + 1;
      }
    }
    assert moves[..|moves|] == moves;
  }

  /**
   If the human, to move, can complete a line in free cell c, the search for
   the human scores the board -10.
   */
  lemma HumanThreat(b: Board, c: Index)
    requires !Terminal(b)
    requires b[c] == Empty
    requires Wins(Place(b, c, Human), Human)
    ensures Minimax(b, Human).score == -10
  {
    MinimaxSelects(b, Human);
    assert Value(b, Human, c) == -10;
  }

  /**
   If the computer can complete a line in free cell c and the human has not
   won, playing c scores +10 for the computer.
   */
  lemma ComputerWinsAt(b: Board, c: Index)
    requires !Wins(b, Human)
    requires b[c] == Empty
    requires Wins(Place(b, c, Computer), Computer)
    ensures Value(b, Computer, c) == 10
  {
    PlaceKeepsOtherWins(b, c, Computer);
  }

  /**
   When the lowest free cell completes a line for the computer, the search
   plays it, scored +10.
   */
  lemma TakesImmediateWin(b: Board, c: Index)
    requires !Terminal(b)
    requires b[c] == Empty
    requires forall d: Index :: d < c ==> b[d] != Empty
    requires Wins(Place(b, c, Computer), Computer)
    ensures Minimax(b, Computer) == Move(Some(c), 10)
  {
    MinimaxSelects(b, Computer);
    ComputerWinsAt(b, c);
  }

  /** The two example positions are still in play. */
  lemma InPlay(b: Board)
    requires b == WinNowBoard || b == BlockBoard
    ensures !Terminal(b)
  {
    WinsExplicit(b, Human);
    WinsExplicit(b, Computer);
    assert b[2] == Empty;
  }

  /** Computer to move with two in the top row and cell 2 free. */
  const WinNowBoard: Board :=
    [Mark(Computer), Mark(Computer), Empty, Mark(Human), Empty, Empty, Empty, Empty, Mark(Human)]

  /** The computer takes the win at cell 2, scored +10. */
  lemma ForcedWin(b: Board)
    requires b == WinNowBoard
    ensures Minimax(b, Computer) == Move(Some(2), 10)
  {
    InPlay(b);
    assert forall d: Index :: d < 2 ==> b[d] != Empty;
    assert LineComplete(Place(b, 2, Computer), WinCombos[0], Computer);
    TakesImmediateWin(b, 2);
  }

  /** Computer to move while the human holds cells 0 and 1 and cell 2 is free. */
  const BlockBoard: Board :=
    [Mark(Human), Mark(Human), Empty, Empty, Mark(Computer), Empty, Empty, Empty, Empty]

  /** Every computer move on BlockBoard other than cell 2 lets the human win. */
  lemma BlockOthersLose(b: Board, c: Index)
    requires b == BlockBoard
    requires b[c] == Empty
    requires c != 2
    ensures Value(b, Computer, c) == -10
  {
    var after := Place(b, c, Computer);
    WinsExplicit(after, Human);
    WinsExplicit(after, Computer);
    assert after[2] == Empty;
    var reply := Place(after, 2, Human);
    assert LineComplete(reply, WinCombos[0], Human);
    HumanThreat(after, 2);
  }

  /**
   When every free cell but the lowest one loses for the computer, the
   search plays the lowest one.
   */
  lemma OnlyMoveChosen(b: Board, c: Index)
    requires !Terminal(b)
    requires b[c] == Empty
    requires forall d: Index :: d < c ==> b[d] != Empty
    requires forall d: Index {:trigger Value(b, Computer, d)} :: b[d] == Empty && d != c ==> Value(b, Computer, d) == -10
    ensures Minimax(b, Computer).index == Some(c)
  {
    MinimaxSelects(b, Computer);
    assert IsScore(Value(b, Computer, c));
  }

  /** Every computer move on BlockBoard other than cell 2 loses. */
  lemma BlockAllOthersLose(b: Board)
    requires b == BlockBoard
    ensures forall d: Index {:trigger Value(b, Computer, d)} :: b[d] == Empty && d != 2 ==> Value(b, Computer, d) == -10
  {
    forall d: Index | b[d] == Empty && d != 2
      ensures Value(b, Computer, d) == -10
    {
      BlockOthersLose(b, d);
    }
  }

  /** The computer blocks at cell 2. */
  lemma ForcedBlock(b: Board)
    requires b == BlockBoard
    ensures Minimax(b, Computer).index == Some(2)
  {
    InPlay(b);
    BlockAllOthersLose(b);
    assert forall d: Index :: d < 2 ==> b[d] != Empty;
    OnlyMoveChosen(b, 2);
  }
}

/**
 The board as the game stores it: a JavaScript array of nine values in which a
 free cell holds its own index as a number and an occupied cell holds the
 string 'O' or 'X'. This module shows that this array and the `Cell` board of
 the other modules determine each other, and that the array-level reading of
 `emptySquares`, of `plays` and of the trial-and-restore step of `minimax`
 agrees with the `Cell` model.
 */
module Encoding {
  import opened Wrappers
  import opened Rules

  /** The values the array holds: a number, or a mark string. */
  datatype JsValue = Num(n: int) | Str(s: string)

  /** `huPlayer` and `aiPlayer`. */
  function Symbol(p: Player): string
  {
    if p == Human then "O" else "X"
  }

  function EncodeCell(c: Cell, i: Index): JsValue
  {
    match c
    case Empty => Num(i)
    case Mark(p) => Str(Symbol(p))
  }

  /**
   The array holding board b: a value of type number exactly at the free
   cells, and at each of them its own index.
   */
  function Encode(b: Board): (js: seq<JsValue>)
    ensures |js| == 9
    ensures forall i :: 0 <= i < 9 ==> (js[i].Num? <==> b[i] == Empty)
    ensures forall i :: 0 <= i < 9 && js[i].Num? ==> js[i].n == i
  {
    seq(9, i requires 0 <= i < 9 => EncodeCell(b[i], i))
  }

  function DecodeCell(v: JsValue, i: Index): Option<Cell>
  {
    match v
    case Num(n) => if n == i then Some(Empty) else None
    case Str(s) =>
      if s == Symbol(Human) then Some(Mark(Human))
      else if s == Symbol(Computer) then Some(Mark(Computer))
      else None
  }

  /** Reads an array back as a board; only arrays of the shape above are accepted. */
  function Decode(js: seq<JsValue>): (r: Option<Board>)
    ensures r.Some? ==> Encode(r.value) == js
  {
    if |js| == 9 && forall i :: 0 <= i < 9 ==> DecodeCell(js[i], i).Some? then
      var b: Board := seq(9, i requires 0 <= i < 9 => DecodeCell(js[i], i).value);
      assert forall i :: 0 <= i < 9 ==> EncodeCell(b[i], i) == js[i];
      Some(b)
    else None
  }

  /** Every board is stored by exactly one array, and reading it back gives the board. */
  lemma DecodeEncode(b: Board)
    ensures Decode(Encode(b)) == Some(b)
  {
    var js := Encode(b);
    assert forall i :: 0 <= i < 9 ==> DecodeCell(js[i], i) == Some(b[i]);
    assert Decode(js).Some?;
    assert Decode(js).value == b;
  }

  /** `Array.from(Array(9).keys())` in `startGame`: the numbers 0 to 8. */
  function StartArray(): seq<JsValue>
  {
    seq(9, i => Num(i))
  }

  /** The array built at the start of a game stores the empty board. */
  lemma StartArrayIsEmptyBoard()
    ensures Decode(StartArray()) == Some(EmptyBoard)
  {
    assert Encode(EmptyBoard) == StartArray();
    DecodeEncode(EmptyBoard);
  }

  /** `filter(s => typeof s == 'number')` over the first n values of the array. */
  function JsNumbers(js: seq<JsValue>, n: nat): seq<int>
    requires n <= |js|
  {
    if n == 0 then []
    else JsNumbers(js, n - 1) + (if js[n - 1].Num? then [js[n - 1].n] else [])
  }

  /** The `reduce` in `checkWin` over the first n values: the positions holding symbol `sym`. */
  function JsPositions(js: seq<JsValue>, sym: string, n: nat): seq<int>
    requires n <= |js|
  {
    if n == 0 then []
    else JsPositions(js, sym, n - 1) + (if js[n - 1] == Str(sym) then [n - 1] else [])
  }

  lemma {:induction false} JsNumbersEncode(b: Board, n: nat)
    requires n <= 9
    ensures JsNumbers(Encode(b), n) == Positions(b, Empty, n)
  {
    if n > 0 {
      JsNumbersEncode(b, n - 1);
    }
  }

  lemma {:induction false} JsPositionsEncode(b: Board, p: Player, n: nat)
    requires n <= 9
    ensures JsPositions(Encode(b), Symbol(p), n) == Positions(b, Mark(p), n)
  {
    if n > 0 {
      JsPositionsEncode(b, p, n - 1);
    }
  }

  /**
   On the stored array, `emptySquares` yields the values of the free cells,
   which are their indices: the list `EmptySquares` gives.
   */
  lemma EmptySquaresAgree(b: Board)
    ensures JsNumbers(Encode(b), 9) == EmptySquares(b)
  {
    JsNumbersEncode(b, 9);
  }

  /** On the stored array, `plays` are the cells whose value is the player's symbol. */
  lemma PlaysAgree(b: Board, p: Player)
    ensures JsPositions(Encode(b), Symbol(p), 9) == Plays(b, p)
  {
    JsPositionsEncode(b, p, 9);
  }

  /**
   The trial step of `minimax` on the array: the value read from a free cell
   before the mark is written is the cell's own index, writing the mark stores
   the board with that move, and writing the saved value back stores the board
   as it was.
   */
  lemma TrialAndRestore(b: Board, i: Index, p: Player)
    requires b[i] == Empty
    ensures Encode(b)[i] == Num(i)
    ensures Encode(b)[i := Str(Symbol(p))] == Encode(Place(b, i, p))
    ensures Encode(Place(b, i, p))[i := Num(i)] == Encode(b)
  {
  }
}

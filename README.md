# Tic-tac-toe against an unbeatable computer: a Dafny model

This project models the game logic of a browser tic-tac-toe page, `script3.js`. The human plays 'O'. The computer plays 'X' and picks its moves by exhaustive minimax. The model covers three layers:

- **Board and rules** (`rules.dfy`, module `Rules`).
  - The nine cells are explicit `Cell` values (`Empty | Mark(player)`).
  - `WinCombos` lists the eight lines in source order.
  - `checkWin` is a reference function `FirstWin` plus the source's search loop `CheckWin`, and the two are proved equal.
  - `emptySquares` is `EmptySquares`.
  - Both the `reduce` in `checkWin` and the `filter` in `emptySquares` come from one left-to-right scan, `Positions`.
- **The array as the page stores it** (`encoding.dfy`, module `Encoding`).
  - The page stores a free cell as its own index (a number) and a taken cell as 'O' or 'X'.
  - `Encode` and `Decode` convert between that array and the `Cell` board. The model uses `Cell` everywhere else.
  - Lemmas show that the array-level `emptySquares`, `plays` and the write-then-restore step of `minimax` match the `Cell` model.
- **Search** (`search.dfy`, module `Search`).
  - `Minimax` is the reference definition over board values.
  - `MinimaxInPlace`, `TryMoves`, `TryMove` and `PickBest` are the source's algorithm. They write trial marks into one shared `array<Cell>` and undo each one.
  - These methods are proved to leave the array unchanged and to return exactly what `Minimax` defines.
  - `MinimaxSelects` states the selection rule: the computer takes the maximum and the human the minimum, with the lowest free cell winning ties.
  - `ForcedWin` and `ForcedBlock` are the two forced example positions.
- **Round controller** (`round.dfy`, module `Round`).
  - `Click` is the pure meaning of `turnClick`, built from `AfterTurn` (`turn`), the tie check and `bestSpot`.
  - The class `Game` holds `origBoard` as an array, plus a flag saying whether the cells still have their click handlers. Its methods are proved against `Click`.
  - `ClickKeepsLegal` shows that every click keeps the round legal:
    - the mark counts alternate;
    - at most one player has a line;
    - the cells accept clicks exactly while the board is not terminal.

Points where the model and the code need a word:

- `emptySquares` ignores its argument and always reads the global `origBoard` (script3.js:74-76). `minimax` passes its `newBoard`, which is always `origBoard`. The model therefore passes the board explicitly.
- On a terminal board, `minimax` returns an object with a score and no `index`, so `bestSpot` yields `undefined`. The model returns `Move(None, score)`.
  - `turnClick` reaches this case when the human's move wins without filling the board. `checkTie` is false, so `turn(undefined, aiPlayer)` runs.
  - That call throws before any cell 0..8 changes, because `document.getElementById(undefined)` is `null`.
  - `Click` models this as "the computer does not move".
- `turn` writes its mark without checking the cell (script3.js:37-38). The only guard is the `typeof … == 'number'` test in `turnClick` (script3.js:30). The model follows the code: `AfterTurn` does not check, and `Click` ignores a click on a taken cell, on an unknown id, or after the round has ended.

## Model

| member | source | states |
|---|---|---|
| Rules.Positions | script3.js:45-46 | the scan yields exactly the indices below n whose cell equals the given value, strictly ascending |
| Rules.Place | script3.js:38 | the moved-into cell holds the mover's mark and every other cell is unchanged; with `PlaceCounts`, a move into a free cell uses it up |
| Rules.Plays | script3.js:45-46 | `plays` holds exactly the cells the player occupies, in ascending order |
| Rules.EmptySquares | script3.js:74-76 | exactly the free cells, strictly ascending; empty exactly when the board is full |
| Rules.FirstWinFrom | script3.js:48-54 | the first line from k on that the player has completed, and no earlier one from k is complete; none only when no such line exists |
| Rules.FirstWin | script3.js:44-56 | non-null exactly when some `winCombos` line is entirely the player's; the returned index is the first such line and its player field is the player |
| Rules.CheckWin | script3.js:44-56 | the reduce-then-search-with-break loop returns exactly `FirstWin` |
| Rules.FirstWinUnique | script3.js:48-54 | the first-line properties determine the result of `checkWin` uniquely |
| Rules.WinsExplicit | script3.js:4-13 | a win is one of the eight rows, columns and diagonals listed in `winCombos` |
| Rules.PositionsUpdate | script3.js:38 | overwriting one cell changes the count of a value by what left and what arrived |
| Rules.PositionsPartition | script3.js:20 | every cell is free or held by exactly one player |
| Rules.CountsAddUp | script3.js:20 | human marks + computer marks + free cells = 9 |
| Rules.PlaceCounts | script3.js:38 | a move into a free cell removes one free cell and adds one mark for the mover only |
| Rules.PlaceKeepsOtherWins | script3.js:38-41 | a move into a free cell neither creates nor destroys the other player's win |
| Encoding.Encode | script3.js:20 | the stored array has a number exactly at the free cells, and each free cell holds its own index |
| Encoding.Decode | script3.js:30 | an array read back as a board is the array of that board |
| Encoding.DecodeEncode | script3.js:20 | every board reads back from its stored array unchanged |
| Encoding.StartArrayIsEmptyBoard | script3.js:20 | `Array.from(Array(9).keys())` stores the empty board |
| Encoding.StartArray | script3.js:20 | the numbers 0 to 8; it decodes to the empty board (`StartArrayIsEmptyBoard`) |
| Encoding.JsNumbers | script3.js:75 | the `filter` over the first n stored values; on a stored board it equals `Positions(b, Empty, n)` (`JsNumbersEncode`) |
| Encoding.JsPositions | script3.js:45-46 | the `reduce` over the first n stored values; on a stored board it equals `Positions(b, Mark(p), n)` (`JsPositionsEncode`) |
| Encoding.JsNumbersEncode | script3.js:75 | filtering numbers from the first n stored values gives the free cells below n |
| Encoding.JsPositionsEncode | script3.js:45-46 | the reduce over the first n stored values gives the player's cells below n |
| Encoding.EmptySquaresAgree | script3.js:74-76 | `emptySquares` on the stored array returns the free cells' indices, equal to `EmptySquares` |
| Encoding.PlaysAgree | script3.js:45-46 | `plays` on the stored array equals `Plays` |
| Encoding.TrialAndRestore | script3.js:115-127 | the saved value of a free cell is its index; writing the mark stores the moved board; writing the saved value back stores the original board |
| Search.Terminal | script3.js:105-111 | the boards on which `minimax` stops: on them `Minimax` returns no index, and with `InPlay` the two example boards are not terminal |
| Search.Better | script3.js:131-145 | the strict `>` for the computer and `<` for the human; `SelectBest` and `PickBest` are stated with it |
| Search.SelectBest | script3.js:130-147 | the chosen candidate is best for the mover (no candidate strictly better) and every earlier candidate is strictly worse: first-seen max for the computer, first-seen min for the human |
| Search.Minimax | script3.js:102-149 | the score is -10, 0 or +10; a human win gives -10, else a computer win +10, else a full board 0, with no index and no depth discount; on any other board the index is a free cell |
| Search.Candidates | script3.js:112-129 | after n tried spots, `moves` has n entries in the order pushed, each naming its spot and carrying a score in {-10, 0, 10} |
| Search.Value | script3.js:114-127 | the score of a trial move is -10, 0 or +10 |
| Search.CandidatesAt | script3.js:113-128 | entry k of `moves` is spot k scored by the search for the other player after that move |
| Search.MinimaxSelects | script3.js:131-148 | on a non-terminal board the returned cell is free, its score is the value of playing it, no free cell is strictly better for the mover, and every lower-indexed free cell is strictly worse |
| Search.SelectedIsBest | script3.js:131-148 | the selected candidate is the entry of its spot, and no free cell scores strictly better for the mover |
| Search.SelectedIsFirst | script3.js:131-148 | every free cell below the selected spot scores strictly worse for the mover |
| Search.MinimaxInPlace | script3.js:102-149 | the board array is left exactly as it was, and the result equals `Minimax` of the original board |
| Search.TryMoves | script3.js:112-129 | the trial loop restores the array and yields exactly the `moves` list of `Minimax` |
| Search.TryMove | script3.js:114-127 | one trial writes the mark, searches for the other player, writes the saved value back, leaves the array unchanged, and returns the value of that move |
| Search.PickBest | script3.js:130-147 | the sentinel-started strict-comparison loops return the position `SelectBest` defines |
| Search.HumanThreat | script3.js:105-106 | if the human to move can complete a line, the human's search scores the board -10 |
| Search.ComputerWinsAt | script3.js:107-108 | a computer move that completes a line scores +10 |
| Search.TakesImmediateWin | script3.js:107-108 | when the lowest free cell completes a computer line, the computer's search returns that cell with score +10 |
| Search.InPlay | script3.js:105-111 | the two example boards are not terminal |
| Search.ForcedWin | script3.js:113-148 | on [X,X,_,O,_,_,_,_,O] with X to move the result is cell 2 with score +10 |
| Search.BlockOthersLose | script3.js:113-148 | on [O,O,_,_,X,_,_,_,_] every computer move except cell 2 scores -10 |
| Search.BlockAllOthersLose | script3.js:113-148 | on [O,O,_,_,X,_,_,_,_] every free cell but 2 scores -10 for the computer |
| Search.OnlyMoveChosen | script3.js:131-138 | if every free cell but the lowest scores -10 for the computer, the lowest is chosen |
| Search.ForcedBlock | script3.js:113-148 | on [O,O,_,_,X,_,_,_,_] with X to move the result is cell 2, the block |
| Round.StartState | script3.js:18-26 | an empty board with every cell listening; it is legal (`StartLegal`) |
| Round.AfterTurn | script3.js:37-42 | `turn` places the mark, and the round stops listening exactly when it was already stopped or the mover now has a line |
| Round.Click | script3.js:28-35 | a click is ignored unless the round listens and the cell is free; otherwise the human's mark lands there, the computer replies at the cell minimax picks exactly when the board is not terminal, and a human win or a full board ends the round |
| Round.StartLegal | script3.js:18-26 | a fresh round is legal |
| Round.ClickKeepsLegal | script3.js:28-42 | every click keeps the round legal: the human has as many marks as the computer or one more, at most one player has a line, the cells listen exactly while the board is not terminal, and while listening the counts are equal |
| Round.HumanMoveCounts | script3.js:32 | the human's move gives the human one mark more and cannot give the computer a line |
| Round.ComputerReplyCounts | script3.js:33 | the computer's reply evens the counts, cannot give the human a line, and leaves a free cell |
| Round.Game.constructor | script3.js:16-20 | loading the page creates a fresh empty board that listens for clicks |
| Round.Game.StartGame | script3.js:18-26 | replay installs a fresh empty board array and listening cells |
| Round.Game.Turn | script3.js:37-42 | the array change and the listening flag are exactly those of `AfterTurn` |
| Round.Game.CheckTie | script3.js:83-93 | returns true exactly when no cell is free, and then the cells stop listening |
| Round.Game.BestSpot | script3.js:78-81 | runs the search on the live board, leaves it unchanged, and returns the index of `Minimax` for the computer |
| Round.Game.TurnClick | script3.js:28-35 | the new board and listening flag are exactly `Click` of the old ones |

## Left out

- DOM work is not modelled: reading and writing `innerText`, background colours, `declareWinner`, the end-of-game banner and the highlighting in `gameOver`. Attaching and detaching click handlers is modelled only as the `listening` flag.
- Click ids are modelled as integers. The page's `square.target.id` is a string, which JavaScript converts to an array index.
- The page shows "Tie Game!" over "You Win!" when the human's winning move fills the board. That is presentation text and is not modelled.
- Two claims are not proved, because both need the value of the whole game tree from the empty board, which is far beyond what the verifier can unfold:
  - that optimal play by both sides from the empty board always ends in a tie;
  - that self-play fills the board in exactly nine moves.
- The claim that the human can never win is not proved, for the same reason. `Click` still models what the code does if the human does win.
- The running time of the brute-force search is not modelled.

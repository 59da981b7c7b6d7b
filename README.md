# Solitaire chess solver, modelled in Dafny

`lonechess.py` solves a solitaire-chess puzzle. Pieces stand on a small board, and every move must capture: the moving piece leaves its square and takes the square of another piece. The goal is a board with exactly one piece left.

The solver has three layers, and the model follows them with one module each:

- `Pieces` (`pieces.dfy`) holds the move rule of each of the six piece kinds.
  - Given a square and the occupied squares, a rule lists the candidate destinations in the order the source's generators yield them.
  - Bishop, rook and queen slide along rays with `until_a_piece_is_hit`.
  - The rules the source runs as loops exist twice: a function that specifies them, and a method with the source's loop proved equal to it. These are `UntilAPieceIsHit`, `SlideMoves` and `ScanKing`.
  - `PieceMoves` is the dispatch `piece.moves(x, y, state.pieces)`: it runs the rule of the piece's kind and is proved equal to the function `Candidates`.
- `LoneChess` (`lone_chess.dfy`) holds the board and the search state, legal-move enumeration and move application.
  - A board is the sequence of its (square, piece) entries in dictionary insertion order, with no square twice. `ToMap` is the dictionary view, and the source's `==` on boards is equality of those maps.
  - `GetMoves` is the source's loop; `LegalMoves` is the function that specifies it.
  - `ApplyMove` is the transition; `MakeMove` performs its steps one by one.
- `Search` (`search.dfy`) holds `get_children` and the breadth-first `get_solutions`.
  - The search order is specified by the ghost function `Level`: the states k capture moves below the root, in the order the source meets them.
  - The loop, the levels and the winners are written for any state type. They take a child function, a size, and a view of a state's board as parameters.
  - `GetSolutions` runs that loop with `Children` (the child function), `Size` (the piece count) and `BoardOf` (the board as a map).

Three behaviours of the source that are easy to miss:

- **The sliding guard.** It is `0 <= x, y <= 4` and is evaluated before each step, so a ray can look at coordinates -1, 4 and 5, which lie off a 4×4 board (squares 0 to 3). With every piece inside the board, such squares are never occupied, so the ray's result does not change.
- **A missing source square.** `apply_move` fails with a `KeyError`; this is `Err(MissingPiece)` here.
- **The piece-count check.** A failed count is the source's `assert False`; this is `Err(CountNotReduced)` here, and `LegalMovesApply` proves it never happens for a legal move.

## Model

| member | source | states |
|---|---|---|
| Pieces.RayIsFirstHit | lonechess.py:5-11 | The walk yields at most one square. It yields a square exactly when some point (x+k·xoff, y+k·yoff), k ≥ 1, is occupied and every point the walk stepped from passed the guard. That square is the first such point. |
| Pieces.UntilAPieceIsHit | lonechess.py:5-11 | The source's while loop (guard evaluated before the step, break on the first hit) returns what `Ray` specifies. It terminates for every non-zero offset. |
| Pieces.SlideProperties | lonechess.py:41-44 | The walks over a list of directions yield no more squares than there are directions. Each square is occupied, differs from the origin, and is the first hit of one of the directions. |
| Pieces.SlideMoves | lonechess.py:41-44 | The source's loop over the directions yields the walks concatenated in direction order. |
| Pieces.PawnMovesExact | lonechess.py:17-20 | The pawn yields two squares: exactly those whose x is one less and whose y differs by one. |
| Pieces.KnightMovesExact | lonechess.py:72-76 | The knight yields eight pairwise distinct squares: exactly the knight jumps from its square. |
| Pieces.FixedRulesIgnoreOccupancy | lonechess.py:72-76 | The knight's candidates, and the pawn's (lines 17-20), are the same under any occupancy. |
| Pieces.KingRowExact | lonechess.py:29-33 | Row r of the king's scan yields exactly the occupied neighbours whose x is x + r, in increasing y. That is at most three squares in the outer rows and two in the middle row. |
| Pieces.KingMovesExact | lonechess.py:26-33 | The king yields at most eight squares: exactly its occupied neighbours, each once, never its own square. |
| Pieces.ScanKing | lonechess.py:27-33 | The source's nested loops, skipping the (0, 0) offset and keeping occupied squares, yield what `KingMoves` specifies. |
| Pieces.SlidingMovesBounded | lonechess.py:39-66 | Bishop and rook yield at most four squares and the queen at most eight. All are occupied and none is the origin. The queen's output is the bishop's followed by the rook's. |
| Pieces.CandidatesLeaveOrigin | lonechess.py:17-76 | No rule yields the piece's own square. King, bishop, rook and queen yield only occupied squares. |
| Pieces.PieceMoves | lonechess.py:106 | The dispatch `piece.moves(x, y, state.pieces)` runs the generator of the piece's kind, the queen's being the bishop's then the rook's walks. |
| LoneChess.Lookup | lonechess.py:93 | The piece read from an occupied square is the one in that square's entry. |
| LoneChess.Delete | lonechess.py:94 | After `del pieces[k]`, the entries are those of the board whose square is not k. |
| LoneChess.DeleteProperties | lonechess.py:94 | Deleting keeps squares distinct and removes k from the occupied squares. The size drops by one exactly when k was occupied. |
| LoneChess.DeleteMap | lonechess.py:94 | As a dictionary, deleting k removes k from its domain. |
| LoneChess.Store | lonechess.py:95 | `pieces[k] = v` overwrites k's entry in place when k is occupied and appends (k, v) otherwise. The size is unchanged or grows by one. |
| LoneChess.StoreProperties | lonechess.py:95 | Storing keeps squares distinct and adds k to the occupied squares. The entries are (k, v) plus the old entries of other squares. |
| LoneChess.StoreMap | lonechess.py:95 | As a dictionary, storing v at k is the update k := v. |
| LoneChess.InitialState | lonechess.py:84-86 | The root state holds the given board and an empty history. |
| LoneChess.MovePiece | lonechess.py:93-95 | The new occupied squares are the old ones without the source square, plus the destination. The board shrinks by one exactly when the destination was occupied and differs from the source. |
| LoneChess.MovePieceMap | lonechess.py:93-95 | As a dictionary, the new board is the old one without the source square, with the moving piece on the destination. |
| LoneChess.ApplyMove | lonechess.py:88-99 | A missing source square is the `KeyError`, `Err(MissingPiece)`. When the source square is present, the move succeeds exactly when the destination is occupied and differs from the source, and otherwise the count check fails with `CountNotReduced`. On success the board has one piece fewer, is the moved board, and is appended to the history. |
| LoneChess.MakeMove | lonechess.py:89-99 | The source's steps (read the moving piece, delete, store, append to the history, check the count) give what `ApplyMove` specifies. |
| LoneChess.ApplyMoveMap | lonechess.py:93-96 | A successful move, seen on dictionaries: the source square goes and the destination takes the moving piece. |
| LoneChess.CapturesExact | lonechess.py:107-108 | The filter keeps exactly the candidates that are occupied, and nothing when none is. |
| LoneChess.MovesToExact | lonechess.py:109-110 | One move per kept candidate, in order, from the piece's square to that candidate. |
| LoneChess.GetMoves | lonechess.py:101-111 | The source's loop over the entries, accumulating each piece's captures, returns `LegalMoves`. |
| LoneChess.EntryMovesExact | lonechess.py:104-110 | The moves of one entry are exactly those from its square to an occupied candidate of its piece. |
| LoneChess.MovesOfPrefixExact | lonechess.py:104-110 | After the first n entries, the moves gathered are exactly those whose source is one of these entries' squares, whose destination is occupied, and whose destination is a candidate of the source's piece. |
| LoneChess.LegalMovesExact | lonechess.py:102-111 | A move is returned exactly when both its squares are occupied and its destination is a candidate of the piece on its source. |
| LoneChess.LegalMovesAreCaptures | lonechess.py:102-111 | Every returned move has both squares occupied and different. |
| LoneChess.LoneBoardHasNoMoves | lonechess.py:102-111 | A board with at most one piece has no move. |
| LoneChess.EntriesDetermineMap | lonechess.py:147 | Two boards holding the same entries are equal as dictionaries whatever their insertion order, so `w.pieces == winners[0].pieces` does not depend on it. |
| LoneChess.LegalMovesApply | lonechess.py:97-98 | A returned move always applies and removes exactly one piece, so the assertion never fires. |
| Search.SuccessesExact | lonechess.py:130-131 | When no step fails, the comprehension has one result per move, the i-th being the i-th move's. |
| Search.ChildrenExact | lonechess.py:129-131 | There is one child per legal move, in move order, each the result of applying that move. |
| Search.ChildrenProperties | lonechess.py:129-131 | Each child has one piece fewer, its history is its parent's plus its own board, and a legal capture leads to it. |
| Search.ChildrenShrink | lonechess.py:129-131 | Each child is one piece smaller and one history board deeper than its parent. A state with at most one piece has no child. |
| Search.Winners | lonechess.py:144-145 | The collected winners are exactly the states of size one among the children. |
| Search.WinnersAppend | lonechess.py:144-145 | Collecting winners over two lists in turn gives the winners of their concatenation. |
| Search.ExpandStep | lonechess.py:142-149 | Expanding one more frontier state appends its children to `next_nodes`. |
| Search.WinnersSoFarExpand | lonechess.py:142-145 | After the first i states of level k have been expanded, the winners are those of the levels above followed by the one-piece children of those i states, in order. |
| Search.WinnersSoFarEnds | lonechess.py:140-151 | Once all of level k has been expanded, the winners are those collected up to level k + 1. |
| Search.WinnersSoFarGrow | lonechess.py:144-145 | Within a level, the winners at an earlier point are a prefix of those at a later point: `winners.extend` only appends. |
| Search.WinnersUpToGrow | lonechess.py:140-151 | The winners collected up to an earlier level are a prefix of those collected up to a later one. |
| Search.EarlierLevelPrefix | lonechess.py:140-151 | The winners at any point of an earlier level are a prefix of those at any point of a later level. |
| Search.ExpandSource | lonechess.py:142-149 | Every state of the next frontier is a child of a state of the current one. |
| Search.ExpandHas | lonechess.py:142-149 | Every child of every frontier state is in the next frontier. |
| Search.LevelShape | lonechess.py:140-151 | Every state of the k-th frontier is k smaller than the root. |
| Search.LevelDepth | lonechess.py:140-151 | Every state of the k-th frontier is k deeper than the root. |
| Search.GameLevelShape | lonechess.py:140-151 | Under the game's rules, the k-th frontier's states have k more history boards and k fewer pieces than the root. From `initial_state` their history has exactly k boards. |
| Search.LevelsRunOut | lonechess.py:140-151 | Every frontier from max(1, initial piece count) on is empty, so the while loop runs at most that many times. |
| Search.EmptyLevelStaysEmpty | lonechess.py:140-151 | Once a frontier is empty, all later ones are. |
| Search.WinnersUpToComplete | lonechess.py:140-151 | Once a frontier is empty, every one-piece state below the root has been collected. |
| Search.WinnersUpToHas | lonechess.py:144-145 | The winners collected up to level k hold every one-piece state of levels 1 to k. |
| Search.WinnersUpToLast | lonechess.py:144-145 | The winners collected up to level k hold every one-piece state of level k. |
| Search.WinnersUpToSound | lonechess.py:144-145 | Every collected winner has one piece and lies below the root. |
| Search.ExhaustedUnsolvable | lonechess.py:153-156 | At the end of the search, no winner was collected exactly when no state below the root has one piece. |
| Search.ExhaustedAllSame | lonechess.py:153-155 | At the end of the search, if all collected winners have the same board, every one-piece state below the root has that board. |
| Search.LoneRootUnsolvable | lonechess.py:134-156 | A root with at most one piece has no state of size one below it. |
| Search.ExpandPrefixDescends | lonechess.py:146-148 | Every child of the states already expanded in the current frontier lies below the root. So the winners returned early do too. |
| Search.AllSamePrefix | lonechess.py:146-147 | When all winners have the same board, so do those of any prefix of them. |
| Search.StoppedWinnersDescend | lonechess.py:144-148 | The winners collected through the i-th state of a level are one-piece states below the root. |
| Search.StopHere | lonechess.py:142-148 | A stop inside level k, starting from the winners of the levels above, is a stop at point i of the search order: the winners agreed (or were at most one) before the i-th state was expanded and differ after. The returned winners are one-piece states below the root. |
| Search.FirstConflictIsFirst | lonechess.py:142-148 | When the search stops at point i of level k, the winners agreed at every earlier point of that level. |
| Search.FirstConflictAfterAbove | lonechess.py:140-148 | When the search stops in level k, the winners agreed at every point of every level above. |
| Search.ChainExtend | lonechess.py:92-96 | Appending a board one step from the chain's last board extends the chain, and that board becomes its last. |
| Search.LevelChain | lonechess.py:92-96 | When every child's history is its parent's plus its own board, reached by one step, a state k levels below a root with an empty history has k history boards. They chain by steps from the root's board and end on the state's own board. |
| Search.ChildrenRecord | lonechess.py:129-131 | Under the game's rules, every child's history is its parent's plus its own board, and that board is one legal capture from the parent's. |
| Search.DescendantChain | lonechess.py:92-96 | Under these conditions, every state below the root has a non-empty history that chains from the root's board and ends on its own board. |
| Search.DescendantHistory | lonechess.py:167 | Under the game's rules, every state below a root with an empty history has a non-empty history. It is a chain of legal captures from the root's board and ends on the state's own board, the boards the demo loop prints. |
| Search.DescendantsReplay | lonechess.py:167 | The same, for all states below the root at once. |
| Search.SearchExhausted | lonechess.py:153-156 | The three facts above about an exhausted search, together. |
| Search.ExpandLevel | lonechess.py:142-149 | The inner for loop either finishes or stops. When it finishes, it returns the next frontier (the children in order) and the winners extended by its one-piece states, which then all have the same board or are at most one. When it stops, it does so at the first state whose children make the winners differ: they agreed (or were at most one) before it, and it returns more than one winner. |
| Search.BreadthFirst | lonechess.py:134-156 | The search returns only one-piece states below the root. It returns [] exactly when there is none. With two or more results, the boards are not all the same. A single result is the first winner the exhausted search collected (`[winners[0]]`), and it has the board of every one-piece state below the root. A root of size at most one gives []. With two or more results, the search stopped at the first point of the search order where the winners differ, and the result is the winners met up to there. |
| Search.GetSolutions | lonechess.py:134-156 | `BreadthFirst`'s guarantees, with the game's children, piece count and dictionary comparison of boards. A single result is the first winner in search order, so its history is the one the demo loop prints. From `initial_state`, each winner's history is a chain of legal captures from the initial board that ends on the winner's own board. |

## Left out

- `LoneChess.print_board` (lonechess.py:118-126) and the demo puzzle with its printing loop (lonechess.py:159-168): console output and one fixed input, not part of the solver.
- `LoneChess.end` (lonechess.py:114-115): it reads a field the state does not have and nothing calls it.
- The `symbol` glyphs of the piece classes: used only for printing.
- The `total_nodes` counter (lonechess.py:138, 141): it is never read.
- `deepcopy`, the history slice and `_replace`: states are immutable values here. That apply_move leaves its input state unchanged holds by construction.
- The rules receive the set of the board's squares, not the board itself. The source's rules only ask whether a square is a key.
- Pieces.Ray: it requires a non-zero offset. With offset (0, 0) on an unoccupied square inside the guard, the source's loop never ends (on an occupied one it yields that square and stops); no piece uses that offset.
- Search.Successes: a move that fails to apply is skipped, where the source would raise. `ChildrenExact` proves that no legal move fails, so nothing is ever skipped.
- The assertion at lonechess.py:97-98 is a value (`Err(CountNotReduced)`) rather than an exception. Running Python with `-O`, which removes assertions, is not modelled.
- The demo puzzle's concrete answer is not computed: proving it would mean running the whole search inside the verifier.

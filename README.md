# MinMax strategy of ChessBot, in Dafny

This project models the `MinMax` strategy of the ChessBot lichess bot. That is the
`MinMax.search` method in `strategies.py`, which has three parts:

- `evaluate(board)` is a material count. It walks the board's piece map and adds a
  signed value per piece: + for White (upper-case symbol), − for Black.
- `minMax(board, depth, isWhite)` is a depth-bounded minimax. At depth 0, or when the
  game is over, it returns the evaluation. Otherwise it folds the scores of the children
  into `bestEval`, starting from −10000 (maximising) or +10000 (minimising), and takes a
  score only when it strictly improves on the current best. Each child is searched on a
  fresh board rebuilt from the FEN text, with the move pushed on it.
- The root loop always maximises for White. It scores every legal move with
  `minMax(child, 2, False)` and keeps the first move with a strictly greater score,
  starting from `moves[0]` at −10000.

The chess rules engine (python-chess) is not modelled. Positions `P` and moves `M` are
type parameters. The five engine operations the search calls are fields of a `Rules`
record, so every result holds for any rules engine:

- `legal_moves`, in the engine's order;
- `push`;
- `is_game_over`;
- the pieces of `piece_map`;
- `chess.Board(fen=board.fen())`.

The `Board` class wraps one position and changes it in place with `Push`, as `chess.Board`
does. Scores are Dafny `real`s. Every value the source adds is a multiple of 0.25, so
Python's float arithmetic is exact for these values and a `real` matches it.

Files:

- `chess_rules.dfy`: pieces, symbols, the `Rules` record and the `Board` class.
- `material.dfy`: the evaluator, as a specification function (`Score`) and as the loop
  the source runs (`EvaluateBoard`), with its properties.
- `minmax_search.dfy`: the minimax value and the root choice, as specification functions
  (`MinimaxValue`, `SelectMove`), the loops the source runs (`MinMax`, `Search`) proved
  equal to them, and the properties of the search.

Behaviour of the source the model keeps:

- Knights are worth 0: the evaluator has no `'n'` branch (`strategies.py:123-127`).
- The root searches a fixed depth of 2 below each move (`strategies.py:166`).
- A position that is not game-over and has no legal moves scores the sentinel, −10000 or
  +10000, because the fold starts there and no move updates it (`strategies.py:142-155`).
- An empty root move list raises at `moves[0]` (`strategies.py:162`). The model returns
  `NoMoves` for it.
- Depth is a `nat`: the only call site passes 2 (`strategies.py:166`), so the depths
  reached are 2, 1 and 0, and the recursion stops at 0 (`strategies.py:139`).

## Model

| member | source | states |
|---|---|---|
| `Material.Contribution` | strategies.py:119-127 | The per-piece step, computed from the piece's symbol as the source does, is the table value (pawn 1, bishop 3.25, king 3, rook 5, queen 9, knight 0). It is added for an upper-case (White) piece and subtracted for a lower-case (Black) one. |
| `Material.Score` | strategies.py:116-133 | The running sum over n pieces lies between −9n and 9n. |
| `Material.ScoreIsMaterialBalance` | strategies.py:116-133 | The evaluation equals White's total table value minus Black's total table value. |
| `Material.ScoreAntisymmetric` | strategies.py:119-127 | Swapping the owner of every piece negates the evaluation. |
| `Material.MirrorSwapsMaterial` | strategies.py:119-127 | Swapping the owner of every piece turns White's total table value into Black's and Black's into White's. |
| `Material.EmptyBoardScoresZero` | strategies.py:116-133 | A position with no pieces evaluates to 0. |
| `Material.ScoreOrderFree` | strategies.py:117-119 | Two piece lists that are permutations of each other evaluate the same, so the iteration order of the piece map does not matter. |
| `Material.MirroredPairScoresZero` | strategies.py:116-133 | Any piece list together with its colour-swapped copy evaluates to exactly 0: the evaluation of symmetric material is 0. |
| `Material.StartingPositionScoresZero` | strategies.py:115-133 | The material of the standard starting position evaluates to exactly 0, as an instance of `MirroredPairScoresZero`, with either side's pieces listed first. |
| `Material.EvaluateBoard` | strategies.py:115-133 | The loop over the piece map returns exactly `Score` of the board's pieces. It changes nothing. |
| `ChessRules.Board.Copy` | strategies.py:145 | A fresh board holds the source board's position rebuilt from FEN, under the same rules. |
| `ChessRules.Board.Push` | strategies.py:146 | After the push, the board holds the engine's successor of its old position under the move. |
| `MinMaxSearch.Fold` | strategies.py:143-155 | The `bestEval` fold with strict improvement returns the maximum (for White) or the minimum (for Black) of the ±10000 sentinel and all child scores. The result is at least as good as every score, and it is either the sentinel or one of the scores. |
| `MinMaxSearch.MinimaxAtLeaf` | strategies.py:139-140 | At depth 0 or at a game-over position, the minimax value is the evaluation, whatever the side flag. |
| `MinMaxSearch.MinimaxAtInnerNode` | strategies.py:141-155 | At a non-terminal node with depth > 0, the value is the maximum of −10000 and every child's value (searched at depth − 1 with the flag negated) when maximising, and the minimum of +10000 and those values when minimising. A node with no moves returns the sentinel. |
| `MinMaxSearch.DepthOneSearchIsGreedy` | strategies.py:139-155 | A depth-1 search evaluates each child directly and takes the extreme score under the sentinel fold. |
| `MinMaxSearch.MinimaxWithinLeafBounds` | strategies.py:136-155 | If every explored inner node has a move and every leaf evaluates strictly between −10000 and 10000, within [lo, hi], then the minimax value lies within [lo, hi]. |
| `MinMaxSearch.MinMax` | strategies.py:136-155 | The recursive method, whose loop pushes each move on a fresh FEN copy, returns exactly `MinimaxValue`. It has no modifies clause, so the board passed in is unchanged. It terminates because the depth decreases by 1 per call. |
| `MinMaxSearch.RootPick` | strategies.py:161-169 | The root fold keeps an index in range. Its score is the maximum of −10000 and all root scores. When that score is above −10000, the index is the first one reaching it. Otherwise the index is 0. |
| `MinMaxSearch.SelectMoveIsFirstBest` | strategies.py:159-171 | The search returns a move exactly when there are legal moves. The move is a legal move, and it is the first in engine order whose score is maximal and above −10000, or the first move when no score beats −10000. The reported score is at least every root score. |
| `MinMaxSearch.TiesGoToFirstMove` | strategies.py:163-169 | When all root moves score the same, the first legal move is played. |
| `MinMaxSearch.Search` | strategies.py:112-171 | The root loop, which scores each move with `minMax(child, 2, False)` on a fresh copy and always maximises for White, returns exactly `SelectMove`. On an empty move list it returns `NoMoves`. It has no modifies clause, so the board passed in is unchanged. |

## Left out

- The python-chess rules engine: move generation, `push`, `is_game_over`, FEN
  round-tripping and `piece_map`. They are parameters (`Rules`), and nothing is assumed
  about them.
- The squares of `piece_map` are dropped. The evaluator never reads them, and
  `ScoreOrderFree` shows that the iteration order does not matter either.
- Python floats are modelled as exact reals. Every value the evaluator adds is a
  multiple of 0.25 and small, so float rounding does not occur.
- `FillerEngine`, the `MinimalEngine` constructor and `notify` (`strategies.py:16-82`)
  are left out. They are plumbing for `EngineWrapper`, and `engine_wrapper` is not part
  of this model.
- `RandomMove` (`strategies.py:91-93`) and `engines/minmax.py` are left out. Both return
  a random legal move, and randomness is outside the model.
- `Alphabetical` and `FirstMove` (`strategies.py:96-108`) are left out. They sort by
  python-chess's SAN and UCI strings, which are not modelled.
- The `print` calls (`strategies.py:113`, `170`) are left out. The printed root score is
  returned as `Chosen.eval` instead.
- The `PlayResult` wrapper is left out. Its ponder move is always `None`.
- The `time_limit`, `ponder` and `draw_offered` parameters are left out. They have no
  effect.
- Exceptions raised inside the rules engine are not modelled.

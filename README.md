# Minimax search engine, modelled in Dafny

This project models the core of the Minimax engine: `MinimaxManager.cs`,
its plain and alpha-beta depth-limited searches, its successor list with
deduplication, and the driver that decides on a board and applies its move.
It also models the value semantics and in-place operations of `Board.cs`.

- `scores.dfy` (`Scores`): the heuristic's scores. A score is an integer or
  one of the two infinities that mean a forced loss or a forced win.
- `boards.dfy` (`Boards`): a board's value (`BoardValue`) and value equality
  (`EqualValues`, what `Equal` decides). Also `Game`, whose two fields are
  the game's `Heuristic` and `CalculateAllMoves`. The `Board` class keeps
  the grid in an `array<int>`, and its `Initialise`, `CopyBoard` and
  `Equal` work on it in place.
- `successors.dfy` (`Successors`): `GetPotentialMoveList` and its three
  nested loops, proved against `PotentialMoveList`. That function keeps
  the first occurrences, under `Equal`, of the candidates that pass the
  parent-identity test, with loci in ascending order.
- `search.dfy` (`Search`): `MinimaxCalc` is proved against the reference
  `Minimax`. `MinimaxCalcAB` is proved against `AlphaBeta`, a function that
  keeps the loop state (value, ideal index, alpha, beta, cutoff) step by
  step as the code does.
- `pruning.dfy` (`Pruning`): `AlphaBeta` compared with `Minimax`.
  - From any window with alpha < beta, the pruned value is exact inside the
    window and a bound from the correct side outside it ("fail-soft").
  - From the default window (-inf, +inf), both searches return the same
    value and the same ideal board.
- `engine.dfy` (`Engine`): the `MinimaxManager` object with its two board
  fields, `DoMinimax` and `ApplyNextMove`.

Three places where the code departs from textbook alpha-beta or from what
its names suggest; the model follows the code:

- The minimizer's update at `MinimaxManager.cs:78` is
  `if (value > beta) beta = value`. It raises beta, where textbook
  alpha-beta lowers it to `min(beta, value)`.
  - `Pruning.BetaNeverLowered` proves that beta only goes up.
  - `Pruning.DefaultBetaStaysInfinite` proves that from the default window
    beta stays +inf, so the maximizer's beta cutoff fires only on a forced
    win.
  - The results are still correct (`Pruning.PruningPreservesOutcome`);
    only fewer branches are pruned.
- The parent-identity flag `differentBoards` (`MinimaxManager.cs:145`) is
  set once per locus and never cleared. So once one candidate of a locus
  differs from the parent, every later candidate of that locus passes, even
  one whose grid equals the parent's. `Successors.Passing` states this.
- The plain search reads `potentialBoards[0]` (`MinimaxManager.cs:103`)
  without the empty-list check the pruning search makes. Its precondition
  `Search.Expandable` requires a successor at every board it expands.

## Model

| member | source | states |
|---|---|---|
| Boards.Board.constructor | Minimax/Board.cs:57-70 | a new board has an empty grid, zero ply and dimensions, and no producing move |
| Boards.Board.Initialise | Minimax/Board.cs:10-16 | sets width and height and gives the board a fresh all-zero grid of `width * height` tiles; ply and move are unchanged |
| Boards.Board.CopyBoard | Minimax/Board.cs:22-33 | takes the target's ply, dimensions and first `width * height` tiles into a fresh grid, leaves the producing move, and ends `Equal` to the target; copying a board onto itself zeroes its grid, because the grid is replaced before it is read |
| Boards.Board.Equal | Minimax/Board.cs:40-52 | true exactly when ply, width and height agree and the first `width * height` tiles agree (`EqualValues`) |
| Boards.EqualReflexive | Minimax/Board.cs:40-52 | every board whose grid fits is `Equal` to itself |
| Boards.EqualSymmetric | Minimax/Board.cs:40-52 | `Equal` gives the same answer in both orientations |
| Boards.EqualTransitive | Minimax/Board.cs:40-52 | `Equal` is transitive, so it is an equivalence on boards whose grids fit |
| Boards.CellsIsProduct | Minimax/MinimaxManager.cs:143 | the locus count the loops run to is `width * height` |
| Successors.FirstDiffering | Minimax/MinimaxManager.cs:145-153 | the index of the first candidate whose grid differs from the parent's in a parent tile; no earlier one differs |
| Successors.CompareGrids | Minimax/MinimaxManager.cs:148-153 | the tile loop reports a difference exactly when some tile below `width * height` differs |
| Successors.AlreadyListed | Minimax/MinimaxManager.cs:156-163 | the scan reports a listed board exactly when some listed board is `Equal` to the candidate |
| Successors.ConsiderCandidate | Minimax/MinimaxManager.cs:147-166 | one candidate's turn: the flag turns on when this grid differs, and the candidate is appended exactly when the flag is on and no `Equal` board is listed |
| Successors.FlagStep | Minimax/MinimaxManager.cs:145-153 | after candidate `m` the flag is on exactly when the first differing candidate is at or before `m` |
| Successors.WindowStep | Minimax/MinimaxManager.cs:155-166 | one candidate extends the deduplicated list as if appended to the candidates seen so far |
| Successors.LocusStep | Minimax/MinimaxManager.cs:147-167 | one turn of the candidate loop keeps the flag and list invariants |
| Successors.AddLocus | Minimax/MinimaxManager.cs:144-167 | one locus: the list becomes the first occurrences of the earlier candidates followed by this locus's passing candidates |
| Successors.CandidatesStep | Minimax/MinimaxManager.cs:143-144 | locus `i` adds its passing candidates after those of loci `0 .. i - 1` |
| Successors.GetPotentialMoveList | Minimax/MinimaxManager.cs:139-171 | returns exactly `PotentialMoveList`: the first `Equal`-occurrences of the passing candidates, loci ascending |
| Successors.AllLociVisited | Minimax/MinimaxManager.cs:143 | when the locus loop stops it has visited every locus, and none when `width * height <= 0` |
| Successors.FirstOccurrencesSnoc | Minimax/MinimaxManager.cs:155-165 | a new board is appended exactly when no listed board is `Equal` to it |
| Successors.FirstOccurrencesFrom | Minimax/MinimaxManager.cs:155-165 | every listed board is one of the candidates |
| Successors.FirstOccurrencesDistinct | Minimax/MinimaxManager.cs:155-165 | no two listed boards are `Equal`, in either orientation |
| Successors.FirstOccurrencesCover | Minimax/MinimaxManager.cs:155-165 | every candidate is `Equal` to some listed board |
| Successors.ContainsFirstOccurrences | Minimax/MinimaxManager.cs:155-165 | a board is `Equal` to a listed board exactly when it is `Equal` to some candidate |
| Successors.PotentialMovesDistinct | Minimax/MinimaxManager.cs:139-171 | no two boards of the successor list are `Equal` |
| Successors.PotentialMovesCover | Minimax/MinimaxManager.cs:139-171 | every passing candidate of every locus is `Equal` to a board of the successor list |
| Successors.PotentialMovesOrigin | Minimax/MinimaxManager.cs:139-171 | every board of the successor list is a passing candidate of some locus `0 .. width * height - 1` |
| Successors.CandidatePosition | Minimax/MinimaxManager.cs:143-167 | each passing candidate of locus `i < n` has a position among the candidates of loci `0 .. n - 1` |
| Successors.CandidateOrigin | Minimax/MinimaxManager.cs:143-167 | each candidate of loci `0 .. n - 1` is a passing board of one of those loci |
| Search.ChildValueAt | Minimax/MinimaxManager.cs:109-125 | entry `k` of the child values is the minimax value of child `k` |
| Search.ChildValuesAll | Minimax/MinimaxManager.cs:109-125 | every entry of the child values is the value of the child at that index |
| Search.TerminalOutcome | Minimax/MinimaxManager.cs:46-52 | with no depth left, a forced outcome, or no successor, the reference `Minimax` and `AlphaBeta` (what `MinimaxCalcAB` returns) give the heuristic and the board itself, whatever the window; the plain search excludes the no-successor case by `Expandable` |
| Search.MinimaxIsBestChild | Minimax/MinimaxManager.cs:105-125 | otherwise the value is at least (maximizer to move) or at most (minimizer) the minimax value of every successor |
| Search.IdealIsFirstBest | Minimax/MinimaxManager.cs:103-125 | otherwise the ideal board is the first successor whose value is the board's value |
| Search.MinimaxCalc | Minimax/MinimaxManager.cs:95-128 | the plain search returns the minimax value and ideal board of `Minimax` |
| Search.SearchChildren | Minimax/MinimaxManager.cs:103-125 | the child loop ends on the best child value (max or min) and the first child that has it |
| Search.ConsiderChild | Minimax/MinimaxManager.cs:110-124 | a child replaces value and ideal board exactly when its value is strictly better for the player to move |
| Search.ABScanStep | Minimax/MinimaxManager.cs:60-82 | before a cutoff, child `k` advances the loop state by one step, searched with the current alpha and beta |
| Search.CutPersists | Minimax/MinimaxManager.cs:69-79 | after a cutoff the remaining children change nothing |
| Search.MinimaxCalcAB | Minimax/MinimaxManager.cs:44-85 | the pruning search returns the value and ideal board of `AlphaBeta`, the step-by-step model of its loop |
| Search.ScanChildrenAB | Minimax/MinimaxManager.cs:54-82 | the loop with in-place alpha and beta ends in the state `ABScan` gives over all children |
| Search.ConsiderChildAB | Minimax/MinimaxManager.cs:61-81 | one child: strict improvement updates value and ideal board, the maximizer raises alpha, the minimizer raises beta past a larger value, and the cutoff tests are `value >= beta` and `value <= alpha` |
| Pruning.MaxStep | Minimax/MinimaxManager.cs:61-70 | one maximizer step keeps the maximizer's loop invariant |
| Pruning.MinStep | Minimax/MinimaxManager.cs:71-81 | one minimizer step keeps the minimizer's loop invariant |
| Pruning.MaxScan | Minimax/MinimaxManager.cs:60-82 | the maximizer's invariant holds after every prefix of the children |
| Pruning.MinScan | Minimax/MinimaxManager.cs:60-82 | the minimizer's invariant holds after every prefix of the children |
| Pruning.AlphaBetaBounded | Minimax/MinimaxManager.cs:44-85 | with alpha < beta the pruned value is the minimax value inside the window, an upper bound at or below alpha, and a lower bound at or above beta |
| Pruning.MaxOfBounded | Minimax/MinimaxManager.cs:60-70 | the maximizer's final loop state bounds the largest child value as fail-soft says |
| Pruning.MinOfBounded | Minimax/MinimaxManager.cs:71-81 | the minimizer's final loop state bounds the smallest child value as fail-soft says |
| Pruning.MaxAtDefault | Minimax/MinimaxManager.cs:60-70 | from the default window the maximizer's loop ends on the largest child value at its first index |
| Pruning.MinAtDefault | Minimax/MinimaxManager.cs:71-81 | from the default window the minimizer's loop ends on the smallest child value at its first index |
| Pruning.PruningPreservesOutcome | Minimax/MinimaxManager.cs:44-128 | from (-inf, +inf) the pruning search returns the same value and the same ideal board as the plain search |
| Pruning.BetaNeverLowered | Minimax/MinimaxManager.cs:78 | beta in the loop state never drops below its initial value; the maximizer leaves it unchanged, and a maximizer cutoff means the value reached the initial beta |
| Pruning.DefaultBetaStaysInfinite | Minimax/MinimaxManager.cs:68-79 | from beta = +inf, beta stays +inf and a maximizer cutoff happens only at value +inf |
| Engine.IdealFits | Minimax/MinimaxManager.cs:46-54 | the board a search decides on has a grid that fits, like the searched board |
| Engine.MinimaxManager.constructor | Minimax/MinimaxManager.cs:7-11 | both the current and the decided board start as the given board |
| Engine.MinimaxManager.ApplyNextMove | Minimax/MinimaxManager.cs:133-137 | with a producing move, applies it and makes the decided board current; without one, nothing changes and the result is `false` |
| Engine.MinimaxManager.DoMinimax | Minimax/MinimaxManager.cs:19-28 | the decided board is the minimax ideal board of the current board, whichever search is chosen, and its move is applied as `ApplyNextMove` says; a terminal current board is its own decided board |

## Left out

- Scores: the heuristic's `float` is an integer or an infinity. NaN, rounding and a finite heuristic that happens to be infinite are not modelled.
- Integer width: `width * height` and the tiles are unbounded integers. The model does not capture 32-bit overflow of `width * height`.
- `Heuristic`, `CalculateAllMoves`, `Move.CalculateMove` and `Move.ApplyMove` are abstract in this core. The first two are arbitrary total functions of the board's value (`Game`). `ApplyMove` is recorded as the sequence `applied` of moves the manager applied.
- Boards in the search and in the manager are values. The model does not capture the aliasing the code creates by sharing references (after `ApplyNextMove`, `currentBoard` and `decidedNextBoard` are one object), nor a later in-place change through one of them.
- Exceptions: an index out of range or a null move would throw in the code. The model states the caller's obligation instead: `Fits`, `Comparable`, and `Game.Valid` (every successor's grid fits and covers the parent's tiles).
- Boards.Board.Initialise: a negative `width * height` throws in the code; here it is excluded by a precondition.
- Boards.Board.CopyBoard: a negative `target.width * target.height` throws in the code (`new int[width * height]`); here it is excluded by a precondition.
- Search.MinimaxCalc: an empty successor list at any board it expands, the root included, throws in the code; here `Expandable` excludes it.
- Engine.MinimaxManager.ApplyNextMove: a decided board without a producing move throws a null dereference in the code; here it returns `false` and changes nothing.
- Engine.MinimaxManager.DoMinimax: states the outcome for the default window only, since that is the only window the code passes.
- Engine.MinimaxManager.DoMinimax: on a terminal current board (no depth left, a forced outcome, or no successor) the decided board is the current board itself. If that board was reached by an earlier search, its producing move is applied a second time. The model reproduces this (`applied` gets the move twice) and does not model any guard against it.
- The bodies of the search loops are separate methods (`ConsiderChild`, `ConsiderChildAB`, `ConsiderCandidate`, `AddLocus`). The recursive call made at the top of both branches is made once before the branch. The discarded `out Board temp` is not kept.
- `GetPotentialMoveList`'s loops run to `Cells(board)`, which `CellsIsProduct` proves equals `width * height`.
- Default parameter values (`useAlphaBeta = true`, and `alpha`/`beta` at -inf/+inf) are passed explicitly.

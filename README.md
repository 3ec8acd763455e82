# k-in-row game engine: rules, adversarial search and Monte Carlo tree search

This project is a Dafny model of the search engine of a generalized
tic-tac-toe player. The game is played on a `size` by `size` board, and a
run of `k` cells wins. The model covers these parts, and proves properties
of each:

- **The rules** of the `TicTacToe` game: `k_in_row`, `compute_utility`,
  `result`, `utility`, `terminal_test`, `actions` and `switchPlayer`.
- **The heuristic evaluator** `eval1`.
- **The state builder** `gen_state`, and the initial state that
  `__init__`/`reset` build.
- **The four searches:** `minmax`, `alpha_beta`, `minmax_cutoff` and
  `alpha_beta_cutoff`.
- **The players** `random_player`, `alpha_beta_player` and
  `minmax_player`. The last two are iterative-deepening drivers that write
  the game's cutoff depth `d`.
- **Monte Carlo tree search** (`MCTS`): a tree of nodes with parent
  back-pointers, visit counts and win scores.

Modules, one per file:

| file | module | contents |
|---|---|---|
| `ext_int.dfy` | `ExtInt` | integers extended with `-inf`/`+inf`, which the searches use as their initial running values |
| `game_state.dfy` | `GameStates` | `Player`, positions, the `GameState` snapshot, the grid invariant `Partition`, `gen_state` |
| `rules.dfy` | `Rules` | `k_in_row`, with its two `while` loops as a method proved against a run-length function; `compute_utility`; `result`; `utility`; `terminal_test` |
| `heuristic.dfy` | `Heuristic` | `eval1`: a function stating its branches, and the scoring loop as a method |
| `exact_search.dfy` | `ExactSearch` | `minmax`, `alpha_beta`, and the proof that both choose the same move |
| `cutoff_search.dfy` | `CutoffSearch` | `minmax_cutoff` and `alpha_beta_cutoff` |
| `players.dfy` | `Players` | the class `TicTacToe`, which holds `size`, `k`, `maxDepth`, `timer` and the mutable `d` and `initial`; the player drivers |
| `node_counts.dfy` | `NodeCounts` | the number of states `minmax` and `alpha_beta` visit, and the proof that `alpha_beta` never visits more |
| `monte_carlo.dfy` | `MonteCarlo` | the class `MCTS` over an arena `seq<Node>`: node `i` is `nodes[i]`, the root is node 0, and parents and children are arena indices |

**Modelling choices**

- **Value types and mutable objects.** The game state is an immutable
  value, as it is in the source. The recursive `max_value`/`min_value`
  closures become mutually recursive functions. Each `for` loop inside them
  becomes a function over the index of the next action. The root loops of
  `alpha_beta`/`alpha_beta_cutoff` and the loops of `k_in_row`, `eval1` and
  `gen_state` are methods with loop invariants, proved against those
  functions. So are the drivers. In `MCTS`, `selectNode`, `expandNode`,
  `backPropagation` and the loop of `monteCarloPlayer` (`RunRounds`) are
  methods with loop invariants; `selectNode` only reads the tree, the
  other three change it.
  `simulateRandomPlay` and one search round (`SelectAndExpand`,
  `Iterate`) are methods without a loop of their own; the rollout loop of
  `simulateRandomPlay` is the method `Rollout`. The MCTS queries are
  functions: `uctValue`, the list of UCT values, `findBestNodeWithUCT`,
  the UCT walk `SelectLeaf`, `getChildWithMaxScore`, the visit counts and
  `isTerminalState`.
- **Nondeterminism.** The wall clock only decides how many loop rounds
  start before the deadline, so the drivers and `monteCarloPlayer` take
  that number as `rounds`. `random.choice` becomes a nondeterministic
  choice (`:|`) of a legal element.

**Main results**

- `alpha_beta` returns exactly `minmax`'s move, and never visits more
  states than `minmax`.
- Windowed values are exact inside `(alpha, beta)` and bounded outside it.
- With a negative depth, `alpha_beta_cutoff` is `alpha_beta`.
- `minmax_cutoff` is a two-ply search whatever `d` is.
- `result` keeps the occupied and empty squares a partition of the grid.
- `expandNode` and `backPropagation` keep the MCTS tree well formed.
- `expandNode` and `backPropagation` change exactly the nodes the source
  changes.

**Where the code differs from its own comments**

The model follows the code in each case:

- **`minmax_cutoff` scoring.** Its docstring says it uses the evaluation
  function at the cutoff (games.py:57-58). The code's default evaluator is
  `game.utility`, not `eval1` (games.py:80). The search starts at depth
  `game.d` and cuts off at `depth > game.d` (games.py:79, 83), so it always
  looks two plies deep, whatever `d` is (`MinCutIsTwoPly`).
- **`eval1` order.** The comment before the shortcut speaks of the number
  of pieces on the board and half the board size (games.py:405). The code
  compares the number of empty squares, `len(state.moves)`, with `k / 2`
  (games.py:406). That test comes before the plus or minus infinity returns
  for a won state (games.py:426-429), so a won state with at most `k / 2`
  empty squares scores 0 (`Heuristic.Evaluation`).
- **Rollout result.** The comment at monteCarlo.py:110 announces a random
  rollout to a terminal state. The test after the rollout asks whether the
  player symbol `tempState.to_move` is a key of the board
  (monteCarlo.py:117-118). The keys are positions, so the test always
  holds, the rollout reports `'N'`, and the lines after the test are never
  reached (`MonteCarlo.MCTS.SimulateRandomPlay`).
- **`alpha_beta` and `minmax`.** `alpha_beta` returns exactly the move that
  `minmax` returns, ties included (`ABRootIsMinmax`).

## Model

| member | source | states |
|---|---|---|
| ExtInt.Max | TicTacToe/games.py:41 | `max` on extended integers is an upper bound of both arguments and is one of them |
| ExtInt.Min | TicTacToe/games.py:50 | `min` is a lower bound of both arguments and is one of them |
| GameStates.Switch | TicTacToe/games.py:341-344 | `switchPlayer` always returns the other player |
| GameStates.GridList | TicTacToe/games.py:328-329 | the comprehension lists grid positions only, in strictly increasing row-major order |
| GameStates.RowList | TicTacToe/games.py:328-329 | one row of the comprehension is `(x, 1) .. (x, size)` in order |
| GameStates.GridListPartition | TicTacToe/games.py:328-330 | the initial move list holds every grid square, each exactly once, and nothing else |
| GameStates.ListOf | TicTacToe/games.py:19-20 | `list(set)` has exactly the set's elements, without duplicates |
| GameStates.Place | TicTacToe/games.py:21-25 | a placement loop writes the symbol on every listed position and keeps every other entry |
| GameStates.GenState | TicTacToe/games.py:11-26 | `gen_state`: utility 0; the board holds exactly the X and O positions, with O winning a clash; the moves are exactly the other grid squares, each once; with in-grid positions the result satisfies `Partition` |
| Rules.RunFromSpan | TicTacToe/games.py:450-456 | the run length is the number of consecutive `player` cells from `p` along `d`: all those cells are owned and the next one is not |
| Rules.RowCount | TicTacToe/games.py:445-457 | the count is at least 1 when `pos` is `player`'s, and exactly -1 when it is not |
| Rules.KInRow | TicTacToe/games.py:445-458 | `k_in_row` holds iff the count reaches `k`; it is false for every `k >= 0` when `pos` is not `player`'s |
| Rules.Walk | TicTacToe/games.py:449-456 | one `while` loop of `k_in_row` terminates and counts exactly the run from `pos` along its direction |
| Rules.KInRowWalk | TicTacToe/games.py:445-458 | the two-loop `k_in_row` computes exactly `KInRow` |
| Rules.ComputeUtility | TicTacToe/games.py:376-384 | the result is in `{k, 0, -k}`; for `k > 0` it is positive iff X completed a line through `move`, negative iff O did, and 0 iff no line |
| Rules.NoLineWithoutMove | TicTacToe/games.py:376-384 | a square `player` does not hold never yields a win for `player` |
| Rules.Actions | TicTacToe/games.py:337-340 | definition: `actions` is the state's list of remaining moves, in its order |
| Rules.IndexOf | TicTacToe/games.py:353 | the first occurrence of a listed square |
| Rules.RemoveFirst | TicTacToe/games.py:352-353 | `list.remove` leaves an unlisted list alone and otherwise shortens it by one |
| Rules.RemoveFirstSplit | TicTacToe/games.py:352-353 | `list.remove` drops exactly the first occurrence and keeps the order of the rest |
| Rules.RemoveFirstMembers | TicTacToe/games.py:352-353 | on a duplicate-free list the removal leaves exactly the other squares, still duplicate-free |
| Rules.Result | TicTacToe/games.py:346-359 | definition of `result`; its contract is stated by `Rules.ResultMove`, `Rules.ResultKeepsPartition` and `Rules.ResultRecordsMove` |
| Rules.ResultMove | TicTacToe/games.py:346-359 | an illegal move returns the state unchanged; a legal one writes the mover's symbol, removes the square from `moves`, switches the mover, records the move and recomputes the utility from the new board |
| Rules.ResultKeepsPartition | TicTacToe/games.py:346-359 | `result` keeps the occupied squares and the empty list a partition of the grid, without duplicates |
| Rules.TerminalTest | TicTacToe/games.py:365-367 | definition: a state is terminal iff its utility is nonzero or no move remains; `MonteCarlo.IsTerminalState` is proved to agree with it |
| Rules.ResultRecordsMove | TicTacToe/games.py:349-359 | after a legal move the move is recorded and occupied by the previous mover, who is the opponent of the new mover |
| Rules.Utility | TicTacToe/games.py:361-363 | `utility` is the cached value for X and its negation for O |
| Rules.UtilityZeroSum | TicTacToe/games.py:361-363 | the two players' utilities sum to zero |
| Heuristic.PossibleKComplete | TicTacToe/games.py:397-403 | `possiblekComplete` is between 0 and 4, and 0 iff no direction has a line of `k` |
| Heuristic.Weight | TicTacToe/games.py:421 | a single match counts once, a double match five times its count |
| Heuristic.PotentialScore | TicTacToe/games.py:413-424 | `potentialScore` is between 0 and 40 |
| Heuristic.MoveScore | TicTacToe/games.py:432-439 | one square adds between -40 and 40 |
| Heuristic.ScoreOfBound | TicTacToe/games.py:431-440 | the accumulated score is at most 40 per listed square in absolute value |
| Heuristic.Evaluation | TicTacToe/games.py:387-440 | `eval1`: 0 whenever `2 * len(moves) <= k`, checked first; then `+inf` iff the utility is `k` with X to move or `-k` with O to move, and `-inf` in the mirrored cases; otherwise a finite score bounded by 40 per empty square |
| Heuristic.Eval1 | TicTacToe/games.py:387-440 | the scoring loop computes exactly `Evaluation` |
| ExactSearch.Child | TicTacToe/games.py:40-41 | every action's result has one empty square fewer, so the searches terminate |
| ExactSearch.MaxValue | TicTacToe/games.py:36-43 | definition of `max_value`: the utility at a terminal state, else the loop over the actions from `-inf`; it is finite (`ExactSearch.MaxValueFin`) |
| ExactSearch.MaxLoop | TicTacToe/games.py:40-42 | definition of `max_value`'s loop: the running maximum of `min_value` over the remaining actions; bounded below by its start (`ExactSearch.MaxLoopGe`) |
| ExactSearch.MinValue | TicTacToe/games.py:45-52 | definition of `min_value`, the mirror of `max_value`; finite by `ExactSearch.MinValueFin` |
| ExactSearch.MinLoop | TicTacToe/games.py:49-51 | definition of `min_value`'s loop: the running minimum; bounded above by its start (`ExactSearch.MinLoopLe`) |
| ExactSearch.MaxLoopGe | TicTacToe/games.py:39-42 | `max_value`'s loop result is at least its running value |
| ExactSearch.MinLoopLe | TicTacToe/games.py:48-51 | `min_value`'s loop result is at most its running value |
| ExactSearch.MaxValueFin | TicTacToe/games.py:36-42 | minimax values are finite: a state without actions is terminal |
| ExactSearch.MinValueFin | TicTacToe/games.py:45-51 | the same for `min_value` |
| ExactSearch.MaxLoopFin | TicTacToe/games.py:39-41 | a loop that sees at least one child value ends finite |
| ExactSearch.MinLoopFin | TicTacToe/games.py:48-50 | the same for `min_value`'s loop |
| ExactSearch.FirstArgMax | TicTacToe/games.py:54 | `max(..., key=...)` picks an index whose value dominates all values and strictly beats every earlier one |
| ExactSearch.ChildValues | TicTacToe/games.py:54 | the key of each action is the finite `min_value` of its result |
| ExactSearch.Minmax | TicTacToe/games.py:31-54 | `minmax` is `None` iff there are no actions; otherwise it is an action of maximal value, the first such |
| ExactSearch.MaxAB | TicTacToe/games.py:92-101 | definition of windowed `max_value`; `ExactSearch.MaxABBounded` proves it exact inside `(alpha, beta)` and bounded outside |
| ExactSearch.MaxABLoop | TicTacToe/games.py:96-101 | definition of its loop, returning as soon as `v >= beta` and raising `alpha` otherwise; its invariant is `ExactSearch.MaxABLoopBounded` |
| ExactSearch.MinAB | TicTacToe/games.py:103-112 | definition of windowed `min_value`; bounded by `ExactSearch.MinABBounded` |
| ExactSearch.MinABLoop | TicTacToe/games.py:107-112 | definition of its loop, returning as soon as `v <= alpha` and lowering `beta` otherwise; its invariant is `ExactSearch.MinABLoopBounded` |
| ExactSearch.MaxWindowStep | TicTacToe/games.py:96-100 | one iteration of `max_value`'s windowed loop either cuts off soundly or keeps the window invariant |
| ExactSearch.MinWindowStep | TicTacToe/games.py:107-111 | the mirror for `min_value` |
| ExactSearch.FailHigh | TicTacToe/games.py:98-99 | returning at `v >= beta` is sound: the exact value is at least `beta` |
| ExactSearch.FailLow | TicTacToe/games.py:109-110 | returning at `v <= alpha` is sound: the exact value is at most `alpha` |
| ExactSearch.MaxLoopsUnfold | TicTacToe/games.py:96-100 | one iteration of the windowed and of the exact `max_value` loop, side by side |
| ExactSearch.MinLoopsUnfold | TicTacToe/games.py:107-111 | the mirror for `min_value` |
| ExactSearch.MaxAssoc | TicTacToe/games.py:100 | `max(max(a0, v), v') == max(a0, v')` when the running value only grows |
| ExactSearch.MinAssoc | TicTacToe/games.py:111 | the mirror for `min` |
| ExactSearch.MaxWindowEnd | TicTacToe/games.py:101 | when the loop ends, the window invariant gives the bound on the result |
| ExactSearch.MinWindowEnd | TicTacToe/games.py:112 | the mirror for `min_value` |
| ExactSearch.MaxStepBounded | TicTacToe/games.py:97-100 | an iteration that cuts off, or continues with a bounded rest, gives a bounded result |
| ExactSearch.MinStepBounded | TicTacToe/games.py:108-111 | the mirror for `min_value` |
| ExactSearch.MaxABBounded | TicTacToe/games.py:92-101 | windowed `max_value` equals the minimax value inside `(alpha, beta)`, is at most `alpha` when that value fails low, and at least `beta` when it fails high |
| ExactSearch.MinABBounded | TicTacToe/games.py:103-112 | the same for windowed `min_value` |
| ExactSearch.MaxABLoopBounded | TicTacToe/games.py:95-101 | the invariant of `max_value`'s pruning loop against the exact running maximum |
| ExactSearch.MaxABLoopBoundedStep | TicTacToe/games.py:96-100 | one iteration of that loop keeps the invariant |
| ExactSearch.MinABLoopBounded | TicTacToe/games.py:106-112 | the invariant of `min_value`'s pruning loop |
| ExactSearch.MinABLoopBoundedStep | TicTacToe/games.py:107-111 | one iteration of that loop keeps the invariant |
| ExactSearch.PrefixMaxStep | TicTacToe/games.py:121-123 | the running maximum and its first index move to `i` exactly when `vs[i]` is strictly larger |
| ExactSearch.RootValueStep | TicTacToe/games.py:120-121 | with window `(alpha, +inf)` a child's windowed value beats `alpha` iff its minimax value does, and is then exact |
| ExactSearch.ABRootIsScan | TicTacToe/games.py:119-125 | the root loop takes the same actions as a scan over the exact action values |
| ExactSearch.ScanIsFirstArgMax | TicTacToe/games.py:119-125 | taking each action whose value strictly exceeds the running maximum ends with the first maximal action |
| ExactSearch.ABRoot | TicTacToe/games.py:115-125 | definition of the root loop of `alpha_beta`: an action is taken only when its value strictly exceeds the running `alpha`; `ExactSearch.ABRootIsMinmax` proves it makes `minmax`'s choice |
| ExactSearch.ABRootIsMinmax | TicTacToe/games.py:115-125 | the root loop of `alpha_beta` returns exactly `minmax`'s choice |
| ExactSearch.AlphaBeta | TicTacToe/games.py:86-125 | `alpha_beta` returns exactly `minmax`'s move |
| NodeCounts.Nodes | TicTacToe/games.py:36-52 | the number of `max_value`/`min_value` calls from a state: at least 1, and exactly 1 at a terminal state |
| NodeCounts.NodesLoop | TicTacToe/games.py:40-42 | the calls of the loop over the actions: at least one per remaining action |
| NodeCounts.MinmaxNodes | TicTacToe/games.py:54 | `minmax`'s root makes at least one call per action |
| NodeCounts.MaxABNodes | TicTacToe/games.py:92-101 | definition: the calls made by windowed `max_value`, following its cutoffs |
| NodeCounts.MaxABLoopNodes | TicTacToe/games.py:96-101 | definition: the calls of its loop, which stops at `v >= beta` |
| NodeCounts.MinABNodes | TicTacToe/games.py:103-112 | definition: the calls made by windowed `min_value` |
| NodeCounts.MinABLoopNodes | TicTacToe/games.py:107-112 | definition: the calls of its loop, which stops at `v <= alpha` |
| NodeCounts.ABRootNodes | TicTacToe/games.py:115-125 | definition: the calls of `alpha_beta`'s root loop, one `min_value` per action in the running window |
| NodeCounts.MaxABNodesLe | TicTacToe/games.py:92-101 | windowed `max_value` visits no more states than `minmax`'s, whatever the window |
| NodeCounts.MaxABLoopNodesLe | TicTacToe/games.py:96-101 | its loop visits no more states than the full loop from the same action |
| NodeCounts.MinABNodesLe | TicTacToe/games.py:103-112 | windowed `min_value` visits no more states than `minmax`'s |
| NodeCounts.MinABLoopNodesLe | TicTacToe/games.py:107-112 | its loop visits no more states than the full loop |
| NodeCounts.ABRootNodesLe | TicTacToe/games.py:115-125 | the root loop from any action and `alpha` visits no more states than `minmax`'s from that action |
| NodeCounts.AlphaBetaVisitsNoMore | TicTacToe/games.py:86-125 | from the same state, `alpha_beta` visits no more states than `minmax` |
| CutoffSearch.MaxCut | TicTacToe/games.py:63-69 | definition of `minmax_cutoff`'s `max_value`: the utility once `d > game.d` or the state is terminal, else its loop |
| CutoffSearch.MaxCutLoop | TicTacToe/games.py:66-68 | definition of its loop over the actions, at depth `d + 1` |
| CutoffSearch.MinCut | TicTacToe/games.py:71-77 | definition of `minmax_cutoff`'s `min_value`; `CutoffSearch.MinCutIsTwoPly` proves it a two-ply value when started at `game.d` |
| CutoffSearch.MinCutLoop | TicTacToe/games.py:74-76 | definition of its loop; `CutoffSearch.MinCutLoopTwoPly` proves each child scored by its utility |
| CutoffSearch.MinCutLoopTwoPly | TicTacToe/games.py:71-77 | started at depth `game.d`, `min_value`'s loop scores each child by its utility |
| CutoffSearch.MinCutIsTwoPly | TicTacToe/games.py:63-80 | `min_value(result, game.d)` is the two-ply value, whatever `d` is |
| CutoffSearch.CutChildValues | TicTacToe/games.py:83 | each action's key in `minmax_cutoff` is its two-ply value |
| CutoffSearch.MinmaxCutoff | TicTacToe/games.py:56-83 | `minmax_cutoff` is `None` iff there are no actions, else the first action of maximal two-ply value |
| CutoffSearch.MinmaxCutoffIgnoresDepth | TicTacToe/games.py:79-83 | the cutoff depth never changes `minmax_cutoff`'s choice |
| CutoffSearch.MaxABC | TicTacToe/games.py:133-144 | definition of `alpha_beta_cutoff`'s `max_value`: the utility at a terminal state, `eval1` when the depth counts down to 0, else its loop; `CutoffSearch.MaxABCExact` and `CutoffSearch.MaxABCFin` state its properties |
| CutoffSearch.MaxABCLoop | TicTacToe/games.py:138-144 | definition of its pruning loop at depth `depth - 1` |
| CutoffSearch.MinABC | TicTacToe/games.py:146-157 | definition of `alpha_beta_cutoff`'s `min_value`; `CutoffSearch.MinABCExact` and `CutoffSearch.MinABCFin` state its properties |
| CutoffSearch.MinABCLoop | TicTacToe/games.py:151-157 | definition of its pruning loop |
| CutoffSearch.MaxABCExact | TicTacToe/games.py:133-144 | with a negative depth the cutoff `max_value` equals alpha-beta's: the terminal test comes first and the countdown never reaches 0 |
| CutoffSearch.MaxABCLoopExact | TicTacToe/games.py:139-144 | the same for its loop |
| CutoffSearch.MaxABCLoopStep | TicTacToe/games.py:139-143 | one iteration of the cutoff and of the exact loop agree |
| CutoffSearch.MinABCExact | TicTacToe/games.py:146-157 | the same for `min_value` |
| CutoffSearch.MinABCLoopExact | TicTacToe/games.py:152-157 | the same for its loop |
| CutoffSearch.MinABCLoopStep | TicTacToe/games.py:152-156 | one iteration of both loops agrees |
| CutoffSearch.MaxABCFin | TicTacToe/games.py:133-144 | for `k != 0` cutoff values are finite: `eval1` is called only on non-terminal states, whose utility is 0 |
| CutoffSearch.MaxABCLoopFin | TicTacToe/games.py:139-144 | the same for its loop |
| CutoffSearch.MinABCFin | TicTacToe/games.py:146-157 | the same for `min_value` |
| CutoffSearch.MinABCLoopFin | TicTacToe/games.py:152-157 | the same for its loop |
| CutoffSearch.ABCutRootExact | TicTacToe/games.py:161-171 | with a negative `game.d` the cutoff root loop is the exact one |
| CutoffSearch.ABCutRoot | TicTacToe/games.py:161-171 | definition of the root loop of `alpha_beta_cutoff`; `CutoffSearch.ABCutRootExact` proves it the exact root loop when `game.d` is negative |
| CutoffSearch.AlphaBetaCutoff | TicTacToe/games.py:127-171 | `alpha_beta_cutoff` returns a legal action; it returns one whenever there is one (for `k != 0`); with a negative `d` it returns `minmax`'s move |
| Players.RandomPlayer | TicTacToe/games.py:195-197 | `random_player` returns `None` iff there are no actions, else a legal action |
| Players.InitialState | TicTacToe/games.py:328-330 | definition of the state `__init__` and `reset` build: X to move, no last move, utility 0, an empty board and every grid square listed; `Players.InitialPartition` proves the partition |
| Players.InitialPartition | TicTacToe/games.py:328-330 | the initial state partitions the grid into no occupied and all empty squares |
| Players.Searches | TicTacToe/games.py:217-225 | the number of cutoff searches: at most one per round, all with `d < maxDepth`, and fewer rounds only when `d` reached `maxDepth` |
| Players.TicTacToe.constructor | TicTacToe/games.py:319-330 | `__init__`: `k <= 0` means `k = size`; `d = -1`; `maxDepth = size * size`; the initial state is an empty board with X to move |
| Players.TicTacToe.Reset | TicTacToe/games.py:332-335 | `reset` restores the initial state and leaves `d` alone |
| Players.TicTacToe.AlphaBetaPlayer | TicTacToe/games.py:200-229 | a negative timer gives `d = -1` and `alpha_beta`'s move; early in the game, a random legal move; otherwise the move of the last of the cutoff searches at depths `d+1, d+2, ...` below `maxDepth`, and `d = 0`; that move is legal, and it is present when `k != 0`, the state has moves and at least one search ran |
| Players.TicTacToe.MinmaxPlayer | TicTacToe/games.py:232-259 | a negative timer gives `d = -1` and `minmax`'s move; early in the game, a random legal move; otherwise `minmax_cutoff`'s move (the same for every depth) or `None` without rounds, and `d = 0` |
| MonteCarlo.NewNode | TicTacToe/monteCarlo.py:19-24 | a new node has the given state and parent, no children, and zero counters |
| MonteCarlo.ValidTreeHasLastMove | TicTacToe/monteCarlo.py:93-95 | every non-root node of a well-formed tree records an occupied last move |
| MonteCarlo.OnPathBelow | TicTacToe/monteCarlo.py:130-137 | nodes on a parent chain come no later than its start |
| MonteCarlo.OnPathParent | TicTacToe/monteCarlo.py:137 | a chain through a node goes on to its parent |
| MonteCarlo.RootOnPath | TicTacToe/monteCarlo.py:130-137 | every parent chain reaches the root |
| MonteCarlo.SameShapeValid | TicTacToe/monteCarlo.py:104-107 | changing only counters keeps the tree well formed |
| MonteCarlo.Range | TicTacToe/monteCarlo.py:96 | the arena indices of the appended children |
| MonteCarlo.AddChild | TicTacToe/monteCarlo.py:95-96 | one append adds a fresh child of `nd` at the end of the arena and of `nd`'s children, and changes no other node |
| MonteCarlo.AddChildLinks | TicTacToe/monteCarlo.py:95-96 | an append keeps every child pointing back at its parent |
| MonteCarlo.ChildStates | TicTacToe/monteCarlo.py:93-94 | the child states are `result` on each action, in action order |
| MonteCarlo.ChildStatesAreResults | TicTacToe/monteCarlo.py:93-94 | each child state is the result of a legal move, recorded in its `move` |
| MonteCarlo.ExpandWith | TicTacToe/monteCarlo.py:93-96 | `n` appends add `n` nodes and keep the expanded node's state |
| MonteCarlo.ExpandParent | TicTacToe/monteCarlo.py:96 | the expanded node gains exactly the new nodes as children, in order |
| MonteCarlo.ExpandOthers | TicTacToe/monteCarlo.py:91-96 | the expansion changes no other existing node |
| MonteCarlo.ExpandNew | TicTacToe/monteCarlo.py:94-95 | the `j`-th new node holds the `j`-th child state, has `nd` as parent, and fresh counters |
| MonteCarlo.ExpandGrows | TicTacToe/monteCarlo.py:91-96 | existing nodes keep state, parent and visit count; the expanded node gains one child per action |
| MonteCarlo.ExpandRooted | TicTacToe/monteCarlo.py:95 | the root stays parentless, and every new node's parent comes earlier |
| MonteCarlo.ExpandLinks | TicTacToe/monteCarlo.py:95-96 | expansion keeps every child index pointing back at its parent |
| MonteCarlo.ExpandNodeAt | TicTacToe/monteCarlo.py:94-96 | the state and parent of every node after expansion |
| MonteCarlo.ExpandResults | TicTacToe/monteCarlo.py:94-95 | expansion keeps every node the result of a legal move from its parent |
| MonteCarlo.ExpandChildrenValid | TicTacToe/monteCarlo.py:91-96 | expanding with the action results keeps the tree well formed |
| MonteCarlo.BackUpStep | TicTacToe/monteCarlo.py:130-137 | one iteration of `backPropagation` bumps the current node and moves to its earlier parent, keeping the loop invariant |
| MonteCarlo.BackedUpAll | TicTacToe/monteCarlo.py:130-137 | at loop exit exactly the chain from `nd` is bumped, and the tree is still well formed |
| MonteCarlo.DoneStep | TicTacToe/monteCarlo.py:137 | moving to the parent adds exactly the current node to the bumped set |
| MonteCarlo.ExpandStage | TicTacToe/monteCarlo.py:53-54 | the arena after the expansion stage: the selected node expanded unless its state is terminal; it never shrinks |
| MonteCarlo.SimulateStage | TicTacToe/monteCarlo.py:98-108 | definition of the arena after `simulateRandomPlay`: the early-win score written into the parent, if the last move decided the game |
| MonteCarlo.SimulateWinner | TicTacToe/monteCarlo.py:98-121 | definition of what `simulateRandomPlay` reports: the node's `to_move` after an early win, `'N'` otherwise |
| MonteCarlo.Picked | TicTacToe/monteCarlo.py:58 | definition: the node simulated is a child of the selected node, or that node when it has none, and it records its last move |
| MonteCarlo.BackedUp | TicTacToe/monteCarlo.py:125-137 | definition: every node on the parent chain from the simulated node is bumped for the winner and every other node is unchanged |
| MonteCarlo.RoundKeeps | TicTacToe/monteCarlo.py:45-63 | a round built from selection, expansion, the early-win test and back-propagation keeps every node's state and the root's children, and adds exactly one visit to the root |
| MonteCarlo.Bump | TicTacToe/monteCarlo.py:131-136 | a node's visit count grows by 1; its score is unchanged for `'N'`, plus `sys.maxsize` when the winner is to move there, and minus it otherwise |
| MonteCarlo.EarlyWinScore | TicTacToe/monteCarlo.py:100-108 | the early-win test writes `sys.maxsize` or `-sys.maxsize`, and only when the last move decided the game |
| MonteCarlo.ChildEarlyWin | TicTacToe/monteCarlo.py:100-108 | for a node made by `expandNode`, only the `-sys.maxsize` case can apply, and it applies iff the last move won |
| MonteCarlo.IsTerminalState | TicTacToe/monteCarlo.py:36-37 | `isTerminalState` agrees with `terminal_test` on every state with that utility and those moves |
| MonteCarlo.Rollout | TicTacToe/monteCarlo.py:111-115 | the random rollout terminates in a terminal state |
| MonteCarlo.FirstArgMax | TicTacToe/monteCarlo.py:84 | `np.argmax` and `max(key=...)` pick the first maximum |
| MonteCarlo.MCTS.constructor | TicTacToe/monteCarlo.py:30-34 | a new search holds a single-node tree with the given state |
| MonteCarlo.MCTS.UctValue | TicTacToe/monteCarlo.py:86-89 | an unvisited child scores 0 with a zero exploration factor and `sys.maxsize` otherwise; a visited one gets the UCT formula |
| MonteCarlo.MCTS.UctValues | TicTacToe/monteCarlo.py:82 | the UCT list has one value per child, in order |
| MonteCarlo.MCTS.FindBestNodeWithUct | TicTacToe/monteCarlo.py:76-84 | `findBestNodeWithUCT` returns a child of `nd` at the first maximal UCT value |
| MonteCarlo.MCTS.UnvisitedFirst | TicTacToe/monteCarlo.py:82-88 | with a nonzero exploration factor, while a child is unvisited the chosen one scores at least `sys.maxsize` |
| MonteCarlo.MCTS.SelectLeaf | TicTacToe/monteCarlo.py:70-84 | the node that the UCT walk from `nd` in an arena stops at is childless, and `nd` lies on its parent chain |
| MonteCarlo.MCTS.SelectNode | TicTacToe/monteCarlo.py:70-74 | `selectNode` returns exactly the node the UCT walk stops at (`SelectLeaf`): a childless node whose parent chain passes through its argument, and the argument itself when it has no children |
| MonteCarlo.MCTS.ExpandNode | TicTacToe/monteCarlo.py:91-96 | `expandNode` appends one child per action, in action order, holding `result` of that action with `nd` as parent; nothing else changes and the tree stays well formed |
| MonteCarlo.MCTS.SimulateRandomPlay | TicTacToe/monteCarlo.py:98-121 | a node with a parent whose last move decided the game writes the early-win score into the parent and reports its own `to_move`; otherwise nothing changes and the result is `'N'`; the new arena and the result are `SimulateStage` and `SimulateWinner` |
| MonteCarlo.MCTS.BackPropagation | TicTacToe/monteCarlo.py:125-137 | exactly the nodes on the chain from `nd` to the root are bumped for the winner; every other node is unchanged; the tree stays well formed |
| MonteCarlo.MCTS.VisitCounts | TicTacToe/monteCarlo.py:27 | the visit counts of the children, in order |
| MonteCarlo.MCTS.GetChildWithMaxScore | TicTacToe/monteCarlo.py:26-28 | the first child with the most visits, which no child exceeds; `None` iff there are no children |
| MonteCarlo.MCTS.SelectAndExpand | TicTacToe/monteCarlo.py:51-58 | the selected node is the UCT leaf from the root (`SelectLeaf(0)`); the new arena is that node expanded with one child per action, or unchanged when its state is terminal (`ExpandStage`); the node returned for simulation is a child of the selected node, or that node when it has none; a non-terminal root has children afterwards |
| MonteCarlo.MCTS.Iterate | TicTacToe/monteCarlo.py:45-63 | one round is exactly selection, expansion (`ExpandStage`), the early-win test (`SimulateStage`, `SimulateWinner`) and back-propagation of that winner along the chain from the picked node, so the old and new arenas satisfy `RoundStep`; it keeps every node's state, never removes a child of the root, adds exactly one visit to the root, and leaves a non-terminal root with children |
| MonteCarlo.MCTS.RoundStep | TicTacToe/monteCarlo.py:45-63 | definition: one arena is the result of one search round from another, as `Iterate` performs it |
| MonteCarlo.MCTS.Rounds | TicTacToe/monteCarlo.py:44-63 | definition: each arena of a trace is one round after the one before it |
| MonteCarlo.MCTS.RoundsExtend | TicTacToe/monteCarlo.py:44-63 | a trace of rounds followed by one more round is again a trace of rounds |
| MonteCarlo.MCTS.RunRounds | TicTacToe/monteCarlo.py:45-63 | the loop of `monteCarloPlayer`: the final arena comes from the initial one by exactly `rounds` rounds (a ghost trace related by `Rounds`); the tree stays well formed, the root keeps its state and gains `rounds` visits, and a non-terminal root has children once a round has run |
| MonteCarlo.MCTS.MonteCarloPlayer | TicTacToe/monteCarlo.py:39-67 | the final tree comes from the initial one by exactly `rounds` search rounds (a ghost trace of arenas related by `RoundStep`); the root has `rounds` more visits; the move returned is the move of the most-visited child (`getChildWithMaxScore`), `None` when the root has no children; it is legal, and a non-terminal root yields a move once at least one round has run |

## Left out

- Input and output: `display`, `query_player`, `Game.play_game`, the `print` calls, and the Tkinter front end `TicTacToe/tic-tac-toe.py`. None of them takes part in the search.
- The abstract `Game` base class. The model has only its `TicTacToe` subclass.
- Wall-clock time. The `time.perf_counter()` loops of `alpha_beta_player`, `minmax_player` and `monteCarloPlayer` take the number of rounds started before the deadline as the parameter `rounds`.
- Randomness. `random_player`, the random child in `monteCarloPlayer` and the moves of the rollout are nondeterministic legal choices, not distributions.
- Floating point. The visited-child branch of `uctValue` (`math.sqrt`, `math.log`, division) is the uninterpreted function `uct`. `exploreFactor` (`math.sqrt(2)`) is a constructor parameter. Plus and minus infinity are the extended integers of `ExtInt`.
- `copy.deepcopy`, the board copies and `list(state.moves)` become value semantics, so no aliasing is modelled. The duplicate `random_player` and `GameState` at the top of `TicTacToe/monteCarlo.py` are the ones of `TicTacToe/games.py`.
- `gen_state`'s default `move` is a string. Here the move is an `Option` of a position.
- Default arguments. `TicTacToe.__init__(size=3, k=3, t=-1)`, `gen_state(to_move='X', x_positions=[], o_positions=[], h=3, v=3)` and `monteCarloPlayer(timelimit=4)` are modelled with every argument explicit; the time limit becomes the round count `rounds`.
- Rules.KInRow: the model covers only directions with components in -1..1 other than (0, 0). These are the four that `compute_utility` and `eval1` use. With direction (0, 0) the source loops forever when `pos` holds `player`; otherwise both loops stop at once and, for `k >= 0`, it returns False.
- MonteCarlo.MCTS.SimulateRandomPlay: requires the node to record an occupied last move. On the initial state (`move` is `None`) the source fails with a `KeyError`. For the same reason `MonteCarloPlayer` requires this of a terminal root.
- MonteCarlo.MCTS.SimulateRandomPlay: the rollout's final state is not used. The test `tempState.to_move not in tempState.board` always holds, so the code after it is unreachable.
- MonteCarlo.MCTS.FindBestNodeWithUct: requires at least one child. `np.argmax` fails on an empty list, and `selectNode` calls it only on nodes with children.
- MonteCarlo.MCTS.GetChildWithMaxScore: returns `None` for a node without children, where `max` raises `ValueError` and the `assert` after it is never reached.
- Python integers are unbounded, so `sys.maxsize` is only the constant 2^63 - 1 added to and subtracted from unbounded scores. No overflow is modelled. `winScore` in the source can grow beyond it, and so it can here.

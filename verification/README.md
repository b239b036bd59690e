# Checkers with Monte Carlo, minimax and alpha-beta agents — a Dafny model

This project models the game core of a small checkers program and the
deterministic skeleton of its three search agents:

- **`CheckersBoard`** (`board.dfy`). A square board of pieces: 0 empty,
  1 and 2 men, 3 and 4 kings. It covers the opening and test positions,
  membership and piece counting, and the single-leg `make_move`. That move
  picks the piece up, puts it down, removes a jumped piece and crowns a man
  that reaches the far row. The source's `assert`s become errors of a
  `Result`.
- **`CheckersGame`** (`checkers.dfy`). Covers:
  - `other_player`;
  - single moves;
  - recursive jump chains, where every leg is tried on the board the earlier
    legs left and a chain ends only when no further jump exists;
  - `get_legal_moves`, with its row-by-row scan and forced capture;
  - applying a whole turn, and `generate_successor`;
  - `get_winner` / `is_game_over`.
- **`Scores`** (`score.dfy`). Python floats as they are used here: exact reals
  plus `float('-inf')` and `float('inf')`. Also Python's `max`/`min` with
  their tie rules, and the first-maximum rule of `max(..., key=...)`.
- **`Minimax`** (`minimax.dfy`). The piece-ratio evaluation, the alternating
  `max_value` / `min_value` layers with the depth limit, and the root argmax.
- **`AlphaBeta`** (`alphabeta.dfy`). `AlphaBetaMinimaxAgent`: fail-soft
  pruning, plus the `argmax` root that reads the chosen action back out of
  the running values. Two results are proved:
  - every pruned value agrees with the plain minimax value inside the
    alpha-beta window;
  - the alpha-beta agent picks exactly the action the minimax agent picks.
- **`Mcts`** (`mcts.dfy`). The Monte Carlo tree search agent.
  - The linked `Node` objects are an arena: a sequence in which `parent` and
    `children` are indices, and the root is index 0.
  - Every `random` draw is an oracle in a `Draws` value. So is the winner of
    a random playout from an undecided state. A decided state's winner is
    read off the board, as `simulate` does.
  - The UCB1 formula is an abstract function of wins, visits and the
    parent's visits.
  - The proofs cover: the arena stays well linked and faithful to the game,
    wins stay between zero and visits, a parent has at least as many visits
    as its children together, the root gains one visit per trial, and the
    chosen move is always legal.

A leg is `Leg(start, end)` with `Pos(x, y)` addressing `board[y][x]`. A turn is
a sequence of legs, like the source's tuple of moves.

The two agents' `get_action` return the same turn. `AlphaBeta.AlphaBetaAgrees`
proves this for every depth limit of at least 1 and every unfinished game.

The move applied to the board checks only that a jumped square is occupied.
Whether the jumped piece belongs to the enemy is checked by move generation,
and the model follows the code on both counts.

The comment on `expand_leaf_node` says a terminal state gets no children. The
code, however, lists the legal moves of the player to move. In a finished game
that player may still have moves. `get_winner` looks at player 1 first, so a
position where player 2 cannot move is won by player 1 even when player 1 is
to move. `CheckersGame.DecidedWithMoves` and `Mcts.ExpandDecided` exhibit such
a position and show that it is expanded. The model keeps the code's behaviour.

## Model

| member | source | states |
|---|---|---|
| CheckersBoard.MakeMove | checkers.py:198-228 | succeeds exactly when both squares are on the board, the destination is empty and a jumped square is occupied. The piece lands on the destination, crowned when a man reaches the far row. The start and the jumped square become empty and nothing else changes. A step keeps the number of pieces and a jump removes exactly one |
| CheckersBoard.RelocateOccupancy | checkers.py:218-222 | the board modification removes exactly one piece for a jump and none for a step |
| CheckersBoard.Relocate | checkers.py:218-228 | the unchecked board modification. Its meaning is stated by `CheckersBoard.RelocateLanding`, `RelocateVacates`, `RelocateElsewhere` and `RelocateOccupancy`, and it is the board `CheckersBoard.MakeMove` returns |
| CheckersBoard.PieceCount | checkers.py:181-188 | `piece_count`. `CheckersBoard.ContainsIffCounted` states that it is positive exactly when the piece is on the board |
| CheckersBoard.Contains | checkers.py:177-179 | `__contains__`. `CheckersBoard.ContainsIffCounted` relates it to `piece_count` |
| CheckersBoard.ContainsIffCounted | checkers.py:177-188 | `item in board` holds exactly when `piece_count(item)` is positive |
| CheckersBoard.InitialBoard | checkers.py:160-168 | the 8 x 8 opening: men of player 1 on the dark squares of rows 0-2, men of player 2 on rows 5-7, every other square empty |
| CheckersBoard.TestBoard | checkers.py:154-158 | the 4 x 4 test position: one man 1 at (3, 0), one man 2 at (2, 3), nothing else |
| CheckersBoard.NewBoard | checkers.py:153-171 | the test board is 4 x 4 and the default board 8 x 8 |
| CheckersGame.OtherPlayer | checkers.py:120-128 | with no player given it names the opponent of the player to move. For players 1 and 2 it names the other one, and for any other id it is the `ValueError` |
| CheckersGame.OtherPlayerInvolution | checkers.py:120-128 | asking for the other player of the other player gives back the player asked about |
| CheckersGame.SingleMoves | checkers.py:55-73 | lists exactly the one-leg turns from the square that are unit diagonals, in bounds, onto an empty square and not backward for a man |
| CheckersGame.SingleMovesDistinct | checkers.py:55-73 | `get_single_moves` lists no step twice |
| CheckersGame.Jump | checkers.py:107-109 | an allowed jump leg always applies and removes one piece |
| CheckersGame.JumpIsMakeMove | checkers.py:107-109 | the board after a jump leg is the board's own `make_move` of that leg |
| CheckersGame.JumpMoves | checkers.py:75-118 | `get_jump_moves`. `CheckersGame.JumpMovesSpec` states which turns it lists |
| CheckersGame.JumpMovesSpec | checkers.py:75-118 | a turn is listed by `get_jump_moves` exactly when it starts on the square and is a complete jump chain: each leg is allowed on the board the earlier legs left, and the last leg leaves no further jump |
| CheckersGame.JumpMovesDistinct | checkers.py:75-118 | `get_jump_moves` lists no chain twice, and every chain it lists starts on the given square |
| CheckersGame.JumpMovesEmpty | checkers.py:75-118 | the piece has no jump turns exactly when it has no allowed first jump |
| CheckersGame.ContinuationsSpec | checkers.py:107-116 | the chains built from one allowed leg are exactly the complete chains that start with that leg |
| CheckersGame.JumpsAlongSpec | checkers.py:92-118 | the chains collected over a list of directions are exactly the complete chains whose first leg goes in one of those directions |
| CheckersGame.Scan | checkers.py:43-53 | the loop of `get_legal_moves`. `CheckersGame.ScanSpec` states what it returns |
| CheckersGame.LegalMoves | checkers.py:35-53 | `get_legal_moves(player)`. `CheckersGame.LegalMovesSpec` states which turns it lists |
| CheckersGame.Moves | checkers.py:38-39 | `get_legal_moves()` for the player to move. `CheckersGame.LegalMovesSpec` states which turns it lists |
| CheckersGame.ScanSpec | checkers.py:43-53 | the row-by-row scan that started with what was gathered before a cell ends with exactly the forced-capture set: all jump turns of the player if any exist, all single steps otherwise |
| CheckersGame.LegalMovesSpec | checkers.py:35-53 | a turn is legal exactly when it is a jump chain of one of the player's pieces, if some piece can capture, and otherwise exactly when it is a single step of one of the player's pieces |
| CheckersGame.LegalMovesDistinct | checkers.py:35-53 | `get_legal_moves` lists no turn twice. Different squares' turns start on different squares, and one square's jump chains or steps differ in their first leg or in what follows it |
| CheckersGame.LegalMovesOwned | checkers.py:43-47 | every legal turn starts on a square holding one of the player's pieces |
| CheckersGame.NoPiecesNoMoves | checkers.py:43-47 | a player with neither men nor kings on the board has no legal turn |
| CheckersGame.TestBoardOpening | checkers.py:154-158 | on the test board player 1 has exactly one legal turn, the step from (3, 0) to (2, 1) |
| CheckersGame.ApplyLegs | checkers.py:31-32 | the legs applied in order, keeping the board's size. `CheckersGame.JumpChainApplies` and `CheckersGame.LegalTurnApplies` state when it succeeds and what it removes |
| CheckersGame.MakeMove | checkers.py:27-33 | a turn applies all its legs in order and fails if one fails. On success the turn passes to the other player |
| CheckersGame.GenerateSuccessor | checkers.py:21-25 | the player to move stays the same exactly when no turn (or an empty one) is given, and then the board is unchanged too. Otherwise the new board is the old one with the turn's legs applied in order, and the state fails exactly when a leg does. A legal turn never fails: it hands the move to the opponent and removes one piece per leg when it is a capture, none otherwise. Only an illegal turn can fail |
| CheckersGame.JumpChainApplies | checkers.py:31-32 | every jump chain applies leg by leg without error and removes one piece per leg |
| CheckersGame.LegalTurnApplies | checkers.py:27-53 | every legal turn applies without error and hands over the move. A capture removes one piece per leg and a step removes none |
| CheckersGame.Successor | checkers.py:21-25 | the successor for a legal turn is what `generate_successor` produces: the turn's legs applied to the board, with the opponent to move |
| CheckersGame.Successors | search.py:185-186 | one successor per legal turn, in the order of the legal turns. Each is what `generate_successor` produces for its turn, with the opponent to move |
| CheckersGame.Winner | checkers.py:134-141 | `get_winner`. `CheckersGame.WinnerSpec` states its result in terms of which players can move |
| CheckersGame.IsGameOver | checkers.py:130-132 | `is_game_over`. `CheckersGame.WinnerSpec` states that it holds exactly when one side cannot move |
| CheckersGame.WinnerSpec | checkers.py:134-141 | player 2 wins exactly when player 1 has no legal turn. Player 1 wins exactly when player 1 can move and player 2 cannot. The game is over exactly when one side cannot move |
| CheckersGame.NotOverHasMoves | checkers.py:130-141 | a game that is not over offers the player to move at least one legal turn |
| CheckersGame.DecidedWithMoves | checkers.py:134-141 | there is a finished game, won by player 1, in which player 1 is to move and still has exactly one legal turn |
| Scores.Max | search.py:219 | Python's `max` of two values: an upper bound of both, and one of them |
| Scores.Min | search.py:205 | Python's `min` of two values: a lower bound of both, and one of them |
| Scores.FirstMax | search.py:192 | the index `max(..., key=...)` returns: a largest value, with every earlier value strictly smaller |
| Scores.FirstIndexOf | search.py:240 | the first position holding the value, as `next(...)` finds it |
| Scores.FirstReachIsFirstMax | search.py:233-246 | where the running maximum first reaches its final value is the first largest value, when the scan covered every value or stopped on infinity |
| Minimax.PieceRatio | search.py:169-182 | infinite exactly when the opponent has no men or kings. Otherwise it is the non-negative number that, times the opponent's material, gives the player's material |
| Minimax.RatioReciprocal | search.py:169-182 | when both sides have material the two sides' ratios multiply to 1. One side's ratio is 0 exactly when that side has no material and the other side has some, which is exactly when the other side's ratio is infinite and this side's is not |
| Minimax.CutoffViews | search.py:199-200 | at a cutoff, while both sides have material, the min layer's evaluation (from the side that just moved, line 200) is the reciprocal of the max layer's (from the mover, line 214) |
| Minimax.MaxValue | search.py:208-220 | a max layer's value is never below 0 |
| Minimax.MinValue | search.py:194-206 | a min layer's value is never below 0 |
| Minimax.MaxOver | search.py:216-220 | the loop of `max_value` is never below 0. `Minimax.MaxOverSpec` states its value |
| Minimax.MinOver | search.py:202-206 | the loop of `min_value` is never below 0. `Minimax.MinOverSpec` states its value |
| Minimax.MaxOverSpec | search.py:216-220 | the loop's result is at least its start value and at least every successor's min value, and it equals the start value or one of those values |
| Minimax.MinOverSpec | search.py:202-206 | the loop's result is at most its start value and at most every successor's max value one level deeper, and it equals the start value or one of those values |
| Minimax.MaxValueSpec | search.py:208-220 | at a cutoff (game over or depth reached) the value is the mover's piece ratio. Otherwise it bounds the min value of every successor from above and equals one of them |
| Minimax.MinValueSpec | search.py:194-206 | at a cutoff the value is the piece ratio of the side that just moved. Otherwise it bounds the max value, one level deeper, of every successor from below and equals one of them |
| Minimax.ActionValuesTop | search.py:184-189 | when the root is not a cutoff, no entry of the `action_values` table exceeds the root's max-layer value, and some entry equals it |
| Minimax.GetAction | search.py:184-192 | an error exactly when there is no legal turn. Otherwise the first legal turn whose value is largest |
| Minimax.GetActionOptimal | search.py:184-192 | when the root is not a cutoff, the agent returns a legal turn whose successor's min value equals the root's minimax value |
| AlphaBeta.AbMaxValue | search.py:227-248 | a pruned max layer's value is never below 0 |
| AlphaBeta.AbMinValue | search.py:250-262 | a pruned min layer's value is never below 0 |
| AlphaBeta.AbMaxLoop | search.py:231-243 | the loop's value never drops below its start. It records one running value per explored successor, ending in the value reached, and it stops early only once the value reaches beta |
| AlphaBeta.AbMinLoop | search.py:254-260 | the loop's value never rises above its start. It records one running value per explored successor, and it stops early only once the value falls to alpha |
| AlphaBeta.AbMaxSound | search.py:227-248 | inside any window alpha <= beta, the pruned max value clamped to the window equals the plain minimax max value clamped to the window |
| AlphaBeta.AbMinSound | search.py:250-262 | the same agreement for the min layer |
| AlphaBeta.AbMaxLoopSound | search.py:231-243 | one loop sweep, pruned or not, agrees with the plain loop inside the window of the call |
| AlphaBeta.AbMinLoopSound | search.py:254-260 | the same agreement for the min loop |
| AlphaBeta.RootSweep | search.py:231-246 | at the root (beta infinite) each recorded running value is the running maximum of the minimax values of the turns so far. The sweep stops early only on an infinite value |
| AlphaBeta.RecordedChoice | search.py:240-246 | the first recorded turn whose running value equals the final value is a first largest minimax value |
| AlphaBeta.AbGetAction | search.py:224-246 | the returned turn is legal |
| AlphaBeta.AlphaBetaAgrees | search.py:224-246 | for every depth limit of at least 1 and every unfinished game, the alpha-beta agent returns the same turn as the minimax agent |
| Mcts.NewTree | search.py:15-25 | a root node alone: depth 0, no parent, no move, no children, no wins, no visits. The arena is well formed and counted |
| Mcts.Path | search.py:154-158 | the nodes `backpropogate` visits: the node, then each parent in turn, ending at the root, strictly decreasing |
| Mcts.Backpropagate | search.py:151-158 | exactly the nodes on the path from the node to the root gain one visit and the result as wins. Every other node is unchanged |
| Mcts.BackpropKeepsCounts | search.py:151-158 | for a result of 0 or 1, backpropagation keeps the arena well formed. Wins stay between 0 and visits, and every node keeps at least as many visits as its children together |
| Mcts.BackpropReachesRoot | search.py:155-158 | every backpropagation reaches the root, which gains one visit |
| Mcts.Expand | search.py:134-137 | the node gets one new child per legal turn of its state, in order. Each child holds the successor state, the move, a parent link and depth one more, with zero counters. Every other node is unchanged |
| Mcts.ExpandValid | search.py:134-137 | expanding a leaf keeps the arena well linked and faithful to the game |
| Mcts.ExpandKeepsCounts | search.py:134-137 | expanding a leaf keeps the counter invariant |
| Mcts.ExpandDecided | search.py:134-138 | a finished game's root is nevertheless given children |
| Mcts.Weight | search.py:113-119 | a child's weight is `float('inf')` exactly when it is unvisited, and never `float('-inf')` |
| Mcts.HeaviestChildren | search.py:111-125 | collects, in order, exactly the children of largest weight, and reports that weight |
| Mcts.SelectChild | search.py:108-127 | the candidates are exactly the children of largest weight, and the chosen child is one of them. An unvisited child is chosen whenever one exists |
| Mcts.SelectLeaf | search.py:99-106 | ends at a node without children, along a path from the root in which each step is a child of largest UCB1 weight |
| Mcts.WinProbability | search.py:92-97 | `float('-inf')` exactly for an unvisited node. Otherwise it is the number that, times the visits, gives the wins |
| Mcts.WinProbabilityBounded | search.py:92-97 | under the counter invariant a visited node's win probability lies between 0 and 1 |
| Mcts.BestMove | search.py:66-70 | an error exactly when the root has no children. Otherwise it is the move of the first root child with the highest win probability, and that move is legal at the root |
| Mcts.ExpandAndPick | search.py:80-82 | after the expansion the chosen node is the leaf itself or one of its new children, and the arena stays well formed and counted |
| Mcts.Simulate | search.py:140-149 | on a decided state the playout loop does not run, and the result is `get_winner`: player 2 when player 1 cannot move, else player 1 when player 2 cannot. On an undecided state the winner is the playout draw |
| Mcts.Trial | search.py:78-84 | one iteration keeps the arena well formed and counted and adds exactly one visit to the root. The root then has children exactly when its state has legal turns |
| Mcts.RunMcts | search.py:72-90 | after `trials` iterations the root holds the given state and exactly `trials` visits. The arena is well formed and counted, and the root has children exactly when the state has legal turns (once at least one iteration has been made) |
| Mcts.GetAction | search.py:60-70 | any returned move is legal in the given state. With at least one trial the agent fails exactly when the state has no legal turn, and with no trials it always fails |

## Left out

- The tkinter display and the game loop of `game.py` are not modelled: they do I/O and hold no game logic. Nor are the agents' `__str__` methods. The `pygame` import at the top of `checkers.py` is never used.
- Every `random.choice` and `random.shuffle` is replaced by an oracle in `Mcts.Draws`. `RandomAgent` is left out: it is only a `random.choice` over `get_legal_moves`, which is modelled.
- The random moves of `simulate` and `CheckersGame.random_play` are left out. A playout from an undecided state is summed up by its winner, the oracle `Draws.playout`; `Mcts.Simulate` reads a decided state's winner off the board.
- Mcts.Trial: as written, `simulate` (search.py:143) calls `node.game_state.copy()`, and `CheckersGame` defines no `copy`. So every iteration raises `AttributeError` at the playout. The model plays out as if the state had been deep-copied as evidently intended (`Mcts.Simulate`).
- Mcts.RunMcts: for the same reason, as written every call with at least one trial raises `AttributeError` in its first iteration. The contract describes the search with a working playout.
- Mcts.GetAction: for the same reason, as written every call with at least one trial raises `AttributeError`, and with no trials it raises `ValueError`. The contract describes the agent with a working playout.
- The UCB1 formula uses `math.sqrt`, `math.log` and float division. It is the abstract `UcbWeight`, because floating-point transcendental functions are not modelled. All that is kept is that an unvisited child weighs `float('inf')`.
- `select_child_node_randomly` and `Node.__eq__` are left out. Neither is used by the search.
- The `debug` progress output of `run_MCTS` is left out (I/O).
- CheckersBoard.NewBoard: its contract states only the board's size. The contents of the two boards it chooses between are stated by `CheckersBoard.InitialBoard` and `CheckersBoard.TestBoard`.
- CheckersBoard.MakeMove: a negative coordinate is an `OffBoard` error. Python would index from the end of the row instead.
- CheckersGame.MakeMove: a failing leg in the middle of a turn leaves the earlier legs' changes unobservable, because the model returns an error. The source would keep the partly updated board.
- AlphaBeta.AbGetAction: requires a depth limit of at least 1 and an unfinished game. In the other cases `max_value` with `argmax=True` returns the evaluation, a number, instead of an action.
- Minimax.GetAction: the source's action dictionary would merge two equal turns. `get_legal_moves` never lists a turn twice (`CheckersGame.LegalMovesDistinct`), so the dictionary has one entry per listed turn, and the model keeps the list and works by index.
- Minimax.PieceRatio: exact rational arithmetic stands for float division. Ratios of piece counts this small are distinct or equal as floats exactly when they are as rationals.
- Minimax.MaxValue: the depth limit is a natural number. `MinimaxSearchAgent(depth=-1)` is accepted by the source, but then `depth == self.depth` never holds, so the search only stops at finished games. Kings can move back and forth forever, so such a search can recurse without end until Python raises `RecursionError`. The same applies to `Minimax.MinValue`, `Minimax.GetAction`, `AlphaBeta.AbMaxValue`, `AlphaBeta.AbMinValue` and `AlphaBeta.AbGetAction`.
- The player to move is always 1 or 2 (`CheckersGame.Player`). Other ids reach only `other_player`, which models the `ValueError`.
- Mcts.ExpandValid: requires a leaf. The search expands only leaves, and re-expanding a node would orphan its old children.
- CheckersGame.DecidedWithMoves: states that every legal turn in the example is the one step. It does not state that the list is exactly that one-element list.

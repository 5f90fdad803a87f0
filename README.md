# Quoridor rules engine and minimax opponent, in Dafny

This project models the core of a two-player Quoridor game written in Python. It covers the rules
engine in `game/` and the search opponent in `ai/`:

- **Board** (`board.dfy`, module `Boards`). A `size` x `size` grid of cells with two
  `(size-1)` x `(size-1)` grids of wall segments, `h_walls` and `v_walls`. A horizontal segment at
  `(wr, wc)` blocks the two vertical steps between rows `wr` and `wr+1` in columns `wc` and `wc+1`.
  A vertical segment at `(wr, wc)` blocks the two horizontal steps between columns `wc` and `wc+1`
  in rows `wr` and `wr+1`. The class `Board` keeps the grids as fields that `place_*` and
  `remove_*` reassign. The datatype `Layout` is the board's value, and all queries are stated on it.
- **Player** (`player.dfy`, module `Players`). The mutable dataclass with `r`, `c`, `walls`, `is_ai`,
  `id` and `name`, as a class whose fields the game reassigns in place.
- **Pathfinding** (`walks.dfy`, `pathfinding.dfy`, modules `Walks` and `Pathfinding`). The two
  breadth-first searches `bfs_has_path` and `bfs_shortest_path_length`, as loop methods. They are
  proved against walks: sequences of cells joined by edges that `is_blocked` reports open.
  `Reachable` says some walk ends on a goal row. `IsDistance` says the shortest such walk has `d`
  steps.
- **Move rules** (`rules.dfy`, module `Rules`). `legal_moves` covers steps, the straight jump over
  the opponent, the side-steps when that jump is walled off, and order-preserving deduplication. It
  is a method with the source's loops, proved equal to the function `LegalMoveList`.
- **Game state** (`states.dfy`, `game_state.dfy`, modules `States` and `GameStates`). The class
  `GameState` has the board, the two players, `current`, `winner` and the undo `history`. Each
  method is proved to change the fields exactly as a value-level function says: `MoveResult` for
  `move_pawn` and `WallResult` for `try_place_wall`. Those functions are proved to keep the
  invariant `Playable`: both pawns are on the board on different cells, neither has a negative wall
  count, and both can still reach their goal rows.
- **Search** (`search.dfy`, `search_facts.dfy`, `ai.dfy`, modules `Search`, `SearchFacts` and `Ai`).
  `MinimaxAI` works on cloned game states with alpha-beta pruning. Plain depth-limited minimax is
  defined as a function over the same ordered action lists. The pruned search is proved to return
  a fail-soft bound of the plain value at every inner node. At the root it returns exactly the plain
  value and choice.
- **Scenarios** (`scenarios.dfy`, module `Scenarios`). Concrete positions: the straight jump, the
  side-step fallback, and a wall that would shut a pawn into a corner.

Two behaviours of the source are reproduced on purpose, not corrected:

- A snapshot holds the live `Player` objects, because `serialize` stores `p.__dict__`. So `undo`
  restores the grids, the size, the turn and the winner, but never pawn positions or wall counts.
- `try_place_wall` takes its snapshot after the tentative placement. So undoing a wall placement
  leaves the wall on the board.

Scores are integers in tenths of the source's floating-point scores. A leaf scores
`10 * (opponent distance - own distance) + (own walls - opponent walls)`. A decided game scores
`+10^7` or `-10^7`, the source's `1e6`. `NegInf` and `PosInf` stand for `-inf` and `+inf`.
A wall orientation is a datatype with two constructors. The source passes strings, and every string
other than `"H"` is handled as vertical (`OrientationOf`).

## Model

| member | source | states |
|---|---|---|
| `Players.Player.constructor` | game/player.py:3-11 | the dataclass constructor sets all six fields as given |
| `Players.Player.WithDefaults` | game/player.py:6-11 | `r` and `c` are required; `walls` defaults to 10, `is_ai` to False, `id` to 0 and `name` to "" |
| `Players.Player.Pos` | game/player.py:13-14 | `pos()` is the pair `(r, c)` |
| `Boards.FreshLayout` | game/board.py:6-10 | a fresh board has both wall grids of side `size-1`, every entry False |
| `Boards.Board.constructor` | game/board.py:6-10 | `Board(size)` holds the fresh layout of that size |
| `Boards.Board.Default` | game/board.py:3-10 | `Board()` with no argument holds the fresh layout of side 9 |
| `Boards.Board.Inside` | game/board.py:12-13 | `inside(r, c)` holds iff `0 <= r < size` and `0 <= c < size` |
| `Boards.Board.CanPlaceHorizontal` | game/board.py:15-22 | true iff the index is in `[0, size-2]` on both axes and `h_walls` there is False |
| `Boards.Board.CanPlaceVertical` | game/board.py:24-30 | true iff the index is in `[0, size-2]` on both axes and `v_walls` there is False |
| `Boards.Layout.IsBlocked` | game/board.py:44-83 | definition: off-board ends and non-neighbours are blocked; a vertical step is blocked by `h_walls[r][c]` or `h_walls[r][c-1]` of the upper row, a horizontal step by `v_walls[r][c]` or `v_walls[r-1][c]` of the left column, where in range |
| `Boards.Board.IsBlocked` | game/board.py:44-83 | `is_blocked` on the board's grids: when it answers False the two cells are on the board and one orthogonal step apart, and it answers the same with the cells swapped |
| `Boards.HorizontalPlacementPermissive` | game/board.py:15-30 | a horizontal segment only makes its own index unplaceable; a vertical segment at the same index and touching collinear segments are still accepted |
| `Boards.VerticalPlacementPermissive` | game/board.py:15-30 | the same for a vertical segment |
| `Boards.Layout.WithH` | game/board.py:32-39 | setting `h_walls[wr][wc]` changes that entry only; `v_walls` and every other entry are unchanged |
| `Boards.Layout.WithV` | game/board.py:35-42 | setting `v_walls[wr][wc]` changes that entry only; `h_walls` and every other entry are unchanged |
| `Boards.Board.PlaceHorizontal` | game/board.py:32-33 | the new layout is the old one with `h_walls[wr][wc]` True |
| `Boards.Board.PlaceVertical` | game/board.py:35-36 | the new layout is the old one with `v_walls[wr][wc]` True |
| `Boards.Board.RemoveHorizontal` | game/board.py:38-39 | the new layout is the old one with `h_walls[wr][wc]` False |
| `Boards.Board.RemoveVertical` | game/board.py:41-42 | the new layout is the old one with `v_walls[wr][wc]` False |
| `Boards.PlaceRemoveHorizontalRestores` | game/board.py:32-39 | placing then removing a horizontal segment on a free index gives back the same layout |
| `Boards.PlaceRemoveVerticalRestores` | game/board.py:35-42 | placing then removing a vertical segment on a free index gives back the same layout |
| `Boards.BlockedUnlessOpenNeighbour` | game/board.py:44-50 | an off-board cell or a pair of cells that are not orthogonal neighbours is always blocked |
| `Boards.BlockedSymmetric` | game/board.py:44-83 | `is_blocked(a, b) == is_blocked(b, a)` for every pair of cells |
| `Boards.VerticalStepBlockedIff` | game/board.py:51-66 | the step between rows r and r+1 in column c is blocked iff `h_walls[r][c]` or `h_walls[r][c-1]` is set, where in range |
| `Boards.HorizontalStepBlockedIff` | game/board.py:67-82 | the step between columns c and c+1 in row r is blocked iff `v_walls[r][c]` or `v_walls[r-1][c]` is set, where in range |
| `Boards.HorizontalSegmentSpan` | game/board.py:51-66 | a horizontal segment at (wr, wc) blocks columns wc and wc+1 between rows wr and wr+1, both ways |
| `Boards.VerticalSegmentSpan` | game/board.py:67-82 | a vertical segment at (wr, wc) blocks rows wr and wr+1 between columns wc and wc+1, both ways |
| `Boards.OpenEdgeIsStep` | game/board.py:44-83 | an unblocked pair is two on-board cells one orthogonal step apart |
| `Walks.Dist` | game/pathfinding.py:26-48 | the shortest-distance specification: None iff no goal row is reachable, otherwise the least number of steps |
| `Walks.StartOnGoalRow` | game/pathfinding.py:10-15 | a start on a goal row reaches it with zero steps |
| `Walks.ClosedSetUnreachable` | game/pathfinding.py:9-24 | when the explored set is closed under open steps, holds the start and no goal-row cell, no goal row is reachable |
| `Pathfinding.EnqueueNeighbours` | game/pathfinding.py:16-23 | the queue gains exactly the in-board, unblocked, unvisited neighbours, in the order down, up, right, left |
| `Pathfinding.HasPath` | game/pathfinding.py:5-24 | `bfs_has_path` is True iff some goal-row cell is reachable through unblocked steps; True at once when the start row is a goal row; terminates and leaves the board unchanged |
| `Pathfinding.EnqueueWithDistance` | game/pathfinding.py:40-47 | the queue gains exactly the in-board, unblocked, unvisited neighbours, each with distance d+1 |
| `Pathfinding.ShortestPathLength` | game/pathfinding.py:26-48 | None exactly when no goal row is reachable (so exactly when `bfs_has_path` is False); otherwise some d-step walk reaches a goal row and none is shorter; 0 when the start row is a goal row |
| `Rules.AddSideStepMoves` | game/rules.py:25-30 | appends the opponent's open neighbours in the two directions perpendicular to the approach, in the order right, left, down, up |
| `Rules.AddDirectionMoves` | game/rules.py:12-32 | appends what one direction contributes: nothing, the neighbour, the straight jump, or the side-steps |
| `Rules.LegalMoves` | game/rules.py:5-38 | `legal_moves` returns the deduplicated candidates of the four directions, down, up, right, left |
| `Rules.DedupMembers` | game/rules.py:33-38 | deduplication keeps exactly the elements of its input |
| `Rules.DedupDistinct` | game/rules.py:33-38 | deduplication leaves no element twice |
| `Rules.DedupOfDistinct` | game/rules.py:33-38 | a list without repeated elements comes out of deduplication unchanged |
| `Rules.DedupFirstSeen` | game/rules.py:33-38 | deduplication keeps first-seen order |
| `Rules.LegalMovesDistinctInOrder` | game/rules.py:33-38 | the result has no duplicates, holds exactly the candidates, and keeps their first-seen order |
| `Rules.LegalMovesInside` | game/rules.py:11-32 | every returned destination is on the board |
| `Rules.ClosedStepContributesNothing` | game/rules.py:13-16 | an off-board or blocked first edge contributes nothing for that direction, not even a jump |
| `Rules.OpenNeighbourIsLegal` | game/rules.py:13-32 | an on-board neighbour across an open edge that is not the opponent's cell is always a legal destination |
| `Rules.JumpIff` | game/rules.py:18-22 | the straight jump is contributed iff the opponent is the open neighbour and the cell beyond is on the board across an open edge; it is then the only cell that direction contributes |
| `Rules.SideStepsIff` | game/rules.py:23-30 | when the straight jump is unavailable, the direction contributes exactly the opponent's open perpendicular neighbours |
| `Rules.LegalMovesAvoidPawns` | game/rules.py:18-32 | the result never holds the opponent's cell or the mover's own cell |
| `States.OrientationOf` | game/game_state.py:92-96 | "H" is horizontal and every other string is vertical |
| `States.MoveResult` | game/game_state.py:67-86 | definition: None when there is a winner, when `idx` is not the player to move, or when `(r, c)` is not in `legal_moves`; otherwise the mover's pawn moves there with its walls, the winner becomes the mover iff it reached its goal row, and the turn passes |
| `States.CanPlaceWallOn` | game/game_state.py:88-103 | `can_place_wall` is the bounds check plus the board's own check for the orientation, any string other than "H" counting as vertical |
| `States.MoveOutcome` | game/game_state.py:67-86 | a pawn move is refused iff there is a winner, it is the wrong turn, or the cell is not legal; otherwise only the mover moves, to an on-board cell neither pawn occupied, the winner is set iff the mover reached its goal row, and the turn flips even on a win |
| `States.LegalMoveKeepsPath` | game/rules.py:11-32 | a legal destination is one or two open steps from the mover, so it keeps the mover's path to its goal rows |
| `States.MovePreservesPlayable` | game/game_state.py:67-86 | a successful pawn move keeps the game playable |
| `States.WallResult` | game/game_state.py:105-145 | definition: None when there is a winner, when `idx` is not the player to move, when it has no walls, when the slot is not placeable, or when the placed segment would leave a player without a path; otherwise the segment is set, the placer's wall count drops by one and the turn passes |
| `States.WallOutcome` | game/game_state.py:105-145 | a wall placement is refused iff there is a winner, it is the wrong turn, the placer has no wall, the slot is out of range or taken, or a player would lose every path; otherwise exactly that slot is set, the placer loses exactly one wall, the winner is unchanged, the turn flips and both players keep a path |
| `States.WallPreservesPlayable` | game/game_state.py:105-145 | a successful wall placement keeps the game playable |
| `States.InitialPlayable` | game/game_state.py:13-22 | a new game on a board of side at least 2 is playable, with player 0 to move and no winner |
| `GameStates.GameState.constructor` | game/game_state.py:13-22 | a new state has player 0 at (0, size//2) and player 1 at (size-1, size//2), 10 walls each, ids 0 and 1, `current` 0, no winner and an empty history |
| `GameStates.GameState.Default` | game/game_state.py:13-22 | `GameState()` with no argument is the new game on a board of side 9 |
| `GameStates.GameState.Copy` | game/game_state.py:24-25 | the deep copy has fresh board and players with the same values, `is_ai`, `id` and `name` included |
| `GameStates.GameState.Clone` | game/game_state.py:24-25 | `clone` gives a fresh, unaliased state with the same value and the same `is_ai`, `id` and `name` for each player |
| `GameStates.GameState.Serialize` | game/game_state.py:27-37 | a snapshot copies the grids, size, turn and winner, and refers to the live player objects |
| `GameStates.GameState.SaveSnapshot` | game/game_state.py:39-40 | appends exactly one snapshot of the current state |
| `GameStates.GameState.Undo` | game/game_state.py:42-59 | False with no change on an empty history; otherwise pops one snapshot and restores grids, size, turn and winner, while positions, wall counts, `is_ai`, `id` and `name` stay as they are |
| `GameStates.GameState.RestorePlayers` | game/game_state.py:51-56 | copying each player's fields from itself changes nothing |
| `GameStates.GameState.Inside` | game/game_state.py:61-62 | delegates to the board's `inside` |
| `GameStates.GameState.LegalMoves` | game/game_state.py:64-65 | the legal destinations of the given player against the other |
| `GameStates.GameState.MovePawn` | game/game_state.py:67-86 | `move_pawn` succeeds iff `MoveResult` does; on success the state is `MoveResult`'s and one snapshot is appended; on failure nothing changes; `is_ai`, `id` and `name` never change |
| `GameStates.GameState.CanPlaceWall` | game/game_state.py:88-103 | `can_place_wall` holds iff the board's check for the orientation holds |
| `GameStates.GameState.TryPlaceWall` | game/game_state.py:105-145 | `try_place_wall` succeeds iff `WallResult` does; on success the state is `WallResult`'s and the appended snapshot already holds the new segment; on failure nothing changes, including the reverted tentative segment; `is_ai`, `id` and `name` never change |
| `GameStates.GameState.PlaceSegment` | game/game_state.py:122-126 | the tentative placement sets one slot, horizontal for "H" and vertical otherwise |
| `GameStates.GameState.RemoveSegment` | game/game_state.py:134-140 | the revert gives back the layout before the tentative placement |
| `GameStates.GameState.AllHavePaths` | game/game_state.py:127-133 | true iff player 0 can reach the last row and player 1 row 0 |
| `GameStates.GameState.GetWinner` | game/game_state.py:147-148 | returns the winner field |
| `GameStates.WallSurvivesUndo` | game/game_state.py:122-145 | undo right after a wall placement keeps the wall on the board and the placer's reduced wall count; only the turn goes back |
| `GameStates.MoveSurvivesUndo` | game/game_state.py:27-59 | undo right after a pawn move restores turn and winner, but the pawn stays on its new cell |
| `Scenarios.StraightJump` | game/rules.py:18-22 | on an empty 9x9 board, a mover at (3,4) facing the opponent at (4,4) gets (5,4), (2,4), (3,5), (3,3) and no side-step |
| `Scenarios.SideStepFallback` | game/rules.py:23-30 | with the jump edge walled off, the mover gets (4,5) and (4,3) in place of (5,4) |
| `Scenarios.CornerCutOff` | game/pathfinding.py:5-24 | a 2x2 corner walled off by one horizontal and one vertical segment cannot reach the last row |
| `Scenarios.EnclosingWallRefused` | game/game_state.py:128-140 | the segment that would complete that enclosure is in range and free, but `try_place_wall` refuses it |
| `Search.Max` | ai/ai.py:67-68 | Python's `max` of two scores: an upper bound of both, equal to one of them |
| `Search.Min` | ai/ai.py:78-79 | Python's `min` of two scores: a lower bound of both, equal to one of them |
| `Search.OrientationName` | ai/ai.py:93-96 | the string a wall action carries reads back as its orientation |
| `Search.Apply` | ai/ai.py:84-96 | `_apply_action` on a game value: a move is `MoveResult`, a wall is `WallResult`; a result is again a well-formed state |
| `Search.SearchDistance` | ai/ai.py:147-154 | a shortest-path answer with None read as 1000 is the specified distance |
| `Search.FullWindowExact` | ai/ai.py:38 | a bounded result for the window (-inf, +inf) is the plain minimax value |
| `Search.MaxStep` | ai/ai.py:61-71 | one child of a maximizing node keeps its loop invariant, or reaches `alpha >= beta` with a lower bound of the node's value |
| `Search.MinStep` | ai/ai.py:72-82 | one child of a minimizing node keeps its loop invariant, or reaches `alpha >= beta` with an upper bound of the node's value |
| `Search.MaxCut` | ai/ai.py:68-70 | a maximizing node cut off at `alpha >= beta` returns a lower bound of its plain value |
| `Search.MinCut` | ai/ai.py:79-81 | a minimizing node cut off at `alpha >= beta` returns an upper bound of its plain value |
| `Search.FoldMonotone` | ai/ai.py:61-82 | trying more actions only raises a maximizing node's value and only lowers a minimizing node's |
| `Search.RootStep` | ai/ai.py:38-42 | a root child beats the best score iff its plain value does, and then its result is that plain value |
| `Search.RootSaturated` | ai/ai.py:42-44 | once the root's best score is +inf no later action replaces it, so the break changes nothing |
| `SearchFacts.ActionsShape` | ai/ai.py:98-137 | the pawn moves come first in `legal_moves` order, no walls are listed when the player has no wall left, and otherwise exactly the placeable walls near either pawn follow, row-major with H before V |
| `SearchFacts.ActionsMembers` | ai/ai.py:98-137 | an action is generated iff it is a legal pawn move, or the player has walls and it is a placeable wall within Manhattan distance 3 of either pawn |
| `SearchFacts.MovesFirstSorted` | ai/ai.py:31 | the root's sort is a permutation that puts every move before every wall |
| `SearchFacts.MovesFirstStable` | ai/ai.py:31 | the sort is stable: moves and walls each keep their relative order |
| `SearchFacts.MovesFirstActions` | ai/ai.py:29-31 | the generated list already has its moves first, so the sort leaves it unchanged |
| `SearchFacts.FoldBest` | ai/ai.py:61-82 | a maximizing node's plain value is the largest score of its applicable children, and -inf when none applies; a minimizing node's is the smallest, and +inf when none applies |
| `SearchFacts.RootFoldBest` | ai/ai.py:33-45 | the root keeps the first action whose score is strictly greatest |
| `SearchFacts.RootChoiceBest` | ai/ai.py:14-45 | the choice is a generated action that applies and is the first with the strictly greatest score; there is no choice iff every applicable action scores -inf, which includes none applying |
| `SearchFacts.ApplyDecidedByPlayer` | ai/ai.py:84-96 | an applied action is won by player 0, player 1 or nobody |
| `SearchFacts.ApplyPreservesPlayable` | ai/ai.py:84-96 | every successfully applied action keeps the game playable |
| `SearchFacts.HeuristicAntisymmetric` | ai/ai.py:140-159 | the leaf score for player 0 is minus the leaf score for player 1 |
| `SearchFacts.NegateMax` | ai/ai.py:67-79 | negation swaps `max` and `min` |
| `SearchFacts.GameValueZeroSum` | ai/ai.py:47-82 | a node's value for one player maximizing is minus its value for the other player minimizing |
| `SearchFacts.ApplyWinner` | game/game_state.py:80-84 | a successful action by the player to move is won by that player or by nobody |
| `SearchFacts.DepthOneChild` | ai/ai.py:47-56 | at depth 1 a root child scores +10^7 when the mover has just won, else its heuristic |
| `SearchFacts.ChoiceAtLeast` | ai/ai.py:33-45 | when a generated action scores a finite n, there is a choice whose score is the root's best, at least n |
| `SearchFacts.WinningMoveChosen` | ai/ai.py:14-56 | at depth 1, with a pawn move onto the goal row available and every non-winning child below the win score, the chosen action is a winning pawn move |
| `Ai.MinimaxAI.constructor` | ai/ai.py:11-12 | stores the maximum depth |
| `Ai.MinimaxAI.Default` | ai/ai.py:11-12 | the default maximum depth is 3 |
| `Ai.MinimaxAI.ChooseMove` | ai/ai.py:14-21 | returns the plain-minimax root choice at the given depth, or at `max_depth` when none is given |
| `Ai.MinimaxAI.MinimaxRoot` | ai/ai.py:23-45 | returns exactly the unpruned root's best score and first best action over the moves-first ordering |
| `Ai.MinimaxAI.Minimax` | ai/ai.py:47-82 | returns a fail-soft bound of plain minimax for the window, and with the window (-inf, +inf) exactly the plain value; a decided game scores +-10^7 before the depth test |
| `Ai.MinimaxAI.SearchChild` | ai/ai.py:34-38 | clones, applies and searches one action without touching the caller's state; None exactly when the action is refused |
| `Ai.MinimaxAI.MaxNode` | ai/ai.py:61-71 | the maximizing loop returns a fail-soft bound of the plain maximizing value |
| `Ai.MinimaxAI.MinNode` | ai/ai.py:72-82 | the minimizing loop returns a fail-soft bound of the plain minimizing value |
| `Ai.ApplyAction` | ai/ai.py:84-96 | True iff `Apply` succeeds; then the state is `Apply`'s result and exactly one snapshot is appended to the history; on False the state and the history are unchanged; `is_ai`, `id` and `name` never change |
| `Ai.CloneAndApply` | ai/ai.py:64-66 | the clone-then-apply step of the search loops: True iff `Apply` succeeds on the state's value, and then the child is a valid state holding `Apply`'s result |
| `Ai.GenerateActions` | ai/ai.py:98-137 | returns exactly the specified candidate list |
| `Ai.AddRowCandidates` | ai/ai.py:125-135 | appends the candidates of one row of intersections |
| `Ai.Evaluate` | ai/ai.py:140-159 | returns, in tenths, ten times the opponent's distance minus the player's, plus the wall difference, with an unreachable goal counted as 1000 |

## Left out

- The presentation layer (`ui/`), `main.py` and `utils.py`: widgets, painting, input events, style
  and font files, and process start-up. They only forward to `legal_moves`, `move_pawn` and
  `try_place_wall`.
- Floating-point scores. Scores are integers in tenths, so `0.1 * (walls difference)` is exact, and
  float rounding of equal scores is not modelled. `math.inf` is the `NegInf`/`PosInf` constructors.
- `deepcopy`: `clone` is modelled as a fresh copy of the board and players with the same values.
  The copy's history refers to the new players. In the source, the copy's snapshots hold detached
  copies of the players' attribute dicts, taken when the clone is made, so `undo` on a clone would
  restore `r`, `c` and `walls` to those values. The search never calls `undo` on a clone.
- The dict shape of a snapshot. A snapshot is a record of the copied grids, the size, the turn, the
  winner and references to the two player objects. The `get('is_ai', False)` and `get('id', i)`
  fallbacks are not modelled, because the entries always hold those keys.
- Python's negative list indices. `place_*` and `remove_*` require an index in range. Their callers
  always check it first.
- `Rules.LegalMoves`, `GameStates.GameState.LegalMoves`, `Ai.GenerateActions` and `Ai.Evaluate` require
  a player index of 0 or 1. Another index would index the two-element player list out of range or
  from the end in the source.
- `Ai.MinimaxAI.ChooseMove` requires a depth of at least 1. With depth 0 the children are searched
  with depth -1, so `depth == 0` is never reached and the search recurses until every line ends in a
  decided game. The model does not cover that.
- `SearchFacts.WinningMoveChosen` takes as a precondition that every non-winning child scores below
  the win score. It does not derive that bound from the board size.
- The proximity radius is the constant 3 (`Search.WallRadius`), as in the source. It is not a
  parameter.

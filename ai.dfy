/**
 * The minimax opponent of ai/ai.py: depth-limited minimax with alpha-beta pruning over cloned
 * game states. Every method is proved against the value-level definitions of module Search:
 * an inner node returns a fail-soft bound of the plain minimax value, and the root returns
 * exactly the action plain minimax chooses.
 */
module Ai {
  import opened Wrappers
  import opened Boards
  import opened Players
  import opened States
  import opened Search
  import opened GameStates
  import Pathfinding

  class MinimaxAI {
    const maxDepth: int

    /** MinimaxAI.__init__ */
    constructor (maxDepth: int)
      ensures this.maxDepth == maxDepth
    {
      this.maxDepth := maxDepth;
    }

    /** MinimaxAI.__init__ with its default depth. */
    constructor Default()
      ensures maxDepth == 3
    {
      maxDepth := 3;
    }

    /** MinimaxAI.choose_move: the action plain minimax picks at the given depth, or at maxDepth. */
    method ChooseMove(state: GameState, playerIndex: int, depth: Option<int>) returns (action: Option<Action>)
      requires state.Valid() && (playerIndex == 0 || playerIndex == 1)
      requires depth.Some? ==> depth.value >= 1
      requires depth.None? ==> maxDepth >= 1
      ensures action == RootChoice(state.Value(), playerIndex, if depth.Some? then depth.value else maxDepth).1
    {
      var d := if depth.None? then maxDepth else depth.value;
      var score;
      score, action := MinimaxRoot(state, playerIndex, d);
    }

    /** MinimaxAI._minimax_root: its alpha is always the best score, so nothing it needs is pruned. */
    method MinimaxRoot(state: GameState, playerIndex: int, depth: int) returns (bestScore: Score, bestAction: Option<Action>)
      requires state.Valid() && (playerIndex == 0 || playerIndex == 1) && depth >= 1
      ensures (bestScore, bestAction) == RootChoice(state.Value(), playerIndex, depth)
    {
      ghost var s := state.Value();
      bestScore, bestAction := NegInf, None;
      var alpha, beta := NegInf, PosInf;
      var generated := GenerateActions(state, playerIndex);
      var actions := MovesFirst(generated);
      for i := 0 to |actions|
        invariant alpha == bestScore && Lt(alpha, beta) && beta == PosInf
        invariant (bestScore, bestAction) == RootFold(s, actions, depth, playerIndex, i)
      {
        var a := actions[i];
        var result := SearchChild(state, playerIndex, a, depth, alpha, beta, false, playerIndex);
        if result.None? {
          continue;
        }
        var score := result.value;
        RootAdvance(s, actions, depth, playerIndex, i, bestScore, bestAction, score);
        if Lt(bestScore, score) {
          bestScore, bestAction := score, Some(a);
        }
        alpha := Max(alpha, bestScore);
        if Le(beta, alpha) {
          RootSaturated(s, actions, depth, playerIndex, i + 1, |actions|);
          return;
        }
      }
    }

    /** MinimaxAI._minimax: a fail-soft bound of plain minimax inside the window (alpha, beta). */
    method Minimax(state: GameState, depth: nat, alpha: Score, beta: Score, maximizing: bool, aiIndex: int) returns (v: Score)
      requires state.Valid() && (aiIndex == 0 || aiIndex == 1) && Lt(alpha, beta)
      ensures Bounded(v, GameValue(state.Value(), depth, maximizing, aiIndex), alpha, beta)
      ensures alpha == NegInf && beta == PosInf ==> v == GameValue(state.Value(), depth, maximizing, aiIndex)
      decreases depth, 2
    {
      var winner := state.GetWinner();
      if winner.Some? {
        if winner.value == aiIndex {
          return Fin(WinScore);
        } else {
          return Fin(-WinScore);
        }
      }
      if depth == 0 {
        var e := Evaluate(state, aiIndex);
        return Fin(e);
      }
      var current := state.current;
      var actions := GenerateActions(state, current);
      if maximizing {
        v := MaxNode(state, actions, depth, alpha, beta, aiIndex);
      } else {
        v := MinNode(state, actions, depth, alpha, beta, aiIndex);
      }
    }

    /**
     * The body shared by the loops of _minimax and _minimax_root: clone the state, apply the
     * action, and search the child (None when the action is refused).
     */
    method SearchChild(state: GameState, playerIndex: int, action: Action, depth: nat, alpha: Score, beta: Score,
                       childMaximizing: bool, aiIndex: int) returns (result: Option<Score>)
      requires state.Valid() && (aiIndex == 0 || aiIndex == 1) && depth >= 1 && Lt(alpha, beta)
      ensures result.None? <==> ChildScore(state.Value(), playerIndex, action, depth, childMaximizing, aiIndex).None?
      ensures result.Some? ==>
        Bounded(result.value, ChildScore(state.Value(), playerIndex, action, depth, childMaximizing, aiIndex).value, alpha, beta)
      decreases depth, 0
    {
      var child, ok := CloneAndApply(state, playerIndex, action);
      if !ok {
        return None;
      }
      var v := Minimax(child, depth - 1, alpha, beta, childMaximizing, aiIndex);
      return Some(v);
    }

    /** The maximizing branch of _minimax, over the actions of the player to move. */
    method MaxNode(state: GameState, actions: seq<Action>, depth: nat, alpha0: Score, beta: Score, aiIndex: int)
      returns (value: Score)
      requires state.Valid() && (aiIndex == 0 || aiIndex == 1) && depth >= 1 && Lt(alpha0, beta)
      ensures Bounded(value, Fold(state.Value(), actions, depth, true, aiIndex, |actions|), alpha0, beta)
      decreases depth, 1
    {
      ghost var s := state.Value();
      var current := state.current;
      value := NegInf;
      var alpha := alpha0;
      for i := 0 to |actions|
        invariant alpha == Max(alpha0, value) && Lt(alpha, beta)
        invariant MaxProgress(value, Fold(s, actions, depth, true, aiIndex, i), alpha0)
      {
        var result := SearchChild(state, current, actions[i], depth, alpha, beta, false, aiIndex);
        if result.None? {
          continue;
        }
        var childValue := result.value;
        ghost var f := Fold(s, actions, depth, true, aiIndex, i);
        ghost var m := ChildScore(s, current, actions[i], depth, false, aiIndex).value;
        assert Fold(s, actions, depth, true, aiIndex, i + 1) == Max(f, m);
        MaxStep(value, f, alpha0, beta, childValue, m);
        value := Max(value, childValue);
        alpha := Max(alpha, value);
        if Le(beta, alpha) {
          FoldMonotone(s, actions, depth, true, aiIndex, i + 1, |actions|);
          MaxCut(value, Fold(s, actions, depth, true, aiIndex, i + 1), Fold(s, actions, depth, true, aiIndex, |actions|), alpha0, beta);
          return;
        }
      }
      MaxDone(value, Fold(s, actions, depth, true, aiIndex, |actions|), alpha0, beta);
    }

    /** The minimizing branch of _minimax, over the actions of the player to move. */
    method MinNode(state: GameState, actions: seq<Action>, depth: nat, alpha: Score, beta0: Score, aiIndex: int)
      returns (value: Score)
      requires state.Valid() && (aiIndex == 0 || aiIndex == 1) && depth >= 1 && Lt(alpha, beta0)
      ensures Bounded(value, Fold(state.Value(), actions, depth, false, aiIndex, |actions|), alpha, beta0)
      decreases depth, 1
    {
      ghost var s := state.Value();
      var current := state.current;
      value := PosInf;
      var beta := beta0;
      for i := 0 to |actions|
        invariant beta == Min(beta0, value) && Lt(alpha, beta)
        invariant MinProgress(value, Fold(s, actions, depth, false, aiIndex, i), beta0)
      {
        var result := SearchChild(state, current, actions[i], depth, alpha, beta, true, aiIndex);
        if result.None? {
          continue;
        }
        var childValue := result.value;
        ghost var f := Fold(s, actions, depth, false, aiIndex, i);
        ghost var m := ChildScore(s, current, actions[i], depth, true, aiIndex).value;
        assert Fold(s, actions, depth, false, aiIndex, i + 1) == Min(f, m);
        MinStep(value, f, alpha, beta0, childValue, m);
        value := Min(value, childValue);
        beta := Min(beta, value);
        if Le(beta, alpha) {
          FoldMonotone(s, actions, depth, false, aiIndex, i + 1, |actions|);
          MinCut(value, Fold(s, actions, depth, false, aiIndex, i + 1), Fold(s, actions, depth, false, aiIndex, |actions|), alpha, beta0);
          return;
        }
      }
      MinDone(value, Fold(s, actions, depth, false, aiIndex, |actions|), alpha, beta0);
    }
  }

  /** MinimaxAI._apply_action: a move goes to move_pawn, a wall to try_place_wall. */
  method ApplyAction(state: GameState, playerIndex: int, action: Action) returns (ok: bool)
    requires state.Valid()
    modifies state, state.board, state.players
    ensures state.Valid()
    ensures ok <==> Apply(old(state.Value()), playerIndex, action).Some?
    ensures ok ==> state.Value() == Apply(old(state.Value()), playerIndex, action).value
    ensures ok ==> |state.history| == |old(state.history)| + 1 && state.history[..|old(state.history)|] == old(state.history)
    ensures !ok ==> state.Value() == old(state.Value()) && state.history == old(state.history)
    ensures forall i :: 0 <= i < 2 ==>
      && state.players[i].isAi == old(state.players[i].isAi) && state.players[i].id == old(state.players[i].id)
      && state.players[i].name == old(state.players[i].name)
  {
    match action
    case Move(r, c) =>
      ok := state.MovePawn(playerIndex, r, c);
    case Wall(o, wr, wc) =>
      ok := state.TryPlaceWall(playerIndex, OrientationName(o), wr, wc);
  }

  /** Applies an action to a clone of the state, leaving the state itself untouched. */
  method CloneAndApply(state: GameState, playerIndex: int, action: Action) returns (child: GameState, ok: bool)
    requires state.Valid()
    ensures ok <==> Apply(state.Value(), playerIndex, action).Some?
    ensures ok ==> child.Valid() && child.Value() == Apply(state.Value(), playerIndex, action).value
  {
    child := state.Clone();
    ok := ApplyAction(child, playerIndex, action);
  }

  /** MinimaxAI._generate_actions: the pawn moves, then the wall candidates near either pawn. */
  method GenerateActions(state: GameState, playerIndex: int) returns (actions: seq<Action>)
    requires state.Valid() && (playerIndex == 0 || playerIndex == 1)
    ensures actions == Actions(state.Value(), playerIndex)
  {
    actions := [];
    var pawnMoves := state.LegalMoves(playerIndex);
    for i := 0 to |pawnMoves|
      invariant actions == MoveActions(pawnMoves[..i])
    {
      var (r, c) := pawnMoves[i];
      actions := actions + [Move(r, c)];
    }
    assert pawnMoves[..|pawnMoves|] == pawnMoves;
    var n := Dim(state.board.size);
    var p := state.players[playerIndex];
    var opp := state.players[1 - playerIndex];
    if p.walls <= 0 {
      return;
    }
    ghost var moves := actions;
    ghost var me, them := Pawn(p.r, p.c, p.walls), Pawn(opp.r, opp.c, opp.walls);
    for wr := 0 to n
      invariant actions == AddWallRows(state.board.Value(), me, them, n, moves, wr)
    {
      actions := AddRowCandidates(state, p, opp, wr, n, actions);
    }
  }

  /** One pass of _generate_actions' inner loop: row wr's candidates appended to acc. */
  method AddRowCandidates(state: GameState, p: Player, opp: Player, wr: int, n: nat, acc: seq<Action>)
    returns (actions: seq<Action>)
    requires state.Valid()
    ensures actions == AddWallsInRow(state.board.Value(), Pawn(p.r, p.c, p.walls), Pawn(opp.r, opp.c, opp.walls), wr, acc, n)
  {
    actions := acc;
    for wc := 0 to n
      invariant actions == AddWallsInRow(state.board.Value(), Pawn(p.r, p.c, p.walls), Pawn(opp.r, opp.c, opp.walls), wr, acc, wc)
    {
      var d1 := Abs(wr - p.r) + Abs(wc - p.c);
      var d2 := Abs(wr - opp.r) + Abs(wc - opp.c);
      if !(d1 <= WallRadius || d2 <= WallRadius) {
        continue;
      }
      if state.CanPlaceWall("H", wr, wc) {
        actions := actions + [Wall(Horizontal, wr, wc)];
      }
      if state.CanPlaceWall("V", wr, wc) {
        actions := actions + [Wall(Vertical, wr, wc)];
      }
    }
  }

  /** MinimaxAI._evaluate, in tenths. */
  method Evaluate(state: GameState, aiIndex: int) returns (score: int)
    requires state.Valid() && (aiIndex == 0 || aiIndex == 1)
    ensures score == Heuristic(state.Value(), aiIndex)
  {
    var my := state.players[aiIndex];
    var opp := state.players[1 - aiIndex];
    var size := state.board.size;
    var myd := Pathfinding.ShortestPathLength(state.board, (my.r, my.c), if aiIndex == 0 then [size - 1] else [0]);
    var opd := Pathfinding.ShortestPathLength(state.board, (opp.r, opp.c), if 1 - aiIndex == 0 then [size - 1] else [0]);
    var myDist, oppDist := if myd.None? then UnreachableDistance else myd.value,
                           if opd.None? then UnreachableDistance else opd.value;
    SearchDistance(state.board.Value(), (my.r, my.c), GoalRows(size, aiIndex), myd);
    SearchDistance(state.board.Value(), (opp.r, opp.c), GoalRows(size, 1 - aiIndex), opd);
    score := 10 * (oppDist - myDist) + (my.walls - opp.walls);
  }
}

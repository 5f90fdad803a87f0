/**
 * What the minimax opponent of ai/ai.py computes, as functions on game values: the ordered list
 * of candidate actions, their effect, the leaf heuristic, plain depth-limited minimax over those
 * lists and the root's choice. Module Ai proves the pruned search against these definitions.
 *
 * Scores are in tenths of the source's floating-point scores, so every score is an integer:
 * a win is worth 10^7 (the source's 1e6) and a leaf 10 * (distance difference) + (wall difference).
 */
module Search {
  import opened Wrappers
  import opened Boards
  import opened Walks
  import opened States
  import Rules

  /** The score of a decided game, in tenths. */
  const WinScore: int := 10_000_000

  /** The distance counted for a player who cannot reach its goal rows. */
  const UnreachableDistance: int := 1000

  /** The source's largest Manhattan distance from a pawn at which a wall is still a candidate. */
  const WallRadius: int := 3

  // ---------------------------------------------------------------------------------------------
  // Scores with the two infinities the search starts from

  datatype Score = NegInf | Fin(n: int) | PosInf

  predicate Le(a: Score, b: Score) {
    a.NegInf? || b.PosInf? || (a.Fin? && b.Fin? && a.n <= b.n)
  }

  predicate Lt(a: Score, b: Score) {
    !Le(b, a)
  }

  /** Python's max(a, b): a unless b is strictly larger. */
  function Max(a: Score, b: Score): (m: Score)
    ensures Le(a, m) && Le(b, m) && (m == a || m == b)
  {
    if Lt(a, b) then b else a
  }

  /** Python's min(a, b): a unless b is strictly smaller. */
  function Min(a: Score, b: Score): (m: Score)
    ensures Le(m, a) && Le(m, b) && (m == a || m == b)
  {
    if Lt(b, a) then b else a
  }

  lemma LeTotal(a: Score, b: Score, c: Score)
    ensures Le(a, a)
    ensures Le(a, b) || Le(b, a)
    ensures Le(a, b) && Le(b, a) ==> a == b
    ensures Le(a, b) && Le(b, c) ==> Le(a, c)
  {
  }

  /**
   * The guarantee of a fail-soft alpha-beta search for the window (alpha, beta) about the value m
   * of plain minimax: a result at or below alpha is an upper bound of m, a result at or above beta
   * a lower bound, and a result strictly inside the window is m itself.
   */
  predicate Bounded(v: Score, m: Score, alpha: Score, beta: Score) {
    && (Le(v, alpha) ==> Le(m, v))
    && (Le(beta, v) ==> Le(v, m))
    && (Lt(alpha, v) && Lt(v, beta) ==> v == m)
  }

  /** With the whole line as window the pruned result is the plain minimax value. */
  lemma FullWindowExact(v: Score, m: Score)
    requires Bounded(v, m, NegInf, PosInf)
    ensures v == m
  {
    LeTotal(v, m, v);
  }

  // ---------------------------------------------------------------------------------------------
  // Actions

  /** ('M', r, c) moves the pawn to (r, c); ('W', 'H' or 'V', wr, wc) places a wall. */
  datatype Action = Move(r: int, c: int) | Wall(o: Orientation, wr: int, wc: int)

  /** The orientation string the source puts in a wall action. */
  function OrientationName(o: Orientation): (name: string)
    ensures OrientationOf(name) == o
  {
    match o
    case Horizontal => "H"
    case Vertical => "V"
  }

  /** A pawn move to each destination, in order. */
  function MoveActions(moves: seq<Cell>): (acts: seq<Action>) {
    seq(|moves|, i requires 0 <= i < |moves| => Move(moves[i].0, moves[i].1))
  }

  /** The proximity filter of _generate_actions: (wr, wc) within Manhattan distance 3 of the pawn. */
  predicate Near(p: Pawn, wr: int, wc: int) {
    Abs(wr - p.r) + Abs(wc - p.c) <= WallRadius
  }

  /** acc followed by the candidates at intersection (wr, wc): horizontal before vertical. */
  function AddWallsAt(l: Layout, me: Pawn, opp: Pawn, wr: int, wc: int, acc: seq<Action>): seq<Action>
    requires l.WellFormed()
  {
    if !(Near(me, wr, wc) || Near(opp, wr, wc)) then acc
    else
      var withH := if CanPlaceWallOn(l, "H", wr, wc) then acc + [Wall(Horizontal, wr, wc)] else acc;
      if CanPlaceWallOn(l, "V", wr, wc) then withH + [Wall(Vertical, wr, wc)] else withH
  }

  /** acc followed by the candidates of row wr in columns 0 .. k-1. */
  function AddWallsInRow(l: Layout, me: Pawn, opp: Pawn, wr: int, acc: seq<Action>, k: nat): seq<Action>
    requires l.WellFormed()
  {
    if k == 0 then acc
    else AddWallsAt(l, me, opp, wr, k - 1, AddWallsInRow(l, me, opp, wr, acc, k - 1))
  }

  /** acc followed by the candidates of rows 0 .. k-1, each with columns 0 .. n-1. */
  function AddWallRows(l: Layout, me: Pawn, opp: Pawn, n: nat, acc: seq<Action>, k: nat): seq<Action>
    requires l.WellFormed()
  {
    if k == 0 then acc
    else AddWallsInRow(l, me, opp, k - 1, AddWallRows(l, me, opp, n, acc, k - 1), n)
  }

  /** The list _generate_actions returns for player idx. */
  function Actions(s: State, idx: int): seq<Action>
    requires s.WellFormed() && (idx == 0 || idx == 1)
  {
    var me, opp := s.Get(idx), s.Get(1 - idx);
    var moves := MoveActions(Rules.LegalMoveList(s.layout, me.Pos(), opp.Pos()));
    if me.walls <= 0 then moves
    else AddWallRows(s.layout, me, opp, Dim(s.layout.size), moves, Dim(s.layout.size))
  }

  /** Row-major order of wall intersections, horizontal before vertical at the same intersection. */
  predicate WallBefore(a: Action, b: Action)
    requires a.Wall? && b.Wall?
  {
    a.wr < b.wr || (a.wr == b.wr && (a.wc < b.wc || (a.wc == b.wc && a.o == Horizontal && b.o == Vertical)))
  }

  /** The pawn moves of a list, in order. */
  function MovesOf(acts: seq<Action>): seq<Action> {
    if acts == [] then []
    else
      var last := acts[|acts| - 1];
      MovesOf(acts[..|acts| - 1]) + (if last.Move? then [last] else [])
  }

  /** The wall placements of a list, in order. */
  function WallsOf(acts: seq<Action>): seq<Action> {
    if acts == [] then []
    else
      var last := acts[|acts| - 1];
      WallsOf(acts[..|acts| - 1]) + (if last.Wall? then [last] else [])
  }

  /** The root's stable sort with key 0 for moves and 1 for walls. */
  function MovesFirst(acts: seq<Action>): seq<Action> {
    MovesOf(acts) + WallsOf(acts)
  }

  /** _apply_action on a game value: a move goes to move_pawn, a wall to try_place_wall. */
  ghost function Apply(s: State, idx: int, a: Action): (r: Option<State>)
    requires s.WellFormed()
    ensures r.Some? ==> r.value.WellFormed()
  {
    match a
    case Move(r, c) => MoveResult(s, idx, r, c)
    case Wall(o, wr, wc) => WallResult(s, idx, o, wr, wc)
  }

  // ---------------------------------------------------------------------------------------------
  // Evaluation and plain minimax

  /** The shortest distance to the goal rows, or 1000 when they cannot be reached. */
  ghost function Distance(l: Layout, start: Cell, goals: seq<int>): int
    requires l.WellFormed()
  {
    match Dist(l, start, goals)
    case None => UnreachableDistance
    case Some(d) => d
  }

  /** Any answer of a correct shortest-path search, with None read as 1000, is Distance. */
  lemma SearchDistance(l: Layout, start: Cell, goals: seq<int>, r: Option<int>)
    requires l.WellFormed()
    requires r.None? <==> !Reachable(l, start, goals)
    requires r.Some? ==> r.value >= 0 && IsDistance(l, start, goals, r.value)
    ensures Distance(l, start, goals) == (if r.None? then UnreachableDistance else r.value)
  {
    if r.Some? {
      DistanceUnique(l, start, goals, r.value, Dist(l, start, goals).value);
    }
  }

  /** _evaluate in tenths: ten times the opponent's distance minus ai's, plus ai's walls minus the opponent's. */
  ghost function Heuristic(s: State, ai: int): int
    requires s.WellFormed() && (ai == 0 || ai == 1)
  {
    var me, opp := s.Get(ai), s.Get(1 - ai);
    var l := s.layout;
    10 * (Distance(l, opp.Pos(), GoalRows(l.size, 1 - ai)) - Distance(l, me.Pos(), GoalRows(l.size, ai)))
      + (me.walls - opp.walls)
  }

  /** The score of a game won by someone: +10^7 when ai won, -10^7 otherwise. */
  function Terminal(winner: int, ai: int): int {
    if winner == ai then WinScore else -WinScore
  }

  /**
   * Plain minimax: a decided game scores Terminal whatever the depth, depth 0 scores the heuristic,
   * and otherwise the player to move tries its actions in order, ai maximizing and the other minimizing.
   */
  ghost function GameValue(s: State, depth: nat, maximizing: bool, ai: int): Score
    requires s.WellFormed() && (ai == 0 || ai == 1)
    decreases depth, 2
  {
    if s.winner.Some? then Fin(Terminal(s.winner.value, ai))
    else if depth == 0 then Fin(Heuristic(s, ai))
    else
      var acts := Actions(s, s.current);
      Fold(s, acts, depth, maximizing, ai, |acts|)
  }

  /** The score of action a by player idx at s, or None when the action is refused. */
  ghost function ChildScore(s: State, idx: int, a: Action, depth: nat, childMaximizing: bool, ai: int): Option<Score>
    requires s.WellFormed() && (ai == 0 || ai == 1) && depth >= 1
    decreases depth, 0
  {
    match Apply(s, idx, a)
    case None => None
    case Some(c) => Some(GameValue(c, depth - 1, childMaximizing, ai))
  }

  /** The value of a node after its first k actions: -inf or +inf combined with each applicable child's score. */
  ghost function Fold(s: State, acts: seq<Action>, depth: nat, maximizing: bool, ai: int, k: nat): Score
    requires s.WellFormed() && (ai == 0 || ai == 1) && depth >= 1 && k <= |acts|
    decreases depth, 1, k
  {
    if k == 0 then (if maximizing then NegInf else PosInf)
    else
      var v := Fold(s, acts, depth, maximizing, ai, k - 1);
      match ChildScore(s, s.current, acts[k - 1], depth, !maximizing, ai)
      case None => v
      case Some(m) => if maximizing then Max(v, m) else Min(v, m)
  }

  /**
   * The root after its first k actions: the best score so far and the first action that reached
   * it, replaced only by a strictly better score.
   */
  ghost function RootFold(s: State, acts: seq<Action>, depth: nat, idx: int, k: nat): (Score, Option<Action>)
    requires s.WellFormed() && (idx == 0 || idx == 1) && depth >= 1 && k <= |acts|
  {
    if k == 0 then (NegInf, None)
    else
      var prev := RootFold(s, acts, depth, idx, k - 1);
      match ChildScore(s, idx, acts[k - 1], depth, false, idx)
      case None => prev
      case Some(m) => if Lt(prev.0, m) then (m, Some(acts[k - 1])) else prev
  }

  /** _minimax_root without pruning: player idx's actions, moves first, each answered by a minimizing level. */
  ghost function RootChoice(s: State, idx: int, depth: nat): (Score, Option<Action>)
    requires s.WellFormed() && (idx == 0 || idx == 1) && depth >= 1
  {
    var acts := MovesFirst(Actions(s, idx));
    RootFold(s, acts, depth, idx, |acts|)
  }

  // ---------------------------------------------------------------------------------------------
  // Alpha-beta pruning against plain minimax

  /**
   * What a maximizing node's loop keeps about its running value and the plain value f of the
   * actions tried so far: value bounds f from above, and equals it once above the entry alpha.
   */
  predicate MaxProgress(value: Score, f: Score, alpha0: Score) {
    Le(f, value) && (Lt(alpha0, value) ==> value == f)
  }

  /** The mirror image for a minimizing node and its entry beta. */
  predicate MinProgress(value: Score, f: Score, beta0: Score) {
    Le(value, f) && (Lt(value, beta0) ==> value == f)
  }

  /**
   * One child of a maximizing node: the child was searched with window (alpha, beta), where alpha is
   * the entry alpha raised to the running value. Either the loop goes on with its invariant, or
   * alpha has reached beta and the new value is a lower bound of the node's plain value so far.
   */
  lemma MaxStep(value: Score, f: Score, alpha0: Score, beta: Score, v: Score, m: Score)
    requires MaxProgress(value, f, alpha0) && Lt(Max(alpha0, value), beta)
    requires Bounded(v, m, Max(alpha0, value), beta)
    ensures Max(Max(alpha0, value), Max(value, v)) == Max(alpha0, Max(value, v))
    ensures Lt(Max(alpha0, Max(value, v)), beta) ==> MaxProgress(Max(value, v), Max(f, m), alpha0)
    ensures !Lt(Max(alpha0, Max(value, v)), beta) ==> Le(beta, Max(value, v)) && Le(Max(value, v), Max(f, m))
  {
    LeTotal(value, v, alpha0);
    LeTotal(v, m, beta);
    LeTotal(alpha0, value, v);
    LeTotal(f, value, v);
    LeTotal(m, v, value);
  }

  /** A maximizing node that ran out of actions without a cut returns a bounded value. */
  lemma MaxDone(value: Score, f: Score, alpha0: Score, beta: Score)
    requires MaxProgress(value, f, alpha0) && Lt(Max(alpha0, value), beta)
    ensures Bounded(value, f, alpha0, beta)
  {
    LeTotal(value, beta, alpha0);
  }

  /** A maximizing node cut off at value >= beta returns a lower bound of its plain value. */
  lemma MaxCut(value: Score, f: Score, total: Score, alpha0: Score, beta: Score)
    requires Lt(alpha0, beta) && Le(beta, value) && Le(value, f) && Le(f, total)
    ensures Bounded(value, total, alpha0, beta)
  {
    LeTotal(value, f, total);
    LeTotal(alpha0, beta, value);
  }

  /** One child of a minimizing node, the mirror image of MaxStep. */
  lemma MinStep(value: Score, f: Score, alpha: Score, beta0: Score, v: Score, m: Score)
    requires MinProgress(value, f, beta0) && Lt(alpha, Min(beta0, value))
    requires Bounded(v, m, alpha, Min(beta0, value))
    ensures Min(Min(beta0, value), Min(value, v)) == Min(beta0, Min(value, v))
    ensures Lt(alpha, Min(beta0, Min(value, v))) ==> MinProgress(Min(value, v), Min(f, m), beta0)
    ensures !Lt(alpha, Min(beta0, Min(value, v))) ==> Le(Min(value, v), alpha) && Le(Min(f, m), Min(value, v))
  {
    LeTotal(value, v, beta0);
    LeTotal(v, m, alpha);
    LeTotal(beta0, value, v);
    LeTotal(value, f, v);
    LeTotal(v, m, value);
  }

  lemma MinDone(value: Score, f: Score, alpha: Score, beta0: Score)
    requires MinProgress(value, f, beta0) && Lt(alpha, Min(beta0, value))
    ensures Bounded(value, f, alpha, beta0)
  {
    LeTotal(alpha, value, beta0);
  }

  lemma MinCut(value: Score, f: Score, total: Score, alpha: Score, beta0: Score)
    requires Lt(alpha, beta0) && Le(value, alpha) && Le(f, value) && Le(total, f)
    ensures Bounded(value, total, alpha, beta0)
  {
    LeTotal(total, f, value);
    LeTotal(value, alpha, beta0);
  }

  /** More actions can only raise a maximizing node's value and only lower a minimizing node's. */
  lemma {:induction false} FoldMonotone(s: State, acts: seq<Action>, depth: nat, maximizing: bool, ai: int, k: nat, n: nat)
    requires s.WellFormed() && (ai == 0 || ai == 1) && depth >= 1 && k <= n <= |acts|
    ensures maximizing ==> Le(Fold(s, acts, depth, maximizing, ai, k), Fold(s, acts, depth, maximizing, ai, n))
    ensures !maximizing ==> Le(Fold(s, acts, depth, maximizing, ai, n), Fold(s, acts, depth, maximizing, ai, k))
    decreases n
  {
    if k < n {
      FoldMonotone(s, acts, depth, maximizing, ai, k, n - 1);
      var a, b := Fold(s, acts, depth, maximizing, ai, k), Fold(s, acts, depth, maximizing, ai, n - 1);
      LeTotal(a, b, Fold(s, acts, depth, maximizing, ai, n));
      LeTotal(Fold(s, acts, depth, maximizing, ai, n), b, a);
    }
  }

  /**
   * A child searched with window (best, +inf) at the root: it beats best exactly when its plain
   * value does, and then its result is that plain value.
   */
  lemma RootStep(best: Score, v: Score, m: Score)
    requires Lt(best, PosInf) && Bounded(v, m, best, PosInf)
    ensures Lt(best, v) <==> Lt(best, m)
    ensures Lt(best, v) ==> v == m
  {
    LeTotal(v, m, best);
    LeTotal(best, v, m);
  }

  /** One root step with the pruned score v of action i standing in for its plain score. */
  lemma RootAdvance(s: State, acts: seq<Action>, depth: nat, idx: int, i: nat, best: Score, choice: Option<Action>, v: Score)
    requires s.WellFormed() && (idx == 0 || idx == 1) && depth >= 1 && i < |acts|
    requires (best, choice) == RootFold(s, acts, depth, idx, i) && Lt(best, PosInf)
    requires ChildScore(s, idx, acts[i], depth, false, idx).Some?
    requires Bounded(v, ChildScore(s, idx, acts[i], depth, false, idx).value, best, PosInf)
    ensures RootFold(s, acts, depth, idx, i + 1) == if Lt(best, v) then (v, Some(acts[i])) else (best, choice)
  {
    RootStep(best, v, ChildScore(s, idx, acts[i], depth, false, idx).value);
  }

  /** Once the best root score is +inf no later action can replace it. */
  lemma {:induction false} RootSaturated(s: State, acts: seq<Action>, depth: nat, idx: int, k: nat, n: nat)
    requires s.WellFormed() && (idx == 0 || idx == 1) && depth >= 1 && k <= n <= |acts|
    requires RootFold(s, acts, depth, idx, k).0 == PosInf
    ensures RootFold(s, acts, depth, idx, n) == RootFold(s, acts, depth, idx, k)
    decreases n
  {
    if k < n {
      RootSaturated(s, acts, depth, idx, k, n - 1);
    }
  }
}

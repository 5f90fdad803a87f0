/**
 * The game as a value (game/game_state.py): the wall layout, the two pawns, whose turn it is and
 * the winner, with the effect of a pawn move and of a wall placement as functions on that value.
 * The GameState class (module GameStates) is proved to change its fields exactly as these
 * functions say; the search (module Search) explores states through them.
 */
module States {
  import opened Wrappers
  import opened Boards
  import opened Walks
  import Rules

  /** A wall's orientation. The source passes strings: "H" is horizontal and every other string vertical. */
  datatype Orientation = Horizontal | Vertical

  function OrientationOf(o: string): (r: Orientation)
    ensures r == Horizontal <==> o == "H"
  {
    if o == "H" then Horizontal else Vertical
  }

  /** The number of walls GameState gives each player at the start. */
  const InitialWalls: int := 10

  /** The part of a Player that the rules read and write: its cell and its remaining walls. */
  datatype Pawn = Pawn(r: int, c: int, walls: int)
  {
    function Pos(): Cell {
      (r, c)
    }
  }

  /** The goal rows of player i: the last row for player 0, row 0 for player 1. */
  function GoalRows(size: int, i: int): seq<int> {
    if i == 0 then [size - 1] else [0]
  }

  datatype State = State(layout: Layout, p0: Pawn, p1: Pawn, current: int, winner: Option<int>)
  {
    ghost predicate WellFormed() {
      layout.WellFormed() && (current == 0 || current == 1)
    }

    function Get(i: int): Pawn
      requires i == 0 || i == 1
    {
      if i == 0 then p0 else p1
    }

    function With(i: int, p: Pawn): State
      requires i == 0 || i == 1
    {
      if i == 0 then this.(p0 := p) else this.(p1 := p)
    }
  }

  /** GameState.__init__: both pawns in the middle column of their home rows. */
  function Initial(size: int): State {
    State(FreshLayout(size), Pawn(0, size / 2, InitialWalls), Pawn(size - 1, size / 2, InitialWalls), 0, None)
  }

  /** move_pawn: the state after player idx moves to (r, c), or None when the move is refused. */
  function MoveResult(s: State, idx: int, r: int, c: int): Option<State>
    requires s.WellFormed()
  {
    if s.winner.Some? then None
    else if idx != s.current then None
    else if (r, c) !in Rules.LegalMoveList(s.layout, s.Get(idx).Pos(), s.Get(1 - idx).Pos()) then None
    else
      var size := s.layout.size;
      var w := if idx == 0 && r == size - 1 then Some(0) else if idx == 1 && r == 0 then Some(1) else None;
      Some(s.With(idx, Pawn(r, c, s.Get(idx).walls)).(current := 1 - s.current, winner := w))
  }

  /** The board's own placeability check for the orientation: an in-range, still free slot. */
  predicate Placeable(l: Layout, o: Orientation, wr: int, wc: int)
    requires l.WellFormed()
  {
    match o
    case Horizontal => l.CanPlaceH(wr, wc)
    case Vertical => l.CanPlaceV(wr, wc)
  }

  /**
   * The checks of GameState.can_place_wall: a bounds check, the board's check for the orientation,
   * then an occupancy check for "H" and "V" that the board's check already implies. Any string
   * other than "H" is checked as vertical.
   */
  function CanPlaceWallOn(l: Layout, orientation: string, wr: int, wc: int): (b: bool)
    requires l.WellFormed()
    ensures b <==> Placeable(l, OrientationOf(orientation), wr, wc)
    ensures b <==> l.InRange(wr, wc) && !(if orientation == "H" then l.h[wr][wc] else l.v[wr][wc])
  {
    var s := l.size - 1;
    if !(0 <= wr < s && 0 <= wc < s) then false
    else if !(if orientation == "H" then l.CanPlaceH(wr, wc) else l.CanPlaceV(wr, wc)) then false
    else if orientation == "H" && l.h[wr][wc] then false
    else if orientation == "V" && l.v[wr][wc] then false
    else true
  }

  /** The layout with one more segment of orientation o at (wr, wc). */
  function Place(l: Layout, o: Orientation, wr: int, wc: int): (l': Layout)
    requires l.WellFormed() && l.InRange(wr, wc)
    ensures l'.WellFormed() && l'.size == l.size
  {
    match o
    case Horizontal => l.WithH(wr, wc, true)
    case Vertical => l.WithV(wr, wc, true)
  }

  /** Both pawns can still reach their goal rows on layout l. */
  ghost predicate BothHavePaths(l: Layout, p0: Pawn, p1: Pawn) {
    Reachable(l, p0.Pos(), GoalRows(l.size, 0)) && Reachable(l, p1.Pos(), GoalRows(l.size, 1))
  }

  /** try_place_wall: the state after player idx places a wall, or None when the placement is refused. */
  ghost function WallResult(s: State, idx: int, o: Orientation, wr: int, wc: int): Option<State>
    requires s.WellFormed()
  {
    if s.winner.Some? then None
    else if idx != s.current then None
    else if s.Get(idx).walls <= 0 then None
    else if !Placeable(s.layout, o, wr, wc) then None
    else
      var l := Place(s.layout, o, wr, wc);
      if !BothHavePaths(l, s.p0, s.p1) then None
      else
        var p := s.Get(idx);
        Some(s.With(idx, p.(walls := p.walls - 1)).(layout := l, current := 1 - s.current))
  }

  /**
   * The invariant of a game in progress: both pawns on the board on different cells, neither
   * with a negative wall count, and both with a path to their goal rows.
   */
  ghost predicate Playable(s: State) {
    && s.WellFormed()
    && s.layout.Inside(s.p0.r, s.p0.c) && s.layout.Inside(s.p1.r, s.p1.c)
    && s.p0.Pos() != s.p1.Pos()
    && s.p0.walls >= 0 && s.p1.walls >= 0
    && BothHavePaths(s.layout, s.p0, s.p1)
  }

  // ---------------------------------------------------------------------------------------------
  // Pawn moves

  /**
   * A pawn move is refused exactly when the game is over, it is not the mover's turn, or (r, c) is
   * not a legal destination. Otherwise only the mover changes, to an on-board cell that neither
   * pawn occupied, the turn passes even on a win, and the mover wins exactly when it reaches its
   * goal row.
   */
  lemma MoveOutcome(s: State, idx: int, r: int, c: int)
    requires s.WellFormed()
    ensures MoveResult(s, idx, r, c).Some? <==>
      s.winner.None? && idx == s.current && (r, c) in Rules.LegalMoveList(s.layout, s.Get(idx).Pos(), s.Get(1 - idx).Pos())
    ensures MoveResult(s, idx, r, c).Some? ==>
      var t := MoveResult(s, idx, r, c).value;
      && t.WellFormed() && t.layout == s.layout && t.current == 1 - s.current
      && t.Get(idx) == Pawn(r, c, s.Get(idx).walls) && t.Get(1 - idx) == s.Get(1 - idx)
      && t.winner == (if r in GoalRows(s.layout.size, idx) then Some(idx) else None)
      && s.layout.Inside(r, c) && (r, c) != s.Get(idx).Pos() && (r, c) != s.Get(1 - idx).Pos()
  {
    if MoveResult(s, idx, r, c).Some? {
      var me, opp := s.Get(idx).Pos(), s.Get(1 - idx).Pos();
      Rules.LegalMovesInside(s.layout, me, opp);
      Rules.LegalMovesAvoidPawns(s.layout, me, opp);
    }
  }

  /** A walk to a goal row from the far end of an open edge gives one from the near end. */
  lemma PrependStep(l: Layout, x: Cell, y: Cell, goals: seq<int>)
    requires l.WellFormed() && Step(l, x, y) && Reachable(l, y, goals)
    ensures Reachable(l, x, goals)
  {
    var p :| ReachesGoal(l, y, goals, p);
    var p' := [x] + p;
    forall i | 0 <= i < |p'| - 1
      ensures Step(l, p'[i], p'[i + 1])
    {
      if i > 0 {
        assert p'[i] == p[i - 1] && p'[i + 1] == p[i];
      }
    }
    assert Last(p') == Last(p);
    assert ReachesGoal(l, x, goals, p');
  }

  /**
   * Every legal destination is one open edge from the mover, or two open edges away through the
   * cell it jumps over or side-steps around; either way it keeps the mover's paths to its goals.
   */
  lemma LegalMoveKeepsPath(l: Layout, me: Cell, opp: Cell, x: Cell, goals: seq<int>)
    requires l.WellFormed() && x in Rules.LegalMoveList(l, me, opp) && Reachable(l, me, goals)
    ensures Reachable(l, x, goals)
  {
    Rules.LegalMoveMembers(l, me, opp, x);
    var i :| 0 <= i < |Directions| && x in Rules.Contribution(l, me, opp, Directions[i]);
    var d := Directions[i];
    var n := Next(me, d);
    assert Rules.OpenTowards(l, me, d);
    BlockedSymmetric(l, me.0, me.1, n.0, n.1);
    if x != n {
      assert n == opp;
      if Rules.OpenTowards(l, n, d) {
        assert x == Next(n, d);
      } else {
        Rules.SideStepsMembers(l, n, d, |Rules.SideDirections|, x);
      }
      assert Step(l, n, x);
      BlockedSymmetric(l, n.0, n.1, x.0, x.1);
      PrependStep(l, n, me, goals);
      PrependStep(l, x, n, goals);
    } else {
      PrependStep(l, x, me, goals);
    }
  }

  /** A pawn move keeps a game playable. */
  lemma MovePreservesPlayable(s: State, idx: int, r: int, c: int)
    requires Playable(s) && MoveResult(s, idx, r, c).Some?
    ensures Playable(MoveResult(s, idx, r, c).value)
  {
    MoveOutcome(s, idx, r, c);
    var size := s.layout.size;
    LegalMoveKeepsPath(s.layout, s.Get(idx).Pos(), s.Get(1 - idx).Pos(), (r, c), GoalRows(size, idx));
  }

  // ---------------------------------------------------------------------------------------------
  // Wall placements

  /**
   * A wall placement is refused exactly when the game is over, it is not the placer's turn, the
   * placer has no wall left, the slot is out of range or taken, or the new segment would cut a
   * player off. Otherwise exactly that slot of that grid is set, the placer has one wall fewer
   * and never a negative count, pawns and winner are unchanged, the turn passes, and both players
   * still have a path.
   */
  lemma WallOutcome(s: State, idx: int, o: Orientation, wr: int, wc: int)
    requires s.WellFormed()
    ensures WallResult(s, idx, o, wr, wc).Some? <==>
      && s.winner.None? && idx == s.current && s.Get(idx).walls > 0 && Placeable(s.layout, o, wr, wc)
      && BothHavePaths(Place(s.layout, o, wr, wc), s.p0, s.p1)
    ensures WallResult(s, idx, o, wr, wc).Some? ==>
      var t := WallResult(s, idx, o, wr, wc).value;
      var l, l' := s.layout, t.layout;
      && t.WellFormed() && l'.size == l.size
      && (o == Horizontal ==> l'.v == l.v && !l.h[wr][wc] && l'.h[wr][wc])
      && (o == Vertical ==> l'.h == l.h && !l.v[wr][wc] && l'.v[wr][wc])
      && (forall i, j :: 0 <= i < Dim(l.size) && 0 <= j < Dim(l.size) && (i, j) != (wr, wc) ==>
            l'.h[i][j] == l.h[i][j] && l'.v[i][j] == l.v[i][j])
      && t.Get(idx) == s.Get(idx).(walls := s.Get(idx).walls - 1) && t.Get(idx).walls >= 0
      && t.Get(1 - idx) == s.Get(1 - idx)
      && t.winner == s.winner && t.current == 1 - s.current
      && BothHavePaths(l', t.p0, t.p1)
  {
  }

  /** A wall placement keeps a game playable. */
  lemma WallPreservesPlayable(s: State, idx: int, o: Orientation, wr: int, wc: int)
    requires Playable(s) && WallResult(s, idx, o, wr, wc).Some?
    ensures Playable(WallResult(s, idx, o, wr, wc).value)
  {
  }

  // ---------------------------------------------------------------------------------------------
  // The initial state

  /** On a fresh board every step between orthogonal neighbours on the board is open. */
  lemma FreshStep(size: int, a: Cell, b: Cell)
    requires 0 <= a.0 < size && 0 <= a.1 < size && 0 <= b.0 < size && 0 <= b.1 < size
    requires Abs(a.0 - b.0) + Abs(a.1 - b.1) == 1
    ensures Step(FreshLayout(size), a, b)
  {
  }

  /** From (row, c) the column c leads down to the last row, and up to row 0, on a fresh board. */
  lemma FreshColumn(size: int, row: int, c: int)
    requires 0 <= row < size && 0 <= c < size
    ensures Reachable(FreshLayout(size), (row, c), [size - 1])
    ensures Reachable(FreshLayout(size), (row, c), [0])
  {
    var l := FreshLayout(size);
    var down := seq(size - row, i => (row + i, c));
    forall i | 0 <= i < |down| - 1
      ensures Step(l, down[i], down[i + 1])
    {
      FreshStep(size, down[i], down[i + 1]);
    }
    assert ReachesGoal(l, (row, c), [size - 1], down);
    var up := seq(row + 1, i => (row - i, c));
    forall i | 0 <= i < |up| - 1
      ensures Step(l, up[i], up[i + 1])
    {
      FreshStep(size, up[i], up[i + 1]);
    }
    assert ReachesGoal(l, (row, c), [0], up);
  }

  /** A new game on a board of side at least 2 is playable: player 0 to move, nobody has won. */
  lemma InitialPlayable(size: int)
    requires size >= 2
    ensures Playable(Initial(size))
    ensures Initial(size).current == 0 && Initial(size).winner.None?
  {
    FreshColumn(size, 0, size / 2);
    FreshColumn(size, size - 1, size / 2);
  }
}

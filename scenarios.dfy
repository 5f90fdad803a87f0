/**
 * Concrete positions that exercise the rules: the straight jump and the side-step fallback on a
 * 9 x 9 board, and a wall that would shut a pawn into a corner of a 5 x 5 board.
 */
module Scenarios {
  import opened Wrappers
  import opened Boards
  import opened Walks
  import opened States
  import Rules

  /** On an empty 9 x 9 board, a mover at (3, 4) facing an opponent at (4, 4) jumps to (5, 4) and gets no side-step. */
  lemma StraightJump()
    ensures Rules.LegalMoveList(FreshLayout(9), (3, 4), (4, 4)) == [(5, 4), (2, 4), (3, 5), (3, 3)]
  {
    var l := FreshLayout(9);
    assert Rules.Candidates(l, (3, 4), (4, 4), 1) == [(5, 4)];
    assert Rules.Candidates(l, (3, 4), (4, 4), 2) == [(5, 4), (2, 4)];
    assert Rules.Candidates(l, (3, 4), (4, 4), 3) == [(5, 4), (2, 4), (3, 5)];
    var s := [(5, 4), (2, 4), (3, 5), (3, 3)];
    assert Rules.Candidates(l, (3, 4), (4, 4), 4) == s;
    NoRepeats(s);
    Rules.DedupOfDistinct(s);
  }

  /** Neither expected move list repeats a cell. */
  lemma NoRepeats(s: seq<Cell>)
    requires s == [(4, 5), (4, 3), (2, 4), (3, 5), (3, 3)] || s == [(5, 4), (2, 4), (3, 5), (3, 3)]
    ensures forall i, j :: 0 <= i < j < |s| ==> s[i] != s[j]
  {
  }

  /** A horizontal segment at (4, 4) on an empty 9 x 9 board, under the cell (4, 4). */
  function UnderOpponent(): (l: Layout)
    ensures l.WellFormed() && l.size == 9
  {
    FreshLayout(9).WithH(4, 4, true)
  }

  /** With the jump walled off, the opponent's cell (4, 4) offers both side-steps, right then left. */
  lemma SideStepsUnderWall()
    ensures Rules.AddSideSteps(UnderOpponent(), (4, 4), (1, 0), [], 4) == [(4, 5), (4, 3)]
  {
    var l := UnderOpponent();
    assert !l.IsBlocked(4, 4, 4, 5) && !l.IsBlocked(4, 4, 4, 3);
    assert Rules.AddSideSteps(l, (4, 4), (1, 0), [], 1) == [(4, 5)];
    assert Rules.AddSideSteps(l, (4, 4), (1, 0), [], 2) == [(4, 5), (4, 3)];
  }

  /** Which edges around the two pawns the segment at (4, 4) closes: only the jump from (4, 4) down. */
  lemma EdgesUnderWall()
    ensures var l := UnderOpponent();
      && l.IsBlocked(4, 4, 5, 4) && !l.IsBlocked(3, 4, 4, 4)
      && !l.IsBlocked(3, 4, 2, 4) && !l.IsBlocked(3, 4, 3, 5) && !l.IsBlocked(3, 4, 3, 3)
  {
    var l := UnderOpponent();
    VerticalStepBlockedIff(l, 4, 4);
    VerticalStepBlockedIff(l, 3, 4);
    VerticalStepBlockedIff(l, 2, 4);
    HorizontalStepBlockedIff(l, 3, 4);
    HorizontalStepBlockedIff(l, 3, 3);
  }

  /** Down from (3, 4) reaches the opponent, the jump is walled off, and the side-steps are taken. */
  lemma JumpBlockedUnderWall()
    ensures Rules.AddContribution(UnderOpponent(), (3, 4), (4, 4), (1, 0), []) == [(4, 5), (4, 3)]
  {
    EdgesUnderWall();
    SideStepsUnderWall();
  }

  /** Up, right and left from (3, 4) are open plain steps, each appending its neighbour. */
  lemma PlainStepUnderWall(d: (int, int), acc: seq<Cell>)
    requires d == (-1, 0) || d == (0, 1) || d == (0, -1)
    ensures Rules.AddContribution(UnderOpponent(), (3, 4), (4, 4), d, acc) == acc + [Next((3, 4), d)]
  {
    EdgesUnderWall();
  }

  /** The candidate list in direction order: the two side-steps, then the three plain steps. */
  lemma SideStepCandidates()
    ensures Rules.Candidates(UnderOpponent(), (3, 4), (4, 4), 4) == [(4, 5), (4, 3), (2, 4), (3, 5), (3, 3)]
  {
    var l := UnderOpponent();
    JumpBlockedUnderWall();
    assert Rules.Candidates(l, (3, 4), (4, 4), 1) == [(4, 5), (4, 3)];
    PlainStepUnderWall((-1, 0), [(4, 5), (4, 3)]);
    assert Rules.Candidates(l, (3, 4), (4, 4), 2) == [(4, 5), (4, 3), (2, 4)];
    PlainStepUnderWall((0, 1), [(4, 5), (4, 3), (2, 4)]);
    assert Rules.Candidates(l, (3, 4), (4, 4), 3) == [(4, 5), (4, 3), (2, 4), (3, 5)];
    PlainStepUnderWall((0, -1), [(4, 5), (4, 3), (2, 4), (3, 5)]);
  }

  /**
   * The same position with a horizontal segment at (4, 4) under the opponent: the jump to (5, 4)
   * is walled off, so the mover side-steps to (4, 5) and (4, 3) instead.
   */
  lemma SideStepFallback()
    ensures Rules.LegalMoveList(FreshLayout(9).WithH(4, 4, true), (3, 4), (4, 4)) == [(4, 5), (4, 3), (2, 4), (3, 5), (3, 3)]
  {
    var s := [(4, 5), (4, 3), (2, 4), (3, 5), (3, 3)];
    SideStepCandidates();
    NoRepeats(s);
    Rules.DedupOfDistinct(s);
  }

  /** The top-left 2 x 2 corner of a board. */
  ghost predicate InCorner(x: Cell) {
    0 <= x.0 <= 1 && 0 <= x.1 <= 1
  }

  /** A 5 x 5 board with a horizontal segment under the corner and a vertical one to its right. */
  function Boxed(): (l: Layout)
    ensures l.WellFormed() && l.size == 5
  {
    FreshLayout(5).WithH(1, 0, true).WithV(0, 1, true)
  }

  /** No open edge leaves the walled corner. */
  lemma CornerClosed(x: Cell, y: Cell)
    requires InCorner(x) && Step(Boxed(), x, y)
    ensures InCorner(y)
  {
    OpenEdgeIsStep(Boxed(), x, y);
  }

  /** From the walled corner the last row cannot be reached. */
  lemma CornerCutOff(start: Cell)
    requires InCorner(start)
    ensures !Reachable(Boxed(), start, [4])
  {
    var corner := {(0, 0), (0, 1), (1, 0), (1, 1)};
    forall x, y | x in corner && Step(Boxed(), x, y)
      ensures y in corner
    {
      CornerClosed(x, y);
      assert y == (y.0, y.1);
    }
    ClosedSetUnreachable(Boxed(), start, [4], corner);
  }

  /**
   * On a 5 x 5 board with player 0 in the corner (0, 0) behind a horizontal segment at (1, 0),
   * player 1's vertical segment at (0, 1) would close the box, so it is refused while the same
   * segment is otherwise in range and free.
   */
  lemma EnclosingWallRefused()
    ensures var l := FreshLayout(5).WithH(1, 0, true);
      var s := State(l, Pawn(0, 0, 10), Pawn(4, 2, 9), 1, None);
      && Placeable(l, Vertical, 0, 1)
      && WallResult(s, 1, Vertical, 0, 1) == None
  {
    var l := FreshLayout(5).WithH(1, 0, true);
    assert Place(l, Vertical, 0, 1) == Boxed();
    CornerCutOff((0, 0));
  }
}

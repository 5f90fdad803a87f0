/**
 * Legal pawn destinations (game/rules.py).
 *
 * For each direction in the order down, up, right, left the mover may step to the neighbouring
 * cell; when the opponent stands there it may jump straight over, and when that jump is off the
 * board or walled off it may side-step to the opponent's open perpendicular neighbours. The
 * collected cells are then deduplicated, keeping the first occurrence of each.
 */
module Rules {
  import opened Boards
  import opened Players

  /** The side-step offsets around the opponent, in the order the source tries them. */
  const SideDirections: seq<(int, int)> := [(0, 1), (0, -1), (1, 0), (-1, 0)]

  function Opposite(d: (int, int)): (int, int) {
    (-d.0, -d.1)
  }

  /** The cell across an open edge from x in direction d is on the board. */
  predicate OpenTowards(l: Layout, x: Cell, d: (int, int))
    requires l.WellFormed()
  {
    var y := Next(x, d);
    l.Inside(y.0, y.1) && !l.IsBlocked(x.0, x.1, y.0, y.1)
  }

  /** acc followed by the open side-steps around n among the first k side directions, skipping d and its opposite. */
  function AddSideSteps(l: Layout, n: Cell, d: (int, int), acc: seq<Cell>, k: nat): seq<Cell>
    requires l.WellFormed() && k <= |SideDirections|
  {
    if k == 0 then acc
    else
      var rest := AddSideSteps(l, n, d, acc, k - 1);
      var s := SideDirections[k - 1];
      if s == d || s == Opposite(d) then rest
      else if OpenTowards(l, n, s) then rest + [Next(n, s)]
      else rest
  }

  /** acc followed by what direction d contributes to the move list of a mover at me facing an opponent at opp. */
  function AddContribution(l: Layout, me: Cell, opp: Cell, d: (int, int), acc: seq<Cell>): seq<Cell>
    requires l.WellFormed()
  {
    var n := Next(me, d);
    if !l.Inside(n.0, n.1) then acc
    else if l.IsBlocked(me.0, me.1, n.0, n.1) then acc
    else if n == opp then
      if OpenTowards(l, n, d) then acc + [Next(n, d)]
      else AddSideSteps(l, n, d, acc, |SideDirections|)
    else acc + [n]
  }

  /** What direction d contributes on its own. */
  function Contribution(l: Layout, me: Cell, opp: Cell, d: (int, int)): seq<Cell>
    requires l.WellFormed()
  {
    AddContribution(l, me, opp, d, [])
  }

  /** The list `moves` after the first k directions, before deduplication. */
  function Candidates(l: Layout, me: Cell, opp: Cell, k: nat): seq<Cell>
    requires l.WellFormed() && k <= |Directions|
  {
    if k == 0 then []
    else AddContribution(l, me, opp, Directions[k - 1], Candidates(l, me, opp, k - 1))
  }

  /** The first occurrences of the elements of s, in order. */
  function Dedup(s: seq<Cell>): seq<Cell> {
    if s == [] then []
    else
      var u := Dedup(s[..|s| - 1]);
      if s[|s| - 1] in u then u else u + [s[|s| - 1]]
  }

  /** The destinations legal_moves returns for a mover at me and an opponent at opp. */
  function LegalMoveList(l: Layout, me: Cell, opp: Cell): seq<Cell>
    requires l.WellFormed()
  {
    Dedup(Candidates(l, me, opp, |Directions|))
  }

  /** The index of the first occurrence of x in s. */
  function FirstIndex(s: seq<Cell>, x: Cell): (i: nat)
    requires x in s
    ensures i < |s| && s[i] == x && x !in s[..i]
  {
    if x in s[..|s| - 1] then FirstIndex(s[..|s| - 1], x)
    else |s| - 1
  }

  /** legal_moves, lines 5-38: the source's loops over directions, side directions and the candidate list. */
  method LegalMoves(board: Board, players: seq<Player>, playerIndex: int) returns (uniq: seq<Cell>)
    requires board.Valid() && |players| == 2 && 0 <= playerIndex <= 1
    ensures uniq == LegalMoveList(board.Value(), players[playerIndex].Pos(), players[1 - playerIndex].Pos())
  {
    ghost var l := board.Value();
    var p := players[playerIndex];
    var opp := players[1 - playerIndex];
    var r, c := p.r, p.c;
    ghost var me := (r, c);
    var moves: seq<Cell> := [];
    for i := 0 to |Directions|
      invariant moves == Candidates(l, me, opp.Pos(), i)
    {
      moves := AddDirectionMoves(board, r, c, opp, Directions[i], moves);
    }
    uniq := [];
    for i := 0 to |moves|
      invariant uniq == Dedup(moves[..i])
    {
      var m := moves[i];
      assert moves[..i + 1][..i] == moves[..i];
      if m !in uniq {
        uniq := uniq + [m];
      }
    }
    assert moves[..|moves|] == moves;
  }

  /** One pass of the direction loop of legal_moves, lines 12-32: appends what direction (dr, dc) contributes. */
  method AddDirectionMoves(board: Board, r: int, c: int, opp: Player, d: (int, int), moves: seq<Cell>)
    returns (moves': seq<Cell>)
    requires board.Valid()
    ensures moves' == AddContribution(board.Value(), (r, c), opp.Pos(), d, moves)
  {
    var (dr, dc) := d;
    var nr, nc := r + dr, c + dc;
    moves' := moves;
    if !board.Inside(nr, nc) {
      return;
    }
    if board.IsBlocked(r, c, nr, nc) {
      return;
    }
    if (nr, nc) == (opp.r, opp.c) {
      var jr, jc := nr + dr, nc + dc;
      if board.Inside(jr, jc) && !board.IsBlocked(nr, nc, jr, jc) {
        moves' := moves' + [(jr, jc)];
      } else {
        moves' := AddSideStepMoves(board, (nr, nc), (dr, dc), moves');
      }
    } else {
      moves' := moves' + [(nr, nc)];
    }
  }

  /** The side-step loop of legal_moves, lines 25-30: appends the open perpendicular neighbours of n. */
  method AddSideStepMoves(board: Board, n: Cell, d: (int, int), moves: seq<Cell>) returns (moves': seq<Cell>)
    requires board.Valid()
    ensures moves' == AddSideSteps(board.Value(), n, d, moves, |SideDirections|)
  {
    var (nr, nc) := n;
    var (dr, dc) := d;
    moves' := moves;
    for j := 0 to |SideDirections|
      invariant moves' == AddSideSteps(board.Value(), n, d, moves, j)
    {
      var (odr, odc) := SideDirections[j];
      if (odr, odc) == (dr, dc) || (odr, odc) == (-dr, -dc) {
        continue;
      }
      var ar, ac := nr + odr, nc + odc;
      if board.Inside(ar, ac) && !board.IsBlocked(nr, nc, ar, ac) {
        moves' := moves' + [(ar, ac)];
      }
    }
  }

  // ---------------------------------------------------------------------------------------------
  // Deduplication

  /** Deduplication keeps exactly the elements of its input. */
  lemma {:induction false} DedupMembers(s: seq<Cell>)
    ensures forall x :: x in Dedup(s) <==> x in s
  {
    if s != [] {
      var s' := s[..|s| - 1];
      DedupMembers(s');
      assert s == s' + [s[|s| - 1]];
    }
  }

  /** The result of deduplication has no repeated element. */
  lemma {:induction false} DedupDistinct(s: seq<Cell>)
    ensures forall i, j :: 0 <= i < j < |Dedup(s)| ==> Dedup(s)[i] != Dedup(s)[j]
  {
    if s != [] {
      DedupDistinct(s[..|s| - 1]);
    }
  }

  /** A list with no repeated element passes through deduplication unchanged. */
  lemma {:induction false} DedupOfDistinct(s: seq<Cell>)
    requires forall i, j :: 0 <= i < j < |s| ==> s[i] != s[j]
    ensures Dedup(s) == s
  {
    if s != [] {
      var s' := s[..|s| - 1];
      DedupOfDistinct(s');
      assert s[|s| - 1] !in s';
    }
  }

  /** Deduplication keeps first-seen order: earlier results occur earlier in the input. */
  lemma {:induction false} DedupFirstSeen(s: seq<Cell>)
    ensures forall x :: x in Dedup(s) ==> x in s
    ensures forall i, j :: 0 <= i < j < |Dedup(s)| ==> FirstIndex(s, Dedup(s)[i]) < FirstIndex(s, Dedup(s)[j])
  {
    DedupMembers(s);
    if s != [] {
      var s' := s[..|s| - 1];
      var x := s[|s| - 1];
      DedupFirstSeen(s');
      DedupMembers(s');
      var u := Dedup(s');
      forall y | y in u
        ensures FirstIndex(s, y) == FirstIndex(s', y)
      {
      }
      forall i, j | 0 <= i < j < |Dedup(s)|
        ensures FirstIndex(s, Dedup(s)[i]) < FirstIndex(s, Dedup(s)[j])
      {
        if j < |u| {
          assert Dedup(s)[i] == u[i] && Dedup(s)[j] == u[j];
        } else {
          assert Dedup(s)[i] == u[i];
        }
      }
    }
  }

  // ---------------------------------------------------------------------------------------------
  // Contributions of the four directions

  lemma {:induction false} AddSideStepsAppends(l: Layout, n: Cell, d: (int, int), acc: seq<Cell>, k: nat)
    requires l.WellFormed() && k <= |SideDirections|
    ensures AddSideSteps(l, n, d, acc, k) == acc + AddSideSteps(l, n, d, [], k)
  {
    if k > 0 {
      AddSideStepsAppends(l, n, d, acc, k - 1);
    }
  }

  lemma AddContributionAppends(l: Layout, me: Cell, opp: Cell, d: (int, int), acc: seq<Cell>)
    requires l.WellFormed()
    ensures AddContribution(l, me, opp, d, acc) == acc + Contribution(l, me, opp, d)
  {
    AddSideStepsAppends(l, Next(me, d), d, acc, |SideDirections|);
  }

  /** A cell is a candidate exactly when one of the first k directions contributes it. */
  lemma {:induction false} CandidatesMembers(l: Layout, me: Cell, opp: Cell, k: nat, x: Cell)
    requires l.WellFormed() && k <= |Directions|
    ensures x in Candidates(l, me, opp, k) <==> exists i :: 0 <= i < k && x in Contribution(l, me, opp, Directions[i])
  {
    if k > 0 {
      CandidatesMembers(l, me, opp, k - 1, x);
      AddContributionAppends(l, me, opp, Directions[k - 1], Candidates(l, me, opp, k - 1));
    }
  }

  /** A cell is a legal destination exactly when some direction contributes it. */
  lemma LegalMoveMembers(l: Layout, me: Cell, opp: Cell, x: Cell)
    requires l.WellFormed()
    ensures x in LegalMoveList(l, me, opp) <==> exists i :: 0 <= i < |Directions| && x in Contribution(l, me, opp, Directions[i])
  {
    DedupMembers(Candidates(l, me, opp, |Directions|));
    CandidatesMembers(l, me, opp, |Directions|, x);
  }

  /** Every side-step is an open perpendicular neighbour of n. */
  lemma {:induction false} SideStepsMembers(l: Layout, n: Cell, d: (int, int), k: nat, x: Cell)
    requires l.WellFormed() && k <= |SideDirections|
    ensures x in AddSideSteps(l, n, d, [], k) <==>
      exists j :: 0 <= j < k && SideDirections[j] != d && SideDirections[j] != Opposite(d) &&
        OpenTowards(l, n, SideDirections[j]) && x == Next(n, SideDirections[j])
  {
    if k > 0 {
      SideStepsMembers(l, n, d, k - 1, x);
    }
  }

  /** Everything a direction contributes is on the board. */
  lemma ContributionInside(l: Layout, me: Cell, opp: Cell, d: (int, int), x: Cell)
    requires l.WellFormed() && x in Contribution(l, me, opp, d)
    ensures l.Inside(x.0, x.1)
  {
    var n := Next(me, d);
    if n == opp && !OpenTowards(l, n, d) {
      SideStepsMembers(l, n, d, |SideDirections|, x);
    }
  }

  /** Every destination legal_moves returns is on the board. */
  lemma LegalMovesInside(l: Layout, me: Cell, opp: Cell)
    requires l.WellFormed()
    ensures forall x :: x in LegalMoveList(l, me, opp) ==> l.Inside(x.0, x.1)
  {
    forall x | x in LegalMoveList(l, me, opp)
      ensures l.Inside(x.0, x.1)
    {
      LegalMoveMembers(l, me, opp, x);
      var i :| 0 <= i < |Directions| && x in Contribution(l, me, opp, Directions[i]);
      ContributionInside(l, me, opp, Directions[i], x);
    }
  }

  /** legal_moves returns no cell twice, and lists cells in the order they are first found. */
  lemma LegalMovesDistinctInOrder(l: Layout, me: Cell, opp: Cell)
    requires l.WellFormed()
    ensures var r, s := LegalMoveList(l, me, opp), Candidates(l, me, opp, |Directions|);
      && (forall i, j :: 0 <= i < j < |r| ==> r[i] != r[j])
      && (forall x :: x in r <==> x in s)
      && (forall i, j :: 0 <= i < j < |r| ==> FirstIndex(s, r[i]) < FirstIndex(s, r[j]))
  {
    var s := Candidates(l, me, opp, |Directions|);
    DedupDistinct(s);
    DedupMembers(s);
    DedupFirstSeen(s);
  }

  /** An off-board or walled-off first step contributes nothing for that direction, not even a jump. */
  lemma ClosedStepContributesNothing(l: Layout, me: Cell, opp: Cell, d: (int, int))
    requires l.WellFormed() && !OpenTowards(l, me, d)
    ensures Contribution(l, me, opp, d) == []
  {
  }

  /** An open neighbour that is not the opponent's cell is always a legal destination. */
  lemma OpenNeighbourIsLegal(l: Layout, me: Cell, opp: Cell, k: nat)
    requires l.WellFormed() && k < |Directions|
    requires OpenTowards(l, me, Directions[k]) && Next(me, Directions[k]) != opp
    ensures Next(me, Directions[k]) in LegalMoveList(l, me, opp)
  {
    LegalMoveMembers(l, me, opp, Next(me, Directions[k]));
    assert Next(me, Directions[k]) in Contribution(l, me, opp, Directions[k]);
  }

  /**
   * The straight jump over the opponent is contributed by direction d exactly when the opponent is
   * the open neighbour in direction d and the cell beyond is on the board across an open edge;
   * it is then the only cell that direction contributes.
   */
  lemma JumpIff(l: Layout, me: Cell, opp: Cell, k: nat)
    requires l.WellFormed() && k < |Directions|
    ensures var d := Directions[k]; var n := Next(me, d);
      Next(n, d) in Contribution(l, me, opp, d) <==> OpenTowards(l, me, d) && n == opp && OpenTowards(l, n, d)
    ensures var d := Directions[k]; var n := Next(me, d);
      OpenTowards(l, me, d) && n == opp && OpenTowards(l, n, d) ==> Contribution(l, me, opp, d) == [Next(n, d)]
  {
    var d := Directions[k];
    var n := Next(me, d);
    if n == opp && OpenTowards(l, me, d) && !OpenTowards(l, n, d) {
      SideStepsMembers(l, n, d, |SideDirections|, Next(n, d));
    }
  }

  /**
   * When the opponent is the open neighbour in direction d and the straight jump is unavailable,
   * direction d contributes exactly the opponent's open neighbours in the two perpendicular directions.
   */
  lemma SideStepsIff(l: Layout, me: Cell, opp: Cell, d: (int, int), x: Cell)
    requires l.WellFormed() && OpenTowards(l, me, d) && Next(me, d) == opp && !OpenTowards(l, opp, d)
    ensures x in Contribution(l, me, opp, d) <==>
      exists j :: 0 <= j < |SideDirections| && SideDirections[j] != d && SideDirections[j] != Opposite(d) &&
        OpenTowards(l, opp, SideDirections[j]) && x == Next(opp, SideDirections[j])
  {
    SideStepsMembers(l, opp, d, |SideDirections|, x);
  }

  /** A direction never contributes the mover's own cell or the opponent's cell. */
  lemma ContributionAvoidsPawns(l: Layout, me: Cell, opp: Cell, k: nat)
    requires l.WellFormed() && k < |Directions|
    ensures me !in Contribution(l, me, opp, Directions[k])
    ensures opp !in Contribution(l, me, opp, Directions[k])
  {
    var d := Directions[k];
    var n := Next(me, d);
    if OpenTowards(l, me, d) && n == opp && !OpenTowards(l, n, d) {
      SideStepsMembers(l, n, d, |SideDirections|, me);
      SideStepsMembers(l, n, d, |SideDirections|, opp);
    }
  }

  /** legal_moves never offers the mover's own cell or the opponent's cell. */
  lemma LegalMovesAvoidPawns(l: Layout, me: Cell, opp: Cell)
    requires l.WellFormed()
    ensures me !in LegalMoveList(l, me, opp) && opp !in LegalMoveList(l, me, opp)
  {
    LegalMoveMembers(l, me, opp, me);
    LegalMoveMembers(l, me, opp, opp);
    forall i | 0 <= i < |Directions|
      ensures me !in Contribution(l, me, opp, Directions[i]) && opp !in Contribution(l, me, opp, Directions[i])
    {
      ContributionAvoidsPawns(l, me, opp, i);
    }
  }
}

/**
 * Properties of the search definitions of module Search: the shape of the candidate list, the
 * root's move-first ordering, plain minimax as a maximum or minimum over the applicable children,
 * the root's choice, and the symmetry of the scores between the two players.
 */
module SearchFacts {
  import opened Wrappers
  import opened Boards
  import opened States
  import opened Search
  import Rules

  // ---------------------------------------------------------------------------------------------
  // The candidate list of _generate_actions

  /** A wall action that _generate_actions lists for me against opp, when me has walls left. */
  predicate WallCandidate(l: Layout, me: Pawn, opp: Pawn, a: Action)
    requires l.WellFormed()
  {
    && a.Wall? && 0 <= a.wr < Dim(l.size) && 0 <= a.wc < Dim(l.size)
    && (Near(me, a.wr, a.wc) || Near(opp, a.wr, a.wc)) && Placeable(l, a.o, a.wr, a.wc)
  }

  /** r is acc followed by exactly the candidates at intersection (wr, wc), horizontal before vertical. */
  ghost predicate AtShaped(l: Layout, me: Pawn, opp: Pawn, wr: int, wc: int, acc: seq<Action>, r: seq<Action>)
    requires l.WellFormed()
  {
    && |acc| <= |r| && r[..|acc|] == acc
    && (forall j :: |acc| <= j < |r| ==> WallCandidate(l, me, opp, r[j]) && r[j].wr == wr && r[j].wc == wc)
    && (forall i, j :: |acc| <= i < j < |r| ==> WallBefore(r[i], r[j]))
    && (forall o :: WallCandidate(l, me, opp, Wall(o, wr, wc)) ==> Wall(o, wr, wc) in r[|acc|..])
  }

  /** The candidates at one intersection: the horizontal one, then the vertical one, when placeable. */
  lemma AtShape(l: Layout, me: Pawn, opp: Pawn, wr: int, wc: int, acc: seq<Action>)
    requires l.WellFormed()
    ensures AtShaped(l, me, opp, wr, wc, acc, AddWallsAt(l, me, opp, wr, wc, acc))
  {
    var r := AddWallsAt(l, me, opp, wr, wc, acc);
    assert OrientationOf("H") == Horizontal && OrientationOf("V") == Vertical;
    forall o | WallCandidate(l, me, opp, Wall(o, wr, wc))
      ensures Wall(o, wr, wc) in r[|acc|..]
    {
      var withH := if CanPlaceWallOn(l, "H", wr, wc) then acc + [Wall(Horizontal, wr, wc)] else acc;
      assert r == (if CanPlaceWallOn(l, "V", wr, wc) then withH + [Wall(Vertical, wr, wc)] else withH);
      if o == Horizontal {
        assert r[|acc|] == Wall(o, wr, wc);
      } else {
        assert r[|r| - 1] == Wall(o, wr, wc);
      }
    }
  }

  /** The shape RowShape states of a row's candidates r after acc, for columns 0 .. k-1. */
  ghost predicate RowShaped(l: Layout, me: Pawn, opp: Pawn, wr: int, acc: seq<Action>, k: nat, r: seq<Action>)
    requires l.WellFormed()
  {
    && |acc| <= |r| && r[..|acc|] == acc
    && (forall j :: |acc| <= j < |r| ==> WallCandidate(l, me, opp, r[j]) && r[j].wr == wr && r[j].wc < k)
    && (forall i, j :: |acc| <= i < j < |r| ==> WallBefore(r[i], r[j]))
    && (forall a :: WallCandidate(l, me, opp, a) && a.wr == wr && a.wc < k ==> a in r[|acc|..])
  }

  /** Appending the candidates of column c to the shaped columns 0 .. c-1 gives the shaped columns 0 .. c. */
  lemma RowStep(l: Layout, me: Pawn, opp: Pawn, wr: int, acc: seq<Action>, c: nat, prev: seq<Action>, r: seq<Action>)
    requires l.WellFormed()
    requires RowShaped(l, me, opp, wr, acc, c, prev) && AtShaped(l, me, opp, wr, c, prev, r)
    ensures RowShaped(l, me, opp, wr, acc, c + 1, r)
  {
    var k := c + 1;
    assert r[..|acc|] == prev[..|acc|];
    assert forall j :: |acc| <= j < |prev| ==> r[j] == prev[j];
    forall i, j | |acc| <= i < j < |r|
      ensures WallBefore(r[i], r[j])
    {
      if i < |prev| && |prev| <= j {
        assert r[i].wc < k - 1 == r[j].wc && r[i].wr == r[j].wr;
      }
    }
    forall a | WallCandidate(l, me, opp, a) && a.wr == wr && a.wc < k
      ensures a in r[|acc|..]
    {
      if a.wc < k - 1 {
        var j :| |acc| <= j < |prev| && prev[j] == a;
        assert r[j] == a;
      } else {
        assert a == Wall(a.o, wr, k - 1);
        var j :| |prev| <= j < |r| && r[j] == a;
      }
    }
  }

  /** The row's candidates keep their shape when column c is added. */
  lemma RowAdvance(l: Layout, me: Pawn, opp: Pawn, wr: int, acc: seq<Action>, c: nat)
    requires l.WellFormed()
    requires RowShaped(l, me, opp, wr, acc, c, AddWallsInRow(l, me, opp, wr, acc, c))
    ensures RowShaped(l, me, opp, wr, acc, c + 1, AddWallsInRow(l, me, opp, wr, acc, c + 1))
  {
    var prev := AddWallsInRow(l, me, opp, wr, acc, c);
    AtShape(l, me, opp, wr, c, prev);
    RowStep(l, me, opp, wr, acc, c, prev, AddWallsAt(l, me, opp, wr, c, prev));
  }

  /** The candidates of row wr in columns 0 .. k-1, in column order. */
  lemma {:induction false} RowShape(l: Layout, me: Pawn, opp: Pawn, wr: int, acc: seq<Action>, k: nat)
    requires l.WellFormed()
    ensures RowShaped(l, me, opp, wr, acc, k, AddWallsInRow(l, me, opp, wr, acc, k))
  {
    if k > 0 {
      RowShape(l, me, opp, wr, acc, k - 1);
      RowAdvance(l, me, opp, wr, acc, k - 1);
    }
  }

  /** The candidates of rows 0 .. k-1, row-major. */
  lemma {:induction false} RowsShape(l: Layout, me: Pawn, opp: Pawn, n: nat, acc: seq<Action>, k: nat)
    requires l.WellFormed()
    ensures var r := AddWallRows(l, me, opp, n, acc, k);
      && |acc| <= |r| && r[..|acc|] == acc
      && (forall j :: |acc| <= j < |r| ==> WallCandidate(l, me, opp, r[j]) && r[j].wr < k)
      && (forall i, j :: |acc| <= i < j < |r| ==> WallBefore(r[i], r[j]))
      && (forall a :: WallCandidate(l, me, opp, a) && a.wr < k && a.wc < n ==> a in r[|acc|..])
  {
    if k > 0 {
      var prev := AddWallRows(l, me, opp, n, acc, k - 1);
      var r := AddWallRows(l, me, opp, n, acc, k);
      RowsShape(l, me, opp, n, acc, k - 1);
      RowShape(l, me, opp, k - 1, prev, n);
      assert r[..|prev|] == prev;
      assert r[..|acc|] == prev[..|acc|];
      assert forall j :: |acc| <= j < |prev| ==> r[j] == prev[j];
      forall i, j | |acc| <= i < j < |r|
        ensures WallBefore(r[i], r[j])
      {
        if i < |prev| && |prev| <= j {
          assert r[i].wr < k - 1 == r[j].wr;
        }
      }
      forall a | WallCandidate(l, me, opp, a) && a.wr < k && a.wc < n
        ensures a in r[|acc|..]
      {
        if a.wr < k - 1 {
          var j :| |acc| <= j < |prev| && prev[j] == a;
          assert r[j] == a;
        } else {
          var j :| |prev| <= j < |r| && r[j] == a;
        }
      }
    }
  }

  /**
   * _generate_actions: the pawn moves in legal_moves order, then (only when the player has walls
   * left) exactly the placeable walls near either pawn, row-major with H before V.
   */
  lemma ActionsShape(s: State, idx: int)
    requires s.WellFormed() && (idx == 0 || idx == 1)
    ensures var acts, me, opp := Actions(s, idx), s.Get(idx), s.Get(1 - idx);
      var moves := MoveActions(Rules.LegalMoveList(s.layout, me.Pos(), opp.Pos()));
      && |moves| <= |acts| && acts[..|moves|] == moves
      && (me.walls <= 0 ==> acts == moves)
      && (forall j :: |moves| <= j < |acts| ==> WallCandidate(s.layout, me, opp, acts[j]))
      && (forall i, j :: |moves| <= i < j < |acts| ==> WallBefore(acts[i], acts[j]))
      && (forall a :: me.walls > 0 && WallCandidate(s.layout, me, opp, a) ==> a in acts[|moves|..])
  {
    var me, opp := s.Get(idx), s.Get(1 - idx);
    var moves := MoveActions(Rules.LegalMoveList(s.layout, me.Pos(), opp.Pos()));
    var n := Dim(s.layout.size);
    RowsShape(s.layout, me, opp, n, moves, n);
  }

  /** Membership in the candidate list. */
  lemma ActionsMembers(s: State, idx: int, a: Action)
    requires s.WellFormed() && (idx == 0 || idx == 1)
    ensures a in Actions(s, idx) <==>
      || (a.Move? && (a.r, a.c) in Rules.LegalMoveList(s.layout, s.Get(idx).Pos(), s.Get(1 - idx).Pos()))
      || (s.Get(idx).walls > 0 && WallCandidate(s.layout, s.Get(idx), s.Get(1 - idx), a))
  {
    var acts, me, opp := Actions(s, idx), s.Get(idx), s.Get(1 - idx);
    var cells := Rules.LegalMoveList(s.layout, me.Pos(), opp.Pos());
    var moves := MoveActions(cells);
    ActionsShape(s, idx);
    if a in acts {
      var j :| 0 <= j < |acts| && acts[j] == a;
      if j < |moves| {
        assert moves[j] == a;
        assert cells[j] == (a.r, a.c);
      }
    }
    if a.Move? && (a.r, a.c) in cells {
      var j :| 0 <= j < |cells| && cells[j] == (a.r, a.c);
      assert acts[..|moves|][j] == a;
    }
    if me.walls > 0 && WallCandidate(s.layout, me, opp, a) {
      var j :| |moves| <= j < |acts| && acts[j] == a;
    }
  }

  // ---------------------------------------------------------------------------------------------
  // The root's ordering: a stable sort with key 0 for moves and 1 for walls

  lemma {:induction false} MovesOfAppend(x: seq<Action>, y: seq<Action>)
    ensures MovesOf(x + y) == MovesOf(x) + MovesOf(y)
    ensures WallsOf(x + y) == WallsOf(x) + WallsOf(y)
    decreases |y|
  {
    if y == [] {
      assert x + y == x;
    } else {
      assert (x + y)[..|x + y| - 1] == x + y[..|y| - 1];
      MovesOfAppend(x, y[..|y| - 1]);
    }
  }

  /** MovesOf keeps only moves and WallsOf only walls. */
  lemma {:induction false} MovesOfKinds(x: seq<Action>)
    ensures forall j :: 0 <= j < |MovesOf(x)| ==> MovesOf(x)[j].Move?
    ensures forall j :: 0 <= j < |WallsOf(x)| ==> WallsOf(x)[j].Wall?
    decreases |x|
  {
    if x != [] {
      var init, last := x[..|x| - 1], x[|x| - 1];
      MovesOfKinds(init);
      var m, w := MovesOf(init), WallsOf(init);
      assert MovesOf(x) == m + (if last.Move? then [last] else []);
      assert WallsOf(x) == w + (if last.Wall? then [last] else []);
    }
  }

  /** Together MovesOf and WallsOf hold every element of the list exactly once. */
  lemma {:induction false} MovesOfSplit(x: seq<Action>)
    ensures multiset(MovesOf(x)) + multiset(WallsOf(x)) == multiset(x)
    decreases |x|
  {
    if x != [] {
      var init := x[..|x| - 1];
      MovesOfSplit(init);
      assert x == init + [x[|x| - 1]];
    }
  }

  lemma {:induction false} MovesOfAllMoves(x: seq<Action>)
    requires forall j :: 0 <= j < |x| ==> x[j].Move?
    ensures MovesOf(x) == x && WallsOf(x) == []
    decreases |x|
  {
    if x != [] {
      var init := x[..|x| - 1];
      MovesOfAllMoves(init);
      assert x == init + [x[|x| - 1]];
    }
  }

  lemma {:induction false} WallsOfAllWalls(x: seq<Action>)
    requires forall j :: 0 <= j < |x| ==> x[j].Wall?
    ensures WallsOf(x) == x && MovesOf(x) == []
    decreases |x|
  {
    if x != [] {
      var init := x[..|x| - 1];
      WallsOfAllWalls(init);
      assert x == init + [x[|x| - 1]];
    }
  }

  /** The sorted list is a permutation with every move ahead of every wall. */
  lemma MovesFirstSorted(acts: seq<Action>)
    ensures multiset(MovesFirst(acts)) == multiset(acts)
    ensures forall i, j :: 0 <= i < j < |MovesFirst(acts)| && MovesFirst(acts)[i].Wall? ==> MovesFirst(acts)[j].Wall?
  {
    var m, w := MovesOf(acts), WallsOf(acts);
    var r: seq<Action> := m + w;
    MovesOfKinds(acts);
    MovesOfSplit(acts);
    assert forall i :: 0 <= i < |m| ==> r[i] == m[i];
    assert forall j :: |m| <= j < |r| ==> r[j] == w[j - |m|];
  }

  /** The sort is stable: the moves and the walls each keep their relative order. */
  lemma MovesFirstStable(acts: seq<Action>)
    ensures MovesOf(MovesFirst(acts)) == MovesOf(acts)
    ensures WallsOf(MovesFirst(acts)) == WallsOf(acts)
  {
    var m, w := MovesOf(acts), WallsOf(acts);
    MovesOfKinds(acts);
    MovesOfAppend(m, w);
    MovesOfAllMoves(m);
    WallsOfAllWalls(w);
  }

  /** A list that already has its moves ahead of its walls is left as it is. */
  lemma MovesFirstOfSorted(moves: seq<Action>, walls: seq<Action>)
    requires forall j :: 0 <= j < |moves| ==> moves[j].Move?
    requires forall j :: 0 <= j < |walls| ==> walls[j].Wall?
    ensures MovesFirst(moves + walls) == moves + walls
  {
    MovesOfAppend(moves, walls);
    MovesOfAllMoves(moves);
    WallsOfAllWalls(walls);
  }

  /** _generate_actions already lists the moves first, so the root's sort leaves its list as it is. */
  lemma MovesFirstActions(s: State, idx: int)
    requires s.WellFormed() && (idx == 0 || idx == 1)
    ensures MovesFirst(Actions(s, idx)) == Actions(s, idx)
  {
    var acts := Actions(s, idx);
    var moves := MoveActions(Rules.LegalMoveList(s.layout, s.Get(idx).Pos(), s.Get(1 - idx).Pos()));
    ActionsShape(s, idx);
    var walls := acts[|moves|..];
    assert acts == moves + walls;
    forall j | 0 <= j < |walls|
      ensures walls[j].Wall?
    {
      assert walls[j] == acts[|moves| + j];
    }
    MovesFirstOfSorted(moves, walls);
  }

  // ---------------------------------------------------------------------------------------------
  // Plain minimax and the root's choice

  /**
   * What a node's value f after its first k actions satisfies: it bounds every applicable child's
   * score (from above when maximizing, from below when minimizing), it is the starting -inf or +inf
   * when no child applies, and otherwise it is the starting value or some child's score.
   */
  ghost predicate FoldInvariant(s: State, acts: seq<Action>, depth: nat, maximizing: bool, ai: int, k: nat, f: Score)
    requires s.WellFormed() && (ai == 0 || ai == 1) && depth >= 1 && k <= |acts|
  {
    && (forall j :: 0 <= j < k && ChildScore(s, s.current, acts[j], depth, !maximizing, ai).Some? ==>
          var m := ChildScore(s, s.current, acts[j], depth, !maximizing, ai).value;
          if maximizing then Le(m, f) else Le(f, m))
    && ((forall j :: 0 <= j < k ==> ChildScore(s, s.current, acts[j], depth, !maximizing, ai).None?) ==>
          f == (if maximizing then NegInf else PosInf))
    && (f == (if maximizing then NegInf else PosInf) ||
          exists j :: 0 <= j < k && ChildScore(s, s.current, acts[j], depth, !maximizing, ai) == Some(f))
  }

  /** A child that does not apply leaves the node's invariant as it was. */
  lemma FoldSkip(s: State, acts: seq<Action>, depth: nat, maximizing: bool, ai: int, k: nat, f: Score)
    requires s.WellFormed() && (ai == 0 || ai == 1) && depth >= 1 && 0 < k <= |acts|
    requires FoldInvariant(s, acts, depth, maximizing, ai, k - 1, f)
    requires ChildScore(s, s.current, acts[k - 1], depth, !maximizing, ai).None?
    ensures FoldInvariant(s, acts, depth, maximizing, ai, k, f)
  {
    if f != (if maximizing then NegInf else PosInf) {
      var j :| 0 <= j < k - 1 && ChildScore(s, s.current, acts[j], depth, !maximizing, ai) == Some(f);
    }
  }

  /** An applicable child's score m is combined with max or min. */
  lemma FoldCombine(s: State, acts: seq<Action>, depth: nat, maximizing: bool, ai: int, k: nat, f: Score, m: Score)
    requires s.WellFormed() && (ai == 0 || ai == 1) && depth >= 1 && 0 < k <= |acts|
    requires FoldInvariant(s, acts, depth, maximizing, ai, k - 1, f)
    requires ChildScore(s, s.current, acts[k - 1], depth, !maximizing, ai) == Some(m)
    ensures FoldInvariant(s, acts, depth, maximizing, ai, k, if maximizing then Max(f, m) else Min(f, m))
  {
    var f' := if maximizing then Max(f, m) else Min(f, m);
    forall j | 0 <= j < k && ChildScore(s, s.current, acts[j], depth, !maximizing, ai).Some?
      ensures var mj := ChildScore(s, s.current, acts[j], depth, !maximizing, ai).value;
        if maximizing then Le(mj, f') else Le(f', mj)
    {
      var mj := ChildScore(s, s.current, acts[j], depth, !maximizing, ai).value;
      LeTotal(mj, f, f');
      LeTotal(f', f, mj);
    }
    if f' == f && f != (if maximizing then NegInf else PosInf) {
      var j :| 0 <= j < k - 1 && ChildScore(s, s.current, acts[j], depth, !maximizing, ai) == Some(f);
    }
  }

  /**
   * A maximizing node's value is the largest score of its applicable children, and -inf when no
   * child applies; a minimizing node's is the smallest, and +inf when no child applies.
   */
  lemma {:induction false} FoldBest(s: State, acts: seq<Action>, depth: nat, maximizing: bool, ai: int, k: nat)
    requires s.WellFormed() && (ai == 0 || ai == 1) && depth >= 1 && k <= |acts|
    ensures FoldInvariant(s, acts, depth, maximizing, ai, k, Fold(s, acts, depth, maximizing, ai, k))
    decreases k
  {
    if k > 0 {
      FoldBest(s, acts, depth, maximizing, ai, k - 1);
      var prev := Fold(s, acts, depth, maximizing, ai, k - 1);
      match ChildScore(s, s.current, acts[k - 1], depth, !maximizing, ai)
      case None =>
        FoldSkip(s, acts, depth, maximizing, ai, k, prev);
      case Some(m) =>
        FoldCombine(s, acts, depth, maximizing, ai, k, prev, m);
    }
  }

  /** What RootFold keeps after k actions, with c(j) the score of action j and b the best score. */
  ghost predicate RootInvariant(s: State, acts: seq<Action>, depth: nat, idx: int, k: nat, best: Score, choice: Option<Action>)
    requires s.WellFormed() && (idx == 0 || idx == 1) && depth >= 1 && k <= |acts|
  {
    // no applicable action scores above b
    && (forall j :: 0 <= j < k && ChildScore(s, idx, acts[j], depth, false, idx).Some? ==>
          Le(ChildScore(s, idx, acts[j], depth, false, idx).value, best))
    // no choice exactly when every applicable action scores -inf; b is then -inf
    && (choice.None? <==>
          forall j :: 0 <= j < k && ChildScore(s, idx, acts[j], depth, false, idx).Some? ==>
            ChildScore(s, idx, acts[j], depth, false, idx).value == NegInf)
    && (choice.None? ==> best == NegInf)
    // otherwise the choice is the first action reaching b
    && (choice.Some? ==>
          exists j :: 0 <= j < k && acts[j] == choice.value && ChildScore(s, idx, acts[j], depth, false, idx) == Some(best)
            && forall i :: 0 <= i < j && ChildScore(s, idx, acts[i], depth, false, idx).Some? ==>
                 Lt(ChildScore(s, idx, acts[i], depth, false, idx).value, best))
  }

  /** An action that does not apply leaves the root's invariant as it was. */
  lemma RootSkip(s: State, acts: seq<Action>, depth: nat, idx: int, k: nat, b: Score, ch: Option<Action>)
    requires s.WellFormed() && (idx == 0 || idx == 1) && depth >= 1 && 0 < k <= |acts|
    requires RootInvariant(s, acts, depth, idx, k - 1, b, ch)
    requires ChildScore(s, idx, acts[k - 1], depth, false, idx).None?
    ensures RootInvariant(s, acts, depth, idx, k, b, ch)
  {
    if ch.Some? {
      var j :| 0 <= j < k - 1 && acts[j] == ch.value && ChildScore(s, idx, acts[j], depth, false, idx) == Some(b)
        && forall i :: 0 <= i < j && ChildScore(s, idx, acts[i], depth, false, idx).Some? ==>
             Lt(ChildScore(s, idx, acts[i], depth, false, idx).value, b);
    }
  }

  /** An action scoring strictly above the best so far becomes the choice. */
  lemma RootImprove(s: State, acts: seq<Action>, depth: nat, idx: int, k: nat, b: Score, ch: Option<Action>, m: Score)
    requires s.WellFormed() && (idx == 0 || idx == 1) && depth >= 1 && 0 < k <= |acts|
    requires RootInvariant(s, acts, depth, idx, k - 1, b, ch)
    requires ChildScore(s, idx, acts[k - 1], depth, false, idx) == Some(m) && Lt(b, m)
    ensures RootInvariant(s, acts, depth, idx, k, m, Some(acts[k - 1]))
  {
    forall j | 0 <= j < k && ChildScore(s, idx, acts[j], depth, false, idx).Some?
      ensures Le(ChildScore(s, idx, acts[j], depth, false, idx).value, m)
    {
      LeTotal(ChildScore(s, idx, acts[j], depth, false, idx).value, b, m);
    }
    forall i | 0 <= i < k - 1 && ChildScore(s, idx, acts[i], depth, false, idx).Some?
      ensures Lt(ChildScore(s, idx, acts[i], depth, false, idx).value, m)
    {
      LeTotal(ChildScore(s, idx, acts[i], depth, false, idx).value, b, m);
    }
  }

  /** An action scoring at most the best so far leaves best and choice as they are. */
  lemma RootKeep(s: State, acts: seq<Action>, depth: nat, idx: int, k: nat, b: Score, ch: Option<Action>, m: Score)
    requires s.WellFormed() && (idx == 0 || idx == 1) && depth >= 1 && 0 < k <= |acts|
    requires RootInvariant(s, acts, depth, idx, k - 1, b, ch)
    requires ChildScore(s, idx, acts[k - 1], depth, false, idx) == Some(m) && !Lt(b, m)
    ensures RootInvariant(s, acts, depth, idx, k, b, ch)
  {
    LeTotal(m, b, b);
    if ch.Some? {
      var j :| 0 <= j < k - 1 && acts[j] == ch.value && ChildScore(s, idx, acts[j], depth, false, idx) == Some(b)
        && forall i :: 0 <= i < j && ChildScore(s, idx, acts[i], depth, false, idx).Some? ==>
             Lt(ChildScore(s, idx, acts[i], depth, false, idx).value, b);
    }
  }

  /** RootFold picks the first action whose score is strictly greatest, or none if all score -inf. */
  lemma {:induction false} RootFoldBest(s: State, acts: seq<Action>, depth: nat, idx: int, k: nat)
    requires s.WellFormed() && (idx == 0 || idx == 1) && depth >= 1 && k <= |acts|
    ensures RootInvariant(s, acts, depth, idx, k, RootFold(s, acts, depth, idx, k).0, RootFold(s, acts, depth, idx, k).1)
    decreases k
  {
    if k > 0 {
      RootFoldBest(s, acts, depth, idx, k - 1);
      var (b, ch) := RootFold(s, acts, depth, idx, k - 1);
      match ChildScore(s, idx, acts[k - 1], depth, false, idx)
      case None =>
        RootSkip(s, acts, depth, idx, k, b, ch);
      case Some(m) =>
        if Lt(b, m) {
          RootImprove(s, acts, depth, idx, k, b, ch, m);
        } else {
          RootKeep(s, acts, depth, idx, k, b, ch, m);
        }
    }
  }

  /**
   * choose_move: the chosen action is one of the generated actions, it applies, and it is the first
   * in the root's order whose score is strictly greatest; there is no choice exactly when every
   * applicable action scores -inf, which includes the case where none applies.
   */
  lemma RootChoiceBest(s: State, idx: int, depth: nat)
    requires s.WellFormed() && (idx == 0 || idx == 1) && depth >= 1
    ensures var acts := MovesFirst(Actions(s, idx));
      var (best, choice) := RootChoice(s, idx, depth);
      && RootInvariant(s, acts, depth, idx, |acts|, best, choice)
      && (choice.Some? ==> choice.value in Actions(s, idx) && Apply(s, idx, choice.value).Some?)
  {
    var acts := MovesFirst(Actions(s, idx));
    MovesFirstSorted(Actions(s, idx));
    RootFoldBest(s, acts, depth, idx, |acts|);
    var choice := RootChoice(s, idx, depth).1;
    if choice.Some? {
      var j :| 0 <= j < |acts| && acts[j] == choice.value && ChildScore(s, idx, acts[j], depth, false, idx).Some?;
      assert acts[j] in multiset(acts);
    }
  }

  // ---------------------------------------------------------------------------------------------
  // The two players' views

  /** The outcome of an applied action is won by one of the two players or by nobody. */
  predicate DecidedByPlayer(s: State) {
    s.winner.Some? ==> s.winner.value == 0 || s.winner.value == 1
  }

  lemma ApplyDecidedByPlayer(s: State, idx: int, a: Action)
    requires s.WellFormed() && Apply(s, idx, a).Some?
    ensures DecidedByPlayer(Apply(s, idx, a).value)
  {
  }

  /** Every successful action keeps a game playable: pawns inside and apart, walls >= 0, paths for both. */
  lemma ApplyPreservesPlayable(s: State, idx: int, a: Action)
    requires Playable(s) && Apply(s, idx, a).Some?
    ensures Playable(Apply(s, idx, a).value)
  {
    match a
    case Move(r, c) => MovePreservesPlayable(s, idx, r, c);
    case Wall(o, wr, wc) => WallPreservesPlayable(s, idx, o, wr, wc);
  }

  /** The leaf score is antisymmetric: what one player gains the other loses. */
  lemma HeuristicAntisymmetric(s: State)
    requires s.WellFormed()
    ensures Heuristic(s, 0) == -Heuristic(s, 1)
  {
  }

  /** A score seen from the other side. */
  function Negate(a: Score): Score {
    match a
    case NegInf => PosInf
    case Fin(n) => Fin(-n)
    case PosInf => NegInf
  }

  lemma NegateMax(a: Score, b: Score)
    ensures Negate(Max(a, b)) == Min(Negate(a), Negate(b))
    ensures Negate(Min(a, b)) == Max(Negate(a), Negate(b))
  {
  }

  /**
   * The search is zero-sum: the value of a node for ai maximizing is minus its value for the
   * opponent minimizing, since terminal scores and the heuristic are both antisymmetric.
   */
  lemma {:induction false} GameValueZeroSum(s: State, depth: nat, maximizing: bool, ai: int)
    requires s.WellFormed() && (ai == 0 || ai == 1) && DecidedByPlayer(s)
    ensures GameValue(s, depth, maximizing, ai) == Negate(GameValue(s, depth, !maximizing, 1 - ai))
    decreases depth, 1
  {
    if s.winner.None? && depth > 0 {
      var acts := Actions(s, s.current);
      FoldZeroSum(s, acts, depth, maximizing, ai, |acts|);
    }
  }

  lemma {:induction false} FoldZeroSum(s: State, acts: seq<Action>, depth: nat, maximizing: bool, ai: int, k: nat)
    requires s.WellFormed() && (ai == 0 || ai == 1) && depth >= 1 && k <= |acts|
    ensures Fold(s, acts, depth, maximizing, ai, k) == Negate(Fold(s, acts, depth, !maximizing, 1 - ai, k))
    decreases depth, 0, k
  {
    if k > 0 {
      FoldZeroSum(s, acts, depth, maximizing, ai, k - 1);
      var a := acts[k - 1];
      match Apply(s, s.current, a)
      case None =>
      case Some(c) =>
        ApplyDecidedByPlayer(s, s.current, a);
        GameValueZeroSum(c, depth - 1, !maximizing, ai);
        NegateMax(Fold(s, acts, depth, !maximizing, 1 - ai, k - 1), GameValue(c, depth - 1, maximizing, 1 - ai));
    }
  }

  // ---------------------------------------------------------------------------------------------
  // Wins outrank positional play

  /** A successful action by the player to move is won by that player or by nobody. */
  lemma ApplyWinner(s: State, idx: int, a: Action)
    requires s.WellFormed() && s.winner.None? && Apply(s, idx, a).Some?
    ensures Apply(s, idx, a).value.winner.None? || Apply(s, idx, a).value.winner == Some(idx)
  {
    match a
    case Move(r, c) => MoveOutcome(s, idx, r, c);
    case Wall(o, wr, wc) => WallOutcome(s, idx, o, wr, wc);
  }

  /**
   * At depth 1 a child of the root scores the win score when the mover has just won, and its
   * heuristic otherwise.
   */
  lemma DepthOneChild(s: State, idx: int, a: Action)
    requires s.WellFormed() && (idx == 0 || idx == 1) && s.winner.None? && Apply(s, idx, a).Some?
    ensures var t := Apply(s, idx, a).value;
      ChildScore(s, idx, a, 1, false, idx) == Some(if t.winner.Some? then Fin(WinScore) else Fin(Heuristic(t, idx)))
  {
    ApplyWinner(s, idx, a);
  }

  /** When some action scores a finite value at the root, there is a choice and its score is at least that value. */
  lemma FiniteScoreForcesChoice(s: State, acts: seq<Action>, depth: nat, idx: int, best: Score, choice: Option<Action>,
                                k: nat, n: int)
    requires s.WellFormed() && (idx == 0 || idx == 1) && depth >= 1
    requires RootInvariant(s, acts, depth, idx, |acts|, best, choice)
    requires k < |acts| && ChildScore(s, idx, acts[k], depth, false, idx) == Some(Fin(n))
    ensures choice.Some? && Le(Fin(n), best)
    ensures exists j :: 0 <= j < |acts| && acts[j] == choice.value && ChildScore(s, idx, acts[j], depth, false, idx) == Some(best)
  {
  }

  /**
   * When a generated action scores a finite value n, choose_move picks a generated action whose
   * score is the root's best, and that best is at least n.
   */
  lemma ChoiceAtLeast(s: State, idx: int, depth: nat, a: Action, n: int)
    requires s.WellFormed() && (idx == 0 || idx == 1) && depth >= 1
    requires a in Actions(s, idx) && ChildScore(s, idx, a, depth, false, idx) == Some(Fin(n))
    ensures var (best, choice) := RootChoice(s, idx, depth);
      && choice.Some? && Le(Fin(n), best) && choice.value in Actions(s, idx)
      && ChildScore(s, idx, choice.value, depth, false, idx) == Some(best)
  {
    var acts := MovesFirst(Actions(s, idx));
    var best, choice := RootChoice(s, idx, depth).0, RootChoice(s, idx, depth).1;
    RootChoiceBest(s, idx, depth);
    MovesFirstSorted(Actions(s, idx));
    assert a in multiset(acts);
    var k :| 0 <= k < |acts| && acts[k] == a;
    FiniteScoreForcesChoice(s, acts, depth, idx, best, choice, k, n);
  }

  /**
   * With depth 1, when player idx has a pawn move onto its goal row and every applicable action
   * that does not win scores below the win score, choose_move returns a winning pawn move.
   */
  lemma WinningMoveChosen(s: State, idx: int, r: int, c: int)
    requires s.WellFormed() && (idx == 0 || idx == 1)
    requires MoveResult(s, idx, r, c).Some? && r in GoalRows(s.layout.size, idx)
    requires forall a :: a in Actions(s, idx) && Apply(s, idx, a).Some? && Apply(s, idx, a).value.winner.None? ==>
      Heuristic(Apply(s, idx, a).value, idx) < WinScore
    ensures RootChoice(s, idx, 1).1.Some?
    ensures var a := RootChoice(s, idx, 1).1.value;
      a.Move? && Apply(s, idx, a).Some? && Apply(s, idx, a).value.winner == Some(idx)
  {
    MoveOutcome(s, idx, r, c);
    var w := Move(r, c);
    ActionsMembers(s, idx, w);
    DepthOneChild(s, idx, w);
    ChoiceAtLeast(s, idx, 1, w, WinScore);
    var a := RootChoice(s, idx, 1).1.value;
    DepthOneChild(s, idx, a);
    if a.Wall? {
      WallOutcome(s, idx, a.o, a.wr, a.wc);
    }
  }
}

/**
 * Board geometry and wall storage (game/board.py).
 *
 * A board of side `size` has two (size-1) x (size-1) grids of wall segments.
 * A horizontal segment at (wr, wc) lies under cells (wr, wc) and (wr, wc+1);
 * a vertical segment at (wr, wc) lies right of cells (wr, wc) and (wr+1, wc).
 */
module Boards {

  /** A cell as (row, column). */
  type Cell = (int, int)

  /** BOARD_N, the default side length. */
  const DefaultSize: int := 9

  /** The four orthogonal steps, in the order the source tries them: down, up, right, left. */
  const Directions: seq<(int, int)> := [(1, 0), (-1, 0), (0, 1), (0, -1)]

  function Next(x: Cell, d: (int, int)): Cell {
    (x.0 + d.0, x.1 + d.1)
  }

  function Abs(x: int): nat {
    if x < 0 then -x else x
  }

  /** Side of a wall grid: `size - 1`, or 0 when Python's `[False] * s` would be empty. */
  function Dim(size: int): nat {
    if size >= 1 then size - 1 else 0
  }

  ghost predicate Square(g: seq<seq<bool>>, n: nat) {
    |g| == n && forall i :: 0 <= i < n ==> |g[i]| == n
  }

  /** An all-False n x n grid. */
  function EmptyGrid(n: nat): (g: seq<seq<bool>>)
    ensures Square(g, n)
    ensures forall i, j :: 0 <= i < n && 0 <= j < n ==> !g[i][j]
  {
    seq(n, _ => seq(n, _ => false))
  }

  /** The value of a board: its size and its two wall grids. */
  datatype Layout = Layout(size: int, h: seq<seq<bool>>, v: seq<seq<bool>>)
  {
    ghost predicate WellFormed() {
      Square(h, Dim(size)) && Square(v, Dim(size))
    }

    /** Board.inside */
    predicate Inside(r: int, c: int) {
      0 <= r < size && 0 <= c < size
    }

    /** A wall index within [0, size-2] on both axes. */
    predicate InRange(wr: int, wc: int) {
      0 <= wr < size - 1 && 0 <= wc < size - 1
    }

    /** Board.can_place_horizontal */
    predicate CanPlaceH(wr: int, wc: int)
      requires WellFormed()
    {
      if !InRange(wr, wc) then false
      else if h[wr][wc] then false
      else true
    }

    /** Board.can_place_vertical */
    predicate CanPlaceV(wr: int, wc: int)
      requires WellFormed()
    {
      if !InRange(wr, wc) then false
      else if v[wr][wc] then false
      else true
    }

    /** The layout with h[wr][wc] set to b and nothing else changed. */
    function WithH(wr: int, wc: int, b: bool): (l: Layout)
      requires WellFormed() && InRange(wr, wc)
      ensures l.WellFormed() && l.size == size && l.v == v
      ensures l.h[wr][wc] == b
      ensures forall i, j :: 0 <= i < Dim(size) && 0 <= j < Dim(size) && (i, j) != (wr, wc) ==> l.h[i][j] == h[i][j]
    {
      Layout(size, h[wr := h[wr][wc := b]], v)
    }

    /** The layout with v[wr][wc] set to b and nothing else changed. */
    function WithV(wr: int, wc: int, b: bool): (l: Layout)
      requires WellFormed() && InRange(wr, wc)
      ensures l.WellFormed() && l.size == size && l.h == h
      ensures l.v[wr][wc] == b
      ensures forall i, j :: 0 <= i < Dim(size) && 0 <= j < Dim(size) && (i, j) != (wr, wc) ==> l.v[i][j] == v[i][j]
    {
      Layout(size, h, v[wr := v[wr][wc := b]])
    }

    /** The edge between (r, c) and (r+1, c) is crossed by the horizontal segment at (r, c) or (r, c-1). */
    predicate HorizontalWallBelow(r: int, c: int)
      requires WellFormed()
    {
      (InRange(r, c) && h[r][c]) || (InRange(r, c - 1) && h[r][c - 1])
    }

    /** The edge between (r, c) and (r, c+1) is crossed by the vertical segment at (r, c) or (r-1, c). */
    predicate VerticalWallRight(r: int, c: int)
      requires WellFormed()
    {
      (InRange(r, c) && v[r][c]) || (InRange(r - 1, c) && v[r - 1][c])
    }

    /** Board.is_blocked */
    predicate IsBlocked(r1: int, c1: int, r2: int, c2: int)
      requires WellFormed()
    {
      if !(Inside(r1, c1) && Inside(r2, c2)) then true
      else
        var dr, dc := r2 - r1, c2 - c1;
        if Abs(dr) + Abs(dc) != 1 then true
        else if dr == 1 && dc == 0 then HorizontalWallBelow(r1, c1)
        else if dr == -1 && dc == 0 then HorizontalWallBelow(r2, c2)
        else if dc == 1 && dr == 0 then VerticalWallRight(r1, c1)
        else if dc == -1 && dr == 0 then VerticalWallRight(r2, c2)
        else true
    }
  }

  /** The board a new game starts with: both grids all False. */
  function FreshLayout(size: int): (l: Layout)
    ensures l.WellFormed() && l.size == size
    ensures |l.h| == Dim(size) && |l.v| == Dim(size)
    ensures forall i, j :: 0 <= i < Dim(size) && 0 <= j < Dim(size) ==> !l.h[i][j] && !l.v[i][j]
  {
    Layout(size, EmptyGrid(Dim(size)), EmptyGrid(Dim(size)))
  }

  /** Off-board cells and cells that are not orthogonal neighbours are always blocked. */
  lemma BlockedUnlessOpenNeighbour(l: Layout, r1: int, c1: int, r2: int, c2: int)
    requires l.WellFormed()
    requires !l.Inside(r1, c1) || !l.Inside(r2, c2) || Abs(r2 - r1) + Abs(c2 - c1) != 1
    ensures l.IsBlocked(r1, c1, r2, c2)
  {
  }

  /** Blocking does not depend on the direction in which an edge is crossed. */
  lemma BlockedSymmetric(l: Layout, r1: int, c1: int, r2: int, c2: int)
    requires l.WellFormed()
    ensures l.IsBlocked(r1, c1, r2, c2) == l.IsBlocked(r2, c2, r1, c1)
  {
  }

  /** A step between rows r and r+1 in column c is blocked exactly when a horizontal segment of row r covers column c. */
  lemma VerticalStepBlockedIff(l: Layout, r: int, c: int)
    requires l.WellFormed() && l.Inside(r, c) && l.Inside(r + 1, c)
    ensures l.IsBlocked(r, c, r + 1, c) <==> exists wc :: c - 1 <= wc <= c && l.InRange(r, wc) && l.h[r][wc]
  {
    if l.IsBlocked(r, c, r + 1, c) {
      if l.InRange(r, c) && l.h[r][c] {
        assert c - 1 <= c <= c;
      } else {
        assert c - 1 <= c - 1 <= c;
      }
    }
  }

  /** A step between columns c and c+1 in row r is blocked exactly when a vertical segment of column c covers row r. */
  lemma HorizontalStepBlockedIff(l: Layout, r: int, c: int)
    requires l.WellFormed() && l.Inside(r, c) && l.Inside(r, c + 1)
    ensures l.IsBlocked(r, c, r, c + 1) <==> exists wr :: r - 1 <= wr <= r && l.InRange(wr, c) && l.v[wr][c]
  {
    if l.IsBlocked(r, c, r, c + 1) {
      if l.InRange(r, c) && l.v[r][c] {
        assert r - 1 <= r <= r;
      } else {
        assert r - 1 <= r - 1 <= r;
      }
    }
  }

  /** A horizontal segment spans two cell widths: it blocks columns wc and wc+1 between rows wr and wr+1. */
  lemma HorizontalSegmentSpan(l: Layout, wr: int, wc: int)
    requires l.WellFormed() && l.InRange(wr, wc) && l.h[wr][wc]
    ensures l.IsBlocked(wr, wc, wr + 1, wc) && l.IsBlocked(wr + 1, wc, wr, wc)
    ensures l.IsBlocked(wr, wc + 1, wr + 1, wc + 1) && l.IsBlocked(wr + 1, wc + 1, wr, wc + 1)
  {
  }

  /** A vertical segment spans two cell heights: it blocks rows wr and wr+1 between columns wc and wc+1. */
  lemma VerticalSegmentSpan(l: Layout, wr: int, wc: int)
    requires l.WellFormed() && l.InRange(wr, wc) && l.v[wr][wc]
    ensures l.IsBlocked(wr, wc, wr, wc + 1) && l.IsBlocked(wr, wc + 1, wr, wc)
    ensures l.IsBlocked(wr + 1, wc, wr + 1, wc + 1) && l.IsBlocked(wr + 1, wc + 1, wr + 1, wc)
  {
  }

  /**
   * Placing a horizontal segment only makes that same index unplaceable: a vertical segment at
   * the same index (a crossing) and touching collinear segments are still accepted.
   */
  lemma HorizontalPlacementPermissive(l: Layout, wr: int, wc: int, a: int, b: int)
    requires l.WellFormed() && l.InRange(wr, wc)
    ensures l.WithH(wr, wc, true).CanPlaceV(a, b) == l.CanPlaceV(a, b)
    ensures (a, b) != (wr, wc) ==> l.WithH(wr, wc, true).CanPlaceH(a, b) == l.CanPlaceH(a, b)
    ensures !l.WithH(wr, wc, true).CanPlaceH(wr, wc)
  {
  }

  /** The same for vertical segments. */
  lemma VerticalPlacementPermissive(l: Layout, wr: int, wc: int, a: int, b: int)
    requires l.WellFormed() && l.InRange(wr, wc)
    ensures l.WithV(wr, wc, true).CanPlaceH(a, b) == l.CanPlaceH(a, b)
    ensures (a, b) != (wr, wc) ==> l.WithV(wr, wc, true).CanPlaceV(a, b) == l.CanPlaceV(a, b)
    ensures !l.WithV(wr, wc, true).CanPlaceV(wr, wc)
  {
  }

  /** Placing then removing a horizontal segment on a free index gives back the same layout. */
  lemma PlaceRemoveHorizontalRestores(l: Layout, wr: int, wc: int)
    requires l.WellFormed() && l.InRange(wr, wc) && !l.h[wr][wc]
    ensures l.WithH(wr, wc, true).WithH(wr, wc, false) == l
  {
    var l' := l.WithH(wr, wc, true).WithH(wr, wc, false);
    assert l'.h[wr] == l.h[wr];
    assert l'.h == l.h;
  }

  /** Placing then removing a vertical segment on a free index gives back the same layout. */
  lemma PlaceRemoveVerticalRestores(l: Layout, wr: int, wc: int)
    requires l.WellFormed() && l.InRange(wr, wc) && !l.v[wr][wc]
    ensures l.WithV(wr, wc, true).WithV(wr, wc, false) == l
  {
    var l' := l.WithV(wr, wc, true).WithV(wr, wc, false);
    assert l'.v[wr] == l.v[wr];
    assert l'.v == l.v;
  }

  /** An unblocked edge always leads to one of the four neighbours of its first cell, inside the board. */
  lemma OpenEdgeIsStep(l: Layout, a: Cell, b: Cell)
    requires l.WellFormed() && !l.IsBlocked(a.0, a.1, b.0, b.1)
    ensures l.Inside(a.0, a.1) && l.Inside(b.0, b.1)
    ensures exists i :: 0 <= i < |Directions| && b == Next(a, Directions[i])
  {
    var dr, dc := b.0 - a.0, b.1 - a.1;
    if dr == 1 { assert b == Next(a, Directions[0]); }
    else if dr == -1 { assert b == Next(a, Directions[1]); }
    else if dc == 1 { assert b == Next(a, Directions[2]); }
    else { assert b == Next(a, Directions[3]); }
  }

  /**
   * The board object of the source. Queries are pure reads of the current layout; the place and
   * remove operations assign one entry of a wall grid in place.
   */
  class Board {
    var size: int
    var hWalls: seq<seq<bool>>
    var vWalls: seq<seq<bool>>

    function Value(): Layout
      reads this
    {
      Layout(size, hWalls, vWalls)
    }

    ghost predicate Valid()
      reads this
    {
      Value().WellFormed()
    }

    /** Board.__init__: both grids (size-1) x (size-1), all False. */
    constructor (size: int)
      ensures Valid() && Value() == FreshLayout(size)
    {
      this.size := size;
      hWalls := EmptyGrid(Dim(size));
      vWalls := EmptyGrid(Dim(size));
    }

    /** Board.__init__ with its default side of 9. */
    constructor Default()
      ensures Valid() && Value() == FreshLayout(DefaultSize)
    {
      size := DefaultSize;
      hWalls := EmptyGrid(Dim(DefaultSize));
      vWalls := EmptyGrid(Dim(DefaultSize));
    }

    function Inside(r: int, c: int): (b: bool)
      reads this
      ensures b <==> 0 <= r < size && 0 <= c < size
    {
      Value().Inside(r, c)
    }

    function CanPlaceHorizontal(wr: int, wc: int): (b: bool)
      reads this
      requires Valid()
      ensures b <==> 0 <= wr < size - 1 && 0 <= wc < size - 1 && !hWalls[wr][wc]
    {
      Value().CanPlaceH(wr, wc)
    }

    function CanPlaceVertical(wr: int, wc: int): (b: bool)
      reads this
      requires Valid()
      ensures b <==> 0 <= wr < size - 1 && 0 <= wc < size - 1 && !vWalls[wr][wc]
    {
      Value().CanPlaceV(wr, wc)
    }

    /** Board.is_blocked: an open edge joins two on-board orthogonal neighbours, and either end may ask. */
    function IsBlocked(r1: int, c1: int, r2: int, c2: int): (b: bool)
      reads this
      requires Valid()
      ensures !b ==> Inside(r1, c1) && Inside(r2, c2) && Abs(r2 - r1) + Abs(c2 - c1) == 1
      ensures b == Value().IsBlocked(r2, c2, r1, c1)
    {
      BlockedSymmetric(Value(), r1, c1, r2, c2);
      Value().IsBlocked(r1, c1, r2, c2)
    }

    method PlaceHorizontal(wr: int, wc: int)
      requires Valid() && Value().InRange(wr, wc)
      modifies this
      ensures Valid() && Value() == old(Value()).WithH(wr, wc, true)
    {
      hWalls := hWalls[wr := hWalls[wr][wc := true]];
    }

    method PlaceVertical(wr: int, wc: int)
      requires Valid() && Value().InRange(wr, wc)
      modifies this
      ensures Valid() && Value() == old(Value()).WithV(wr, wc, true)
    {
      vWalls := vWalls[wr := vWalls[wr][wc := true]];
    }

    method RemoveHorizontal(wr: int, wc: int)
      requires Valid() && Value().InRange(wr, wc)
      modifies this
      ensures Valid() && Value() == old(Value()).WithH(wr, wc, false)
    {
      hWalls := hWalls[wr := hWalls[wr][wc := false]];
    }

    method RemoveVertical(wr: int, wc: int)
      requires Valid() && Value().InRange(wr, wc)
      modifies this
      ensures Valid() && Value() == old(Value()).WithV(wr, wc, false)
    {
      vWalls := vWalls[wr := vWalls[wr][wc := false]];
    }
  }
}

/**
 * The mutable game of game/game_state.py: a Board, two Player objects, whose turn it is, the
 * winner and an undo history. Each method is proved to leave the fields exactly as the value-level
 * functions of module States say.
 *
 * A snapshot records copies of the two wall grids but the Player objects themselves, as the
 * source's `p.__dict__` entries do: undo therefore restores grids, size, turn and winner but
 * hands every player back its current cell and wall count.
 */
module GameStates {
  import opened Wrappers
  import opened Boards
  import opened Players
  import opened Walks
  import opened States
  import Rules
  import Pathfinding

  /** An entry of the undo history. */
  datatype Snapshot = Snapshot(h: seq<seq<bool>>, v: seq<seq<bool>>, size: int, players: seq<Player>,
                               current: int, winner: Option<int>)

  class GameState {
    const board: Board
    const players: seq<Player>
    var current: int
    var winner: Option<int>
    var history: seq<Snapshot>

    /** A snapshot this game can restore: it refers to this game's players and holds well-formed grids. */
    ghost predicate Restorable(snap: Snapshot) {
      && snap.players == players
      && Layout(snap.size, snap.h, snap.v).WellFormed()
      && (snap.current == 0 || snap.current == 1)
    }

    ghost predicate Valid()
      reads this, board
    {
      && board.Valid() && |players| == 2 && players[0] != players[1]
      && (current == 0 || current == 1)
      && forall k :: 0 <= k < |history| ==> Restorable(history[k])
    }

    /** The game as a value. */
    function Value(): (s: State)
      reads this, board, players
      requires |players| == 2
    {
      State(board.Value(), Pawn(players[0].r, players[0].c, players[0].walls),
            Pawn(players[1].r, players[1].c, players[1].walls), current, winner)
    }

    /** GameState.__init__ */
    constructor (size: int)
      ensures Valid() && Value() == Initial(size) && history == []
      ensures fresh(board) && fresh(players[0]) && fresh(players[1])
      ensures players[0].id == 0 && players[1].id == 1 && !players[0].isAi && !players[1].isAi
    {
      var mid := size / 2;
      var p0 := new Player(0, mid, InitialWalls, false, 0, "");
      var p1 := new Player(size - 1, mid, InitialWalls, false, 1, "");
      board := new Board(size);
      players := [p0, p1];
      current := 0;
      winner := None;
      history := [];
    }

    /** GameState.__init__ with its default side of 9. */
    constructor Default()
      ensures Valid() && Value() == Initial(DefaultSize) && history == []
      ensures fresh(board) && fresh(players[0]) && fresh(players[1])
      ensures players[0].id == 0 && players[1].id == 1 && !players[0].isAi && !players[1].isAi
    {
      var mid := DefaultSize / 2;
      var p0 := new Player(0, mid, InitialWalls, false, 0, "");
      var p1 := new Player(DefaultSize - 1, mid, InitialWalls, false, 1, "");
      board := new Board(DefaultSize);
      players := [p0, p1];
      current := 0;
      winner := None;
      history := [];
    }

    /**
     * The deep copy behind GameState.clone: a new board and new players with the same values. The
     * copy's snapshots are rebound to the new players; the source's deepcopy instead gives them
     * detached copies of the players' attribute dicts, which the search never reads.
     */
    constructor Copy(other: GameState)
      requires other.Valid()
      ensures Valid() && Value() == other.Value()
      ensures fresh(board) && fresh(players[0]) && fresh(players[1])
      ensures forall i :: 0 <= i < 2 ==>
        (players[i].isAi == other.players[i].isAi && players[i].id == other.players[i].id && players[i].name == other.players[i].name)
      ensures |history| == |other.history|
      ensures forall k :: 0 <= k < |history| ==> history[k] == other.history[k].(players := players)
    {
      var b := new Board(other.board.size);
      b.hWalls, b.vWalls := other.board.hWalls, other.board.vWalls;
      var a0, a1 := other.players[0], other.players[1];
      var p0 := new Player(a0.r, a0.c, a0.walls, a0.isAi, a0.id, a0.name);
      var p1 := new Player(a1.r, a1.c, a1.walls, a1.isAi, a1.id, a1.name);
      board := b;
      players := [p0, p1];
      current := other.current;
      winner := other.winner;
      var hs := other.history;
      history := seq(|hs|, k requires 0 <= k < |hs| => hs[k].(players := [p0, p1]));
    }

    /** GameState.clone */
    method Clone() returns (g: GameState)
      requires Valid()
      ensures g.Valid() && g.Value() == Value()
      ensures fresh(g) && fresh(g.board) && fresh(g.players[0]) && fresh(g.players[1])
      ensures forall i :: 0 <= i < 2 ==>
        (g.players[i].isAi == players[i].isAi && g.players[i].id == players[i].id && g.players[i].name == players[i].name)
    {
      g := new GameState.Copy(this);
    }

    /** GameState.serialize: copies of the grids, but the live Player objects. */
    function Serialize(): (snap: Snapshot)
      reads this, board
      requires Valid()
      ensures Restorable(snap) && snap.players == players
      ensures Layout(snap.size, snap.h, snap.v) == board.Value()
      ensures snap.current == current && snap.winner == winner
    {
      Snapshot(board.hWalls, board.vWalls, board.size, players, current, winner)
    }

    /** GameState.save_snapshot */
    method SaveSnapshot()
      requires Valid()
      modifies this
      ensures Valid() && history == old(history) + [old(Serialize())]
      ensures current == old(current) && winner == old(winner)
    {
      history := history + [Serialize()];
    }

    /**
     * GameState.undo. With an empty history nothing changes. Otherwise the last snapshot is
     * popped and board, turn and winner come back from it; the players keep their current
     * values, because the snapshot holds the players themselves.
     */
    method Undo() returns (ok: bool)
      requires Valid()
      modifies this, board, players
      ensures Valid()
      ensures ok <==> old(history) != []
      ensures !ok ==> Value() == old(Value()) && history == old(history)
      ensures ok ==>
        var snap := old(history[|history| - 1]);
        && history == old(history[..|history| - 1])
        && Value() == old(Value()).(layout := Layout(snap.size, snap.h, snap.v), current := snap.current, winner := snap.winner)
      ensures forall i :: 0 <= i < 2 ==>
        players[i].isAi == old(players[i].isAi) && players[i].id == old(players[i].id) && players[i].name == old(players[i].name)
    {
      if history == [] {
        return false;
      }
      var snap := history[|history| - 1];
      assert Restorable(snap);
      assert forall k :: 0 <= k < |history| - 1 ==> Restorable(history[k]);
      history := history[..|history| - 1];
      board.hWalls := snap.h;
      board.vWalls := snap.v;
      board.size := snap.size;
      RestorePlayers(snap.players);
      current := snap.current;
      winner := snap.winner;
      return true;
    }

    /**
     * The player loop of undo: each player takes r, c, walls, is_ai and id from the recorded
     * entry, which is that same player, so nothing changes.
     */
    method RestorePlayers(recorded: seq<Player>)
      requires |players| == 2 && recorded == players
      modifies players
      ensures unchanged(players)
    {
      for i := 0 to |recorded|
        invariant unchanged(players)
      {
        var pdata := recorded[i];
        players[i].r := pdata.r;
        players[i].c := pdata.c;
        players[i].walls := pdata.walls;
        players[i].isAi := pdata.isAi;
        players[i].id := pdata.id;
      }
    }

    /** GameState.inside */
    function Inside(r: int, c: int): (b: bool)
      reads this, board
      ensures b <==> 0 <= r < board.size && 0 <= c < board.size
    {
      board.Inside(r, c)
    }

    /** GameState.legal_moves */
    method LegalMoves(playerIndex: int) returns (moves: seq<Cell>)
      requires Valid() && 0 <= playerIndex <= 1
      ensures moves == Rules.LegalMoveList(board.Value(), Value().Get(playerIndex).Pos(), Value().Get(1 - playerIndex).Pos())
    {
      moves := Rules.LegalMoves(board, players, playerIndex);
    }

    /** GameState.move_pawn */
    method MovePawn(playerIndex: int, r: int, c: int) returns (ok: bool)
      requires Valid()
      modifies this, players
      ensures Valid()
      ensures ok <==> MoveResult(old(Value()), playerIndex, r, c).Some?
      ensures ok ==> Value() == MoveResult(old(Value()), playerIndex, r, c).value && history == old(history) + [old(Serialize())]
      ensures !ok ==> Value() == old(Value()) && history == old(history)
      ensures forall i :: 0 <= i < 2 ==>
        players[i].isAi == old(players[i].isAi) && players[i].id == old(players[i].id) && players[i].name == old(players[i].name)
    {
      if winner.Some? {
        return false;
      }
      if playerIndex != current {
        return false;
      }
      var moves := LegalMoves(playerIndex);
      if (r, c) !in moves {
        return false;
      }
      SaveSnapshot();
      var p := players[playerIndex];
      p.r := r;
      p.c := c;
      if playerIndex == 0 && r == board.size - 1 {
        winner := Some(0);
      }
      if playerIndex == 1 && r == 0 {
        winner := Some(1);
      }
      current := 1 - current;
      return true;
    }

    /** GameState.can_place_wall */
    function CanPlaceWall(orientation: string, wr: int, wc: int): (b: bool)
      reads this, board
      requires board.Valid()
      ensures b <==> Placeable(board.Value(), OrientationOf(orientation), wr, wc)
    {
      CanPlaceWallOn(board.Value(), orientation, wr, wc)
    }

    /**
     * GameState.try_place_wall. The snapshot is taken after the tentative placement, so it
     * already holds the new segment.
     */
    method TryPlaceWall(playerIndex: int, orientation: string, wr: int, wc: int) returns (ok: bool)
      requires Valid()
      modifies this, board, players
      ensures Valid()
      ensures ok <==> WallResult(old(Value()), playerIndex, OrientationOf(orientation), wr, wc).Some?
      ensures ok ==> Value() == WallResult(old(Value()), playerIndex, OrientationOf(orientation), wr, wc).value
      ensures ok ==> history == old(history) + [Snapshot(board.hWalls, board.vWalls, board.size, players, old(current), old(winner))]
      ensures !ok ==> Value() == old(Value()) && history == old(history)
      ensures forall i :: 0 <= i < 2 ==>
        players[i].isAi == old(players[i].isAi) && players[i].id == old(players[i].id) && players[i].name == old(players[i].name)
    {
      if winner.Some? {
        return false;
      }
      if playerIndex != current {
        return false;
      }
      var p := players[playerIndex];
      if p.walls <= 0 {
        return false;
      }
      if !CanPlaceWall(orientation, wr, wc) {
        return false;
      }
      ghost var before := board.Value();
      PlaceSegment(orientation, wr, wc);
      ok := AllHavePaths();
      if !ok {
        RemoveSegment(orientation, wr, wc, before);
        return false;
      }
      SaveSnapshot();
      p.walls := p.walls - 1;
      current := 1 - current;
    }

    /** The tentative placement of try_place_wall: "H" places a horizontal segment, any other string a vertical one. */
    method PlaceSegment(orientation: string, wr: int, wc: int)
      requires board.Valid() && board.Value().InRange(wr, wc)
      modifies board
      ensures board.Valid() && board.Value() == Place(old(board.Value()), OrientationOf(orientation), wr, wc)
    {
      if orientation == "H" {
        board.PlaceHorizontal(wr, wc);
      } else {
        board.PlaceVertical(wr, wc);
      }
    }

    /** The revert of try_place_wall: removing the tentative segment gives back the layout before it. */
    method RemoveSegment(orientation: string, wr: int, wc: int, ghost before: Layout)
      requires before.WellFormed() && Placeable(before, OrientationOf(orientation), wr, wc)
      requires board.Valid() && board.Value() == Place(before, OrientationOf(orientation), wr, wc)
      modifies board
      ensures board.Valid() && board.Value() == before
    {
      if orientation == "H" {
        board.RemoveHorizontal(wr, wc);
        PlaceRemoveHorizontalRestores(before, wr, wc);
      } else {
        board.RemoveVertical(wr, wc);
        PlaceRemoveVerticalRestores(before, wr, wc);
      }
    }

    /** The path check of try_place_wall: player 0 must reach the last row and player 1 row 0. */
    method AllHavePaths() returns (ok: bool)
      requires Valid()
      ensures ok <==> BothHavePaths(board.Value(), Value().p0, Value().p1)
    {
      ok := true;
      ghost var failed := 0;
      for k := 0 to |players|
        // ok is only cleared just before the break, so a loop that runs to the end leaves it true
        invariant ok
        invariant forall j :: 0 <= j < k ==> Reachable(board.Value(), players[j].Pos(), GoalRows(board.size, j))
      {
        var pl := players[k];
        var goalRows := if pl == players[0] then [board.size - 1] else [0];
        var found := Pathfinding.HasPath(board, (pl.r, pl.c), goalRows);
        if !found {
          ok := false;
          failed := k;
          break;
        }
      }
      assert !ok ==> !Reachable(board.Value(), players[failed].Pos(), GoalRows(board.size, failed));
    }

    /** GameState.get_winner */
    function GetWinner(): (w: Option<int>)
      reads this
      ensures w == winner
    {
      winner
    }
  }

  /**
   * Undo right after a successful wall placement: the snapshot was taken with the segment already
   * placed and holds the live players, so the segment stays on the board and the placer keeps its
   * reduced wall count; only the turn goes back.
   */
  method WallSurvivesUndo(g: GameState, playerIndex: int, orientation: string, wr: int, wc: int)
    returns (placed: bool, undone: bool)
    requires g.Valid()
    modifies g, g.board, g.players
    ensures g.Valid()
    ensures placed <==> WallResult(old(g.Value()), playerIndex, OrientationOf(orientation), wr, wc).Some?
    ensures placed ==> undone
    ensures placed ==>
      g.Value() == WallResult(old(g.Value()), playerIndex, OrientationOf(orientation), wr, wc).value.(current := old(g.current))
  {
    undone := false;
    placed := g.TryPlaceWall(playerIndex, orientation, wr, wc);
    if placed {
      undone := g.Undo();
    }
  }

  /**
   * Undo right after a successful pawn move: the turn and the winner go back, but the pawn stays
   * on its new cell, because the snapshot holds the live player.
   */
  method MoveSurvivesUndo(g: GameState, playerIndex: int, r: int, c: int) returns (moved: bool, undone: bool)
    requires g.Valid()
    modifies g, g.board, g.players
    ensures g.Valid()
    ensures moved <==> MoveResult(old(g.Value()), playerIndex, r, c).Some?
    ensures moved ==> undone
    ensures moved ==>
      g.Value() == MoveResult(old(g.Value()), playerIndex, r, c).value.(current := old(g.current), winner := old(g.winner))
  {
    undone := false;
    moved := g.MovePawn(playerIndex, r, c);
    if moved {
      undone := g.Undo();
    }
  }
}

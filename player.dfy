/** The mutable player record of game/player.py. */
module Players {
  import opened Boards

  /** Number of walls a player starts with when none is given. */
  const DefaultWalls: int := 10

  class Player {
    var r: int
    var c: int
    var walls: int
    var isAi: bool
    var id: int
    var name: string

    /** The dataclass constructor with every field given. */
    constructor (r: int, c: int, walls: int, isAi: bool, id: int, name: string)
      ensures this.r == r && this.c == c && this.walls == walls
      ensures this.isAi == isAi && this.id == id && this.name == name
    {
      this.r, this.c, this.walls := r, c, walls;
      this.isAi, this.id, this.name := isAi, id, name;
    }

    /** The dataclass constructor with only the two fields that have no default. */
    constructor WithDefaults(r: int, c: int)
      ensures this.r == r && this.c == c
      ensures walls == DefaultWalls && !isAi && id == 0 && name == ""
    {
      this.r, this.c := r, c;
      walls, isAi, id, name := DefaultWalls, false, 0, "";
    }

    /** Player.pos */
    function Pos(): (p: Cell)
      reads this
      ensures p.0 == r && p.1 == c
    {
      (r, c)
    }
  }
}

/** The vocabulary the player shares with the game: cell kinds, the sensed
    neighbourhood of the player, positions and moves. */
module Field {

  /** What the player's map records for one cell. Unknown is a cell never
      sensed (None in the player's map). */
  datatype Cell = Unknown | Path | Wall | Start | Finish

  /** The kinds of the four cells next to the player, reported once per turn. */
  datatype Surroundings = Surroundings(left: Cell, right: Cell, up: Cell, down: Cell)
  {
    /** The game reports a real kind for every neighbour, never Unknown. */
    predicate Sensed()
    {
      left != Unknown && right != Unknown && up != Unknown && down != Unknown
    }
  }

  /** One move of the player; Pass is the explicit "no move" outcome. */
  datatype Move = Left | Right | Up | Down | Pass

  /** A logical position; x grows to the right, y grows upwards. */
  datatype Pos = Pos(x: int, y: int)

  datatype Option<T> = None | Some(value: T)

  /** Cells a path may step onto. */
  predicate Passable(c: Cell)
  {
    c == Path || c == Start
  }

  /** The position reached from p by move m. */
  function Shift(p: Pos, m: Move): Pos
  {
    match m
    case Left => Pos(p.x - 1, p.y)
    case Right => Pos(p.x + 1, p.y)
    case Up => Pos(p.x, p.y + 1)
    case Down => Pos(p.x, p.y - 1)
    case Pass => p
  }
}

/** The two sides of the game (src/player.rs). */
module Players {

  /** Black starts at the bottom of the board (rows 5 to 7) and moves first. */
  datatype Player = Black | White

  /** The opponent of `p`. There are only two players, so "differs from `p`" pins it down. */
  function Switch(p: Player): (r: Player)
    ensures r != p
  {
    match p
    case White => Black
    case Black => White
  }

  /** Switching twice gives back the same side. */
  lemma SwitchInvolutive(p: Player)
    ensures Switch(Switch(p)) == p
  {
  }
}

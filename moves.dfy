/** A submove: one relocation of a piece, a step or a single jump (src/moves.rs). */
module Moves {
  import Positions

  datatype Submove = Submove(from: Positions.Position, to: Positions.Position)

  /** `Submove::new` from two `(usize, usize)` coordinate pairs. */
  function NewSubmove(from: (nat, nat), to: (nat, nat)): (s: Submove)
    ensures s.from.row == from.0 && s.from.col == from.1
    ensures s.to.row == to.0 && s.to.col == to.1
  {
    Submove(Positions.Position(from.0, from.1), Positions.Position(to.0, to.1))
  }

  /** Sources added to sources, destinations to destinations (`impl Add for Submove`). */
  function Add(a: Submove, b: Submove): (r: Submove)
    ensures b.from.row <= r.from.row && b.from.col <= r.from.col
    ensures b.to.row <= r.to.row && b.to.col <= r.to.col
  {
    Submove(Positions.Add(a.from, b.from), Positions.Add(a.to, b.to))
  }

  /** Componentwise difference (`impl Sub for Submove`), with the unsigned `Position` subtraction. */
  function Sub(a: Submove, b: Submove): (r: Submove)
    requires b.from.row <= a.from.row && b.from.col <= a.from.col
    requires b.to.row <= a.to.row && b.to.col <= a.to.col
    ensures Add(r, b) == a
  {
    Submove(Positions.Sub(a.from, b.from), Positions.Sub(a.to, b.to))
  }

  /** `Sub` undoes `Add`. */
  lemma AddSubInverse(a: Submove, b: Submove)
    ensures Sub(Add(a, b), b) == a
  {
    Positions.AddSubInverse(a.from, b.from);
    Positions.AddSubInverse(a.to, b.to);
  }

  /** The `submove_add` and `submove_sub` tests. */
  lemma Examples()
    ensures Add(NewSubmove((0, 0), (1, 1)), NewSubmove((1, 1), (0, 0))) == NewSubmove((1, 1), (1, 1))
    ensures Sub(NewSubmove((2, 2), (2, 2)), NewSubmove((1, 1), (1, 1))) == NewSubmove((1, 1), (1, 1))
  {
  }
}

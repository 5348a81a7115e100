/**
 * Board coordinates (the `Position` struct of src/board.rs). Rows and columns are
 * Rust `usize`s, hence `nat`s here; `Sub` is unsigned subtraction and so may not go below zero.
 */
module Positions {

  /** An American checkers board is 8 cells wide. */
  const Width: nat := 8

  datatype Position = Position(row: nat, col: nat)

  /** The cells that indexing the 8x8 board accepts; any other position panics. */
  predicate InBounds(p: Position)
  {
    p.row < Width && p.col < Width
  }

  /** Componentwise sum (`impl Add for Position`). */
  function Add(a: Position, b: Position): (r: Position)
    ensures a.row <= r.row && a.col <= r.col
    ensures b.row <= r.row && b.col <= r.col
  {
    Position(a.row + b.row, a.col + b.col)
  }

  /** Componentwise difference (`impl Sub for Position`); `usize` subtraction underflows otherwise. */
  function Sub(a: Position, b: Position): (r: Position)
    requires b.row <= a.row && b.col <= a.col
    ensures r.row <= a.row && r.col <= a.col
    ensures Add(r, b) == a
  {
    Position(a.row - b.row, a.col - b.col)
  }

  /** Subtracting what was added gives back the first operand, and the other way round. */
  lemma AddSubInverse(a: Position, b: Position)
    ensures Sub(Add(a, b), b) == a
    ensures b.row <= a.row && b.col <= a.col ==> Add(Sub(a, b), b) == a
  {
  }

  /** The `position_add` test: (1, 0) + (1, 2) = (2, 2). */
  lemma AddExample()
    ensures Add(Position(1, 0), Position(1, 2)) == Position(2, 2)
  {
  }
}

/** Pieces: a rank (normal or king) and an owner (src/piece.rs). */
module Pieces {
  import opened Players

  /** A piece is either a normal piece or a king, of one of the two players. */
  datatype Piece = Normal(Player) | King(Player)

  /** The player owning `x`, whatever its rank. */
  function Owner(x: Piece): (r: Player)
    ensures x == Normal(r) || x == King(r)
  {
    match x
    case Normal(v) => v
    case King(v) => v
  }

  function WhitePiece(): (r: Piece)
    ensures r.Normal? && Owner(r) == White
  {
    Normal(White)
  }

  function BlackPiece(): (r: Piece)
    ensures r.Normal? && Owner(r) == Black
  {
    Normal(Black)
  }

  function WhiteKing(): (r: Piece)
    ensures r.King? && Owner(r) == White
  {
    King(White)
  }

  function BlackKing(): (r: Piece)
    ensures r.King? && Owner(r) == Black
  {
    King(Black)
  }

  /** Rank and owner are both part of a piece, so the four constructors give four different pieces. */
  lemma ConstructorsDistinct()
    ensures WhitePiece() != BlackPiece() && WhitePiece() != WhiteKing() && WhitePiece() != BlackKing()
    ensures BlackPiece() != WhiteKing() && BlackPiece() != BlackKing()
    ensures WhiteKing() != BlackKing()
  {
  }
}

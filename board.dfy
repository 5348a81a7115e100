/**
 * The board object of src/board.rs: the operations that take `&mut self` and change
 * cells in place, the ones that build a board (start layout, rotated copy, parse),
 * and the printer. The grid is a Rust array, copied by value on assignment, so it is
 * held here as a `Grid` value that each write replaces.
 */
module Boards {
  import opened Wrappers
  import opened Players
  import opened Pieces
  import opened Positions
  import opened Moves
  import opened Grids
  import opened BoardText

  class Board {
    var board: Grid

    /** `Board::new`: the start layout. */
    constructor ()
      ensures board == StartGrid()
    {
      board := StartGrid();
    }

    /** `Board { board }`: a board around a given grid. */
    constructor FromGrid(g: Grid)
      ensures board == g
    {
      board := g;
    }

    /**
     * The reversal shared by `norm` and `flip`: reverse the order of the rows of a
     * copy, then reverse each row of it in turn.
     */
    static method Rotate(g: Grid) returns (r: Grid)
      ensures forall i, j :: 0 <= i < 8 && 0 <= j < 8 ==> r[i][j] == g[7 - i][7 - j]
      ensures r == Rotated(g)
    {
      r := Reverse(g);
      for i := 0 to 8
        invariant forall k :: 0 <= k < i ==> r[k] == Reverse(g[7 - k])
        invariant forall k :: i <= k < 8 ==> r[k] == g[7 - k]
      {
        r := r[i := Reverse(r[i])];
      }
      GridExt(r, Rotated(g));
    }

    /** `Board::norm`: a new board seen from `p`'s side; this board is left as it is. */
    method Norm(p: Player) returns (b: Board)
      ensures fresh(b)
      ensures b.board == Normalized(board, p)
    {
      if p == White {
        var reversed := Rotate(board);
        b := new Board.FromGrid(reversed);
      } else {
        b := new Board.FromGrid(board);
      }
    }

    /** `Board::flip`: turn the board round in place, keeping both players' pieces. */
    method Flip()
      modifies this
      ensures board == Rotated(old(board))
      ensures forall i, j :: 0 <= i < 8 && 0 <= j < 8 ==> board[i][j] == old(board)[7 - i][7 - j]
      ensures CountPieces(board, Black) == CountPieces(old(board), Black)
      ensures CountPieces(board, White) == CountPieces(old(board), White)
    {
      board := Rotate(board);
      CountRotated(old(board), Black);
      CountRotated(old(board), White);
    }

    /** `Board::remove`: empty cell `p` and nothing else. */
    method Remove(p: Position)
      requires InBounds(p)
      modifies this
      ensures board == SetCell(old(board), p, None)
      ensures At(board, p) == None
      ensures forall q :: InBounds(q) && q != p ==> At(board, q) == At(old(board), q)
    {
      board := board[p.row := board[p.row][p.col := None]];
    }

    /** `Board::place`: put `x` on cell `p`, whatever was there, and change nothing else. */
    method Place(x: Piece, p: Position)
      requires InBounds(p)
      modifies this
      ensures board == SetCell(old(board), p, Some(x))
      ensures At(board, p) == Some(x)
      ensures forall q :: InBounds(q) && q != p ==> At(board, q) == At(old(board), q)
    {
      board := board[p.row := board[p.row][p.col := Some(x)]];
    }

    /**
     * `Board::mutate`: move the piece at `from` to `to` without any check, emptying
     * `from` (unless it is `to`) and replacing whatever stood at `to`.
     */
    method Mutate(s: Submove)
      requires InBounds(s.from) && InBounds(s.to)
      requires At(board, s.from).Some?
      modifies this
      ensures At(board, s.to) == At(old(board), s.from)
      ensures s.from != s.to ==> At(board, s.from) == None
      ensures forall q :: InBounds(q) && q != s.from && q != s.to ==> At(board, q) == At(old(board), q)
    {
      var piece := At(board, s.from).value;
      Remove(s.from);
      Remove(s.to);
      Place(piece, s.to);
    }

    /**
     * `Board::from(&str)`: fill an empty grid from `s`, character k going to cell
     * (k / 8, k % 8); the two panics are reported as errors.
     */
    static method FromStr(s: string) returns (r: Result<Board, ParseError>)
      ensures r.Ok? <==> Parse(s).Ok?
      ensures r.Ok? ==> fresh(r.value) && r.value.board == Parse(s).value
      ensures r.Err? ==> r.error == Parse(s).error
    {
      var g := EmptyGrid();
      for i := 0 to |s|
        invariant ParseFrom(s, i, g) == Parse(s)
      {
        var c := s[i];
        if c == 'w' || c == 'W' || c == 'b' || c == 'B' {
          if i >= 64 {
            return Err(OutOfRange(i));
          }
          var piece := if c == 'w' || c == 'W' then WhitePiece() else BlackPiece();
          g := SetCell(g, Position(i / 8, i % 8), Some(piece));
        } else if c == '-' || c == Dot {
        } else {
          return Err(InvalidCharacter(i, c));
        }
      }
      var b := new Board.FromGrid(g);
      r := Ok(b);
    }

    /** `impl Display for Board`: push each cell's glyph, and a newline after each row. */
    method ToText() returns (t: string)
      ensures t == Show(board)
      ensures |t| == 72
    {
      t := "";
      for i := 0 to 8
        invariant t == Show(board[..i])
      {
        for j := 0 to 8
          invariant t == Show(board[..i]) + RowText(board[i][..j])
        {
          assert board[i][..j + 1][..j] == board[i][..j];
          t := t + [Glyph(board[i][j])];
        }
        assert board[..i + 1][..i] == board[..i];
        assert board[i][..8] == board[i];
        t := t + "\n";
      }
      assert board[..8] == board;
      ShowLayout(board);
    }
  }
}

/**
 * The `Game` session of src/game.rs: a board object, the side to move, the
 * selection, the highlighted destinations and the move budget, updated in place
 * by `select`, `gen_submoves` and `do_submove`. Each method is proved to change
 * the fields exactly as the matching function of GameRules says.
 */
module Games {
  import opened Wrappers
  import opened Players
  import opened Pieces
  import opened Positions
  import opened Moves
  import opened Grids
  import opened Boards
  import opened GameRules

  class Game {
    var board: Board
    var player: Player
    var selected: Option<Position>
    var hilighted: seq<Position>
    var nmoves: Byte

    /** The fields as a value, the board as its grid. */
    function Snapshot(): State
      reads this, board
    {
      State(board.board, player, selected, hilighted, nmoves)
    }

    /** `Game::new`: a fresh start board, Black to move, nothing selected, one move. */
    constructor ()
      ensures fresh(board)
      ensures Snapshot() == Initial()
    {
      board := new Board();
      player := Black;
      selected := None;
      hilighted := [];
      nmoves := 1;
    }

    /** `Game::validate_submove`: the board's check for the side to move. */
    function ValidateSubmove(s: Submove): (r: Result<bool, MoveError>)
      reads this, board
      requires InBounds(s.from)
      requires At(Normalized(board.board, player), s.from).Some? ==> InBounds(s.to)
      ensures r == Grids.ValidateSubmove(board.board, s, player)
    {
      Grids.ValidateSubmove(board.board, s, player)
    }

    /** `Game::win_condition`, decided on the piece counts of the board. */
    function WinCondition(): (r: Option<Player>)
      reads this, board
      ensures r == Winner(board.board)
    {
      Winner(board.board)
    }

    /**
     * `Game::gen_submoves`: append the empty neighbours of `p`, then, one attacked
     * neighbour at a time, the landing cell of the jump over it when that is on the
     * board and empty.
     */
    method GenSubmoves(p: Position)
      requires InBounds(p)
      modifies this
      ensures board == old(board)
      ensures Snapshot() == GameRules.GenSubmoves(old(Snapshot()), p)
    {
      var g := board.board;
      var possible := Possible(g, p);
      var normalOnly := EmptyOf(g, possible);
      hilighted := hilighted + normalOnly;
      var attacked := HeldBy(g, Switch(player), possible);
      for i := 0 to |attacked|
        invariant board == old(board) && player == old(player)
        invariant selected == old(selected) && nmoves == old(nmoves)
        invariant hilighted == PushJumps(old(hilighted) + normalOnly, g, p, attacked, i)
      {
        var v := attacked[i];
        var jump := JumpTarget(p, v);
        if OnGrid(jump) && At(g, Position(jump.0, jump.1)).None? {
          hilighted := hilighted + [Position(jump.0, jump.1)];
        }
      }
    }

    /**
     * `Game::select`: clear the highlights; select an own piece and highlight its
     * candidates, or clear the selection on an empty cell.
     */
    method Select(p: Position)
      requires InBounds(p)
      modifies this
      ensures board == old(board)
      ensures Snapshot() == GameRules.Select(old(Snapshot()), p)
    {
      hilighted := [];
      var x := At(board.board, p);
      if x.Some? {
        if Owner(x.value) == player {
          selected := Some(p);
          GenSubmoves(p);
        }
      } else {
        selected := None;
      }
    }

    /**
     * `Game::do_submove`: lift the piece, clear the jumped cell or spend a move, put
     * the piece (or a new king on row 0) down, and pass the turn when no move is left.
     */
    method DoSubmove(s: Submove) returns (r: Result<bool, MoveError>)
      requires CanApply(Snapshot(), s)
      modifies this, board
      ensures board == old(board)
      ensures Snapshot() == ApplySubmove(old(Snapshot()), s)
      ensures r == Ok(true)
    {
      ghost var st := Snapshot();
      var piece := At(board.board, s.from).value;
      board.Remove(s.from);
      var diff := (s.to.row - s.from.row, s.to.col - s.from.col);
      if Abs(diff.0) > 1 || Abs(diff.1) > 1 {
        UnitIsSign(diff.0);
        UnitIsSign(diff.1);
        var unit := (diff.0 / Abs(diff.0), diff.1 / Abs(diff.1));
        var removePos := Position(s.from.row + unit.0, s.from.col + unit.1);
        assert removePos == Captured(s);
        board.Remove(removePos);
      } else {
        nmoves := nmoves - 1;
      }
      if s.to.row == 0 {
        board.Place(King(player), s.to);
      } else {
        board.Place(piece, s.to);
      }
      assert board.board == Moved(st, s);
      assert nmoves == if IsJump(s) then st.nmoves else st.nmoves - 1;
      if nmoves == 0 {
        player := Switch(player);
        board.Flip();
        nmoves := 1;
        assert Snapshot() == st.(board := Rotated(Moved(st, s)), player := Switch(st.player), nmoves := 1);
      } else {
        assert Snapshot() == st.(board := Moved(st, s), nmoves := nmoves);
      }
      r := Ok(true);
    }
  }
}

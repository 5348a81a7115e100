/**
 * The board as a value: an 8x8 grid of optional pieces, and the queries that
 * src/board.rs computes without changing the board (cell access, piece counting,
 * the 180-degree rotation behind `norm`/`flip`, and submove validation).
 */
module Grids {
  import opened Wrappers
  import opened Players
  import opened Pieces
  import opened Positions
  import opened Moves

  /** A cell of the board: empty or holding one piece. */
  type Point = Option<Piece>

  predicate IsGrid(g: seq<seq<Point>>)
  {
    |g| == 8 && forall i :: 0 <= i < 8 ==> |g[i]| == 8
  }

  /** Row-major 8x8 cells; row 0 is the far side for the player to move. */
  type Grid = g: seq<seq<Point>> | IsGrid(g) witness seq(8, _ => seq(8, _ => None))

  function EmptyGrid(): (g: Grid)
    ensures forall i, j :: 0 <= i < 8 && 0 <= j < 8 ==> g[i][j] == None
  {
    seq(8, _ => seq(8, _ => None))
  }

  /** `Board::at`. */
  function At(g: Grid, p: Position): Point
    requires InBounds(p)
  {
    g[p.row][p.col]
  }

  /** Reading a cell gives what the last write there put, and a write elsewhere does not change it. */
  lemma AtSetCell(g: Grid, p: Position, x: Point, q: Position)
    requires InBounds(p) && InBounds(q)
    ensures At(SetCell(g, p, x), q) == if q == p then x else At(g, q)
  {
  }

  /** The grid with cell `p` overwritten by `x` and every other cell kept. */
  function SetCell(g: Grid, p: Position, x: Point): (r: Grid)
    requires InBounds(p)
    ensures r[p.row][p.col] == x
    ensures forall i, j :: 0 <= i < 8 && 0 <= j < 8 && (i != p.row || j != p.col) ==> r[i][j] == g[i][j]
  {
    g[p.row := g[p.row][p.col := x]]
  }

  /** Two grids with the same cells are the same grid. */
  lemma {:induction false} GridExt(a: Grid, b: Grid)
    requires forall i, j :: 0 <= i < 8 && 0 <= j < 8 ==> a[i][j] == b[i][j]
    ensures a == b
  {
    forall i | 0 <= i < 8
      ensures a[i] == b[i]
    {
      assert forall j :: 0 <= j < 8 ==> a[i][j] == b[i][j];
    }
  }

  // ---------------------------------------------------------------- rotation

  /** Rust's slice `reverse`. */
  function Reverse<T>(s: seq<T>): (r: seq<T>)
    ensures |r| == |s|
    ensures forall k :: 0 <= k < |s| ==> r[k] == s[|s| - 1 - k]
  {
    if s == [] then [] else [s[|s| - 1]] + Reverse(s[..|s| - 1])
  }

  /**
   * The board seen from the other side: the order of the rows reversed, then each
   * row reversed, as `norm(White)` and `flip` compute it.
   */
  function Rotated(g: Grid): (r: Grid)
    ensures forall i, j :: 0 <= i < 8 && 0 <= j < 8 ==> r[i][j] == g[7 - i][7 - j]
  {
    var rows := Reverse(g);
    seq(8, i requires 0 <= i < 8 => Reverse(rows[i]))
  }

  /** Rotating twice gives back the board. */
  lemma {:induction false} RotatedTwice(g: Grid)
    ensures Rotated(Rotated(g)) == g
  {
    GridExt(Rotated(Rotated(g)), g);
  }

  /** `Board::norm`: the board from `p`'s point of view, where `p` moves towards row 0. */
  function Normalized(g: Grid, p: Player): (r: Grid)
    ensures p == Black ==> r == g
    ensures p == White ==> forall i, j :: 0 <= i < 8 && 0 <= j < 8 ==> r[i][j] == g[7 - i][7 - j]
  {
    match p
    case White => Rotated(g)
    case Black => g
  }

  // ---------------------------------------------------------------- counting

  /** 1 when `x` holds a piece of `p`, else 0. */
  function Tally(x: Point, p: Player): nat
  {
    if x.Some? && Owner(x.value) == p then 1 else 0
  }

  /** The pieces of `p` in one row. */
  function CountRow(row: seq<Point>, p: Player): (n: nat)
    ensures n <= |row|
  {
    if row == [] then 0 else CountRow(row[..|row| - 1], p) + Tally(row[|row| - 1], p)
  }

  /** The pieces of `p` in a list of rows. */
  function CountRows(rows: seq<seq<Point>>, p: Player): nat
  {
    if rows == [] then 0 else CountRows(rows[..|rows| - 1], p) + CountRow(rows[|rows| - 1], p)
  }

  /** `Board::count_pieces`: the cells holding a piece whose owner is `p`. */
  function CountPieces(g: Grid, p: Player): (n: nat)
    ensures n <= 64
  {
    CountRowsBound(g, p);
    CountRows(g, p)
  }

  lemma {:induction false} CountRowsBound(rows: seq<seq<Point>>, p: Player)
    requires forall i :: 0 <= i < |rows| ==> |rows[i]| == 8
    ensures CountRows(rows, p) <= 8 * |rows|
  {
    if rows != [] {
      CountRowsBound(rows[..|rows| - 1], p);
    }
  }

  lemma {:induction false} CountRowAppend(a: seq<Point>, b: seq<Point>, p: Player)
    ensures CountRow(a + b, p) == CountRow(a, p) + CountRow(b, p)
  {
    if b == [] {
      assert a + b == a;
    } else {
      assert (a + b)[..|a + b| - 1] == a + b[..|b| - 1];
      CountRowAppend(a, b[..|b| - 1], p);
    }
  }

  lemma {:induction false} CountRowReverse(row: seq<Point>, p: Player)
    ensures CountRow(Reverse(row), p) == CountRow(row, p)
  {
    if row != [] {
      var last, init := row[|row| - 1], row[..|row| - 1];
      assert Reverse(row) == [last] + Reverse(init);
      CountRowAppend([last], Reverse(init), p);
      assert [last][..0] == [];
      CountRowReverse(init, p);
    }
  }

  lemma {:induction false} CountRowsAppend(a: seq<seq<Point>>, b: seq<seq<Point>>, p: Player)
    ensures CountRows(a + b, p) == CountRows(a, p) + CountRows(b, p)
  {
    if b == [] {
      assert a + b == a;
    } else {
      assert (a + b)[..|a + b| - 1] == a + b[..|b| - 1];
      CountRowsAppend(a, b[..|b| - 1], p);
    }
  }

  lemma {:induction false} CountRowsReverse(rows: seq<seq<Point>>, p: Player)
    ensures CountRows(Reverse(rows), p) == CountRows(rows, p)
  {
    if rows != [] {
      var last, init := rows[|rows| - 1], rows[..|rows| - 1];
      assert Reverse(rows) == [last] + Reverse(init);
      CountRowsAppend([last], Reverse(init), p);
      assert [last][..0] == [];
      CountRowsReverse(init, p);
    }
  }

  /** Reversing every row of a list of rows keeps the count. */
  lemma {:induction false} CountRowsEachReversed(rows: seq<seq<Point>>, n: nat, p: Player)
    requires n <= |rows|
    ensures CountRows(seq(n, i requires 0 <= i < n => Reverse(rows[i])), p) == CountRows(rows[..n], p)
  {
    if n > 0 {
      var r := seq(n, i requires 0 <= i < n => Reverse(rows[i]));
      assert r[..n - 1] == seq(n - 1, i requires 0 <= i < n - 1 => Reverse(rows[i]));
      assert rows[..n][..n - 1] == rows[..n - 1];
      CountRowsEachReversed(rows, n - 1, p);
      CountRowReverse(rows[n - 1], p);
    }
  }

  /** Rotating the board keeps each player's piece count. */
  lemma {:induction false} CountRotated(g: Grid, p: Player)
    ensures CountPieces(Rotated(g), p) == CountPieces(g, p)
  {
    var rows := Reverse(g);
    CountRowsEachReversed(rows, 8, p);
    assert rows[..8] == rows;
    CountRowsReverse(g, p);
  }

  lemma {:induction false} CountRowUpdate(row: seq<Point>, j: nat, x: Point, p: Player)
    requires j < |row|
    ensures CountRow(row[j := x], p) + Tally(row[j], p) == CountRow(row, p) + Tally(x, p)
  {
    var n := |row|;
    if j == n - 1 {
      assert row[j := x][..n - 1] == row[..n - 1];
    } else {
      assert row[j := x][..n - 1] == row[..n - 1][j := x];
      CountRowUpdate(row[..n - 1], j, x, p);
    }
  }

  lemma {:induction false} CountRowsUpdate(rows: seq<seq<Point>>, i: nat, r: seq<Point>, p: Player)
    requires i < |rows|
    ensures CountRows(rows[i := r], p) + CountRow(rows[i], p) == CountRows(rows, p) + CountRow(r, p)
  {
    var n := |rows|;
    if i == n - 1 {
      assert rows[i := r][..n - 1] == rows[..n - 1];
    } else {
      assert rows[i := r][..n - 1] == rows[..n - 1][i := r];
      CountRowsUpdate(rows[..n - 1], i, r, p);
    }
  }

  /** Writing one cell changes a player's count by what the cell loses and gains. */
  lemma {:induction false} CountSetCell(g: Grid, q: Position, x: Point, p: Player)
    requires InBounds(q)
    ensures CountPieces(SetCell(g, q, x), p) + Tally(At(g, q), p) == CountPieces(g, p) + Tally(x, p)
  {
    CountRowUpdate(g[q.row], q.col, x, p);
    CountRowsUpdate(g, q.row, g[q.row][q.col := x], p);
  }

  /** The cells of the first `n` rows that hold a piece of `p`. */
  function OwnedIn(g: Grid, n: nat, p: Player): set<Position>
  {
    set i: nat, j: nat | i < n && i < 8 && j < 8 && Tally(g[i][j], p) == 1 :: Position(i, j)
  }

  /** The cells of the first `k` columns of row `i` that hold a piece of `p`. */
  function OwnedInRow(g: Grid, i: nat, k: nat, p: Player): set<Position>
    requires i < 8
  {
    set j: nat | j < k && j < 8 && Tally(g[i][j], p) == 1 :: Position(i, j)
  }

  /** The cells holding a piece of `p`. */
  function OwnedCells(g: Grid, p: Player): set<Position>
  {
    OwnedIn(g, 8, p)
  }

  lemma {:induction false} OwnedInRowCount(g: Grid, i: nat, k: nat, p: Player)
    requires i < 8 && k <= 8
    ensures |OwnedInRow(g, i, k, p)| == CountRow(g[i][..k], p)
  {
    if k == 0 {
      assert g[i][..0] == [];
      assert OwnedInRow(g, i, 0, p) == {};
    } else {
      OwnedInRowCount(g, i, k - 1, p);
      CountRowPrefix(g[i], k - 1, p);
      var a, b := OwnedInRow(g, i, k, p), OwnedInRow(g, i, k - 1, p);
      var c := Position(i, k - 1);
      assert c !in b;
      forall q | q in a
        ensures q in b || q == c
      {
        if q.col < k - 1 {
          assert q in b;
        }
      }
      if Tally(g[i][k - 1], p) == 1 {
        assert a == b + {c};
      } else {
        assert a == b;
      }
    }
  }

  lemma {:induction false} OwnedInCount(g: Grid, n: nat, p: Player)
    requires n <= 8
    ensures |OwnedIn(g, n, p)| == CountRows(g[..n], p)
  {
    if n == 0 {
      assert g[..0] == [];
      assert OwnedIn(g, 0, p) == {};
    } else {
      var m := n - 1;
      OwnedInCount(g, m, p);
      OwnedInRowCount(g, m, 8, p);
      CountRowsPrefix(g, m, p);
      assert g[m][..8] == g[m];
      var a, b := OwnedIn(g, m, p), OwnedInRow(g, m, 8, p);
      forall q | q in OwnedIn(g, n, p)
        ensures q in a + b
      {
        if q.row < m {
          assert q in a;
        } else {
          assert q in b;
        }
      }
      assert OwnedIn(g, n, p) == a + b;
      assert a * b == {};
    }
  }

  /** `Board::count_pieces` is the number of cells holding a piece whose owner is `p`. */
  lemma {:induction false} CountIsOwnedCells(g: Grid, p: Player)
    ensures CountPieces(g, p) == |OwnedCells(g, p)|
  {
    OwnedInCount(g, 8, p);
    assert g[..8] == g;
  }

  // ---------------------------------------------------------------- the start layout

  /** `Board::new`: White on the dark cells of rows 0-2, Black on those of rows 5-7. */
  function StartGrid(): Grid
  {
    var w, b := Some(WhitePiece()), Some(BlackPiece());
    [ [None, w, None, w, None, w, None, w],
      [w, None, w, None, w, None, w, None],
      [None, w, None, w, None, w, None, w],
      [None, None, None, None, None, None, None, None],
      [None, None, None, None, None, None, None, None],
      [b, None, b, None, b, None, b, None],
      [None, b, None, b, None, b, None, b],
      [b, None, b, None, b, None, b, None] ]
  }

  /** What the start layout holds at (i, j). */
  function StartCell(i: nat, j: nat): Point
  {
    if (i + j) % 2 == 0 then None
    else if i <= 2 then Some(Normal(White))
    else if i >= 5 then Some(Normal(Black))
    else None
  }

  /** The start layout, cell by cell. */
  lemma {:induction false} StartGridCells()
    ensures forall i, j :: 0 <= i < 8 && 0 <= j < 8 ==> StartGrid()[i][j] == StartCell(i, j)
  {
    var g := StartGrid();
    forall i, j | 0 <= i < 8 && 0 <= j < 8
      ensures g[i][j] == StartCell(i, j)
    {
      if j == 0 {} else if j == 1 {} else if j == 2 {} else if j == 3 {}
      else if j == 4 {} else if j == 5 {} else if j == 6 {} else {}
    }
  }

  /** The start layout holds only normal pieces, on cells with row + col odd, White in rows 0-2, Black in rows 5-7. */
  lemma StartLayout()
    ensures forall i, j :: 0 <= i < 8 && 0 <= j < 8 && StartGrid()[i][j].Some? ==>
      && StartGrid()[i][j].value.Normal?
      && (i + j) % 2 == 1
      && (Owner(StartGrid()[i][j].value) == White <==> i <= 2)
      && (Owner(StartGrid()[i][j].value) == Black <==> i >= 5)
  {
    StartGridCells();
  }

  lemma CountRowPrefix(row: seq<Point>, k: nat, p: Player)
    requires k < |row|
    ensures CountRow(row[..k + 1], p) == CountRow(row[..k], p) + Tally(row[k], p)
  {
    assert row[..k + 1][..k] == row[..k];
  }

  lemma CountRowsPrefix(rows: seq<seq<Point>>, k: nat, p: Player)
    requires k < |rows|
    ensures CountRows(rows[..k + 1], p) == CountRows(rows[..k], p) + CountRow(rows[k], p)
  {
    assert rows[..k + 1][..k] == rows[..k];
  }

  /** The count of a row of eight cells, cell by cell. */
  lemma {:induction false} CountRowEight(row: seq<Point>, p: Player)
    requires |row| == 8
    ensures CountRow(row, p) ==
      Tally(row[0], p) + Tally(row[1], p) + Tally(row[2], p) + Tally(row[3], p) +
      Tally(row[4], p) + Tally(row[5], p) + Tally(row[6], p) + Tally(row[7], p)
  {
    CountRowPrefix(row, 0, p);
    CountRowPrefix(row, 1, p);
    CountRowPrefix(row, 2, p);
    CountRowPrefix(row, 3, p);
    CountRowPrefix(row, 4, p);
    CountRowPrefix(row, 5, p);
    CountRowPrefix(row, 6, p);
    CountRowPrefix(row, 7, p);
    assert row[..0] == [] && row[..8] == row;
  }

  /** The count of one row of the start layout: four pieces of the side whose rows these are. */
  lemma {:induction false} StartRowCount(i: nat, p: Player)
    requires i < 8
    ensures CountRow(StartGrid()[i], p) == if (i <= 2 && p == White) || (i >= 5 && p == Black) then 4 else 0
  {
    CountRowEight(StartGrid()[i], p);
    if i == 0 {} else if i == 1 {} else if i == 2 {} else if i == 3 {}
    else if i == 4 {} else if i == 5 {} else if i == 6 {} else {}
  }

  /** Both players start with 12 pieces. */
  lemma {:induction false} StartCounts()
    ensures CountPieces(StartGrid(), Black) == 12
    ensures CountPieces(StartGrid(), White) == 12
  {
    var g := StartGrid();
    forall k, p | 0 <= k < 8
      ensures CountRows(g[..k + 1], p) == CountRows(g[..k], p) + CountRow(g[k], p)
      ensures CountRow(g[k], p) == if (k <= 2 && p == White) || (k >= 5 && p == Black) then 4 else 0
    {
      CountRowsPrefix(g, k, p);
      StartRowCount(k, p);
    }
    assert g[..0] == [] && g[..8] == g;
    assert CountRows(g[..1], Black) == 0 && CountRows(g[..2], Black) == 0 && CountRows(g[..3], Black) == 0;
    assert CountRows(g[..4], Black) == 0 && CountRows(g[..5], Black) == 0 && CountRows(g[..6], Black) == 4;
    assert CountRows(g[..7], Black) == 8 && CountRows(g[..8], Black) == 12;
    assert CountRows(g[..1], White) == 4 && CountRows(g[..2], White) == 8 && CountRows(g[..3], White) == 12;
    assert CountRows(g[..4], White) == 12 && CountRows(g[..5], White) == 12 && CountRows(g[..6], White) == 12;
    assert CountRows(g[..7], White) == 12 && CountRows(g[..8], White) == 12;
  }

  /** The start layout turned round is the start layout with the colours swapped. */
  lemma {:induction false} StartCellMirror(i: nat, j: nat)
    requires i < 8 && j < 8
    ensures StartCell(7 - i, 7 - j) ==
      match StartCell(i, j)
      case None => None
      case Some(x) => Some(Normal(Switch(Owner(x))))
  {
    assert (14 - i - j) % 2 == (i + j) % 2;
  }

  lemma {:induction false} StartLikeNormalized(g: Grid)
    requires forall i, j :: 0 <= i < 8 && 0 <= j < 8 ==> g[i][j] == StartCell(i, j)
    ensures forall i, j :: 0 <= i < 8 && 0 <= j < 8 ==>
      Normalized(g, White)[i][j] ==
        match g[i][j]
        case None => None
        case Some(x) => Some(Normal(Switch(Owner(x))))
  {
    var w := Normalized(g, White);
    forall i, j | 0 <= i < 8 && 0 <= j < 8
      ensures w[i][j] == match g[i][j] case None => None case Some(x) => Some(Normal(Switch(Owner(x))))
    {
      assert w[i][j] == g[7 - i][7 - j] == StartCell(7 - i, 7 - j);
      StartCellMirror(i, j);
    }
  }

  /** Seen from White's side, the start layout is the same layout with the colours swapped. */
  lemma {:induction false} StartNormalizedForWhite()
    ensures forall i, j :: 0 <= i < 8 && 0 <= j < 8 ==>
      Normalized(StartGrid(), White)[i][j] ==
        match StartGrid()[i][j]
        case None => None
        case Some(x) => Some(Normal(Switch(Owner(x))))
  {
    StartGridCells();
    StartLikeNormalized(StartGrid());
  }

  // ---------------------------------------------------------------- validation

  /** The four ways `validate_submove` can reject a submove, with the positions it reports. */
  datatype MoveError =
    | NoPieceAt(at: Position)
    | NotEmpty(at: Position)
    | NotOwned(player: Player, at: Position)
    | NotForward(from: Position, to: Position)

  /**
   * `Board::validate_submove`: four checks on the board seen by `player`, the first
   * failure winning. There is no check of distance or direction beyond "forward".
   * The destination is read only once the `from` cell has been found occupied.
   */
  function ValidateSubmove(g: Grid, s: Submove, player: Player): (r: Result<bool, MoveError>)
    requires InBounds(s.from)
    requires At(Normalized(g, player), s.from).Some? ==> InBounds(s.to)
    ensures r.Ok? ==> r.value
    ensures r == Err(NoPieceAt(s.from)) <==> At(Normalized(g, player), s.from).None?
    ensures r == Err(NotEmpty(s.to)) <==>
      At(Normalized(g, player), s.from).Some? && At(Normalized(g, player), s.to).Some?
    ensures r == Err(NotOwned(player, s.from)) <==>
      && At(Normalized(g, player), s.from).Some?
      && At(Normalized(g, player), s.to).None?
      && Owner(At(Normalized(g, player), s.from).value) != player
    ensures r == Err(NotForward(s.from, s.to)) <==>
      && At(Normalized(g, player), s.from).Some?
      && At(Normalized(g, player), s.to).None?
      && Owner(At(Normalized(g, player), s.from).value) == player
      && At(Normalized(g, player), s.from).value.Normal?
      && s.from.row <= s.to.row
    ensures r == Ok(true) <==>
      && At(Normalized(g, player), s.from).Some?
      && At(Normalized(g, player), s.to).None?
      && Owner(At(Normalized(g, player), s.from).value) == player
      && (At(Normalized(g, player), s.from).value.Normal? ==> s.from.row > s.to.row)
  {
    var view := Normalized(g, player);
    if At(view, s.from).None? then Err(NoPieceAt(s.from))
    else if At(view, s.to).Some? then Err(NotEmpty(s.to))
    else if Owner(At(view, s.from).value) != player then Err(NotOwned(player, s.from))
    else if At(view, s.from).value.Normal? && !(s.from.row > s.to.row) then Err(NotForward(s.from, s.to))
    else Ok(true)
  }

  /** The `validate_submove_*` tests of board.rs and game.rs: an empty source, an occupied destination, and two accepted moves, one of them seven rows long. */
  lemma ValidateExamples()
    ensures ValidateSubmove(StartGrid(), NewSubmove((0, 0), (0, 0)), Black) == Err(NoPieceAt(Position(0, 0)))
    ensures ValidateSubmove(StartGrid(), NewSubmove((6, 1), (6, 1)), Black) == Err(NotEmpty(Position(6, 1)))
    ensures ValidateSubmove(StartGrid(), NewSubmove((5, 0), (4, 1)), Black) == Ok(true)
    ensures ValidateSubmove(StartGrid(), NewSubmove((7, 0), (0, 0)), Black) == Ok(true)
  {
  }
}

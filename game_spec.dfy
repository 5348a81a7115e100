/**
 * The rules of src/game.rs as functions on a snapshot of the `Game` fields: the
 * candidate destinations `gen_submoves` highlights, the effect of `select`, the
 * effect of `do_submove`, and the win test. The class in game.dfy is proved to
 * change its fields exactly as these functions say.
 */
module GameRules {
  import opened Wrappers
  import opened Players
  import opened Pieces
  import opened Positions
  import opened Moves
  import opened Grids

  /** `nmoves` is a `u8`. */
  type Byte = n: int | 0 <= n < 256

  /** The fields of `Game`, with the board as its grid of cells. */
  datatype State = State(
    board: Grid,
    player: Player,
    selected: Option<Position>,
    hilighted: seq<Position>,
    nmoves: Byte)

  /** `Game::new`. */
  function Initial(): (st: State)
    ensures CountPieces(st.board, Black) == 12 && CountPieces(st.board, White) == 12
    ensures st.player == Black && st.selected == None && st.hilighted == [] && st.nmoves == 1
  {
    StartCounts();
    State(StartGrid(), Black, None, [], 1)
  }

  // ---------------------------------------------------------------- candidates

  /** A signed coordinate pair, as the `(i32, i32)` tuples of `gen_submoves`. */
  type Coord = (int, int)

  /** The offsets listed for a king, exactly as written, one of them twice. */
  const KingOffsets: seq<Coord> := [(-1, -1), (-1, 1), (-1, 1), (1, 1)]

  /** The offsets listed for a normal piece. */
  const NormalOffsets: seq<Coord> := [(1, 1), (1, -1)]

  /** The offsets that apply to what stands on a cell; none for an empty cell. */
  function Offsets(x: Point): (r: seq<Coord>)
    ensures x.None? <==> r == []
    ensures forall k :: 0 <= k < |r| ==> Abs(r[k].0) == 1 && Abs(r[k].1) == 1
    ensures x.Some? && x.value.Normal? ==> forall k :: 0 <= k < |r| ==> r[k].0 == 1
  {
    match x
    case Some(King(_)) => KingOffsets
    case Some(Normal(_)) => NormalOffsets
    case None => []
  }

  /** `directional_moves_from(p)`: each offset subtracted from `p`, in list order. */
  function Directional(g: Grid, p: Position): (r: seq<Coord>)
    requires InBounds(p)
    ensures |r| == |Offsets(At(g, p))|
    ensures forall k :: 0 <= k < |r| ==> Abs(r[k].0 - p.row) == 1 && Abs(r[k].1 - p.col) == 1
    ensures At(g, p).Some? && At(g, p).value.Normal? ==> forall k :: 0 <= k < |r| ==> r[k].0 == p.row - 1
  {
    var offs := Offsets(At(g, p));
    seq(|offs|, k requires 0 <= k < |offs| => (p.row - offs[k].0, p.col - offs[k].1))
  }

  /** The bounds test of `filter_oob`. */
  predicate OnGrid(c: Coord)
  {
    0 <= c.0 < Width && 0 <= c.1 < Width
  }

  /** `filter_oob`, then the conversion to `Position`: the coordinates on the board, in order. */
  function OnBoard(cs: seq<Coord>): (r: seq<Position>)
    ensures |r| <= |cs|
    ensures forall q :: q in r ==> InBounds(q)
  {
    if cs == [] then []
    else
      var c := cs[|cs| - 1];
      OnBoard(cs[..|cs| - 1]) + (if OnGrid(c) then [Position(c.0, c.1)] else [])
  }

  /** `filter_oob` keeps exactly the listed coordinates that are on the board. */
  lemma {:induction false} OnBoardMembers(cs: seq<Coord>, q: Position)
    ensures q in OnBoard(cs) <==> InBounds(q) && (q.row as int, q.col as int) in cs
  {
    if cs != [] {
      var init := cs[..|cs| - 1];
      OnBoardMembers(init, q);
      assert cs == init + [cs[|cs| - 1]];
    }
  }

  /** `possible`: the neighbours of `p` that lie on the board. */
  function Possible(g: Grid, p: Position): (r: seq<Position>)
    requires InBounds(p)
    ensures |r| <= |Offsets(At(g, p))|
    ensures forall q :: q in r ==> InBounds(q)
  {
    OnBoard(Directional(g, p))
  }

  /** Every cell `possible` lists is a diagonal neighbour of `p`, and one row up for a normal piece. */
  lemma PossibleNeighbours(g: Grid, p: Position, q: Position)
    requires InBounds(p)
    requires q in Possible(g, p)
    ensures Abs(q.row - p.row) == 1 && Abs(q.col - p.col) == 1
    ensures At(g, p).Some? && At(g, p).value.Normal? ==> q.row == p.row - 1
  {
    OnBoardMembers(Directional(g, p), q);
  }

  /** The filter of `normal_only`: the listed cells that are empty, in order. */
  function EmptyOf(g: Grid, ps: seq<Position>): (r: seq<Position>)
    requires forall q :: q in ps ==> InBounds(q)
    ensures |r| <= |ps|
    ensures forall q :: q in r ==> InBounds(q) && At(g, q).None?
  {
    if ps == [] then []
    else
      var q := ps[|ps| - 1];
      EmptyOf(g, ps[..|ps| - 1]) + (if At(g, q).None? then [q] else [])
  }

  /** The filter of `normal_only` keeps exactly the listed cells that are empty. */
  lemma {:induction false} EmptyOfMembers(g: Grid, ps: seq<Position>, q: Position)
    requires forall q :: q in ps ==> InBounds(q)
    ensures q in EmptyOf(g, ps) <==> q in ps && At(g, q).None?
  {
    if ps != [] {
      var init := ps[..|ps| - 1];
      EmptyOfMembers(g, init, q);
      assert ps == init + [ps[|ps| - 1]];
    }
  }

  /** The filters of `attacked`: the listed cells holding a piece of `who`, in order. */
  function HeldBy(g: Grid, who: Player, ps: seq<Position>): (r: seq<Position>)
    requires forall q :: q in ps ==> InBounds(q)
    ensures |r| <= |ps|
    ensures forall q :: q in r ==> InBounds(q) && At(g, q).Some? && Owner(At(g, q).value) == who
  {
    if ps == [] then []
    else
      var q := ps[|ps| - 1];
      HeldBy(g, who, ps[..|ps| - 1]) + (if At(g, q).Some? && Owner(At(g, q).value) == who then [q] else [])
  }

  /** The filters of `attacked` keep exactly the listed cells holding a piece of `who`. */
  lemma {:induction false} HeldByMembers(g: Grid, who: Player, ps: seq<Position>, q: Position)
    requires forall q :: q in ps ==> InBounds(q)
    ensures q in HeldBy(g, who, ps) <==> q in ps && At(g, q).Some? && Owner(At(g, q).value) == who
  {
    if ps != [] {
      var init := ps[..|ps| - 1];
      HeldByMembers(g, who, init, q);
      assert ps == init + [ps[|ps| - 1]];
    }
  }

  /** The landing cell of a jump from `p` over `v`: `diff = v - p`, then `v + diff`. */
  function JumpTarget(p: Position, v: Position): (t: Coord)
    ensures t.0 + p.row == 2 * v.row && t.1 + p.col == 2 * v.col
  {
    var diff := (v.row - p.row, v.col - p.col);
    (v.row + diff.0, v.col + diff.1)
  }

  /** `t` is where a jump from `p` over `v` lands: `v` is halfway between `p` and `t`. */
  predicate Over(p: Position, v: Position, t: Position)
  {
    2 * v.row == p.row + t.row && 2 * v.col == p.col + t.col
  }

  /**
   * The loop over `attacked`: `h` with, for each of the first `n` attacked cells in
   * turn, the landing cell of the jump over it pushed when on the board and empty.
   */
  function PushJumps(h: seq<Position>, g: Grid, p: Position, vs: seq<Position>, n: nat): (r: seq<Position>)
    requires n <= |vs|
    ensures |h| <= |r| <= |h| + n
    ensures r[..|h|] == h
    ensures forall k :: |h| <= k < |r| ==> InBounds(r[k]) && At(g, r[k]).None?
  {
    if n == 0 then h
    else
      var t := JumpTarget(p, vs[n - 1]);
      PushJumps(h, g, p, vs, n - 1) + (if OnGrid(t) && At(g, Position(t.0, t.1)).None? then [Position(t.0, t.1)] else [])
  }

  /** Pushing onto `a + b` is pushing onto `b`, with `a` kept in front. */
  lemma {:induction false} PushJumpsAppend(a: seq<Position>, b: seq<Position>, g: Grid, p: Position, vs: seq<Position>, n: nat)
    requires n <= |vs|
    ensures PushJumps(a + b, g, p, vs, n) == a + PushJumps(b, g, p, vs, n)
  {
    if n > 0 {
      PushJumpsAppend(a, b, g, p, vs, n - 1);
    }
  }

  /**
   * A cell is pushed exactly when it is on the board, empty, and the landing cell of a
   * jump over one of the first `n` listed cells.
   */
  lemma {:induction false} PushJumpsMembers(h: seq<Position>, g: Grid, p: Position, vs: seq<Position>, n: nat, t: Position)
    requires n <= |vs|
    ensures t in PushJumps(h, g, p, vs, n) <==>
      t in h || (InBounds(t) && At(g, t).None? && exists k :: 0 <= k < n && Over(p, vs[k], t))
  {
    if n > 0 {
      PushJumpsMembers(h, g, p, vs, n - 1, t);
      var v := vs[n - 1];
      assert Over(p, v, t) <==> (t.row as int, t.col as int) == JumpTarget(p, v);
      if exists k :: 0 <= k < n && Over(p, vs[k], t) {
        var k :| 0 <= k < n && Over(p, vs[k], t);
        assert k < n - 1 || k == n - 1;
      }
    }
  }

  /**
   * What `gen_submoves(p)` appends for the side to move `player`: the empty
   * neighbours, then the jumps over the neighbours that hold an opponent's piece.
   */
  function Candidates(g: Grid, player: Player, p: Position): (r: seq<Position>)
    requires InBounds(p)
    ensures forall q :: q in r ==> InBounds(q) && At(g, q).None?
    ensures At(g, p).None? ==> r == []
    ensures EmptyOf(g, Possible(g, p)) <= r
  {
    var possible := Possible(g, p);
    var attacked := HeldBy(g, Switch(player), possible);
    PushJumps(EmptyOf(g, possible), g, p, attacked, |attacked|)
  }

  /** A normal piece at (r, c) looks at (r - 1, c - 1) and (r - 1, c + 1). */
  lemma NormalNeighbours(g: Grid, p: Position)
    requires InBounds(p) && At(g, p).Some? && At(g, p).value.Normal?
    ensures Directional(g, p) == [(p.row - 1, p.col - 1), (p.row - 1, p.col + 1)]
  {
  }

  /**
   * A king at (r, c) looks at (r + 1, c + 1), (r + 1, c - 1) twice, and (r - 1, c - 1):
   * (r - 1, c + 1) is never looked at.
   */
  lemma KingNeighbours(g: Grid, p: Position)
    requires InBounds(p) && At(g, p).Some? && At(g, p).value.King?
    ensures Directional(g, p) ==
      [(p.row + 1, p.col + 1), (p.row + 1, p.col - 1), (p.row + 1, p.col - 1), (p.row - 1, p.col - 1)]
  {
  }

  /**
   * A cell is a candidate exactly when it is an empty neighbour on the board, or the
   * empty on-board landing cell of a jump over a neighbour holding an opponent's piece.
   */
  lemma CandidatesSpec(g: Grid, player: Player, p: Position, q: Position)
    requires InBounds(p)
    ensures q in Candidates(g, player, p) <==>
      || (q in Possible(g, p) && At(g, q).None?)
      || (&& InBounds(q) && At(g, q).None?
          && exists v :: v in Possible(g, p) && At(g, v).Some? && Owner(At(g, v).value) == Switch(player)
                         && Over(p, v, q))
  {
    var possible := Possible(g, p);
    var attacked := HeldBy(g, Switch(player), possible);
    EmptyOfMembers(g, possible, q);
    PushJumpsMembers(EmptyOf(g, possible), g, p, attacked, |attacked|, q);
    if exists k :: 0 <= k < |attacked| && Over(p, attacked[k], q) {
      var k :| 0 <= k < |attacked| && Over(p, attacked[k], q);
      HeldByMembers(g, Switch(player), possible, attacked[k]);
    }
    if exists v :: v in possible && At(g, v).Some? && Owner(At(g, v).value) == Switch(player) && Over(p, v, q) {
      var v :| v in possible && At(g, v).Some? && Owner(At(g, v).value) == Switch(player) && Over(p, v, q);
      HeldByMembers(g, Switch(player), possible, v);
      var k :| 0 <= k < |attacked| && attacked[k] == v;
    }
  }

  /** A black piece at (5, 0) with (4, 1) empty can only step to (4, 1). */
  lemma {:induction false} EdgeStepCandidates(g: Grid)
    requires g[5][0] == Some(Normal(Black)) && g[4][1] == None
    ensures Candidates(g, Black, Position(5, 0)) == [Position(4, 1)]
  {
    var p := Position(5, 0);
    var cs: seq<Coord> := [(4, -1), (4, 1)];
    var ns := [Position(4, 1)];
    assert Directional(g, p) == cs;
    assert cs[..1] == [(4, -1)];
    assert Possible(g, p) == ns;
    assert ns[..0] == [];
    assert EmptyOf(g, ns) == ns;
    assert HeldBy(g, White, ns) == [];
  }

  /** From (5, 0) on the start board, Black can only go to (4, 1). */
  lemma StartCandidates()
    ensures Candidates(StartGrid(), Black, Position(5, 0)) == [Position(4, 1)]
  {
    EdgeStepCandidates(StartGrid());
  }

  /** `filter_oob` keeps a list whose coordinates are all on the board, in order. */
  lemma {:induction false} OnBoardKeepsAll(cs: seq<Coord>)
    requires forall k :: 0 <= k < |cs| ==> OnGrid(cs[k])
    ensures |OnBoard(cs)| == |cs|
    ensures forall k :: 0 <= k < |cs| ==> OnGrid(cs[k]) && OnBoard(cs)[k] == Position(cs[k].0, cs[k].1)
  {
    if cs != [] {
      var init := cs[..|cs| - 1];
      var c := cs[|cs| - 1];
      OnBoardKeepsAll(init);
      assert OnBoard(cs) == OnBoard(init) + [Position(c.0, c.1)];
    }
  }

  /** The filter of `normal_only` keeps a list of empty cells as it is. */
  lemma {:induction false} EmptyOfKeepsAll(g: Grid, ps: seq<Position>)
    requires forall q :: q in ps ==> InBounds(q) && At(g, q).None?
    ensures EmptyOf(g, ps) == ps
  {
    if ps != [] {
      EmptyOfKeepsAll(g, ps[..|ps| - 1]);
      assert ps[..|ps| - 1] + [ps[|ps| - 1]] == ps;
    }
  }

  /** The filters of `attacked` give nothing when no listed cell holds a piece of `who`. */
  lemma HeldByNone(g: Grid, who: Player, ps: seq<Position>)
    requires forall q :: q in ps ==> InBounds(q) && (At(g, q).None? || Owner(At(g, q).value) != who)
    ensures HeldBy(g, who, ps) == []
  {
  }

  /** The lone king's neighbours all lie on the board. */
  lemma LoneKingPossible()
    ensures
      var g := SetCell(EmptyGrid(), Position(3, 3), Some(King(Black)));
      Possible(g, Position(3, 3)) == [Position(4, 4), Position(4, 2), Position(4, 2), Position(2, 2)]
  {
    var g := SetCell(EmptyGrid(), Position(3, 3), Some(King(Black)));
    var cs: seq<Coord> := [(4, 4), (4, 2), (4, 2), (2, 2)];
    assert Directional(g, Position(3, 3)) == cs;
    OnBoardKeepsAll(cs);
  }

  /** A lone king at (3, 3): (4, 2) is offered twice and (2, 4) never. */
  lemma LoneKingCandidates()
    ensures
      var g := SetCell(EmptyGrid(), Position(3, 3), Some(King(Black)));
      Candidates(g, Black, Position(3, 3)) == [Position(4, 4), Position(4, 2), Position(4, 2), Position(2, 2)]
  {
    var g := SetCell(EmptyGrid(), Position(3, 3), Some(King(Black)));
    var ns := [Position(4, 4), Position(4, 2), Position(4, 2), Position(2, 2)];
    LoneKingPossible();
    EmptyOfKeepsAll(g, ns);
    HeldByNone(g, White, ns);
  }

  /** The board of the jump example: a black piece at (5, 2) and a white one at (4, 3). */
  function JumpBoard(): Grid
  {
    SetCell(SetCell(EmptyGrid(), Position(5, 2), Some(Normal(Black))), Position(4, 3), Some(Normal(White)))
  }

  /**
   * A black piece at (5, 2) next to a white one at (4, 3), with (4, 1) and (3, 4)
   * empty: one step and one jump, in that order.
   */
  lemma {:induction false} StepAndJumpCandidates(g: Grid)
    requires g[5][2] == Some(Normal(Black)) && g[4][1] == None
    requires g[4][3] == Some(Normal(White)) && g[3][4] == None
    ensures Candidates(g, Black, Position(5, 2)) == [Position(4, 1), Position(3, 4)]
  {
    var p := Position(5, 2);
    var cs: seq<Coord> := [(4, 1), (4, 3)];
    var ns := [Position(4, 1), Position(4, 3)];
    assert Directional(g, p) == cs;
    OnBoardKeepsAll(cs);
    assert Possible(g, p) == ns;
    assert ns[..1] == [Position(4, 1)];
    assert EmptyOf(g, ns) == [Position(4, 1)];
    assert HeldBy(g, White, ns) == [Position(4, 3)];
    assert PushJumps([Position(4, 1)], g, p, [Position(4, 3)], 1) == [Position(4, 1), Position(3, 4)];
  }

  /** On the jump board, Black at (5, 2) may step to (4, 1) or jump to (3, 4). */
  lemma JumpCandidates()
    ensures Candidates(JumpBoard(), Black, Position(5, 2)) == [Position(4, 1), Position(3, 4)]
  {
    StepAndJumpCandidates(JumpBoard());
  }

  // ---------------------------------------------------------------- selection

  /** `gen_submoves(p)`: the candidates appended to `hilighted`. */
  function GenSubmoves(st: State, p: Position): (r: State)
    requires InBounds(p)
    ensures r.board == st.board && r.player == st.player && r.selected == st.selected && r.nmoves == st.nmoves
    ensures r.hilighted == st.hilighted + Candidates(st.board, st.player, p)
    ensures forall k :: |st.hilighted| <= k < |r.hilighted| ==>
      InBounds(r.hilighted[k]) && At(st.board, r.hilighted[k]).None?
    ensures At(st.board, p).None? ==> r == st
  {
    var possible := Possible(st.board, p);
    var attacked := HeldBy(st.board, Switch(st.player), possible);
    PushJumpsAppend(st.hilighted, EmptyOf(st.board, possible), st.board, p, attacked, |attacked|);
    st.(hilighted := PushJumps(st.hilighted + EmptyOf(st.board, possible), st.board, p, attacked, |attacked|))
  }

  /**
   * `select(p)`: the highlights are cleared; an own piece is selected and its
   * candidates highlighted; an empty cell clears the selection; an opponent's
   * piece leaves the selection as it was.
   */
  function Select(st: State, p: Position): (r: State)
    requires InBounds(p)
    ensures r.board == st.board && r.player == st.player && r.nmoves == st.nmoves
    ensures At(st.board, p).None? ==> r.selected == None && r.hilighted == []
    ensures At(st.board, p).Some? && Owner(At(st.board, p).value) != st.player ==>
      r.selected == st.selected && r.hilighted == []
    ensures At(st.board, p).Some? && Owner(At(st.board, p).value) == st.player ==>
      r.selected == Some(p) && r.hilighted == Candidates(st.board, st.player, p)
  {
    var cleared := st.(hilighted := []);
    if At(st.board, p).None? then cleared.(selected := None)
    else if Owner(At(st.board, p).value) == st.player then GenSubmoves(cleared.(selected := Some(p)), p)
    else cleared
  }

  // ---------------------------------------------------------------- submoves

  function Abs(d: int): nat
  {
    if d < 0 then -d else d
  }

  function Sign(d: int): int
  {
    if d > 0 then 1 else if d < 0 then -1 else 0
  }

  /** A nonzero delta divided by its absolute value is its sign. */
  lemma UnitIsSign(d: int)
    requires d != 0
    ensures d / Abs(d) == Sign(d)
  {
    if d < 0 {
      assert -d / -d == 1;
      assert d == (-1) * Abs(d);
    }
  }

  /** The test of `do_submove`: a submove that goes further than one cell on either axis. */
  predicate IsJump(s: Submove)
    ensures IsJump(s) ==> s.from != s.to
  {
    Abs(s.to.row - s.from.row) > 1 || Abs(s.to.col - s.from.col) > 1
  }

  /** `from + (sign Δrow, sign Δcol)`, the one cell a jump clears besides `from`. */
  function Captured(s: Submove): (q: Position)
    requires InBounds(s.from) && InBounds(s.to)
    requires s.from.row != s.to.row && s.from.col != s.to.col
    ensures InBounds(q) && q != s.from
    ensures IsJump(s) ==> q != s.to
    ensures Abs(q.row - s.from.row) == 1 && Abs(q.col - s.from.col) == 1
    ensures Abs(s.to.row - q.row) + 1 == Abs(s.to.row - s.from.row)
    ensures Abs(s.to.col - q.col) + 1 == Abs(s.to.col - s.from.col)
  {
    Position(s.from.row + Sign(s.to.row - s.from.row), s.from.col + Sign(s.to.col - s.from.col))
  }

  /**
   * What `do_submove` needs not to panic: both cells on the board, a piece to
   * unwrap at `from`, no zero delta for the unit direction of a jump, and no
   * `u8` underflow of `nmoves` on a step.
   */
  predicate CanApply(st: State, s: Submove)
  {
    && InBounds(s.from) && InBounds(s.to)
    && At(st.board, s.from).Some?
    && (IsJump(s) ==> s.from.row != s.to.row && s.from.col != s.to.col)
    && (!IsJump(s) ==> st.nmoves >= 1)
  }

  /** What lands on `to`: a king of the side to move on row 0, else the piece that moved. */
  function Landing(st: State, s: Submove): (x: Piece)
    requires CanApply(st, s)
    ensures s.to.row == 0 ==> x == King(st.player)
    ensures s.to.row != 0 ==> Some(x) == At(st.board, s.from)
  {
    if s.to.row == 0 then King(st.player) else At(st.board, s.from).value
  }

  /** The board after the removals and the placement of `do_submove`, before any flip. */
  function Moved(st: State, s: Submove): (g: Grid)
    requires CanApply(st, s)
    ensures At(g, s.to) == Some(Landing(st, s))
    ensures s.from != s.to ==> At(g, s.from) == None
    ensures IsJump(s) ==> At(g, Captured(s)) == None
    ensures forall q :: InBounds(q) && q != s.from && q != s.to && (IsJump(s) ==> q != Captured(s)) ==>
      At(g, q) == At(st.board, q)
  {
    var lifted := SetCell(st.board, s.from, None);
    var cleared := if IsJump(s) then SetCell(lifted, Captured(s), None) else lifted;
    SetCell(cleared, s.to, Some(Landing(st, s)))
  }

  /**
   * `do_submove(s)`: move and capture; a step uses up one unit of `nmoves`, and when
   * none is left the turn passes: the board is flipped and `nmoves` is back to 1.
   */
  function ApplySubmove(st: State, s: Submove): (r: State)
    requires CanApply(st, s)
    ensures r.selected == st.selected && r.hilighted == st.hilighted
    ensures r.player != st.player <==> st.nmoves == (if IsJump(s) then 0 else 1)
    ensures r.player != st.player ==> r.player == Switch(st.player) && r.board == Rotated(Moved(st, s))
    ensures r.player == st.player ==> r.board == Moved(st, s)
    ensures r.player != st.player ==> r.nmoves == 1
    ensures r.player == st.player ==> r.nmoves == if IsJump(s) then st.nmoves else st.nmoves - 1
    ensures IsJump(s) && st.nmoves > 0 ==> r.nmoves == st.nmoves
    ensures st.nmoves == 1 ==> r.nmoves == 1
  {
    var n := if IsJump(s) then st.nmoves else st.nmoves - 1;
    var g := Moved(st, s);
    if n == 0 then st.(board := Rotated(g), player := Switch(st.player), nmoves := 1)
    else st.(board := g, nmoves := n)
  }

  /** The cell a position is seen at once the board has been turned round. */
  function Mirror(q: Position): (m: Position)
    requires InBounds(q)
    ensures InBounds(m) && m.row + q.row == 7 && m.col + q.col == 7
  {
    Position(7 - q.row, 7 - q.col)
  }

  /**
   * A jump (with some `nmoves` left) keeps the side to move and the orientation: the
   * piece lands on `to`, `from` and the jumped cell are emptied, and nothing else changes.
   */
  lemma JumpCells(st: State, s: Submove)
    requires CanApply(st, s) && IsJump(s) && st.nmoves > 0
    ensures var r := ApplySubmove(st, s);
      && r.player == st.player && r.nmoves == st.nmoves
      && At(r.board, s.to) == Some(Landing(st, s))
      && At(r.board, s.from) == None
      && At(r.board, Captured(s)) == None
      && forall q :: InBounds(q) && q != s.from && q != s.to && q != Captured(s) ==>
           At(r.board, q) == At(st.board, q)
  {
  }

  /**
   * A step with one unit of `nmoves` passes the turn: every cell is found at its
   * mirror image, the piece on the mirror of `to`, the mirror of `from` empty.
   */
  lemma StepCells(st: State, s: Submove)
    requires CanApply(st, s) && !IsJump(s) && st.nmoves == 1
    ensures var r := ApplySubmove(st, s);
      && r.player == Switch(st.player) && r.nmoves == 1
      && At(r.board, Mirror(s.to)) == Some(Landing(st, s))
      && (s.from != s.to ==> At(r.board, Mirror(s.from)) == None)
      && forall q :: InBounds(q) && q != s.from && q != s.to ==> At(r.board, Mirror(q)) == At(st.board, q)
  {
    var r := ApplySubmove(st, s);
    var g := Moved(st, s);
    forall q | InBounds(q)
      ensures At(r.board, Mirror(q)) == At(g, q)
    {
    }
  }

  /**
   * A jump by an own piece onto an empty cell over an opponent's piece takes
   * exactly that piece: the mover keeps its count and the opponent loses one.
   */
  lemma {:induction false} JumpCapturesOne(st: State, s: Submove)
    requires CanApply(st, s) && IsJump(s) && st.nmoves > 0
    requires Owner(At(st.board, s.from).value) == st.player
    requires At(st.board, s.to).None?
    requires At(st.board, Captured(s)).Some? && Owner(At(st.board, Captured(s)).value) == Switch(st.player)
    ensures var r := ApplySubmove(st, s);
      && CountPieces(r.board, st.player) == CountPieces(st.board, st.player)
      && CountPieces(r.board, Switch(st.player)) + 1 == CountPieces(st.board, Switch(st.player))
  {
    var lifted := SetCell(st.board, s.from, None);
    var cleared := SetCell(lifted, Captured(s), None);
    var placed := SetCell(cleared, s.to, Some(Landing(st, s)));
    assert At(lifted, Captured(s)) == At(st.board, Captured(s));
    assert At(cleared, s.to) == None;
    GridExt(placed, Moved(st, s));
    forall p: Player
      ensures CountPieces(placed, p) + Tally(At(st.board, s.from), p) + Tally(At(st.board, Captured(s)), p)
        == CountPieces(st.board, p) + Tally(Some(Landing(st, s)), p)
    {
      CountSetCell(st.board, s.from, None, p);
      CountSetCell(lifted, Captured(s), None, p);
      CountSetCell(cleared, s.to, Some(Landing(st, s)), p);
    }
  }

  /**
   * A step by an own piece onto an empty cell (or onto itself) keeps both players'
   * counts, whether or not the turn passes and the board is flipped.
   */
  lemma {:induction false} StepKeepsCounts(st: State, s: Submove)
    requires CanApply(st, s) && !IsJump(s)
    requires Owner(At(st.board, s.from).value) == st.player
    requires s.from == s.to || At(st.board, s.to).None?
    ensures var r := ApplySubmove(st, s);
      forall p: Player :: CountPieces(r.board, p) == CountPieces(st.board, p)
  {
    var lifted := SetCell(st.board, s.from, None);
    var placed := SetCell(lifted, s.to, Some(Landing(st, s)));
    assert At(lifted, s.to) == None;
    GridExt(placed, Moved(st, s));
    forall p: Player
      ensures CountPieces(Moved(st, s), p) == CountPieces(st.board, p)
      ensures CountPieces(Rotated(Moved(st, s)), p) == CountPieces(st.board, p)
    {
      CountSetCell(st.board, s.from, None, p);
      CountSetCell(lifted, s.to, Some(Landing(st, s)), p);
      CountRotated(Moved(st, s), p);
    }
  }

  /**
   * The opening step (5, 0) -> (4, 1) of a new game: White is to move, the board is
   * turned round, the black piece is seen at (3, 6) and (2, 7) is empty; every other
   * cell is the start layout seen from the other side.
   */
  lemma {:induction false} FirstMove()
    ensures var r := ApplySubmove(Initial(), Submove(Position(5, 0), Position(4, 1)));
      && r.player == White && r.nmoves == 1 && r.selected == None && r.hilighted == []
      && r.board[3][6] == Some(Normal(Black))
      && r.board[2][7] == None
      && forall i, j :: 0 <= i < 8 && 0 <= j < 8 && (i, j) != (3, 6) && (i, j) != (2, 7) ==>
           r.board[i][j] == StartCell(7 - i, 7 - j)
  {
    var st := Initial();
    var s := Submove(Position(5, 0), Position(4, 1));
    StartGridCells();
    assert !IsJump(s);
    StepCells(st, s);
    var r := ApplySubmove(st, s);
    forall i, j | 0 <= i < 8 && 0 <= j < 8 && (i, j) != (3, 6) && (i, j) != (2, 7)
      ensures r.board[i][j] == StartCell(7 - i, 7 - j)
    {
      var q := Position(7 - i, 7 - j);
      assert Mirror(q) == Position(i, j);
    }
  }

  // ---------------------------------------------------------------- winning

  /**
   * `win_condition`: White wins when Black has no piece left (tested first), Black
   * wins when White has none, and otherwise nobody has won yet.
   */
  function Winner(g: Grid): (r: Option<Player>)
    ensures r == Some(White) <==> CountPieces(g, Black) == 0
    ensures r == Some(Black) <==> CountPieces(g, Black) > 0 && CountPieces(g, White) == 0
    ensures r == None <==> CountPieces(g, Black) > 0 && CountPieces(g, White) > 0
  {
    if CountPieces(g, Black) == 0 then Some(White)
    else if CountPieces(g, White) == 0 then Some(Black)
    else None
  }

  lemma {:induction false} CountRowZero(row: seq<Point>, p: Player)
    ensures CountRow(row, p) == 0 <==> forall j :: 0 <= j < |row| ==> Tally(row[j], p) == 0
  {
    if row != [] {
      var init := row[..|row| - 1];
      CountRowZero(init, p);
      assert forall j :: 0 <= j < |init| ==> init[j] == row[j];
    }
  }

  lemma {:induction false} CountRowsZero(rows: seq<seq<Point>>, p: Player)
    ensures CountRows(rows, p) == 0 <==>
      forall i, j :: 0 <= i < |rows| && 0 <= j < |rows[i]| ==> Tally(rows[i][j], p) == 0
  {
    if rows != [] {
      var init := rows[..|rows| - 1];
      CountRowsZero(init, p);
      CountRowZero(rows[|rows| - 1], p);
      assert forall i :: 0 <= i < |init| ==> init[i] == rows[i];
    }
  }

  /** A player has a count of 0 exactly when no cell holds one of their pieces. */
  lemma CountZero(g: Grid, p: Player)
    ensures CountPieces(g, p) == 0 <==>
      forall i, j :: 0 <= i < 8 && 0 <= j < 8 ==> g[i][j].None? || Owner(g[i][j].value) != p
  {
    CountRowsZero(g, p);
  }

  /** Nobody has won on the start board. */
  lemma StartHasNoWinner()
    ensures Winner(StartGrid()) == None
  {
    StartCounts();
  }

  /** The board of the `win_condition_black` test: Black's three start rows and nothing else. */
  function BlackRowsOnly(): Grid
  {
    var b := Some(BlackPiece());
    [ [None, None, None, None, None, None, None, None],
      [None, None, None, None, None, None, None, None],
      [None, None, None, None, None, None, None, None],
      [None, None, None, None, None, None, None, None],
      [None, None, None, None, None, None, None, None],
      [b, None, b, None, b, None, b, None],
      [None, b, None, b, None, b, None, b],
      [b, None, b, None, b, None, b, None] ]
  }

  /** With only Black's pieces on the board, Black has won. */
  lemma {:induction false} BlackOnlyWins()
    ensures Winner(BlackRowsOnly()) == Some(Black)
  {
    var g := BlackRowsOnly();
    forall i, j | 0 <= i < 8 && 0 <= j < 8
      ensures g[i][j].None? || Owner(g[i][j].value) != White
    {
      if j == 0 {} else if j == 1 {} else if j == 2 {} else if j == 3 {}
      else if j == 4 {} else if j == 5 {} else if j == 6 {} else {}
    }
    CountZero(g, White);
    CountZero(g, Black);
    assert g[5][0].Some? && Owner(g[5][0].value) == Black;
  }
}

/**
 * The text forms of a board (src/board.rs, `From<&str>` and `Display`): a parser
 * that reads one character per cell in row-major order, and a printer that writes
 * eight lines of eight glyphs.
 */
module BoardText {
  import opened Wrappers
  import opened Players
  import opened Pieces
  import opened Positions
  import opened Grids

  /** The middle dot that both the parser and the printer use for an empty cell. */
  const Dot: char := '·'

  /** Why the parser panics: a character outside the glyph set, or a piece written past cell 63. */
  datatype ParseError = InvalidCharacter(index: nat, c: char) | OutOfRange(index: nat)

  /**
   * What character `c` contributes to a cell: `None` when it is not a glyph at all,
   * `Some(None)` for an empty-cell glyph. Capitals give NORMAL pieces, like the
   * lower-case letters.
   */
  function GlyphPoint(c: char): (r: Option<Point>)
    ensures r.Some? && r.value.Some? ==> r.value.value.Normal?
    ensures c == '\n' ==> r == None
  {
    if c == 'w' || c == 'W' then Some(Some(WhitePiece()))
    else if c == 'b' || c == 'B' then Some(Some(BlackPiece()))
    else if c == '-' || c == Dot then Some(None)
    else None
  }

  /** Whether the parser gets past character `k` of `s`. */
  predicate Accepted(s: string, k: nat)
    requires k < |s|
  {
    GlyphPoint(s[k]).Some? && (GlyphPoint(s[k]).value.Some? ==> k < 64)
  }

  /**
   * The parse of `s[i..]` onto `g`: character k is cell (k / 8, k % 8); a piece glyph
   * overwrites it, an empty-cell glyph leaves it as it is.
   */
  function ParseFrom(s: string, i: nat, g: Grid): (r: Result<Grid, ParseError>)
    requires i <= |s|
    ensures r.Err? ==> i <= r.error.index < |s|
    ensures r.Err? && r.error.OutOfRange? ==> 64 <= r.error.index
    decreases |s| - i
  {
    if i == |s| then Ok(g)
    else match GlyphPoint(s[i])
      case None => Err(InvalidCharacter(i, s[i]))
      case Some(None) => ParseFrom(s, i + 1, g)
      case Some(Some(x)) =>
        if i >= 64 then Err(OutOfRange(i))
        else ParseFrom(s, i + 1, SetCell(g, Position(i / 8, i % 8), Some(x)))
  }

  /** `Board::from(&str)`, a panic being an `Err`. */
  function Parse(s: string): (r: Result<Grid, ParseError>)
    ensures r.Err? ==> r.error.index < |s|
    ensures |s| <= 64 ==> !(r.Err? && r.error.OutOfRange?)
    ensures s == [] ==> r == Ok(EmptyGrid())
  {
    ParseFrom(s, 0, EmptyGrid())
  }

  /** The cell that `ParseFrom(s, i, g)` leaves at (r, c), character 8r+c having been accepted. */
  function ParsedCell(s: string, i: nat, g: Grid, r: nat, c: nat): Point
    requires r < 8 && c < 8
  {
    var k := 8 * r + c;
    if i <= k < |s| && GlyphPoint(s[k]).Some? && GlyphPoint(s[k]).value.Some? then GlyphPoint(s[k]).value
    else g[r][c]
  }

  /**
   * `ParseFrom` succeeds exactly when every remaining character is accepted; it then
   * holds the written pieces and the old cells elsewhere, and otherwise it reports the
   * first character that is not accepted.
   */
  lemma {:induction false} ParseFromSpec(s: string, i: nat, g: Grid)
    requires i <= |s|
    ensures ParseFrom(s, i, g).Ok? <==> forall k :: i <= k < |s| ==> Accepted(s, k)
    ensures ParseFrom(s, i, g).Ok? ==>
      forall r, c :: 0 <= r < 8 && 0 <= c < 8 ==> ParseFrom(s, i, g).value[r][c] == ParsedCell(s, i, g, r, c)
    ensures ParseFrom(s, i, g).Err? ==>
      var k := ParseFrom(s, i, g).error.index;
      && i <= k < |s| && !Accepted(s, k)
      && (forall k' :: i <= k' < k ==> Accepted(s, k'))
      && ParseFrom(s, i, g).error == if GlyphPoint(s[k]).None? then InvalidCharacter(k, s[k]) else OutOfRange(k)
    decreases |s| - i
  {
    if i < |s| {
      match GlyphPoint(s[i])
      case None =>
        assert !Accepted(s, i);
      case Some(None) =>
        ParseFromSpec(s, i + 1, g);
        if ParseFrom(s, i, g).Ok? {
          forall r, c | 0 <= r < 8 && 0 <= c < 8
            ensures ParseFrom(s, i, g).value[r][c] == ParsedCell(s, i, g, r, c)
          {
            assert ParsedCell(s, i + 1, g, r, c) == ParsedCell(s, i, g, r, c);
          }
        }
      case Some(Some(x)) =>
        if i < 64 {
          var g' := SetCell(g, Position(i / 8, i % 8), Some(x));
          ParseFromSpec(s, i + 1, g');
          if ParseFrom(s, i, g).Ok? {
            forall r, c | 0 <= r < 8 && 0 <= c < 8
              ensures ParseFrom(s, i, g).value[r][c] == ParsedCell(s, i, g, r, c)
            {
              assert ParsedCell(s, i + 1, g', r, c) == ParsedCell(s, i, g, r, c);
            }
          }
        } else {
          assert !Accepted(s, i);
        }
    }
  }

  /**
   * The parser, from the start: it succeeds exactly when every character is a glyph and
   * no piece glyph lies past cell 63; character k then fills cell (k / 8, k % 8) and
   * every cell without a piece glyph, including those past the end of `s`, is empty.
   */
  lemma ParseCells(s: string)
    ensures Parse(s).Ok? <==> forall k :: 0 <= k < |s| ==> Accepted(s, k)
    ensures Parse(s).Ok? ==> forall r, c :: 0 <= r < 8 && 0 <= c < 8 ==>
      Parse(s).value[r][c] ==
        if 8 * r + c < |s| && GlyphPoint(s[8 * r + c]).Some? then GlyphPoint(s[8 * r + c]).value else None
    ensures Parse(s).Err? ==> Parse(s).error.index < |s| && !Accepted(s, Parse(s).error.index)
  {
    ParseFromSpec(s, 0, EmptyGrid());
  }

  /** The string of the `from_pass` test: the start layout, one row after the other. */
  const StartText: string :=
    "-w-w-w-w" + "w-w-w-w-" + "-w-w-w-w" + "--------" + "--------" + "b-b-b-b-" + "-b-b-b-b" + "b-b-b-b-"

  /** Row r of the start text: empty, or the side's glyph on every other cell. */
  function StartRowText(r: nat): string
  {
    var on := if r <= 2 then 'w' else 'b';
    if r == 3 || r == 4 then "--------"
    else if r % 2 == 1 then [on, '-', on, '-', on, '-', on, '-']
    else ['-', on, '-', on, '-', on, '-', on]
  }

  lemma {:induction false} StartTextTop(r: nat, c: nat)
    requires r < 4 && c < 8
    ensures StartText[8 * r + c] == StartRowText(r)[c]
  {
    if r == 0 {} else if r == 1 {} else if r == 2 {} else {}
  }

  lemma {:induction false} StartTextBottom(r: nat, c: nat)
    requires 4 <= r < 8 && c < 8
    ensures StartText[8 * r + c] == StartRowText(r)[c]
  {
    if r == 4 {} else if r == 5 {} else if r == 6 {} else {}
  }

  /** Character 8r+c of the start text is character c of its row r. */
  lemma {:induction false} StartTextRow(r: nat, c: nat)
    requires r < 8 && c < 8
    ensures StartText[8 * r + c] == StartRowText(r)[c]
  {
    if r < 4 {
      StartTextTop(r, c);
    } else {
      StartTextBottom(r, c);
    }
  }

  lemma {:induction false} StartRowCell(r: nat, c: nat)
    requires r < 8 && c < 8
    ensures GlyphPoint(StartRowText(r)[c]) == Some(StartCell(r, c))
  {
    if c == 0 {} else if c == 1 {} else if c == 2 {} else if c == 3 {}
    else if c == 4 {} else if c == 5 {} else if c == 6 {} else {}
  }

  /** Character 8r+c of the start text is the glyph of the start layout's cell (r, c). */
  lemma {:induction false} StartTextCell(r: nat, c: nat)
    requires r < 8 && c < 8
    ensures GlyphPoint(StartText[8 * r + c]) == Some(StartCell(r, c))
  {
    StartTextRow(r, c);
    StartRowCell(r, c);
  }

  /** Every character of the start text is a glyph within the 64 cells. */
  lemma {:induction false} StartTextAccepted()
    ensures |StartText| == 64
    ensures forall k :: 0 <= k < 64 ==> Accepted(StartText, k)
  {
    assert |StartText| == 64;
    forall k | 0 <= k < 64
      ensures Accepted(StartText, k)
    {
      var r, c := k / 8, k % 8;
      StartTextCell(r, c);
      assert 8 * r + c == k;
    }
  }

  /** The start layout's text parses to `Board::new()`. */
  lemma {:induction false} ParseStartText()
    ensures Parse(StartText) == Ok(StartGrid())
  {
    StartTextAccepted();
    ParseCells(StartText);
    var g := Parse(StartText).value;
    StartGridCells();
    forall r, c | 0 <= r < 8 && 0 <= c < 8
      ensures g[r][c] == StartGrid()[r][c]
    {
      StartTextCell(r, c);
    }
    GridExt(g, StartGrid());
  }

  /** A character outside the glyph set is refused. */
  lemma ParseRejectsOthers()
    ensures Parse("x") == Err(InvalidCharacter(0, 'x'))
    ensures Parse("-w\n") == Err(InvalidCharacter(2, '\n'))
  {
  }

  // ---------------------------------------------------------------- display

  /** The glyph `Display` writes for a cell: the parser's letters, capitals for kings. */
  function Glyph(x: Point): (c: char)
    ensures GlyphPoint(c) == Some(Demote(x))
    ensures c != '\n'
  {
    match x
    case None => Dot
    case Some(Normal(White)) => 'w'
    case Some(Normal(Black)) => 'b'
    case Some(King(White)) => 'W'
    case Some(King(Black)) => 'B'
  }

  /** The glyphs of a row, left to right. */
  function RowText(row: seq<Point>): (t: string)
    ensures |t| == |row|
    ensures forall k :: 0 <= k < |row| ==> t[k] == Glyph(row[k])
  {
    if row == [] then "" else RowText(row[..|row| - 1]) + [Glyph(row[|row| - 1])]
  }

  /** `impl Display for Board`: every row's glyphs followed by a newline. */
  function Show(rows: seq<seq<Point>>): (t: string)
    ensures rows == [] <==> t == []
    ensures rows != [] ==> t[|t| - 1] == '\n'
  {
    if rows == [] then "" else Show(rows[..|rows| - 1]) + RowText(rows[|rows| - 1]) + "\n"
  }

  /** Rows of 8 cells are shown as lines of 9 characters: 8 glyphs, then a newline. */
  lemma {:induction false} ShowLines(rows: seq<seq<Point>>)
    requires forall i :: 0 <= i < |rows| ==> |rows[i]| == 8
    ensures |Show(rows)| == 9 * |rows|
    ensures forall r, c :: 0 <= r < |rows| && 0 <= c < 8 ==> Show(rows)[9 * r + c] == Glyph(rows[r][c])
    ensures forall r :: 0 <= r < |rows| ==> Show(rows)[9 * r + 8] == '\n'
  {
    if rows != [] {
      var n := |rows|;
      var init := rows[..n - 1];
      ShowLines(init);
      var a, b := Show(init), RowText(rows[n - 1]);
      assert Show(rows) == a + b + "\n";
      forall r, c | 0 <= r < n && 0 <= c < 8
        ensures Show(rows)[9 * r + c] == Glyph(rows[r][c])
      {
        if r < n - 1 {
          assert init[r] == rows[r];
          assert Show(rows)[9 * r + c] == a[9 * r + c];
        } else {
          assert Show(rows)[9 * r + c] == b[c];
        }
      }
      forall r | 0 <= r < n
        ensures Show(rows)[9 * r + 8] == '\n'
      {
        if r < n - 1 {
          assert Show(rows)[9 * r + 8] == a[9 * r + 8];
        }
      }
    }
  }

  /** `Display` writes 8 lines of 8 glyphs, each line ended by a newline. */
  lemma ShowLayout(g: Grid)
    ensures |Show(g)| == 72
    ensures forall r, c :: 0 <= r < 8 && 0 <= c < 8 ==> Show(g)[9 * r + c] == Glyph(g[r][c])
    ensures forall r :: 0 <= r < 8 ==> Show(g)[9 * r + 8] == '\n'
  {
    ShowLines(g);
  }

  /**
   * The parser refuses what `Display` writes: the newline that ends the first line is
   * not a glyph.
   */
  lemma ShowIsNotParsable(g: Grid)
    ensures Parse(Show(g)) == Err(InvalidCharacter(8, '\n'))
  {
    var t := Show(g);
    ShowLayout(g);
    assert t[9 * 0 + 8] == '\n';
    forall k | 0 <= k < 8
      ensures Accepted(t, k)
    {
      assert t[9 * 0 + k] == Glyph(g[0][k]);
    }
    ParseFromSpec(t, 0, EmptyGrid());
    assert !Accepted(t, 8);
  }

  /** `s` with its newlines taken out. */
  function Unlined(s: string): (t: string)
    ensures |t| <= |s|
  {
    if s == [] then [] else Unlined(s[..|s| - 1]) + (if s[|s| - 1] == '\n' then [] else [s[|s| - 1]])
  }

  lemma {:induction false} UnlinedAppend(a: string, b: string)
    ensures Unlined(a + b) == Unlined(a) + Unlined(b)
  {
    if b != [] {
      assert (a + b)[..|a + b| - 1] == a + b[..|b| - 1];
      UnlinedAppend(a, b[..|b| - 1]);
    } else {
      assert a + b == a;
    }
  }

  lemma {:induction false} UnlinedRowText(row: seq<Point>)
    ensures Unlined(RowText(row)) == RowText(row)
  {
    if row != [] {
      UnlinedRowText(row[..|row| - 1]);
      UnlinedAppend(RowText(row[..|row| - 1]), [Glyph(row[|row| - 1])]);
      assert [Glyph(row[|row| - 1])][..0] == [];
    }
  }

  /** Without its newlines, the display of rows of 8 is one glyph per cell, in row-major order. */
  lemma {:induction false} UnlinedShow(rows: seq<seq<Point>>)
    requires forall i :: 0 <= i < |rows| ==> |rows[i]| == 8
    ensures |Unlined(Show(rows))| == 8 * |rows|
    ensures forall r, c :: 0 <= r < |rows| && 0 <= c < 8 ==> Unlined(Show(rows))[8 * r + c] == Glyph(rows[r][c])
  {
    if rows != [] {
      var n := |rows|;
      var init, last := rows[..n - 1], rows[n - 1];
      UnlinedShow(init);
      UnlinedAppend(Show(init) + RowText(last), "\n");
      UnlinedAppend(Show(init), RowText(last));
      UnlinedRowText(last);
      assert "\n"[..0] == [];
      var a, b := Unlined(Show(init)), RowText(last);
      var u := Unlined(Show(rows));
      assert u == a + b;
      forall r, c | 0 <= r < n && 0 <= c < 8
        ensures u[8 * r + c] == Glyph(rows[r][c])
      {
        if r < n - 1 {
          assert init[r] == rows[r];
          assert u[8 * r + c] == a[8 * r + c];
        } else {
          assert u[8 * r + c] == b[c];
        }
      }
    }
  }

  /** What the parser makes of a glyph: kings come back as normal pieces. */
  function Demote(x: Point): Point
  {
    match x
    case Some(King(p)) => Some(Normal(p))
    case _ => x
  }

  /** The board with every king replaced by a normal piece of the same player. */
  function Demoted(g: Grid): Grid
  {
    seq(8, i requires 0 <= i < 8 => seq(8, j requires 0 <= j < 8 => Demote(g[i][j])))
  }

  predicate KingFree(g: Grid)
  {
    forall i, j :: 0 <= i < 8 && 0 <= j < 8 && g[i][j].Some? ==> g[i][j].value.Normal?
  }

  /**
   * Display, then newlines taken out, then parse: the board comes back, except that
   * kings come back as normal pieces; so a board without kings comes back unchanged.
   */
  lemma DisplayRoundTrip(g: Grid)
    ensures Parse(Unlined(Show(g))) == Ok(Demoted(g))
    ensures KingFree(g) ==> Parse(Unlined(Show(g))) == Ok(g)
  {
    var t := Unlined(Show(g));
    UnlinedShow(g);
    forall k | 0 <= k < |t|
      ensures Accepted(t, k)
    {
      assert t[8 * (k / 8) + k % 8] == Glyph(g[k / 8][k % 8]);
    }
    ParseCells(t);
    forall r, c | 0 <= r < 8 && 0 <= c < 8
      ensures Parse(t).value[r][c] == Demoted(g)[r][c]
    {
      assert t[8 * r + c] == Glyph(g[r][c]);
    }
    GridExt(Parse(t).value, Demoted(g));
    if KingFree(g) {
      GridExt(Demoted(g), g);
    }
  }
}

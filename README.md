# Checkers rules engine, modelled in Dafny

This project models the rules engine of a Rust checkers game: the players, the pieces,
board positions and submoves, the 8×8 board with its text parser and printer, and the
`Game` session that selects pieces, highlights candidate destinations, applies submoves
and decides the winner. It models the code as written, including its quirks:

- capital letters parse to normal pieces;
- the king's offset list has a duplicate and misses a diagonal;
- `do_submove` does no validation, and a jump does not end the turn;
- promotion gives a king of the side to move.

Modules and files:

| file | module | what it holds |
|---|---|---|
| `wrappers.dfy` | `Wrappers` | `Option` and `Result` |
| `player.dfy` | `Players` | `Player`, `switch` |
| `piece.dfy` | `Pieces` | `Piece`, the four constructors, `player()` (`Owner`) |
| `position.dfy` | `Positions` | `Position` and its `+` / `-` |
| `moves.dfy` | `Moves` | `Submove`, `Submove::new`, `+` / `-` |
| `grid.dfy` | `Grids` | the board as a value: cells, rotation, counting, the start layout, `validate_submove` |
| `board_text.dfy` | `BoardText` | `From<&str>` and `Display` as functions, with their properties |
| `board.dfy` | `Boards` | `class Board`: the in-place operations, `norm`, the parse loop and the print loop |
| `game_spec.dfy` | `GameRules` | the `Game` fields as a `State` value, and `gen_submoves`, `select`, `do_submove` and `win_condition` as functions on it, with their properties |
| `game.dfy` | `Games` | `class Game`: the methods that update the fields, each proved equal to its `GameRules` function |

The source's doc comment on `From<&str>` (src/board.rs:214-215) says capital letters
denote kings. The code (src/board.rs:223-224) parses them as normal pieces, and the
model follows the code.

A negative `i32` coordinate is cast to `usize` and back before the bounds test of
`gen_submoves` (src/game.rs:105-106). That round trip gives back the original value,
so the model keeps such coordinates as `int` and tests the bounds directly.

## Model

| member | source | states |
|---|---|---|
| Players.Switch | src/player.rs:10-15 | the opponent is never the player itself (so White and Black swap) |
| Players.SwitchInvolutive | src/player.rs:10-15 | switching twice gives back the player |
| Pieces.Owner | src/piece.rs:30-34 | the owner is the player inside the piece, for either rank |
| Pieces.WhitePiece | src/piece.rs:17-19 | `white()` is a normal piece owned by White |
| Pieces.BlackPiece | src/piece.rs:20-22 | `black()` is a normal piece owned by Black |
| Pieces.WhiteKing | src/piece.rs:23-25 | `white_king()` is a king owned by White |
| Pieces.BlackKing | src/piece.rs:26-28 | `black_king()` is a king owned by Black |
| Pieces.ConstructorsDistinct | src/piece.rs:10-14 | the four constructors give four pairwise different pieces |
| Positions.Add | src/board.rs:34-40 | the sum dominates both operands componentwise |
| Positions.Sub | src/board.rs:26-32 | when neither component underflows, the difference is no larger than `a` and adding `b` back gives `a` |
| Positions.AddSubInverse | src/board.rs:26-40 | `(a + b) - b == a`, and `(a - b) + b == a` when `-` does not underflow |
| Positions.AddExample | src/board.rs:335-340 | (1, 0) + (1, 2) = (2, 2) |
| Moves.NewSubmove | src/moves.rs:13-18 | `from` and `to` are the two given coordinate pairs |
| Moves.Add | src/moves.rs:21-30 | both ends of the sum dominate the matching ends of the added submove |
| Moves.Sub | src/moves.rs:32-41 | when no component underflows, adding the subtracted submove back gives the original |
| Moves.AddSubInverse | src/moves.rs:21-41 | subtracting a submove undoes adding it, componentwise on both ends |
| Moves.Examples | src/moves.rs:49-63 | the two unit tests: ((0,0)→(1,1)) + ((1,1)→(0,0)) and ((2,2)→(2,2)) − ((1,1)→(1,1)) both give (1,1)→(1,1) |
| Grids.EmptyGrid | src/board.rs:218-218 | every cell of the initial parse buffer is empty |
| Grids.At | src/board.rs:130-132 | the cell at row `p.0`, column `p.1` (its properties are those of `AtSetCell`) |
| Grids.AtSetCell | src/board.rs:130-140 | reading a cell after a write gives the written value there and the old value everywhere else |
| Grids.SetCell | src/board.rs:134-140 | the written cell holds the new value and every other cell is kept |
| Grids.Reverse | src/board.rs:104-110 | slice reversal: same length, element k is element n−1−k of the input |
| Grids.Rotated | src/board.rs:104-110 | reversing the rows and then each row puts cell (7−i, 7−j) at (i, j) |
| Grids.RotatedTwice | src/board.rs:119-128 | rotating twice gives back the board, so two flips (or two `norm(White)`s) are the identity |
| Grids.Normalized | src/board.rs:101-117 | `norm(Black)` is the board itself; `norm(White)` has at (i, j) the cell (7−i, 7−j) |
| Grids.CountRow | src/board.rs:143-150 | a row holds no more pieces of a player than it has cells |
| Grids.CountPieces | src/board.rs:143-150 | a player has at most 64 pieces |
| Grids.CountIsOwnedCells | src/board.rs:143-150 | a player's count is the number of cells holding a piece whose owner is that player |
| Grids.OwnedInCount | src/board.rs:143-150 | the first n rows hold as many such cells as the count of those rows says |
| Grids.OwnedInRowCount | src/board.rs:143-150 | the first k cells of a row hold as many such cells as the count of those cells says |
| Grids.CountRotated | src/board.rs:143-150 | rotating the board keeps each player's count |
| Grids.CountSetCell | src/board.rs:143-150 | writing one cell changes a player's count by exactly what that cell loses and gains |
| Grids.StartGrid | src/board.rs:82-95 | the literal start grid of `Board::new()` (its layout is proved cell by cell in `StartGridCells`) |
| Grids.StartGridCells | src/board.rs:82-95 | the start layout cell by cell: empty where row+col is even, White in rows 0-2, Black in rows 5-7, empty in rows 3-4 |
| Grids.StartLayout | src/board.rs:82-95 | every start piece is normal, on a cell with row+col odd, White exactly in rows 0-2 and Black exactly in rows 5-7 |
| Grids.StartRowCount | src/board.rs:82-95 | each start row holds four pieces of its side and none of the other |
| Grids.StartCounts | src/board.rs:282-284 | Black and White both start with 12 pieces |
| Grids.StartNormalizedForWhite | src/board.rs:286-299 | the start board seen by White is the start layout with the colours swapped |
| Grids.ValidateSubmove | src/board.rs:165-204 | on the board seen by `player`, each of the four errors is returned exactly when its check is the first to fail (occupied source, empty destination, owned piece, normal pieces move to a lower row), else `Ok(true)` |
| Grids.ValidateExamples | src/board.rs:301-326 | the unit tests: (0,0) has no piece, (6,1) is not empty, (5,0)→(4,1) is accepted, and so is the seven-row (7,0)→(0,0) of src/game.rs:219-222 |
| BoardText.GlyphPoint | src/board.rs:222-227 | the meaning of one character; a glyph never denotes a king, and a newline is refused |
| BoardText.ParseFrom | src/board.rs:219-228 | a failure reports an index among the characters still to read, and an out-of-range one lies at 64 or later |
| BoardText.Parse | src/board.rs:216-231 | a failure reports an index inside the string; a string of at most 64 characters never overflows the grid; the empty string gives the empty grid |
| BoardText.ParseFromSpec | src/board.rs:219-228 | the parse loop succeeds exactly when every remaining character is accepted; it then holds the written pieces, and otherwise reports the first refused character with the right error |
| BoardText.ParseCells | src/board.rs:216-231 | a parse succeeds iff every character is a glyph and no piece glyph lies past cell 63; character k then fills cell (k/8, k%8) (capitals as normal pieces), all other cells are empty |
| BoardText.StartTextRow | src/board.rs:262-269 | character 8r+c of the test string is character c of its row r |
| BoardText.StartTextAccepted | src/board.rs:262-269 | every character of the test string is accepted |
| BoardText.ParseStartText | src/board.rs:261-272 | the 64-character test string parses to `Board::new()` |
| BoardText.ParseRejectsOthers | src/board.rs:274-279 | a character outside the glyph set is refused, with its index |
| BoardText.Glyph | src/board.rs:238-246 | each cell prints as a character that parses back to the cell with kings made normal, never as a newline |
| BoardText.Show | src/board.rs:233-254 | the display is empty exactly for no rows, and otherwise ends with a newline |
| BoardText.RowText | src/board.rs:237-249 | one glyph per cell, in order |
| BoardText.ShowLines | src/board.rs:236-251 | rows of 8 cells print as lines of 9 characters: the 8 glyphs, then a newline |
| BoardText.ShowLayout | src/board.rs:233-254 | the display is 72 characters: glyph of (r, c) at 9r+c, newline at 9r+8 |
| BoardText.ShowIsNotParsable | src/board.rs:226-250 | the parser refuses the display as it is, at the newline at index 8 |
| BoardText.UnlinedShow | src/board.rs:233-254 | without its newlines the display is one glyph per cell, in row-major order |
| BoardText.DisplayRoundTrip | src/board.rs:216-254 | parsing the display without its newlines gives back the board with kings made normal, hence the board itself when it has no kings |
| Boards.Board.constructor | src/board.rs:82-95 | `Board::new()` holds the start layout |
| Boards.Board.FromGrid | src/board.rs:229-229 | a board around the given grid |
| Boards.Board.Rotate | src/board.rs:104-110 | the copy-reverse-then-reverse-each-row loop yields the rotated board |
| Boards.Board.Norm | src/board.rs:101-117 | returns a fresh board equal to the view of `p`, leaving this one unchanged |
| Boards.Board.Flip | src/board.rs:119-128 | the board becomes its old rotation (its old `norm(White)`), and both counts are kept |
| Boards.Board.Remove | src/board.rs:134-136 | the named cell becomes empty, every other cell is kept |
| Boards.Board.Place | src/board.rs:138-140 | the named cell holds the piece, every other cell is kept |
| Boards.Board.Mutate | src/board.rs:206-211 | the piece at `from` ends on `to`, `from` is empty unless it is `to`, every other cell is kept |
| Boards.Board.FromStr | src/board.rs:216-231 | the parse loop returns exactly what `Parse` specifies: the board, or the panic as an error |
| Boards.Board.ToText | src/board.rs:233-254 | the nested print loop writes exactly the display text, 72 characters long |
| GameRules.Initial | src/game.rs:21-29 | Black to move, nothing selected or highlighted, `nmoves = 1`, and 12 pieces on each side |
| GameRules.Offsets | src/game.rs:53-67 | each offset is one step on both axes; there are none exactly for an empty cell; a normal piece's offsets all have row 1 |
| GameRules.Directional | src/game.rs:52-68 | one coordinate pair per offset, each a diagonal neighbour of `p`, one row up for a normal piece |
| GameRules.OnBoard | src/game.rs:71-78 | `filter_oob` keeps no more than it is given, all on the board |
| GameRules.OnBoardMembers | src/game.rs:71-78 | a position is kept exactly when it is on the board and listed |
| GameRules.Possible | src/game.rs:81-81 | no more cells than offsets, all on the board |
| GameRules.PossibleNeighbours | src/game.rs:52-81 | each cell of `possible` is a diagonal neighbour of `p`, one row up for a normal piece |
| GameRules.EmptyOf | src/game.rs:84-88 | the `normal_only` filter keeps only empty on-board cells |
| GameRules.EmptyOfMembers | src/game.rs:84-88 | a cell is kept exactly when it is listed and empty |
| GameRules.HeldBy | src/game.rs:94-101 | the `attacked` filters keep only cells holding a piece of the given player |
| GameRules.HeldByMembers | src/game.rs:94-101 | a cell is kept exactly when it is listed and holds a piece of that player |
| GameRules.JumpTarget | src/game.rs:104-105 | the piece jumped over lies halfway between `p` and the landing cell |
| GameRules.PushJumps | src/game.rs:103-111 | the jump loop only appends, at most one cell per attacked neighbour, each on the board and empty |
| GameRules.PushJumpsAppend | src/game.rs:103-111 | what the loop appends does not depend on what was there before |
| GameRules.PushJumpsMembers | src/game.rs:103-111 | a cell is appended exactly when it is on the board, empty, and the far side of a jump over one of the attacked neighbours |
| GameRules.Candidates | src/game.rs:50-112 | the empty on-board neighbours come first, in order; every candidate is on the board and empty; an empty cell has no candidates |
| GameRules.NormalNeighbours | src/game.rs:60-66 | a normal piece at (r, c) looks at (r−1, c−1) and (r−1, c+1) |
| GameRules.KingNeighbours | src/game.rs:53-59 | a king at (r, c) looks at (r+1, c+1), (r+1, c−1) twice and (r−1, c−1) |
| GameRules.CandidatesSpec | src/game.rs:50-112 | a cell is a candidate exactly when it is an empty neighbour on the board, or the empty on-board landing cell of a jump over a neighbour holding an opponent's piece |
| GameRules.EdgeStepCandidates | src/game.rs:50-112 | a black piece at (5, 0) with (4, 1) empty has exactly [(4, 1)] |
| GameRules.StartCandidates | src/game.rs:245-250 | from (5, 0) on the start board the candidates are exactly [(4, 1)] |
| GameRules.OnBoardKeepsAll | src/game.rs:71-78 | a list already on the board is kept whole, in order |
| GameRules.EmptyOfKeepsAll | src/game.rs:84-88 | a list of empty cells is kept whole |
| GameRules.HeldByNone | src/game.rs:94-101 | nothing is attacked when no listed cell holds a piece of the given player |
| GameRules.LoneKingPossible | src/game.rs:52-81 | a king at (3, 3) looks at (4, 4), (4, 2), (4, 2), (2, 2) |
| GameRules.LoneKingCandidates | src/game.rs:52-91 | a lone king at (3, 3) gets (4, 2) highlighted twice and never (2, 4) |
| GameRules.StepAndJumpCandidates | src/game.rs:84-111 | a black piece at (5, 2) beside a white one at (4, 3) gets the step (4, 1) and then the jump (3, 4) |
| GameRules.JumpCandidates | src/game.rs:94-111 | the same on a board holding only those two pieces |
| GameRules.GenSubmoves | src/game.rs:50-112 | only `hilighted` changes: the candidates are appended to it, all on the board and empty, and nothing is appended for an empty cell |
| GameRules.Select | src/game.rs:114-125 | highlights cleared; an own piece is selected and its candidates highlighted; an empty cell clears the selection; an opponent's piece leaves the selection as it was |
| GameRules.UnitIsSign | src/game.rs:144-144 | a nonzero delta divided by its absolute value is its sign |
| GameRules.IsJump | src/game.rs:138-142 | a submove that goes more than one cell on some axis, so never one that stays put |
| GameRules.Captured | src/game.rs:142-147 | the cleared cell is on the board, one diagonal step from `from` towards `to`, and not `to` itself on a jump |
| GameRules.Landing | src/game.rs:151-157 | a king of the side to move on row 0, else the piece that moved |
| GameRules.Moved | src/game.rs:134-157 | `to` holds the landing piece, `from` and (on a jump) the jumped cell are empty, every other cell is kept |
| GameRules.ApplySubmove | src/game.rs:131-166 | selection and highlights kept; the turn passes (switch and rotate) exactly when `nmoves` runs out, which a jump alone never causes when `nmoves > 0`; after a pass `nmoves` is 1, otherwise a jump keeps it and a step takes one off; the board is the moved board, rotated on a pass |
| GameRules.Mirror | src/board.rs:119-128 | a cell and its image under the flip add up to (7, 7) |
| GameRules.JumpCells | src/game.rs:142-163 | a jump keeps the side to move and the orientation and changes only `from`, `to` and the jumped cell |
| GameRules.StepCells | src/game.rs:148-163 | a step with `nmoves = 1` passes the turn, and every cell is found at its mirror image, the mover on the mirror of `to` |
| GameRules.JumpCapturesOne | src/game.rs:142-147 | a jump over an opponent's piece onto an empty cell takes exactly one opponent piece and none of the mover's |
| GameRules.StepKeepsCounts | src/game.rs:148-163 | a step onto an empty cell keeps both players' counts, flip or not |
| GameRules.FirstMove | src/game.rs:173-198 | (5, 0)→(4, 1) on a new game: White to move, `nmoves = 1`, the black piece seen at (3, 6), (2, 7) empty, everything else the rotated start layout |
| GameRules.Winner | src/game.rs:39-47 | White wins exactly when Black has no piece (tested first), Black exactly when Black has some and White none, nobody otherwise |
| GameRules.CountZero | src/board.rs:143-150 | a player's count is 0 exactly when no cell holds one of their pieces |
| GameRules.StartHasNoWinner | src/game.rs:239-243 | nobody has won on the start board |
| GameRules.BlackOnlyWins | src/game.rs:224-237 | with only Black's three start rows on the board, Black has won |
| Games.Game.constructor | src/game.rs:21-29 | start board, Black to move, nothing selected, nothing highlighted, `nmoves = 1` |
| Games.Game.ValidateSubmove | src/game.rs:32-34 | the board's check for the side to move |
| Games.Game.WinCondition | src/game.rs:39-47 | the result is the `Winner` of the board |
| Games.Game.GenSubmoves | src/game.rs:50-112 | the append-then-loop leaves the fields exactly as `GameRules.GenSubmoves` says |
| Games.Game.Select | src/game.rs:114-125 | the fields change exactly as `GameRules.Select` says |
| Games.Game.DoSubmove | src/game.rs:131-166 | the fields change exactly as `GameRules.ApplySubmove` says, and the result is always `Ok(true)` |

## Left out

- src/main.rs (the terminal interface, mouse decoding, argument parsing and input loop) and src/networking are not part of this model: they are terminal and network I/O.
- Error texts: `validate_submove` returns formatted strings, and `From<&str>` panics with one. Here they are the `MoveError` and `ParseError` variants, carrying the positions, index and character the messages print. The `format!` text and `Display for Position` are left out.
- Panics are preconditions: an index off the board, `unwrap` on an empty cell, a zero delta in the unit direction of a jump, and `u8` underflow of `nmoves`. The two panics of `From<&str>` depend only on the input string, so they are `Err` results instead.
- Integer widths: coordinates are `nat`, or `int` where the source uses `i32`. `usize` overflow of `Position + Position` is not modelled. Rust's truncating `/` matches Dafny's `/` for the exact divisions `d / |d|` used (proved in `UnitIsSign`).
- `Position::new` and the `From` conversions to `Position` are folded into the constructors. The derived `Debug`/`Clone`/`PartialEq` impls are datatype values and equality. The unused `Moves` alias and the `NAME` constant are left out.
- `Board::at` and `Board::count_pieces` are the functions `Grids.At` and `Grids.CountPieces` on the grid value, since they do not change the board.
- Games.Game.GenSubmoves and Games.Game.Select take the cell `p` as on the board (`InBounds`), where Rust would panic on the index.
- GameRules.BlackOnlyWins: the test board of `win_condition_black` is written as a grid literal, not parsed from its string.

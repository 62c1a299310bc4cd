# Minesweeper game-state engine in Dafny

This project models the game-state engine of a terminal minesweeper
(`minesweeper.cpp`). The engine covers:

- the tile record: an adjacency code, a revealed flag and a mark;
- the three-step mark cycle;
- the bounds-checked cursor step;
- field generation: fresh tiles, then mines placed by rejection sampling over random draws, each mine raising the counts of its neighbours;
- the key dispatch that applies one key press to the cursor or to the tile under it;
- the glyph a tile is drawn as.

Files and modules:

- `grid.dfy` (`Grid`): row-major addressing. The tile at row `r`, column `c` sits at index `r * w + c`.
- `tiles.dfy` (`Tiles`): the `Tile` datatype, `NextMark`, the pure tile updates behind mark and reveal, and the glyph function with its inverse.
- `movement.dfy` (`Movement`): the step function `Moved`, and the `Cursor` class whose `Move` updates the position in place.
- `field.dfy` (`Field`): what a correct field is. Every tile without a mine carries the number of mines among its in-bounds eight neighbours (`Consistent`). It also holds the mine count, the mine quota, and what placing one mine does (`Placed`), with the lemmas that placing a mine keeps the field consistent and adds exactly one mine.
- `keys.dfy` (`Keys`): key codes and the command each key stands for.
- `engine.dfy` (`Engine`): the `Game` class. It holds a `seq<Tile>` field that methods reassign (the source's `vector`), a `Cursor` and the mine quota. Its methods are initialisation (constructor), one placement draw (`Drop`), the neighbour loop (`RaiseNeighbours`), the placement loop (`PlaceBombs`), `Mark`, `Reveal`, `Dispatch` and `Render`. `Valid()` keeps the cursor on the field and every adjacency code right. The constructor establishes it, and `Drop`, `PlaceBombs`, `Mark`, `Reveal` and `Dispatch` preserve it. `RaiseNeighbours` is the step inside `Drop` that runs while the new mine's neighbours are not yet raised, so it works under the sweep invariant instead of `Valid()`.
- `neighbour_loop.dfy` (`NeighbourLoop`): the neighbour loop as the source writes it, with one concrete input per slip (see Findings).

Inputs the model cannot see become parameters:

- each `rand()` result is a caller-supplied natural number: the quota draw of the constructor and the sequence of draws given to `PlaceBombs`;
- each key press is the integer `getch` would return.

The key codes `KEY_UP`, `KEY_DOWN`, `KEY_LEFT`, `KEY_RIGHT` and `ERR` use ncurses' values. `ncurses.h` is not part of this model.

The model follows the code on these points:

- The cursor step is all-or-nothing and never clamped: `move` returns without moving when either coordinate would leave the field (minesweeper.cpp:36-47).
- A placement draw that lands on a mine is refused and drawn again (minesweeper.cpp:103-105). Placement therefore needs no precondition beyond the quota being below the number of tiles.
- The neighbour loop follows its evident intent (minesweeper.cpp:114-120), as recorded under Findings.

## Model

| member | source | states |
|---|---|---|
| `Grid.IndexInRange` | minesweeper.cpp:248-252 | an in-bounds `(y, x)` addresses a tile inside the `w * h` vector |
| `Grid.IndexCoords` | minesweeper.cpp:111-112 | dividing a tile's index by the width gives back its row, and the remainder its column |
| `Grid.IndexInjective` | minesweeper.cpp:119-120 | two in-bounds positions share an index exactly when they are the same position |
| `Grid.CoordsOfIndex` | minesweeper.cpp:101-112 | every drawn index `j < w * h` is an in-bounds `(j / w, j % w)` whose index is `j` |
| `Tiles.NextMark` | minesweeper.cpp:49-58 | the next mark is always 0, 1 or 2 and never the mark given; on marks 0..2 it is the cyclic successor `(m + 1) % 3`, and any other value becomes unmarked (the `default` branch) |
| `Tiles.MarkCycleHasPeriodThree` | minesweeper.cpp:49-58 | cycling a mark three times returns it, and one or two cycles do not |
| `Tiles.Cycled` | minesweeper.cpp:60-62 | the mark always advances to `NextMark`, revealed or not; a hidden tile then shows the next mark, a revealed one changes nothing visible; the code and the reveal flag are untouched |
| `Tiles.Uncovered` | minesweeper.cpp:64-66 | a revealed tile shows its code; mine status and mark are unchanged |
| `Tiles.RevealIdempotent` | minesweeper.cpp:64-66 | revealing twice is revealing once, and a later mark cycle leaves the tile revealed |
| `Tiles.Glyph` | minesweeper.cpp:187-207 | a revealed tile is drawn as `.`, `@` or a digit 1..8; a hidden tile as `#`, `X` or `?` |
| `Tiles.GlyphRoundTrip` | minesweeper.cpp:187-207 | reading a drawn glyph back gives exactly the tile's visible face (its code if revealed, else its mark) |
| `Tiles.GlyphDistinguishesFaces` | minesweeper.cpp:187-207 | two tiles are drawn alike if and only if they show the same face |
| `Movement.Moved` | minesweeper.cpp:36-47 | a step either moves by exactly `(dy, dx)` or leaves the cursor where it was; a step whose target is on the field is taken; the result of a taken step is on the field, and so is any result from a start on the field |
| `Movement.MoveRefusedOffField` | minesweeper.cpp:37-43 | a step whose target is off the field leaves the cursor unchanged (no clamping) |
| `Movement.MoveUndone` | minesweeper.cpp:36-47 | a taken step is undone by the opposite step |
| `Movement.CursorStaysOnField` | minesweeper.cpp:221-246 | no sequence of steps takes the cursor off the field |
| `Movement.Cursor.constructor` | minesweeper.cpp:87 | the cursor starts where it is placed |
| `Movement.Cursor.Move` | minesweeper.cpp:36-47 | the position becomes `old + (dy, dx)` exactly when that is on the field, and is otherwise unchanged |
| `Field.AdjacentBombs` | minesweeper.cpp:114-120 | the mine count around a tile, over its in-bounds eight neighbours, is at most 8, so it never reaches the mine code 9 |
| `Field.CountBombs` | minesweeper.cpp:100-109 | the number of mine tiles is at most the number of tiles |
| `Field.NoBombsCountZero` | minesweeper.cpp:91-97 | a field without mine tiles has mine count 0 |
| `Field.BlankIsConsistent` | minesweeper.cpp:91-97 | a field of fresh tiles satisfies the adjacency invariant and holds no mine |
| `Field.BombQuota` | minesweeper.cpp:88 | the mine quota lies in `[w*h/4, 2*(w*h/4))` and is below `w * h` |
| `Field.CellAfterUpdate` | minesweeper.cpp:119-120 | writing the tile at `a * w + b` changes the cell `(a, b)` and no other cell |
| `Field.BombAtAfterPlacing` | minesweeper.cpp:109-120 | placing a mine on a consistent field adds a mine at its own tile only: no raised neighbour reaches the mine code |
| `Field.AdjacentAfterPlacing` | minesweeper.cpp:111-120 | placing a mine adds one to the mine count around each of its neighbours and nowhere else |
| `Field.PlacedCellConsistent` | minesweeper.cpp:111-120 | after placing a mine, each tile's adjacency code is still right |
| `Field.PlacedTileIsBomb` | minesweeper.cpp:109 | after placing a mine at index `j`, a tile holds a mine if and only if it did before or is tile `j` |
| `Field.PlacingKeepsConsistent` | minesweeper.cpp:109-120 | placing a mine keeps every non-mine tile's code equal to the mines among its neighbours and raises the mine count by exactly one |
| `Field.SameBombsSameCount` | minesweeper.cpp:103-105 | fields with mines at the same tiles have the same mine count |
| `Field.OneMoreBomb` | minesweeper.cpp:109 | turning exactly one mine-free tile into a mine raises the mine count by exactly one |
| `Field.DrawStep` | minesweeper.cpp:100-109 | after one more draw, the mines are the old ones plus the tiles the draws so far land on, and the new mines grow by one exactly when the draw landed on a mine-free tile |
| `Field.MinesAdded` | minesweeper.cpp:100-109 | turning a set of mine-free tiles into mines, and no other tile, raises the mine count by the size of the set |
| `Field.SameCodesConsistent` | minesweeper.cpp:60-66 | changing marks or reveal flags, but no code, keeps the adjacency invariant |
| `Keys.Decode` | minesweeper.cpp:221-255 | a key is a step exactly when it is an arrow key or W/A/S/D in either case, and a step is one tile along one axis; space and only space cycles the mark; newline and only newline reveals; `ERR` does nothing |
| `Keys.KeysAgree` | minesweeper.cpp:223-245 | each arrow key and both cases of its letter give the same step: up, right, left, down |
| `Engine.Game.Focus` | minesweeper.cpp:248-252 | the tile under the cursor, `y * w + x`, lies inside the tile vector |
| `Engine.Game.constructor` | minesweeper.cpp:81-97 | a new game has the quota from its draw, the cursor at (0, 0), `w * h` fresh tiles, no mine, and a valid state |
| `Engine.Game.Drop` | minesweeper.cpp:101-120 | a draw landing on a mine changes nothing and is refused; otherwise the drawn tile becomes a mine and no other tile changes its mine status, each neighbour is as `Placed` says, the mine count rises by exactly one, reveal flags and marks are untouched, and the adjacency invariant is kept |
| `Engine.Game.RaiseNeighbours` | minesweeper.cpp:114-120 | for a mine on the field, the corrected neighbour loop visits the whole three-by-three box and leaves every tile as `Placed` describes; reveal flags and marks are untouched |
| `Engine.Game.PlaceBombs` | minesweeper.cpp:99-121 | a tile is a mine afterwards exactly when it was before or one of the used draws lands on it; `placed` is the number of mine-free tiles those draws name; it stops short of `numBombs` only when every draw is used, so draws naming at least `numBombs` distinct mine-free tiles give exactly `numBombs` new mines; the mine count grows by `placed`; reveal flags and marks are untouched; the invariant is kept |
| `Engine.Game.Mark` | minesweeper.cpp:60-62 | the tile at the index gets the next mark; nothing else changes |
| `Engine.Game.Reveal` | minesweeper.cpp:64-66 | the tile at the index becomes revealed; nothing else changes; revealing a revealed tile changes nothing |
| `Engine.Game.Dispatch` | minesweeper.cpp:221-255 | a movement key moves only the cursor, by `Moved`; space and newline change only the tile under the cursor; any other key leaves cursor and tiles unchanged; no tile is ever un-revealed |
| `Engine.RevealAfterTwoSteps` | minesweeper.cpp:221-255 | from the top-left corner of a valid field at least 2 by 2, the five keys up, left, right, down and newline leave the cursor at `(1, 1)` with only the tile at index `w + 1` uncovered; that up and left are refused is proved in the body, not stated in the contract |
| `Engine.Game.Render` | minesweeper.cpp:179-207 | one glyph per tile, in row-major order, each the tile's `Glyph` |
| `Engine.GameSizeAdmitsQuota` | minesweeper.cpp:81-88 | the game's 60-by-40 field admits the quota computation, and a quota draw of 0 asks for 600 mines |
| `NeighbourLoop.InnerLoopAsWrittenNeverStops` | minesweeper.cpp:116 | with the written guard `a <= x + 1`, an inner loop that starts never stops |
| `NeighbourLoop.InnerLoopAsWrittenCounterexample` | minesweeper.cpp:115-116 | a mine at (0, 0) makes the written inner loop run forever; a mine at (5, 0) makes it visit no column |
| `NeighbourLoop.InnerLoopVisitsThreeColumns` | minesweeper.cpp:116 | with the intended guard `b <= x + 1`, each row of the box takes exactly three rounds |
| `NeighbourLoop.RaisedAsWrittenOnlyDiagonal` | minesweeper.cpp:117 | every position the written test `a != y && b != x` passes is a neighbour, and it misses all four side neighbours (left, right, above, below), so only diagonal neighbours are raised |
| `NeighbourLoop.RaisedAsWrittenBreaksCounts` | minesweeper.cpp:117 | a mine in the middle of a fresh 3-by-3 field, placed with the written test, leaves its right-hand neighbour at code 0, so the field is not consistent |
| `NeighbourLoop.InBoundsAsWrittenCounterexample` | minesweeper.cpp:118 | the written bound `b < game_height` refuses column 45 of the 60-by-40 field, and on a 2-wide, 3-tall field it accepts column 2, which aliases tile (1, 0) |

## Left out

- Terminal handling is not modelled: setup, teardown, erasing and character drawing (minesweeper.cpp:71-76, 128, 316). These are terminal I/O with no game state.
- Presentation arithmetic is not modelled: screen centring, borders, the title and the three-digit mine counter (minesweeper.cpp:131-177). It works on screen coordinates, outside the game state.
- `srand(time(NULL))` and `rand()` (minesweeper.cpp:83, 88, 101) are foreign calls. They become caller-supplied draws, so the model says nothing about their distribution.
- The endless `for (;;)` loop (minesweeper.cpp:126) is modelled as one `Dispatch` step per key press. The client method `Engine.RevealAfterTwoSteps` states what a short fixed sequence of key presses does.
- The unconditional draw of `.` after each tile (minesweeper.cpp:209) is a drawing slip that hides every glyph on screen. `Render` follows the glyph branches of minesweeper.cpp:187-207.
- The commented-out end screen and score (minesweeper.cpp:258-313) are dead code. There is no win or lose logic, and reveal does not clear a mark.
- The tile's `code` and `mark` are `char` in the source. The model restricts them to the values that occur: codes 0..9 and marks 0..2. `NextMark` still accepts any integer, as `next_mark` accepts any `char`, and sends every value outside 0..2 to unmarked.
- Engine.Game.PlaceBombs: with finitely many draws it stops when they run out, instead of retrying forever as the source does. It places exactly `numBombs` mines when the draws name at least `numBombs` distinct mine-free tiles. It does not prove that random draws eventually do.
- Engine.Game.Drop: its neighbour loop is the corrected one (see Findings). The loop as written either never ends or visits nothing, so it cannot be stated as a terminating method.
- Engine.Game.Render: it returns the glyphs as a flat row-major sequence. Placing them at screen positions is presentation.

## Findings

| source | as written | input that shows it | evidently intended | confidence | as-written member | corrected member |
|---|---|---|---|---|---|---|
| minesweeper.cpp:116 | inner loop guard `a <= x + 1` tests the row, which the inner loop never changes | a mine at (0, 0): `a = -1 <= 1` holds for every `b`, so the loop never ends; a mine at (5, 0): `a = 4 > 1`, so no column is visited | `b <= x + 1` | high (not executed) | `NeighbourLoop.InnerLoopAsWrittenCounterexample` | `Engine.Game.RaiseNeighbours` |
| minesweeper.cpp:117 | `a != y && b != x` skips the mine's whole row and column | a mine at the centre of a fresh 3-by-3 field leaves tile (1, 2) at code 0 next to one mine | `!(a == y && b == x)`: all eight neighbours | high (not executed) | `NeighbourLoop.RaisedAsWrittenBreaksCounts` | `Field.PlacingKeepsConsistent` |
| minesweeper.cpp:118 | the column bound is `b < game_height` | on the 60-by-40 field, column 45 is refused; on a 2-wide, 3-tall field, column 2 is accepted and aliases tile (1, 0) | `b < game_width` | high (not executed) | `NeighbourLoop.InBoundsAsWrittenCounterexample` | `Engine.Game.RaiseNeighbours` |

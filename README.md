# termsweeper core, modelled in Dafny

termsweeper is a terminal minesweeper written in Rust. This project models its two
core pieces and proves properties about them.

- **The minefield engine** (`src/game.rs`), in module `Game`:
  - the `Cell` state machine (`reveal`, `toggle_flag`) and its glyphs;
  - `Field::new`, which validates the size, places mines by rejection sampling and
    bumps neighbour counts at placement time;
  - `Field::clear_cell`, which reveals a cell and, when the cell has no neighbouring
    mines, runs a flood fill over an explicit push/pop work stack;
  - `Field::render`.

  The field is a class over a two-dimensional array that the methods update in place.
  The ghost set `Mines` mirrors the cells' `mine` flags. The invariant `Valid()` says
  that the board is at least 1x1 and that every cell's `neighbors` equals the number
  of mined cells among its in-bounds eight neighbours.
- **The text-panel compositor** (`src/tui.rs`), in module `Tui`:
  - the `Component` protocol (`render_at`, `width`, `height`);
  - the bordered box `BoxedComponent`;
  - the minefield, controls and title panels;
  - the `Controls::WIDTH` and `Controls::HEIGHT` loops.

  The buffer is an `array<string>`. The slice handed to `render_at` is the index range
  `[lo, hi)`. The slice it returns is `[rest, hi)`. `Added(c, n)` is the specification
  of what component `c` appends to each line of an `n`-line slice. `Consumed(c, n)` is
  where the returned slice starts. Every `render_at` method is proved to append exactly
  `Added(c, n)` and to return `lo + Consumed(c, n)`. Lemmas then spell out `Added` and
  `Consumed` component by component.

`Field` has no flag-toggling method; only `Cell::toggle_flag` exists, and it is modelled.

Cell glyphs are characters. A revealed cell shows its count in decimal, as Rust's
`u8::to_string` writes it (module `Decimal`). `Option` lives in module `Wrappers`.

The random generator of `Field::new` is replaced by a parameter. It is a sequence of
in-range (row, column) samples, consumed in order.

### Where the code and its own documentation differ

The code is followed in each case.

- `BoxedComponent::render_at` (src/tui.rs:50-54) returns the whole buffer when the
  buffer has no line below the box. The trait's doc comment (src/tui.rs:8-10) says the
  slice after the last line rendered is returned. `Consumed(Boxed(_), n)` is 0 in that
  case, and `Tui.BoxedRest` states it.
- `Controls::HEIGHT` (src/tui.rs:110-121) counts one more line than `str::lines` yields
  when the text ends in `'\n'`. `Tui.LinesHeight` states the difference.

## Model

| member | source | states |
|---|---|---|
| `Game.Reveal` | src/game.rs:135-151 | Succeeds exactly on an unrevealed cell. A mine explodes, a zero count turns empty, any other count is revealed safe. Any other state reports None and keeps the cell. `mine` and `neighbors` never change. |
| `Game.ToggleFlag` | src/game.rs:155-167 | Unrevealed becomes flagged and flagged becomes unrevealed, both reporting true. A resolved cell reports false and is unchanged. |
| `Game.RevealTwice` | src/game.rs:134-151 | A second reveal of the same cell reports None and changes nothing. |
| `Game.ToggleFlagTwice` | src/game.rs:153-167 | Toggling twice restores the cell. The second toggle reports what the first did. |
| `Game.FlaggedBlocksReveal` | src/game.rs:134-151 | A flagged cell cannot be revealed. Once unflagged it can. |
| `Game.Glyph` | src/game.rs:121-131 | Every glyph is non-empty. It is one character unless a revealed count reaches 10. |
| `Game.GlyphShowsState` | src/game.rs:121-131 | Two cells show the same glyph exactly when they have the same state and, if revealed, the same count. So the five states are visually distinct. |
| `Decimal.ToDecimal` | src/game.rs:126 | A count prints as decimal digits. It is one digit exactly when below ten, and a longer one has no leading zero. |
| `Decimal.ParseToDecimal` | src/game.rs:126 | Parsing the printed count gives the count back. |
| `Decimal.ToDecimalInjective` | src/game.rs:126 | Distinct counts print differently. |
| `Game.RowTextGlyphs` | src/game.rs:59-63 | With counts below ten, a rendered row has one character per cell, and character `k` is cell `k`'s glyph. |
| `Game.AcceptsSize` | src/game.rs:19 | A size is accepted exactly when both dimensions are at least 1 and twice the mine count is at most `rows*cols + 1`. An accepted count never exceeds the number of cells. |
| `Game.RowText` | src/game.rs:61 | A rendered row is at least as long as the row and is empty exactly when the row is. |
| `Game.ThreeByThreeCap` | src/game.rs:19 | On a 3x3 board, 5 mines are accepted and 6 are refused. |
| `Game.AddMineCount` | src/game.rs:37-51 | Adding a mine raises the count of exactly its eight neighbours by one. |
| `Game.ZeroCount` | src/game.rs:141-144 | A count is zero exactly when no neighbour is mined. |
| `Game.CountsAtMostEight` | src/game.rs:111 | In a consistent board every count is at most 8, so the `u8` never wraps. |
| `Game.ConsistentZeroSafe` | src/game.rs:97-101 | In a consistent board no neighbour of a zero-count cell holds a mine, so the cascade cannot uncover one. |
| `Game.RevealsKeepConsistent` | src/game.rs:135-151 | Reveals leave mines and counts alone, so the board stays consistent. |
| `Game.NothingExplodes` | src/game.rs:97-104 | When the target holds no mine, no cell becomes exploded. |
| `Game.AddNeighbors` | src/game.rs:79-93 | Pushes exactly the in-bounds eight neighbours of the position, on top of the old stack, at most eight of them. |
| `Game.StepResolved` | src/game.rs:98-99 | Popping an already-resolved position keeps the cascade invariant with a shorter stack. |
| `Game.StepRevealed` | src/game.rs:98-101 | Popping an unrevealed position reveals it, a non-mine. The cascade invariant holds again and the set of unrevealed cells shrinks. |
| `Game.Field.IncrementNeighbors` | src/game.rs:39-51 | The eight guarded increments bump exactly the in-bounds neighbours of the new mine, edges and corners included. |
| `Game.Field.PlaceMineAt` | src/game.rs:33-53 | Mining a fresh cell keeps every count equal to the number of mined neighbours. |
| `Game.Field.PlaceMines` | src/game.rs:29-54 | The rejection loop skips samples that hit a mine. It stops after exactly `mines` distinct cells are mined. All cells stay unrevealed, and counts match the mines. |
| `Game.Field.DefaultBoardGenerated` | src/game.rs:115-119 | A board of default cells (unrevealed, count 0, no mine) is a correctly generated board with no mines. |
| `Game.Field.constructor` | src/game.rs:56 | Wrapping a generated board whose mines lie on it gives a valid field over that board and those mines. |
| `Game.Field.GeneratedIsValid` | src/game.rs:56 | A generated board is a valid field. |
| `Game.Field.New` | src/game.rs:18-57 | None exactly when a dimension is 0 or `mines > (rows*cols+1)/2`. Otherwise: a rows x cols valid field, all unrevealed, exactly `mines` mined cells, every count exact. |
| `Game.Field.Render` | src/game.rs:59-63 | One string per row. In a valid field, character `j` of line `i` is the glyph of cell (i, j). |
| `Game.Field.CascadeStep` | src/game.rs:97-102 | Pops the top position and writes back what `reveal` makes of it. Its neighbours are pushed exactly when that reveal reports an empty cell; otherwise the stack just loses its top. The cascade invariant is kept, and either the unrevealed set shrinks or it stays and the stack shrinks. |
| `Game.Field.Cascade` | src/game.rs:77-104 | The flood fill terminates. It only reveals. The changed cells form a spanning tree of empty parents rooted at the target. No empty changed cell has an unrevealed neighbour left. |
| `Game.Field.ClearCell` | src/game.rs:67-105 | Out of bounds or not unrevealed: None, board unchanged. Mine: Some(true). Otherwise Some(false). Only the target changes unless it is empty. In the empty case the cascade runs to completion. Changed cells go only from unrevealed to what `reveal` makes of them, so flags stay and no non-target mine is touched. `Valid()` is kept. |
| `Tui.MeasureWidth` | src/tui.rs:91-108 | The `WIDTH` loop returns `TextWidth` of the text. |
| `Tui.TextWidthIsWidest` | src/tui.rs:91-108 | `TextWidth` is at least every `'\n'`-separated piece's length without `'\r'`, and some piece attains it. |
| `Tui.MeasureHeight` | src/tui.rs:110-121 | The `HEIGHT` loop returns `TextHeight` of the text. |
| `Tui.TextHeightCounts` | src/tui.rs:110-121 | `TextHeight` is the number of `'\n'` characters, plus one for a non-empty text. |
| `Tui.SegmentsCount` | src/tui.rs:110-121 | A text has one more `'\n'`-separated piece than it has `'\n'` characters. |
| `Tui.SegmentsJoin` | src/tui.rs:96-106 | The pieces the loops measure hold no `'\n'`, and joining them with `'\n'` gives the text back. |
| `Tui.LinesHeight` | src/tui.rs:126-130 | `str::lines` yields `HEIGHT` lines, or one fewer when the text ends in `'\n'`. |
| `Tui.LinesWithinWidth` | src/tui.rs:126-128 | Every line the controls panel writes is at most `WIDTH` wide, `'\r'` not counted. |
| `Tui.Lines` | src/tui.rs:126 | `str::lines` yields no line exactly for the empty text, and no line it yields holds a `'\n'`. |
| `Tui.LinesAreSegments` | src/tui.rs:126 | Line `k` is the `k`-th `'\n'`-separated piece with a `'\r'` before its `'\n'` stripped. The last piece is kept whole, and it is a line unless the text is empty or ends in `'\n'`. |
| `Tui.LinesExamples` | src/tui.rs:126 | `"a\r\nb\n"` yields `["a", "b"]`, and `"abc\r"` yields `["abc\r"]`. |
| `Tui.ControlsMeasures` | src/tui.rs:89 | The controls text `"test"` is one line, 4 wide and 1 high. |
| `Tui.EdgeIs` | src/tui.rs:28-30 | A border line is the left corner, `w` copies of `'─'`, then the right corner. |
| `Tui.Width` | src/tui.rs:133-135 | `Component::width`. A box is at least 2 wide. The controls panel is at least as wide as every `'\n'`-separated piece of its text, `'\r'` not counted. |
| `Tui.Height` | src/tui.rs:137-139 | `Component::height`. A box is at least 2 high. The controls panel is as high as its text has `'\n'` characters, plus one for a non-empty text. |
| `Tui.BoxedSize` | src/tui.rs:57-63 | A box is inner width + 2 wide and inner height + 2 high. |
| `Tui.BoxedLines` | src/tui.rs:26-48 | With at least one line: line 0 gets the top border. Each line from 1 to `min(n, h+1)-1` gets a bar, the inner content and a bar. Line `h+1` gets the bottom border only when `n > h+1`. Lines from `h+2` on get nothing. |
| `Tui.BoxDrawnAt` | src/tui.rs:28-48 | The same, line by line, for any inner content. |
| `Tui.BoxedRest` | src/tui.rs:20-54 | An empty buffer gets nothing and is returned. The returned slice starts at `h+2` when `n > h+2`; otherwise it is the whole buffer. |
| `Tui.FieldViewLines` | src/tui.rs:67-82 | Row `k`'s glyphs go on line `k` for `k < min(n, rows)`. Other lines get nothing. The rest starts at `min(n, rows)`. Width is the first row's length (0 without rows) and height the row count. |
| `Tui.ControlsLines` | src/tui.rs:124-139 | Line `k` of the text goes on line `k` for as many lines as both have. The rest starts at `min(n, HEIGHT)`. The panel's width and height are `WIDTH` and `HEIGHT`. |
| `Tui.TitleLines` | src/tui.rs:164-172 | Line `k` of the text goes on line `k` for as many lines as both have. The rest starts after `min(n, count)` lines. |
| `Tui.AppendLines` | src/tui.rs:126-128 | Appends the k-th string to line `lo + k` and changes no other line. |
| `Tui.AppendedAt` | src/tui.rs:7-11 | Rendering only appends: line `j` of an appended buffer is the old line plus its addition inside the slice, and exactly the old line outside it. |
| `Tui.RenderAt` | src/tui.rs:11 | Any component appends `Added(c, n)` to the slice, changes nothing else, and returns `lo + Consumed(c, n)`. |
| `Tui.RenderBoxed` | src/tui.rs:19-55 | `BoxedComponent::render_at` appends exactly the box's lines and returns the slice `BoxedRest` describes. |
| `Tui.RenderBarred` | src/tui.rs:34-42 | Bars, then the inner component's lines, then bars again, on the interior lines. |
| `Tui.RenderBoxBody` | src/tui.rs:34-48 | The interior lines and, when there is room, the bottom border. |
| `Tui.RenderBottom` | src/tui.rs:44-48 | The bottom border goes on line `h+1` only when the slice reaches it. Otherwise the buffer is unchanged. |
| `Tui.RenderField` | src/tui.rs:68-74 | The minefield's `render_at`, as `FieldViewLines` describes. |
| `Tui.RenderControls` | src/tui.rs:125-131 | The controls panel's `render_at`, as `ControlsLines` describes. |
| `Tui.RenderTitle` | src/tui.rs:164-172 | The title's `render_at`, as `TitleLines` describes. |

## Left out

- Randomness: `thread_rng` and `Uniform` (src/game.rs:25-32) become the `samples` parameter of `Field.New`. Each sample is an in-range (row, column) pair.
- Game.Field.New: requires that, when the size is accepted, `samples` hits at least `mines` distinct cells. The real generator does so with probability 1, and nothing about that probability is modelled. The loop in the code need not terminate; the model's loop does.
- `usize` overflow is not modelled for any of the source's `usize` arithmetic. Integers are unbounded.
- `str::lines` keeps a lone `'\r'` at the very end of a text that has no `'\n'` after it. This is the behaviour of current Rust releases; older releases also stripped that `'\r'`. The controls text `"test"` is the same under both.
- Byte versus character length: `Controls::WIDTH` counts bytes. The model counts characters. These agree for ASCII text such as the controls text. Display widths of the box and cell glyphs are not modelled either.
- `Title::lazy_title`, `Title::width` and `Title::height` (src/tui.rs:153-187): they depend on the FIGlet font conversion and on `OnceCell` memoisation. The title's width and height are carried as data in the `Title` variant.
- The minefield panel renders a snapshot of the board as a value (`FieldView(grid)`), not a borrowed reference to the `Field` object.
- Returned slices are index ranges `[rest, hi)` of one shared array. Rust borrowing and lifetimes are not modelled.
- A `Cell` is a `Copy` value stored inline in the board. `reveal` and `toggle_flag` are modelled as functions from the old cell to the new cell and the result. The board write is a separate array assignment.
- `Vec<Vec<Cell>>` is modelled as a two-dimensional array. It is rectangular by construction in the code as well.
- The empty `Game` struct (src/game.rs:6-8) and all of src/main.rs are not part of this model. That covers the event loop, terminal I/O, cursor movement and the game-over flag. The `Game` session methods `main.rs` calls are not in the code.
- `Debug` derivations are left out.

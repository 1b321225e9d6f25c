# Minesweeper rules engine

A Dafny model of the rules engine of the Bevy Minesweeper plugin. It covers five parts:

- **The mine field** (`Grid`). It builds an empty grid, places bombs from random draws and fills in the neighbour counts. It also renders the grid as text.
- **Coordinate arithmetic.** This covers `u16` positions, adding an `(i8, i8)` neighbour offset through `i16` with wrap-around, saturating subtraction, the derived order and `"(x, y)"` rendering.
- **The event handlers.** These are: uncovering with its victory test, the cascade of uncover requests, explosions, flag toggling and difficulty changes.
- **`game_setup`.** It spawns one tagged cell and one cover per position, then replaces the covered map.
- **The phase gating** between `InGame`, `GameOver`, `Victory` and `Settings`, with the two buttons that switch between `InGame` and `Settings`.
- **The difficulty presets** and the integer UI defaults.

Modules follow the source files:

| module | file | contents |
|---|---|---|
| `Numbers` | `numbers.dfy` | Rust's `u8`/`u16`/`i8`/`i16`, the `as` casts between them, and `to_string` |
| `Coords` | `coordinates.dfy` | `Coordinates` |
| `GridCells` | `grid_cells.dfy` | `Cell` and `NEIGHBORS` |
| `Grids` | `grid.dfy` | the `Grid` class and its specification functions |
| `Config` | `config.dfy` | the difficulty presets and the UI style |
| `Session` | `session.dfy` | `AppState`, the cell tags, and the `World` object |
| `Cascade` | `cascade.dfy` | what one click uncovers, as a reachability set |
| `Events` | `events.dfy` | the handlers and the cascade worklist |
| `Plugin` | `plugin.dfy` | start-up, `game_setup`, restart and input dispatch |

`GridCells` also holds the pure queries `is_bomb_at`, `get_neighbors` and `count_bomb_neighbors`. `World` gathers the ECS resources and components the systems share.

How the model is built:

- **The grid.** `Grid` is a class with a `seq<seq<Cell>>` field. Its methods update that field in place, as the source's `&mut self` methods do. Each method is proved against a specification function:
  - `set_bombs` against `Place` and `Refreshed`
  - `update_neighbors` against `Refreshed`
  - `console_output` against `Rendering`
- **The random generator** becomes an input sequence of drawn positions.
- **Bevy's events and frames** become one first-in first-out worklist per click.
  - For each request the cover is removed and the victory test made before the uncovered cell is looked at, as in `uncover_event_handler` and `uncover_cell`.
  - Unlike the source, the cell is then looked at whatever phase the test set. So in the model a click on a bomb always ends in `GameOver`. In the source it ends in `Victory` when it leaves exactly `bomb_count` covers (see "## Findings").
  - The cascade is proved to remove exactly the covers of `Reach`. `Reach` is the set of covered positions joined to the click by a chain that only moves on from empty cells. That is the connected empty region plus its numbered border.
- **The grid container's entity tree** becomes maps keyed by position:
  - the tag of each cell
  - the cover entity still on it
  - whether it carries a flag

## Model

| member | source | states |
|---|---|---|
| Numbers.DecimalString | minesweeper-plugin/src/resources/grid.rs:39 | `to_string` of a number is a non-empty string of decimal digits, one digit exactly for values below 10 |
| Numbers.DecimalRoundTrip | minesweeper-plugin/src/components/coordinates.rs:30-34 | reading the decimal rendering back gives the number, so rendering loses nothing |
| Coords.Add | minesweeper-plugin/src/components/coordinates.rs:35-40 | `Coordinates + Coordinates` is componentwise; without `u16` overflow (which panics in the source, hence the precondition) subtracting `b` gives back `a` |
| Coords.AddComponentIsModular | minesweeper-plugin/src/components/coordinates.rs:41-48 | adding an `i8` offset through `i16` and casting back to `u16` is addition modulo 2^16 |
| Coords.AddComponentCases | minesweeper-plugin/src/components/coordinates.rs:43-46 | in range the offset sum is the plain sum; below 0 it wraps to the top (`0 + (-1)` is 65535), never clamped |
| Coords.StepInRange | minesweeper-plugin/src/components/coordinates.rs:41-48 | for any `u16` bound, a component inside the bound plus an offset in -1..1 is inside exactly when the mathematical sum is, and is then that sum: a wrapped value never passes the range check |
| Coords.Sub | minesweeper-plugin/src/components/coordinates.rs:49-56 | saturating subtraction: never above the minuend, adding `b` back restores `a` when nothing saturated, 0 otherwise |
| Coords.AddSubRoundTrip | minesweeper-plugin/src/components/coordinates.rs:35-56 | `Sub` undoes `Add` always and `Add` undoes `Sub` when nothing saturated |
| Coords.LessIsKeyOrder | minesweeper-plugin/src/components/coordinates.rs:9-14 | the derived order (x, then y) is the numeric order of the packed key `x * 2^16 + y`, and equal keys are equal positions |
| Coords.LessIsStrictTotal | minesweeper-plugin/src/components/coordinates.rs:9-14 | the derived order is irreflexive, transitive and total |
| Coords.DisplayInjective | minesweeper-plugin/src/components/coordinates.rs:30-34 | distinct positions render to distinct `"(x, y)"` strings |
| GridCells.NeighborOffsetsAreTheSurrounding | minesweeper-plugin/src/resources/grid.rs:12-16 | `NEIGHBORS` has eight distinct offsets in {-1, 0, 1}², none of them (0, 0) |
| GridCells.OffsetIndex | minesweeper-plugin/src/resources/grid.rs:12-16 | every offset in {-1, 0, 1}² other than (0, 0) occurs in `NEIGHBORS` |
| GridCells.GlyphRoundTrip | minesweeper-plugin/src/resources/grid.rs:35-41 | every cell is recovered from its rendering `' '`, `'*'` or its count |
| GridCells.CountGlyphIsOneDigit | minesweeper-plugin/src/resources/grid.rs:35-41 | a count 1..8 renders as a single character |
| GridCells.GridCoordsMembers | minesweeper-plugin/src/lib.rs:162-163 | the positions visited by the row/column loops are exactly those with `x < width` and `y < height` |
| GridCells.GridCoordsCount | minesweeper-plugin/src/lib.rs:162-163 | there are `width * height` of them |
| GridCells.IsBombAt | minesweeper-plugin/src/resources/grid.rs:112-116 | true exactly for a position inside the grid holding a `Bomb` cell, so false for every position outside |
| GridCells.NeighborsDistinct | minesweeper-plugin/src/resources/grid.rs:119-123 | the eight neighbour positions are pairwise distinct, wrapped or not |
| GridCells.NeighborIsNeverSelf | minesweeper-plugin/src/resources/grid.rs:119-123 | no neighbour position, wrapped or not, is the cell itself, so an edge cell never counts itself |
| GridCells.NeighborInGrid | minesweeper-plugin/src/resources/grid.rs:119-123 | a neighbour of an in-grid cell is in the grid exactly when the unwrapped sum is, and is then that sum |
| GridCells.CountBombNeighbors | minesweeper-plugin/src/resources/grid.rs:126-131 | the count is at most 8 and is 0 on a bomb |
| GridCells.CountIsAdjacentBombs | minesweeper-plugin/src/resources/grid.rs:126-131 | for a non-bomb in-grid cell the count equals the number of bombs among the edge-clipped adjacent cells, defined independently with integer arithmetic |
| Grids.Grid.Empty | minesweeper-plugin/src/resources/grid.rs:66-77 | `height` rows of `width` cells, all `Empty`, `bomb_count` 0 |
| Grids.EmptyGridEmptyCells | minesweeper-plugin/src/resources/grid.rs:66-77 | an empty grid has `width * height` empty cells |
| Grids.Grid.SetBombs | minesweeper-plugin/src/resources/grid.rs:80-95 | the bombs written are `count` distinct draws that hit a cell that was still `Empty`, then the counts are refreshed and `bomb_count` is `count` |
| Grids.HitStep | minesweeper-plugin/src/resources/grid.rs:88-91 | a draw converts a cell exactly when it is a new empty hit; a draw on a bomb changes nothing and `remaining` stays |
| Grids.PlacedBombs | minesweeper-plugin/src/resources/grid.rs:80-95 | after placing and refreshing, the bombs are the old ones plus the placed ones |
| Grids.BombsOnEmptyGrid | minesweeper-plugin/src/resources/grid.rs:66-95 | `Grid::empty` then `set_bombs`: exactly the placed bombs, and every other cell shows its count |
| Grids.SamplesSuffice | minesweeper-plugin/src/resources/grid.rs:83-92 | draws that let the loop finish exist exactly when `count` is at most the number of empty cells |
| Grids.Grid.UpdateNeighbors | minesweeper-plugin/src/resources/grid.rs:98-110 | the grid becomes `Refreshed`: every cell gets the value the row-by-row visit gives it |
| Grids.RefreshedKeepsBombs | minesweeper-plugin/src/resources/grid.rs:102 | refreshing never creates, moves or removes a bomb |
| Grids.RefreshedIsConsistent | minesweeper-plugin/src/resources/grid.rs:98-110 | on a grid of bombs and empty cells, every non-bomb cell ends as `BombNeighbor(k)` for k > 0 bombs around it and stays `Empty` for none |
| Grids.RefreshedIdempotent | minesweeper-plugin/src/resources/grid.rs:98-110 | refreshing twice is refreshing once |
| Grids.SameBombsSameCount | minesweeper-plugin/src/resources/grid.rs:126-131 | the neighbour count depends only on where the bombs are, so overwriting counts in place does not disturb later counts |
| Grids.EmptyCellHasNoBombNeighbor | minesweeper-plugin/src/resources/grid.rs:98-110 | in a consistent grid an `Empty` cell has no bomb at any of its eight neighbour positions |
| Grids.Border | minesweeper-plugin/src/resources/grid.rs:144 | the border is `width + 2` dashes, or a single dash when the `u16` sum wraps |
| Grids.Grid.ConsoleOutput | minesweeper-plugin/src/resources/grid.rs:139-154 | the header, the border, each row from the highest `y` down between bars, and the border again |
| Grids.RowLineRoundTrip | minesweeper-plugin/src/resources/grid.rs:147-151 | one rendered row is `width + 3` characters and reads back as the row |
| Grids.RowsTextRoundTrip | minesweeper-plugin/src/resources/grid.rs:146-152 | the rendered rows read back as the grid, with the last line as row 0 |
| Grids.ConsistentIsReadable | minesweeper-plugin/src/resources/grid.rs:35-41 | a consistent grid shows only one-digit counts, so it renders one character per cell |
| Config.Beginner | minesweeper-plugin/src/config.rs:64-69 | 9×9 with 10 bombs, playable |
| Config.Intermediate | minesweeper-plugin/src/config.rs:70-75 | 16×16 with 40 bombs, playable |
| Config.Expert | minesweeper-plugin/src/config.rs:76-81 | 30×16 with 99 bombs, playable |
| Config.DefaultDifficulty | minesweeper-plugin/src/config.rs:83-87 | the default is the intermediate preset |
| Config.DefaultUiStyle | minesweeper-plugin/src/config.rs:100-110 | padding below cell size and `cell_size - cell_padding - 2` strictly between 0 and the cell size, so the `u16` sprite size does not underflow |
| Config.DefaultConfig | minesweeper-plugin/src/config.rs:113-119 | the default configuration is playable with a positive sprite size |
| Session.World.Init | minesweeper-plugin/src/lib.rs:55-62 | the app starts in `InGame` with the default configuration and no cells |
| Session.TagRoundTrip | minesweeper-plugin/src/lib.rs:202-225 | each grid cell gets its own marker, and the marker identifies the cell |
| Session.TagMapBombs | minesweeper-plugin/src/lib.rs:202-225 | the bomb-tagged entities are exactly the grid's bombs, one entity per grid position |
| Session.TagsSafeFromConsistent | minesweeper-plugin/src/lib.rs:202-225 | no entity tagged empty has a bomb-tagged neighbour |
| Session.WinCondition | minesweeper-plugin/src/events.rs:72-74 | with every bomb covered, `remaining == bomb_count` holds exactly when the covered cells are the bombs |
| Cascade.ReachStart | minesweeper-plugin/src/events.rs:71 | a covered click position is uncovered |
| Cascade.ReachStep | minesweeper-plugin/src/events.rs:101-109 | uncovering an empty cell uncovers its covered neighbours |
| Cascade.ReachLeast | minesweeper-plugin/src/events.rs:101-109 | nothing else is uncovered: `Reach` lies in every set closed under the two rules above |
| Cascade.ReachHasNoBomb | minesweeper-plugin/src/events.rs:98-109 | unless the click is on a bomb, no bomb is uncovered |
| Cascade.ReachOfNonEmpty | minesweeper-plugin/src/events.rs:95-111 | a click on a bomb or number uncovers that cell alone, a click on an uncovered position nothing |
| Events.UncoverEventHandler | minesweeper-plugin/src/events.rs:62-85 | the position leaves the covered map (no change if absent); `Victory` when the covers left number `bomb_count`, even after a no-op; the removed cover is returned |
| Events.UncoverCell | minesweeper-plugin/src/events.rs:88-112 | a bomb sets `GameOver`; an empty cell requests its eight neighbour positions, wrapped; a number requests nothing |
| Events.ExplosionEventHandler | minesweeper-plugin/src/events.rs:168-174 | the phase becomes `GameOver` |
| Events.Reveal | minesweeper-plugin/src/events.rs:62-112 | the cascade of a click ends; the covers removed are exactly `Reach`; the phase is `GameOver` for a covered bomb click (where the source can give `Victory`, see "## Findings"), else `Victory` if `bomb_count` covers remain, else `InGame`; the world stays valid |
| Events.HandleRequest | minesweeper-plugin/src/events.rs:70-84 | one request keeps the cascade invariant, removes at most its own position, and shrinks the queue when nothing was removed |
| Events.FlagEventHandler | minesweeper-plugin/src/events.rs:120-165 | one run decides every event against the flags it started with and applies the collected changes afterwards, giving `FlagBatch` |
| Events.FlagBatchMembership | minesweeper-plugin/src/events.rs:127-161 | after one run a cell is flagged iff it was flagged before and no event named it, or was not and some event did; only cells are ever flagged |
| Events.FlagBatchNamesOnly | minesweeper-plugin/src/events.rs:127-161 | within one run neither the order nor the repetition of events matters, only which cells they name |
| Events.FlagBatchSingle | minesweeper-plugin/src/events.rs:129-161 | a run with a single event toggles that cell's flag if it has a cell entity, and changes nothing otherwise |
| Events.DoubleEventInOneRun | minesweeper-plugin/src/events.rs:129-153 | two events for an unflagged cell in one run leave it flagged, while two successive runs restore the flags |
| Events.ToggleTwice | minesweeper-plugin/src/events.rs:129-161 | flagging the same cell in two successive runs restores the flags |
| Events.ToggleAllParity | minesweeper-plugin/src/events.rs:127-164 | over successive single-event runs, a cell is flagged iff it was and was toggled an even number of times, or was not and was toggled an odd number of times; only cells are ever flagged |
| Events.MineClickAsWritten | minesweeper-plugin/src/events.rs:70-100 | in the source's frame order, a click on a covered bomb gives `Victory` when it leaves exactly `bomb_count` covers and `GameOver` otherwise |
| Events.MineClickWinsAsWritten | minesweeper-plugin/src/events.rs:72-74 | a valid 2×1 game whose first click, on its bomb, wins in the source's frame order |
| Events.LastDifficultyWins | minesweeper-plugin/src/events.rs:38-40 | after a batch of changes the difficulty is the last event's |
| Events.UpdateDifficulty | minesweeper-plugin/src/events.rs:33-42 | the difficulty follows the events, the rest of the configuration is kept, and exactly one restart is sent |
| Plugin.PlayableCanStart | minesweeper-plugin/src/resources/grid.rs:83-92 | for every playable difficulty, in particular each preset, draws that let bomb placement finish exist |
| Plugin.DespawnGrid | minesweeper-plugin/src/events.rs:47-55 | every cell and flag goes with the grid container |
| Plugin.GenerateGrid | minesweeper-plugin/src/lib.rs:138-139 | the grid has the configured shape, exactly `bomb_count` bombs and correct counts everywhere else |
| Plugin.SpawnCells | minesweeper-plugin/src/lib.rs:161-246 | one entity per grid position tagged after its cell, and one cover per position |
| Plugin.SetupIsValid | minesweeper-plugin/src/lib.rs:202-249 | the spawned tags have no bomb next to an empty cell, `bomb_count` bombs and `width * height` cells, more than the bombs |
| Plugin.GameSetup | minesweeper-plugin/src/lib.rs:125-250 | a consistent grid with `bomb_count` bombs is tagged into the cells, the covered map is replaced by one cover per position, the phase is `InGame`, the world is valid |
| Plugin.Restart | minesweeper-plugin/src/lib.rs:100-104 | `despawn_grid` then `game_setup`: the same outcome on a fresh set of cells with no flags |
| Plugin.Startup | minesweeper-plugin/src/lib.rs:81-82 | start-up gives a valid game in `InGame` with the default configuration and 256 covered cells |
| Plugin.Dispatch | minesweeper-plugin/src/lib.rs:84-110 | the whole new state for each input: clicks act only in `InGame` (left click: the covers and phase of `Reveal`; right click: one flag toggle); the settings button moves `InGame` to `Settings` and "back to game" `Settings` to `InGame`; restarts and difficulty changes are handled in every phase and end in `InGame` with all cells covered and no flags; only a difficulty change touches the configuration, and only its difficulty |
| Plugin.LeftClickOn | minesweeper-plugin/src/input.rs:37-41 | a left click in `InGame` removes exactly the covers of `Reach` and sets the phase as `Reveal` does; in any other phase it changes nothing |
| Plugin.RightClickOn | minesweeper-plugin/src/input.rs:42-45 | a right click in `InGame` toggles that cell's flag; in any other phase it changes nothing |
| Plugin.NewDifficulty | minesweeper-plugin/src/events.rs:33-42 | the new difficulty is stored, the UI style kept, and the restart sets up a valid game of that size |

## Left out

- Bevy's scheduling, `Commands` and frames are not modelled. Each click's uncover requests are drained by one worklist before the next input.
- Overflow panics of debug builds are not modelled. The `i16` sum in `Add<(i8, i8)>` and `width + 1` in `console_output` wrap as in release builds. The panic of `Coordinates + Coordinates` is a precondition of `Coords.Add`.
- `rand::thread_rng` is replaced by the input sequence of draws. `set_bombs` only terminates when the draws hit `count` empty cells, which becomes its precondition. `Grids.SamplesSuffice` and `Plugin.PlayableCanStart` show such draws exist for every playable difficulty.
- Plugin.GameSetup: requires a playable difficulty (`bomb_count < width * height`). The source's `set_bombs` never ends for more bombs than cells. A grid of bombs only has no safe cell to win with. The difficulty menu only sends the three presets, and all three are playable.
- Entity ids are naturals from a counter. The cell entities' own ids are not kept, since only their position and tag are ever read.
- Events.FlagEventHandler: the query over all cell entities is a lookup by position. The flag sprite child and its `Flag { id }` component are one set of flagged positions.
- Sprites, fonts, text, colours (`ColorTheme`), the window and camera sizing are not modelled. They are floating-point layout and asset loading.
- The UI files (`ui/`), `input.rs` and `time.rs` are not modelled as such: menus and buttons, cursor-to-cell conversion in floating point, and the wall-clock timer. `Plugin.Dispatch` takes as input the events they send and the two buttons that set the phase directly: the settings button (`ui/main_game_ui.rs`) and "back to game" (`ui/settings/mod.rs`). The difficulty menu's "back to settings" button sets `InGame` and then `Settings` in one run, so the phase stays `Settings`; it only rebuilds the menu and is not modelled.
- Each input is handled to the end in a frame of its own, and a right click is one flag event. `Events.FlagEventHandler` models several flag events in one run, but `Plugin.Dispatch` never sends more than one.
- Events.Reveal: a click on a covered bomb that leaves exactly `bomb_count` covers ends in `GameOver`, where the source ends in `Victory` because `uncover_cell` never runs after the victory test (see "## Findings"). Apart from that case the source reaches the same covers and phase: once the victory test holds with every bomb covered, no safe cell is left to uncover.
- The `restart_timer`, `update_window` and `update_camera` systems that run after a restart are not modelled, as they touch only time and layout.
- `Grid`'s getters and `Deref` are not modelled: they only expose fields that the model reads directly.

## Findings

| source | as written | input that shows it | evidently intended | confidence | as-written member | corrected member |
|---|---|---|---|---|---|---|
| minesweeper-plugin/src/events.rs:72-74 | `uncover_event_handler` makes the victory test when the cover is removed. `uncover_cell` sees the cover's mark only in a later frame, and only runs in `InGame` (lib.rs:87-90). A click on a bomb that leaves exactly `bomb_count` covers therefore wins, and the explosion is never sent. | a 2×1 grid with a bomb at (0, 0) and a 1 at (1, 0), `bomb_count` 1, both covered; the first click, on (0, 0), gives `Victory` | a click on a bomb loses | medium, not executed | Events.MineClickWinsAsWritten | Events.Reveal |

/** The plugin's own systems (lib.rs): start-up, `game_setup` and the
    restart that tears the grid down first, and the phase gating that
    decides which events reach which handler. */
module Plugin {
  import opened Numbers
  import opened Coords
  import opened GridCells
  import opened Grids
  import opened Config
  import opened Session
  import opened Cascade
  import opened Events

  /** The draws of the random generator let `set_bombs` finish on a fresh
      grid of difficulty `d`. */
  ghost predicate Draws(d: DifficultySettings, samples: seq<Coordinates>) {
    var (width, height) := (d.gridSize.x, d.gridSize.y);
    AllInGrid(samples, width, height)
    && d.bombCount <= |EmptyHits(EmptyRows(width, height), width, height, samples)|
  }

  /** For every playable difficulty, in particular every preset, such draws
      exist, so setting up a game always finishes. */
  lemma PlayableCanStart(d: DifficultySettings)
    requires Playable(d)
    ensures exists samples :: Draws(d, samples)
  {
    var (width, height) := (d.gridSize.x, d.gridSize.y);
    var rows := EmptyRows(width, height);
    EmptyGridEmptyCells(width, height);
    SamplesSuffice(rows, width, height, d.bombCount);
    var samples :| AllInGrid(samples, width, height)
      && d.bombCount <= |EmptyHits(rows, width, height, samples)|;
    assert Draws(d, samples);
  }

  /** `despawn_grid`: the grid container goes with every cell, cover and flag
      under it. The covered map is left as it is until `game_setup`
      replaces it. */
  method DespawnGrid(w: World)
    modifies w`cells, w`flags
    ensures w.cells == map[] && w.flags == {}
  {
    w.cells := map[];
    w.flags := {};
  }

  /** `game_setup`: generates a grid of the configured size and bomb count,
      spawns one tagged cell entity and one cover entity per position, row
      by row, then replaces the covered map wholesale and enters `InGame`. */
  method GameSetup(w: World, samples: seq<Coordinates>) returns (ghost layout: seq<seq<Cell>>)
    requires w.cells == map[] && w.flags == {}
    requires Playable(w.config.difficulty) && Draws(w.config.difficulty, samples)
    modifies w`covered, w`cells, w`state, w`nextEntity
    ensures w.Valid() && w.state == InGame && w.flags == {}
    ensures var d := w.config.difficulty;
      Shape(layout, d.gridSize.x, d.gridSize.y)
      && Consistent(layout, d.gridSize.x, d.gridSize.y)
      && |BombSet(layout, d.gridSize.x, d.gridSize.y)| == d.bombCount
      && w.cells == TagMap(layout, d.gridSize.x, d.gridSize.y)
      && w.covered.Keys == w.cells.Keys && |w.cells.Keys| == d.gridSize.x * d.gridSize.y
  {
    var width, height := w.config.difficulty.gridSize.x, w.config.difficulty.gridSize.y;
    var rows := GenerateGrid(width, height, w.config.difficulty.bombCount, samples);
    layout := rows;
    var cellCovers := SpawnCells(w, rows, width, height);
    w.covered := cellCovers;
    w.state := InGame;
    SetupIsValid(rows, width, height, w.config.difficulty.bombCount);
  }

  /** The grid `game_setup` builds: an empty grid of the configured size
      with the bombs drawn from `samples` and the counts filled in. */
  method GenerateGrid(width: u16, height: u16, count: u16, samples: seq<Coordinates>)
    returns (rows: seq<seq<Cell>>)
    requires AllInGrid(samples, width, height)
    requires count <= |EmptyHits(EmptyRows(width, height), width, height, samples)|
    ensures Shape(rows, width, height) && Consistent(rows, width, height)
    ensures |BombSet(rows, width, height)| == count
  {
    var grid := new Grid.Empty(width, height);
    ghost var placed := grid.SetBombs(count, samples);
    BombsOnEmptyGrid(width, height, placed);
    rows := grid.grid;
  }

  /** The spawning loops of `game_setup`: row by row, one entity tagged
      after its grid cell and one cover entity on top of it, each with a
      fresh id. Returns the new covered map. */
  method SpawnCells(w: World, rows: seq<seq<Cell>>, width: u16, height: u16)
    returns (cellCovers: map<Coordinates, Entity>)
    requires Shape(rows, width, height) && w.cells == map[]
    modifies w`cells, w`nextEntity
    ensures w.cells == TagMap(rows, width, height)
    ensures cellCovers.Keys == w.cells.Keys
  {
    cellCovers := map[];
    for row := 0 to |rows|
      invariant forall p :: p in w.cells <==> InGrid(p, width, height) && p.y < row
      invariant forall p | p in w.cells :: InGrid(p, width, height) && w.cells[p] == TagOf(rows[p.y][p.x])
      invariant cellCovers.Keys == w.cells.Keys
    {
      var line := rows[row];
      for col := 0 to |line|
        invariant forall p :: p in w.cells <==> InGrid(p, width, height) && (p.y < row || (p.y == row && p.x < col))
        invariant forall p | p in w.cells :: InGrid(p, width, height) && w.cells[p] == TagOf(rows[p.y][p.x])
        invariant cellCovers.Keys == w.cells.Keys
      {
        var coords := Coordinates(col, row);
        var cover := w.nextEntity;
        w.nextEntity := w.nextEntity + 1;
        cellCovers := cellCovers[coords := cover];
        w.cells := w.cells[coords := TagOf(line[col])];
      }
    }
    SpawnedAll(rows, width, height, w.cells);
  }

  /** The cells spawned for every grid position are the tag map of the
      grid. */
  lemma SpawnedAll(rows: seq<seq<Cell>>, width: u16, height: u16, cells: map<Coordinates, CellTag>)
    requires Shape(rows, width, height)
    requires forall p :: p in cells <==> InGrid(p, width, height)
    requires forall p | p in cells :: InGrid(p, width, height) && cells[p] == TagOf(rows[p.y][p.x])
    ensures cells == TagMap(rows, width, height)
  {
    TagMapBombs(rows, width, height);
    forall p ensures p in cells <==> p in GridCoords(width, height) {
      GridCoordsMembers(width, height, p);
    }
  }

  /** The tags of a consistent grid with `bombCount` bombs and at least one
      safe cell make a valid world with every cell covered. */
  lemma SetupIsValid(rows: seq<seq<Cell>>, width: u16, height: u16, bombCount: nat)
    requires Shape(rows, width, height) && Consistent(rows, width, height)
    requires |BombSet(rows, width, height)| == bombCount && bombCount < width * height
    ensures var cells := TagMap(rows, width, height);
      TagsSafe(cells) && |BombCells(cells)| == bombCount
      && |cells.Keys| == width * height && bombCount < |cells.Keys|
  {
    TagMapBombs(rows, width, height);
    TagsSafeFromConsistent(rows, width, height);
    GridCoordsCount(width, height);
  }

  /** A `RestartEvent`: `despawn_grid`, then `game_setup`. */
  method Restart(w: World, samples: seq<Coordinates>) returns (ghost layout: seq<seq<Cell>>)
    requires Playable(w.config.difficulty) && Draws(w.config.difficulty, samples)
    modifies w`covered, w`cells, w`flags, w`state, w`nextEntity
    ensures w.Valid() && w.state == InGame && w.flags == {}
    ensures var d := w.config.difficulty;
      Shape(layout, d.gridSize.x, d.gridSize.y)
      && Consistent(layout, d.gridSize.x, d.gridSize.y)
      && |BombSet(layout, d.gridSize.x, d.gridSize.y)| == d.bombCount
      && w.cells == TagMap(layout, d.gridSize.x, d.gridSize.y)
      && w.covered.Keys == w.cells.Keys && |w.cells.Keys| == d.gridSize.x * d.gridSize.y
  {
    DespawnGrid(w);
    layout := GameSetup(w, samples);
  }

  /** The app at start-up: default configuration, phase `InGame`, and the
      first grid set up. */
  method Startup(samples: seq<Coordinates>) returns (w: World)
    requires Draws(DefaultDifficulty(), samples)
    ensures w.Valid() && w.state == InGame && w.config == DefaultConfig()
    ensures w.covered.Keys == w.cells.Keys && |w.cells.Keys| == 256
  {
    w := new World.Init();
    var _ := GameSetup(w, samples);
  }

  /** The inputs the plugin reacts to: mouse clicks on a cell (left
      uncovers, right flags), a restart, a new difficulty, and the buttons
      that open the settings menu and return from it to the game. */
  datatype Input =
    | LeftClick(c: Coordinates)
    | RightClick(c: Coordinates)
    | RestartGame
    | ChangeDifficulty(settings: DifficultySettings)
    | OpenSettings
    | BackToGame

  /** One input handled to the end, in one frame of its own. Mouse input and
      the settings button are read only in `InGame`, the button back to the
      game only in `Settings`; restarts and difficulty changes are handled
      in every phase. */
  method Dispatch(w: World, input: Input, samples: seq<Coordinates>)
    requires w.Valid()
    requires input.RestartGame? ==> Playable(w.config.difficulty) && Draws(w.config.difficulty, samples)
    requires input.ChangeDifficulty? ==> Playable(input.settings) && Draws(input.settings, samples)
    modifies w
    ensures w.Valid()
    ensures !input.ChangeDifficulty? ==> w.config == old(w.config)
    ensures input.LeftClick? ==>
      w.flags == old(w.flags) && w.cells == old(w.cells) &&
      if old(w.state) == InGame
      then w.covered == old(w.covered) - Reach(w.cells, old(w.covered).Keys, input.c)
        && w.state ==
             if input.c in old(w.covered) && w.cells[input.c] == BombTag then GameOver
             else if |w.covered.Keys| == w.config.difficulty.bombCount then Victory
             else InGame
      else w.covered == old(w.covered) && w.state == old(w.state)
    ensures input.RightClick? ==>
      w.covered == old(w.covered) && w.state == old(w.state) && w.cells == old(w.cells) &&
      w.flags == if old(w.state) == InGame then ToggleFlag(old(w.flags), w.cells.Keys, input.c) else old(w.flags)
    ensures input.RestartGame? || input.ChangeDifficulty? ==>
      w.state == InGame && w.flags == {} && w.covered.Keys == w.cells.Keys
      && |w.cells.Keys| == w.config.difficulty.gridSize.x * w.config.difficulty.gridSize.y
    ensures input.ChangeDifficulty? ==> w.config == old(w.config).(difficulty := input.settings)
    ensures input.OpenSettings? || input.BackToGame? ==>
      w.covered == old(w.covered) && w.cells == old(w.cells) && w.flags == old(w.flags) &&
      w.state ==
        if input.OpenSettings? && old(w.state) == InGame then Settings
        else if input.BackToGame? && old(w.state) == Settings then InGame
        else old(w.state)
  {
    match input
    case LeftClick(c) =>
      LeftClickOn(w, c);
    case RightClick(c) =>
      RightClickOn(w, c);
    case RestartGame =>
      var _ := Restart(w, samples);
    case ChangeDifficulty(settings) =>
      NewDifficulty(w, settings, samples);
    case OpenSettings =>
      if w.state == InGame {
        w.state := Settings;
      }
    case BackToGame =>
      if w.state == Settings {
        w.state := InGame;
      }
  }

  /** A left click: `mouse_button_events` sends an uncover request, whose
      cascade `Reveal` runs to the end. */
  method LeftClickOn(w: World, c: Coordinates)
    requires w.Valid()
    modifies w`covered, w`state
    ensures w.Valid()
    ensures if old(w.state) == InGame
      then w.covered == old(w.covered) - Reach(w.cells, old(w.covered).Keys, c)
        && w.state ==
             if c in old(w.covered) && w.cells[c] == BombTag then GameOver
             else if |w.covered.Keys| == w.config.difficulty.bombCount then Victory
             else InGame
      else w.covered == old(w.covered) && w.state == old(w.state)
  {
    if w.state == InGame {
      Reveal(w, c);
    }
  }

  /** A right click: `mouse_button_events` sends one flag event, which one
      run of `flag_event_handler` handles. */
  method RightClickOn(w: World, c: Coordinates)
    requires w.Valid()
    modifies w`flags
    ensures w.Valid()
    ensures w.flags == if old(w.state) == InGame then ToggleFlag(old(w.flags), w.cells.Keys, c) else old(w.flags)
  {
    if w.state == InGame {
      FlagEventHandler(w, [c]);
      FlagBatchSingle(old(w.flags), w.cells.Keys, c);
      FlagBatchMembership(old(w.flags), w.cells.Keys, [c], c);
    }
  }

  /** A `ChangeDifficultyEvent`: `update_difficulty`, then the restart it
      sends. */
  method NewDifficulty(w: World, settings: DifficultySettings, samples: seq<Coordinates>)
    requires Playable(settings) && Draws(settings, samples)
    modifies w
    ensures w.Valid() && w.state == InGame && w.flags == {} && w.covered.Keys == w.cells.Keys
    ensures |w.cells.Keys| == settings.gridSize.x * settings.gridSize.y
    ensures w.config == old(w.config).(difficulty := settings)
  {
    var restarts := UpdateDifficulty(w, [settings]);
    assert ApplyDifficulties(old(w.config).difficulty, [settings]) == settings;
    var _ := Restart(w, samples);
  }
}

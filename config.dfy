/** The game configuration (config.rs): the three difficulty presets, the
    default difficulty and the integer defaults of the UI style. The colour
    theme is not part of this model. */
module Config {
  import opened Numbers
  import opened Coords

  /** `grid_size` (width, height) and `bomb_count`. */
  datatype DifficultySettings = DifficultySettings(gridSize: Coordinates, bombCount: u16)

  datatype UiStyle = UiStyle(cellPadding: u16, headerSize: u16, cellSize: u16, fontSize: u16, margin: u16)

  /** `GameConfig` without its colour theme. */
  datatype GameConfig = GameConfig(difficulty: DifficultySettings, uiStyle: UiStyle)

  /** A non-empty grid with at least one safe cell: bomb placement can
      finish and the game is not won before it starts. */
  predicate Playable(d: DifficultySettings) {
    d.gridSize.x > 0 && d.gridSize.y > 0 && d.bombCount < d.gridSize.x * d.gridSize.y
  }

  function Beginner(): (d: DifficultySettings)
    ensures Playable(d)
    ensures d.gridSize.x == 9 && d.gridSize.y == 9 && d.bombCount == 10
    ensures d.gridSize.x * d.gridSize.y == 81
  {
    DifficultySettings(Coordinates(9, 9), 10)
  }

  function Intermediate(): (d: DifficultySettings)
    ensures Playable(d)
    ensures d.gridSize.x == 16 && d.gridSize.y == 16 && d.bombCount == 40
    ensures d.gridSize.x * d.gridSize.y == 256
  {
    DifficultySettings(Coordinates(16, 16), 40)
  }

  function Expert(): (d: DifficultySettings)
    ensures Playable(d)
    ensures d.gridSize.x == 30 && d.gridSize.y == 16 && d.bombCount == 99
    ensures d.gridSize.x * d.gridSize.y == 480
  {
    DifficultySettings(Coordinates(30, 16), 99)
  }

  /** `DifficultySettings::default()` is the intermediate preset. */
  function DefaultDifficulty(): (d: DifficultySettings)
    ensures Playable(d) && d == Intermediate()
  {
    Intermediate()
  }

  /** The size of the bomb and flag sprites, `cell_size - cell_padding - 2`. */
  function SpriteSize(s: UiStyle): int {
    s.cellSize - s.cellPadding - 2
  }

  /** `UiStyle::default()`. Its cells are wider than their padding plus the
      two-pixel sprite border, so the `u16` subtraction for sprite sizes
      does not underflow. */
  function DefaultUiStyle(): (s: UiStyle)
    ensures s.cellPadding < s.cellSize && 0 < SpriteSize(s) < s.cellSize
    ensures s.fontSize < s.cellSize
  {
    UiStyle(2, 100, 30, 25, 20)
  }

  function DefaultConfig(): (c: GameConfig)
    ensures Playable(c.difficulty) && 0 < SpriteSize(c.uiStyle)
  {
    GameConfig(DefaultDifficulty(), DefaultUiStyle())
  }
}

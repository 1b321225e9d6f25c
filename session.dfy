/** The state the game's systems share (lib.rs, components, resources): the
    app phase, the marker components of the cell entities, and the
    resources the systems read and write, gathered in one `World` object.
    Bevy's entities are reduced to opaque ids and its components to maps
    keyed by the cell position. */
module Session {
  import opened Numbers
  import opened Coords
  import opened GridCells
  import opened Grids
  import opened Config

  /** `AppState`; the app starts in `InGame`. */
  datatype AppState = Settings | InGame | GameOver | Victory

  /** The marker component `game_setup` puts on a cell entity:
      `EmptyCell`, `Bomb` or `BombNeighbors { count }`. */
  datatype CellTag = EmptyCell | BombTag | BombNeighbors(count: u8)

  type Entity = nat

  /** The tag `game_setup` chooses for a grid cell. */
  function TagOf(c: Cell): CellTag {
    match c
    case Empty => EmptyCell
    case Bomb => BombTag
    case BombNeighbor(n) => BombNeighbors(n)
  }

  /** The grid cell a tag stands for; the partner of `TagOf`. */
  function CellOf(t: CellTag): Cell {
    match t
    case EmptyCell => Empty
    case BombTag => Bomb
    case BombNeighbors(n) => BombNeighbor(n)
  }

  /** Tagging is one-to-one: a tag identifies its cell and back. */
  lemma TagRoundTrip(c: Cell, t: CellTag)
    ensures CellOf(TagOf(c)) == c
    ensures TagOf(CellOf(t)) == t
  {
  }

  /** The tags of the cell entities `game_setup` spawns for `rows`. */
  ghost function TagMap(rows: seq<seq<Cell>>, width: u16, height: u16): map<Coordinates, CellTag>
    requires Shape(rows, width, height)
  {
    map p | p in GridCoords(width, height) && InGrid(p, width, height) :: TagOf(rows[p.y][p.x])
  }

  ghost function BombCells(cells: map<Coordinates, CellTag>): set<Coordinates> {
    set p | p in cells && cells[p] == BombTag
  }

  /** No cell tagged empty has a bomb among its eight neighbour positions. */
  ghost predicate TagsSafe(cells: map<Coordinates, CellTag>) {
    forall c, i {:trigger cells[GetNeighbors(c)[i]]}
      | c in cells && cells[c] == EmptyCell && 0 <= i < 8 && GetNeighbors(c)[i] in cells ::
      cells[GetNeighbors(c)[i]] != BombTag
  }

  /** The resources and components the systems share. */
  class World {
    /** `GameConfig` (without the colour theme). */
    var config: GameConfig
    /** `CoveredCells`: the cover entity still lying on each position. */
    var covered: map<Coordinates, Entity>
    /** The cell entities: each position's tag component. */
    var cells: map<Coordinates, CellTag>
    /** The positions whose cell entity carries a `Flag`. */
    var flags: set<Coordinates>
    /** The current `AppState`. */
    var state: AppState
    /** The next unused entity id. */
    var nextEntity: Entity

    /** What holds between systems once a grid is set up: covers and flags
        sit on cells, no empty cell borders a bomb, the configured number of
        bombs is on the board, and while a game is in progress (played, or
        paused in the settings menu) every bomb is still covered and at least
        one safe cell is too. */
    ghost predicate Valid()
      reads this
    {
      covered.Keys <= cells.Keys && flags <= cells.Keys && TagsSafe(cells)
      && |BombCells(cells)| == config.difficulty.bombCount
      && ((state == InGame || state == Settings) ==>
            BombCells(cells) <= covered.Keys && config.difficulty.bombCount < |covered.Keys|)
    }

    /** App start-up: default resources, no cells yet, phase `InGame`. */
    constructor Init()
      ensures config == DefaultConfig()
      ensures covered == map[] && cells == map[] && flags == {}
      ensures state == InGame
    {
      config := DefaultConfig();
      covered := map[];
      cells := map[];
      flags := {};
      state := InGame;
      nextEntity := 0;
    }
  }

  // ---------------------------------------------------------------------
  // Lemmas

  /** The victory test `remaining == bomb_count` is exact: with every bomb
      covered, it holds precisely when the covered cells are the bombs. */
  lemma WinCondition(cells: map<Coordinates, CellTag>, covered: set<Coordinates>, bombCount: nat)
    requires BombCells(cells) <= covered && |BombCells(cells)| == bombCount
    ensures |covered| == bombCount <==> covered == BombCells(cells)
    ensures bombCount <= |covered|
  {
    var bombs := BombCells(cells);
    assert covered == bombs + (covered - bombs);
    if |covered| == bombCount {
      assert |covered - bombs| == 0;
    }
  }

  /** The tags of a consistent grid never put a bomb next to an empty cell. */
  lemma TagsSafeFromConsistent(rows: seq<seq<Cell>>, width: u16, height: u16)
    requires Shape(rows, width, height) && Consistent(rows, width, height)
    ensures TagsSafe(TagMap(rows, width, height))
  {
    var cells := TagMap(rows, width, height);
    forall c, i | c in cells && cells[c] == EmptyCell && 0 <= i < 8 && GetNeighbors(c)[i] in cells
      ensures cells[GetNeighbors(c)[i]] != BombTag
    {
      var n := GetNeighbors(c)[i];
      EmptyCellHasNoBombNeighbor(rows, width, height, c, i);
      assert !rows[n.y][n.x].IsBomb();
    }
  }

  /** The bomb-tagged cells are the grid's bombs. */
  lemma TagMapBombs(rows: seq<seq<Cell>>, width: u16, height: u16)
    requires Shape(rows, width, height)
    ensures BombCells(TagMap(rows, width, height)) == BombSet(rows, width, height)
    ensures TagMap(rows, width, height).Keys == GridCoords(width, height)
  {
    forall p | p in GridCoords(width, height) ensures InGrid(p, width, height) {
      GridCoordsMembers(width, height, p);
    }
  }
}

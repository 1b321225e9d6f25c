/** `Grid` (resources/grid.rs): the mine field as an object whose methods
    place bombs, fill in the neighbour counts and render it as text. The
    queries it uses are the pure functions of `GridCells`. */
module Grids {
  import opened Numbers
  import opened Coords
  import opened GridCells

  // ---------------------------------------------------------------------
  // Specification functions

  /** `rows` with the bombs of `placed` written over it. */
  ghost function Place(rows: seq<seq<Cell>>, width: u16, height: u16, placed: set<Coordinates>): (r: seq<seq<Cell>>)
    requires Shape(rows, width, height)
    ensures Shape(r, width, height)
    ensures forall y, x | 0 <= y < height && 0 <= x < width ::
      r[y][x] == if Coordinates(x, y) in placed then Bomb else rows[y][x]
  {
    seq(height, y requires 0 <= y < height =>
      seq(width, x requires 0 <= x < width =>
        if Coordinates(x, y) in placed then Bomb else rows[y][x]))
  }

  /** The in-grid samples that land on an `Empty` cell of `rows`. */
  ghost function EmptyHits(rows: seq<seq<Cell>>, width: u16, height: u16, samples: seq<Coordinates>): set<Coordinates>
    requires Shape(rows, width, height)
  {
    set p | p in samples && InGrid(p, width, height) && rows[p.y][p.x] == Empty
  }

  /** The `Empty` cells of `rows`. */
  ghost function EmptyCells(rows: seq<seq<Cell>>, width: u16, height: u16): set<Coordinates>
    requires Shape(rows, width, height)
  {
    set p | p in GridCoords(width, height) && InGrid(p, width, height) && rows[p.y][p.x] == Empty
  }

  /** The positions of the bombs of `rows`. */
  ghost function BombSet(rows: seq<seq<Cell>>, width: u16, height: u16): set<Coordinates>
    requires Shape(rows, width, height)
  {
    set p | p in GridCoords(width, height) && IsBombAt(rows, width, height, p)
  }

  /** What `update_neighbors` leaves in the cell at `c`: a bomb stays, a cell
      with k > 0 bombs around it becomes `BombNeighbor(k)`, any other cell is
      left as it was. */
  function RefreshedCell(rows: seq<seq<Cell>>, width: u16, height: u16, c: Coordinates): Cell
    requires Shape(rows, width, height) && InGrid(c, width, height)
  {
    if IsBombAt(rows, width, height, c) then Bomb
    else
      var k := CountBombNeighbors(rows, width, height, c);
      if k > 0 then BombNeighbor(k) else rows[c.y][c.x]
  }

  ghost function Refreshed(rows: seq<seq<Cell>>, width: u16, height: u16): (r: seq<seq<Cell>>)
    requires Shape(rows, width, height)
    ensures Shape(r, width, height)
    ensures forall y, x | 0 <= y < height && 0 <= x < width ::
      r[y][x] == RefreshedCell(rows, width, height, Coordinates(x, y))
  {
    seq(height, y requires 0 <= y < height =>
      seq(width, x requires 0 <= x < width => RefreshedCell(rows, width, height, Coordinates(x, y))))
  }

  /** The cell a correct count of `k` bombs around a non-bomb cell calls for. */
  function ClassOf(k: nat): Cell
    requires k <= 8
  {
    if k == 0 then Empty else BombNeighbor(k)
  }

  /** Every non-bomb cell shows the number of bombs around it. */
  ghost predicate Consistent(rows: seq<seq<Cell>>, width: u16, height: u16)
    requires Shape(rows, width, height)
  {
    forall y, x {:trigger CountBombNeighbors(rows, width, height, Coordinates(x, y))} | 0 <= y < height && 0 <= x < width ::
      !rows[y][x].IsBomb() ==> rows[y][x] == ClassOf(CountBombNeighbors(rows, width, height, Coordinates(x, y)))
  }

  /** Only bombs and empty cells, as after placing bombs on an empty grid. */
  ghost predicate BombsOnly(rows: seq<seq<Cell>>, width: u16, height: u16)
    requires Shape(rows, width, height)
  {
    forall y, x | 0 <= y < height && 0 <= x < width :: rows[y][x] == Bomb || rows[y][x] == Empty
  }

  ghost predicate SameBombs(a: seq<seq<Cell>>, b: seq<seq<Cell>>, width: u16, height: u16)
    requires Shape(a, width, height) && Shape(b, width, height)
  {
    forall y, x | 0 <= y < height && 0 <= x < width :: a[y][x].IsBomb() == b[y][x].IsBomb()
  }

  // ---------------------------------------------------------------------
  // Text rendering (`Grid::console_output`)

  function Header(width: u16, height: u16, bombCount: u16): string {
    "Map (" + DecimalString(width) + ", " + DecimalString(height) + ") with "
      + DecimalString(bombCount) + " bombs:\n"
  }

  /** `(0..=(width + 1)).map(|_| '-')`: `width + 2` dashes; the `u16` sum
      wraps for the largest width, leaving a single dash. */
  function Border(width: u16): (line: string)
    ensures width < 0xFFFF ==> |line| == width + 2
    ensures width == 0xFFFF ==> |line| == 1
    ensures forall i | 0 <= i < |line| :: line[i] == '-'
  {
    seq((width + 1) % 0x1_0000 + 1, _ => '-')
  }

  /** The glyphs of a row, left to right. */
  function Glyphs(row: seq<Cell>): string {
    if row == [] then "" else Glyphs(row[..|row| - 1]) + CellGlyph(row[|row| - 1])
  }

  function RowLine(row: seq<Cell>): string {
    "|" + Glyphs(row) + "|\n"
  }

  /** The row lines of `rows`, the last row first. */
  function RowsText(rows: seq<seq<Cell>>): string {
    if rows == [] then "" else RowsText(rows[1..]) + RowLine(rows[0])
  }

  function Rendering(rows: seq<seq<Cell>>, width: u16, height: u16, bombCount: u16): string {
    Header(width, height, bombCount) + Border(width) + "\n" + RowsText(rows) + Border(width)
  }

  /** Reads cells back from one glyph character each. */
  function ParseCells(s: string): Option<seq<Cell>> {
    if s == [] then Some([])
    else match ParseCells(s[..|s| - 1])
      case None => None
      case Some(front) =>
        match DecodeGlyph([s[|s| - 1]])
        case None => None
        case Some(c) => Some(front + [c])
  }

  function ParseRowLine(line: string): Option<seq<Cell>> {
    if |line| >= 3 && line[0] == '|' && line[|line| - 2..] == "|\n" then ParseCells(line[1..|line| - 2])
    else None
  }

  /** Splits rendered rows into lines of `width + 3` characters and reads
      them back, the last line first. */
  function ParseRows(text: string, width: nat): Option<seq<seq<Cell>>>
    decreases |text|
  {
    if text == [] then Some([])
    else if |text| < width + 3 then None
    else
      match ParseRowLine(text[|text| - (width + 3)..])
      case None => None
      case Some(row) =>
        match ParseRows(text[..|text| - (width + 3)], width)
        case None => None
        case Some(rest) => Some([row] + rest)
  }

  /** Every count of `row` fits one digit, as it does in a consistent grid. */
  ghost predicate RowReadable(row: seq<Cell>) {
    forall x | 0 <= x < |row| :: row[x].BombNeighbor? ==> row[x].count < 10
  }

  ghost predicate Readable(rows: seq<seq<Cell>>) {
    forall y | 0 <= y < |rows| :: RowReadable(rows[y])
  }

  ghost predicate AllInGrid(samples: seq<Coordinates>, width: u16, height: u16) {
    forall i | 0 <= i < |samples| :: InGrid(samples[i], width, height)
  }

  // ---------------------------------------------------------------------
  // The object

  class Grid {
    var bombCount: u16
    var height: u16
    var width: u16
    var grid: seq<seq<Cell>>

    ghost predicate Valid()
      reads this
    {
      Shape(grid, width, height)
    }

    /** `Grid::empty`: `height` rows of `width` empty cells, no bombs. */
    constructor Empty(width: u16, height: u16)
      ensures Valid()
      ensures this.width == width && this.height == height && bombCount == 0
      ensures grid == EmptyRows(width, height)
    {
      bombCount := 0;
      this.height := height;
      this.width := width;
      grid := EmptyRows(width, height);
    }

    /** `set_bombs`: draws positions from `samples` (the random generator's
        output) and turns each one that is still `Empty` into a bomb until
        `count` bombs are down, then refreshes the neighbour counts. The
        source loops until it has found `count` empty cells, so `samples`
        must hold that many. */
    method SetBombs(count: u16, samples: seq<Coordinates>) returns (ghost placed: set<Coordinates>)
      requires Valid()
      requires AllInGrid(samples, width, height)
      requires count <= |EmptyHits(grid, width, height, samples)|
      modifies this`grid, this`bombCount
      ensures Valid()
      ensures placed <= EmptyHits(old(grid), width, height, samples) && |placed| == count
      ensures grid == Refreshed(Place(old(grid), width, height, placed), width, height)
      ensures bombCount == count
    {
      var remaining := count;
      var i := 0;
      placed := {};
      PlaceNothing(grid, width, height);
      assert samples[..|samples|] == samples;
      while remaining > 0
        invariant 0 <= i <= |samples|
        invariant Shape(grid, width, height)
        invariant placed == EmptyHits(old(grid), width, height, samples[..i])
        invariant remaining == count - |placed|
        invariant grid == Place(old(grid), width, height, placed)
        decreases |samples| - i
      {
        var p := samples[i];
        HitStep(old(grid), width, height, samples, i, placed);
        if grid[p.y][p.x] == Cell.Empty {
          PlaceOne(old(grid), width, height, placed, p);
          grid := grid[p.y := grid[p.y][p.x := Bomb]];
          placed := placed + {p};
          remaining := remaining - 1;
        }
        i := i + 1;
      }
      EmptyHitsPrefix(old(grid), width, height, samples, i);
      UpdateNeighbors();
      bombCount := count;
    }

    /** `update_neighbors`: visits every cell row by row and writes the bomb
        count into each non-bomb cell with at least one bomb around it. */
    method UpdateNeighbors()
      requires Valid()
      modifies this`grid
      ensures Valid()
      ensures grid == Refreshed(old(grid), width, height)
    {
      ghost var g0 := grid;
      for y := 0 to height
        invariant RefreshedUpTo(grid, g0, width, height, y, 0)
      {
        for x := 0 to width
          invariant RefreshedUpTo(grid, g0, width, height, y, x)
        {
          ghost var before := grid;
          var coords := Coordinates(x, y);
          if !IsBombAt(grid, width, height, coords) {
            var bombs := CountBombNeighbors(grid, width, height, coords);
            if bombs > 0 {
              grid := grid[y := grid[y][x := BombNeighbor(bombs)]];
            }
          }
          RefreshStep(before, g0, width, height, y, x, grid);
        }
        RefreshRowDone(grid, g0, width, height, y);
      }
      RefreshDone(grid, g0, width, height);
    }

    /** `console_output`: a header line, a border, the rows from the highest
        `y` down, each between bars, and the border again. */
    method ConsoleOutput() returns (s: string)
      requires Valid()
      ensures s == Rendering(grid, width, height, bombCount)
    {
      var line := Border(width);
      var buffer := Header(width, height, bombCount) + line + "\n";
      ghost var top := buffer;
      var k := |grid|;
      while k > 0
        invariant 0 <= k <= |grid|
        invariant buffer == top + RowsText(grid[k..])
      {
        k := k - 1;
        var row := grid[k];
        buffer := buffer + "|";
        ghost var front := buffer;
        for j := 0 to |row|
          invariant buffer == front + Glyphs(row[..j])
        {
          GlyphsStep(front, row, j);
          buffer := buffer + CellGlyph(row[j]);
        }
        assert row[..|row|] == row;
        buffer := buffer + "|\n";
        RowsTextStep(top, grid, k);
      }
      assert grid[0..] == grid;
      s := buffer + line;
    }
  }

  /** The state of `update_neighbors` before cell `(x, y)`: the cells
      visited so far hold their refreshed value, the others their old one,
      and no bomb has moved. */
  ghost predicate RefreshedUpTo(grid: seq<seq<Cell>>, g0: seq<seq<Cell>>, width: u16, height: u16, y: int, x: int) {
    Shape(grid, width, height) && Shape(g0, width, height) && SameBombs(grid, g0, width, height)
    && forall yy, xx | 0 <= yy < height && 0 <= xx < width ::
         grid[yy][xx] ==
           if yy < y || (yy == y && xx < x) then RefreshedCell(g0, width, height, Coordinates(xx, yy))
           else g0[yy][xx]
  }

  /** Visiting cell `(x, y)` refreshes it. */
  lemma RefreshStep(grid: seq<seq<Cell>>, g0: seq<seq<Cell>>, width: u16, height: u16, y: int, x: int,
                    grid': seq<seq<Cell>>)
    requires 0 <= y < height && 0 <= x < width && RefreshedUpTo(grid, g0, width, height, y, x)
    requires var c := Coordinates(x, y);
      grid' ==
        if IsBombAt(grid, width, height, c) || CountBombNeighbors(grid, width, height, c) == 0 then grid
        else grid[y := grid[y][x := BombNeighbor(CountBombNeighbors(grid, width, height, c))]]
    ensures RefreshedUpTo(grid', g0, width, height, y, x + 1)
  {
    var c := Coordinates(x, y);
    SameBombsSameCount(grid, g0, width, height, c);
  }

  /** The end of row `y` is the start of row `y + 1`. */
  lemma RefreshRowDone(grid: seq<seq<Cell>>, g0: seq<seq<Cell>>, width: u16, height: u16, y: int)
    requires 0 <= y < height && RefreshedUpTo(grid, g0, width, height, y, width)
    ensures RefreshedUpTo(grid, g0, width, height, y + 1, 0)
  {
  }

  /** With every row visited, the grid is the refreshed one. */
  lemma RefreshDone(grid: seq<seq<Cell>>, g0: seq<seq<Cell>>, width: u16, height: u16)
    requires RefreshedUpTo(grid, g0, width, height, height, 0)
    ensures grid == Refreshed(g0, width, height)
  {
    var r := Refreshed(g0, width, height);
    forall y | 0 <= y < height ensures grid[y] == r[y] {
      assert |grid[y]| == |r[y]|;
    }
  }

  // ---------------------------------------------------------------------
  // Lemmas used by the methods

  lemma PlaceNothing(rows: seq<seq<Cell>>, width: u16, height: u16)
    requires Shape(rows, width, height)
    ensures Place(rows, width, height, {}) == rows
  {
    var a := Place(rows, width, height, {});
    forall y | 0 <= y < height ensures a[y] == rows[y] {
      assert |a[y]| == |rows[y]|;
    }
  }

  lemma GlyphsStep(front: string, row: seq<Cell>, j: nat)
    requires j < |row|
    ensures front + Glyphs(row[..j + 1]) == front + Glyphs(row[..j]) + CellGlyph(row[j])
  {
    assert row[..j + 1][..j] == row[..j];
  }

  lemma RowsTextStep(top: string, rows: seq<seq<Cell>>, k: nat)
    requires k < |rows|
    ensures top + RowsText(rows[k..]) == top + RowsText(rows[k + 1..]) + "|" + Glyphs(rows[k]) + "|\n"
  {
    assert rows[k..][1..] == rows[k + 1..];
  }

  lemma EmptyHitsStep(rows: seq<seq<Cell>>, width: u16, height: u16, samples: seq<Coordinates>, i: nat)
    requires Shape(rows, width, height) && i < |samples|
    ensures EmptyHits(rows, width, height, samples[..i + 1])
         == EmptyHits(rows, width, height, samples[..i])
            + (if InGrid(samples[i], width, height) && rows[samples[i].y][samples[i].x] == Empty
               then {samples[i]} else {})
  {
    assert samples[..i + 1] == samples[..i] + [samples[i]];
  }

  /** One draw of `set_bombs`: the sample hits a cell that is still `Empty`
      exactly when it is a new empty hit. */
  lemma HitStep(rows: seq<seq<Cell>>, width: u16, height: u16, samples: seq<Coordinates>, i: nat, placed: set<Coordinates>)
    requires Shape(rows, width, height) && i < |samples| && InGrid(samples[i], width, height)
    requires placed == EmptyHits(rows, width, height, samples[..i])
    ensures var p := samples[i];
      if Place(rows, width, height, placed)[p.y][p.x] == Empty
      then p !in placed && EmptyHits(rows, width, height, samples[..i + 1]) == placed + {p}
      else EmptyHits(rows, width, height, samples[..i + 1]) == placed
  {
    EmptyHitsStep(rows, width, height, samples, i);
  }

  lemma EmptyHitsPrefix(rows: seq<seq<Cell>>, width: u16, height: u16, samples: seq<Coordinates>, i: nat)
    requires Shape(rows, width, height) && i <= |samples|
    ensures EmptyHits(rows, width, height, samples[..i]) <= EmptyHits(rows, width, height, samples)
  {
    forall p | p in samples[..i] ensures p in samples {
    }
  }

  lemma PlaceOne(rows: seq<seq<Cell>>, width: u16, height: u16, placed: set<Coordinates>, p: Coordinates)
    requires Shape(rows, width, height) && InGrid(p, width, height)
    ensures var before := Place(rows, width, height, placed);
      Place(rows, width, height, placed + {p}) == before[p.y := before[p.y][p.x := Bomb]]
  {
    var before := Place(rows, width, height, placed);
    var a, b := Place(rows, width, height, placed + {p}), before[p.y := before[p.y][p.x := Bomb]];
    forall y | 0 <= y < height ensures a[y] == b[y] {
      assert |a[y]| == |b[y]|;
    }
  }

  lemma {:induction false} SameBombsSameCounts(a: seq<seq<Cell>>, b: seq<seq<Cell>>, width: u16, height: u16, cs: seq<Coordinates>)
    requires Shape(a, width, height) && Shape(b, width, height) && SameBombs(a, b, width, height)
    ensures CountBombs(a, width, height, cs) == CountBombs(b, width, height, cs)
  {
    if cs != [] {
      var c := cs[0];
      if InGrid(c, width, height) {
        assert a[c.y][c.x].IsBomb() == b[c.y][c.x].IsBomb();
      }
      SameBombsSameCounts(a, b, width, height, cs[1..]);
    }
  }

  /** Neighbour counts depend on the bomb positions only. */
  lemma SameBombsSameCount(a: seq<seq<Cell>>, b: seq<seq<Cell>>, width: u16, height: u16, c: Coordinates)
    requires Shape(a, width, height) && Shape(b, width, height) && SameBombs(a, b, width, height)
    ensures IsBombAt(a, width, height, c) == IsBombAt(b, width, height, c)
    ensures CountBombNeighbors(a, width, height, c) == CountBombNeighbors(b, width, height, c)
  {
    if InGrid(c, width, height) {
      assert a[c.y][c.x].IsBomb() == b[c.y][c.x].IsBomb();
    }
    SameBombsSameCounts(a, b, width, height, GetNeighbors(c));
  }

  // ---------------------------------------------------------------------
  // Properties of neighbour refreshing

  /** `update_neighbors` never creates, moves or removes a bomb. */
  lemma RefreshedKeepsBombs(rows: seq<seq<Cell>>, width: u16, height: u16)
    requires Shape(rows, width, height)
    ensures SameBombs(Refreshed(rows, width, height), rows, width, height)
  {
  }

  /** Refreshing a grid of bombs and empty cells numbers every cell
      correctly: k > 0 bombs around gives `BombNeighbor(k)`, none leaves
      `Empty`. */
  lemma RefreshedIsConsistent(rows: seq<seq<Cell>>, width: u16, height: u16)
    requires Shape(rows, width, height) && BombsOnly(rows, width, height)
    ensures Consistent(Refreshed(rows, width, height), width, height)
  {
    var r: seq<seq<Cell>> := Refreshed(rows, width, height);
    RefreshedKeepsBombs(rows, width, height);
    forall y: int, x: int | 0 <= y < height && 0 <= x < width && !r[y][x].IsBomb()
      ensures r[y][x] == ClassOf(CountBombNeighbors(r, width, height, Coordinates(x, y)))
    {
      SameBombsSameCount(r, rows, width, height, Coordinates(x, y));
    }
  }

  /** Refreshing twice is refreshing once. */
  lemma RefreshedIdempotent(rows: seq<seq<Cell>>, width: u16, height: u16)
    requires Shape(rows, width, height)
    ensures Refreshed(Refreshed(rows, width, height), width, height) == Refreshed(rows, width, height)
  {
    var r := Refreshed(rows, width, height);
    var rr := Refreshed(r, width, height);
    RefreshedKeepsBombs(rows, width, height);
    forall y | 0 <= y < height ensures rr[y] == r[y] {
      forall x | 0 <= x < width ensures rr[y][x] == r[y][x] {
        SameBombsSameCount(r, rows, width, height, Coordinates(x, y));
      }
    }
  }

  /** In a consistent grid an `Empty` cell has no bomb at any of its eight
      (wrapped) neighbour positions. */
  lemma EmptyCellHasNoBombNeighbor(rows: seq<seq<Cell>>, width: u16, height: u16, c: Coordinates, i: nat)
    requires Shape(rows, width, height) && Consistent(rows, width, height)
    requires InGrid(c, width, height) && rows[c.y][c.x] == Empty && i < 8
    ensures !IsBombAt(rows, width, height, GetNeighbors(c)[i])
  {
    assert c == Coordinates(c.x, c.y);
    assert rows[c.y][c.x] == ClassOf(CountBombNeighbors(rows, width, height, Coordinates(c.x, c.y)));
    NoBombsCounted(rows, width, height, GetNeighbors(c), i);
  }

  lemma {:induction false} NoBombsCounted(rows: seq<seq<Cell>>, width: u16, height: u16, cs: seq<Coordinates>, i: nat)
    requires Shape(rows, width, height) && CountBombs(rows, width, height, cs) == 0 && i < |cs|
    ensures !IsBombAt(rows, width, height, cs[i])
  {
    if i > 0 {
      NoBombsCounted(rows, width, height, cs[1..], i - 1);
    }
  }

  // ---------------------------------------------------------------------
  // Properties of bomb placement

  /** The bombs after placing `placed` and refreshing are the old bombs plus
      `placed`. */
  lemma PlacedBombs(rows: seq<seq<Cell>>, width: u16, height: u16, placed: set<Coordinates>)
    requires Shape(rows, width, height)
    requires forall p | p in placed :: InGrid(p, width, height)
    ensures BombSet(Refreshed(Place(rows, width, height, placed), width, height), width, height)
         == BombSet(rows, width, height) + placed
  {
    var after := Refreshed(Place(rows, width, height, placed), width, height);
    forall p ensures p in BombSet(after, width, height) <==> p in BombSet(rows, width, height) + placed {
      GridCoordsMembers(width, height, p);
    }
  }

  /** `Grid::empty` followed by `set_bombs`: the grid holds exactly the
      placed bombs and every other cell shows its correct count. */
  lemma BombsOnEmptyGrid(width: u16, height: u16, placed: set<Coordinates>)
    requires forall p | p in placed :: InGrid(p, width, height)
    ensures var g := Refreshed(Place(EmptyRows(width, height), width, height, placed), width, height);
      BombSet(g, width, height) == placed && Consistent(g, width, height)
  {
    var e := EmptyRows(width, height);
    assert BombSet(e, width, height) == {};
    PlacedBombs(e, width, height, placed);
    RefreshedIsConsistent(Place(e, width, height, placed), width, height);
  }

  /** Every cell of an empty grid is an `Empty` cell, so it has
      `width * height` of them. */
  lemma EmptyGridEmptyCells(width: u16, height: u16)
    ensures EmptyCells(EmptyRows(width, height), width, height) == GridCoords(width, height)
    ensures |EmptyCells(EmptyRows(width, height), width, height)| == width * height
  {
    forall p | p in GridCoords(width, height)
      ensures p in EmptyCells(EmptyRows(width, height), width, height)
    {
      GridCoordsMembers(width, height, p);
    }
    GridCoordsCount(width, height);
  }

  /** The random draws that let `set_bombs` finish exist exactly when there
      are at least `count` empty cells (on a fresh grid: `count <= width *
      height`); otherwise the source loops for ever. */
  lemma SamplesSuffice(rows: seq<seq<Cell>>, width: u16, height: u16, count: nat)
    requires Shape(rows, width, height)
    ensures (exists samples :: AllInGrid(samples, width, height) && count <= |EmptyHits(rows, width, height, samples)|)
        <==> count <= |EmptyCells(rows, width, height)|
  {
    var cells := EmptyCells(rows, width, height);
    forall samples | AllInGrid(samples, width, height)
      ensures |EmptyHits(rows, width, height, samples)| <= |cells|
    {
      var hits := EmptyHits(rows, width, height, samples);
      forall p | p in hits ensures p in cells {
        GridCoordsMembers(width, height, p);
      }
      SubsetCard(hits, cells);
    }
    if count <= |cells| {
      var samples := Enumerate(cells);
      forall i | 0 <= i < |samples| ensures InGrid(samples[i], width, height) {
        assert samples[i] in cells;
      }
      assert EmptyHits(rows, width, height, samples) == cells;
    }
  }

  lemma SubsetCard(a: set<Coordinates>, b: set<Coordinates>)
    requires a <= b
    ensures |a| <= |b|
  {
    assert b == a + (b - a);
  }

  /** The elements of a finite set, in some order. */
  ghost function Enumerate(s: set<Coordinates>): (r: seq<Coordinates>)
    ensures forall p :: p in r <==> p in s
  {
    if s == {} then [] else var p :| p in s; [p] + Enumerate(s - {p})
  }

  // ---------------------------------------------------------------------
  // Properties of the text rendering

  lemma CellGlyphReadable(c: Cell)
    requires c.BombNeighbor? ==> c.count < 10
    ensures |CellGlyph(c)| == 1
    ensures DecodeGlyph(CellGlyph(c)) == Some(c)
  {
    GlyphRoundTrip(c);
  }

  lemma {:induction false} GlyphsRoundTrip(row: seq<Cell>)
    requires RowReadable(row)
    ensures |Glyphs(row)| == |row|
    ensures ParseCells(Glyphs(row)) == Some(row)
  {
    if row != [] {
      var front, last := row[..|row| - 1], row[|row| - 1];
      GlyphsRoundTrip(front);
      CellGlyphReadable(last);
      ParseCellsSnoc(Glyphs(front), CellGlyph(last), row);
    }
  }

  /** Appending the glyph of a row's last cell to the glyphs of the rest
      reads back as the whole row. */
  lemma ParseCellsSnoc(s: string, t: string, row: seq<Cell>)
    requires |row| > 0 && ParseCells(s) == Some(row[..|row| - 1])
    requires |t| == 1 && DecodeGlyph(t) == Some(row[|row| - 1])
    ensures ParseCells(s + t) == Some(row)
  {
    var u := s + t;
    assert u[..|u| - 1] == s;
    assert [u[|u| - 1]] == t;
    assert row[..|row| - 1] + [row[|row| - 1]] == row;
  }

  /** One row line is `width + 3` characters and reads back as the row. */
  lemma RowLineRoundTrip(row: seq<Cell>)
    requires RowReadable(row)
    ensures |RowLine(row)| == |row| + 3
    ensures ParseRowLine(RowLine(row)) == Some(row)
  {
    GlyphsRoundTrip(row);
    var line := RowLine(row);
    assert line[1..|line| - 2] == Glyphs(row);
    assert line[|line| - 2..] == "|\n";
  }

  /** The rendered rows read back as the grid: the last line is row 0 and the
      first line the highest row, so nothing is lost or reordered. */
  lemma {:induction false} RowsTextRoundTrip(rows: seq<seq<Cell>>, width: u16, height: u16)
    requires Shape(rows, width, height) && Readable(rows)
    ensures ParseRows(RowsText(rows), width) == Some(rows)
  {
    if rows != [] {
      var rest := rows[1..];
      RowsTextRoundTrip(rest, width, height - 1);
      RowLineRoundTrip(rows[0]);
      var text := RowsText(rows);
      assert text[|text| - (width + 3)..] == RowLine(rows[0]);
      assert text[..|text| - (width + 3)] == RowsText(rest);
      assert [rows[0]] + rest == rows;
    }
  }

  /** A consistent grid shows counts 1..8 only, so it renders one character
      per cell. */
  lemma ConsistentIsReadable(rows: seq<seq<Cell>>, width: u16, height: u16)
    requires Shape(rows, width, height) && Consistent(rows, width, height)
    ensures Readable(rows)
  {
    forall y | 0 <= y < |rows| ensures RowReadable(rows[y]) {
      forall x | 0 <= x < |rows[y]| && rows[y][x].BombNeighbor?
        ensures rows[y][x].count < 10
      {
        assert rows[y][x] == ClassOf(CountBombNeighbors(rows, width, height, Coordinates(x, y)));
      }
    }
  }
}

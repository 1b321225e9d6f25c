/** The pure half of the mine field: cells, the neighbour offsets, and the
    queries `is_bomb_at`, `get_neighbors` and `count_bomb_neighbors` over a
    grid stored as rows (`rows[y][x]`). */
module GridCells {
  import opened Numbers
  import opened Coords

  /** The eight neighbour offsets, in the order the source lists them. */
  const NEIGHBORS: seq<Offset> :=
    [(-1, 1), (0, 1), (1, 1),
     (-1, 0),         (1, 0),
     (-1, -1), (0, -1), (1, -1)]

  datatype Cell = Bomb | BombNeighbor(count: u8) | Empty {
    predicate IsBomb() {
      Bomb?
    }
  }

  datatype Option<T> = None | Some(value: T)

  /** `NEIGHBORS` holds exactly the eight offsets around a cell, each once. */
  lemma NeighborOffsetsAreTheSurrounding()
    ensures |NEIGHBORS| == 8
    ensures forall i, j | 0 <= i < j < 8 :: NEIGHBORS[i] != NEIGHBORS[j]
    ensures forall i | 0 <= i < 8 ::
      -1 <= NEIGHBORS[i].0 <= 1 && -1 <= NEIGHBORS[i].1 <= 1 && NEIGHBORS[i] != (0, 0)
  {
  }

  /** Every offset in {-1, 0, 1}² other than (0, 0) is in `NEIGHBORS`. */
  function OffsetIndex(dx: int, dy: int): (i: nat)
    requires -1 <= dx <= 1 && -1 <= dy <= 1 && (dx != 0 || dy != 0)
    ensures i < 8 && NEIGHBORS[i] == (dx, dy)
  {
    if dy == 1 then dx + 1
    else if dy == 0 then (if dx == -1 then 3 else 4)
    else dx + 6
  }

  // ---------------------------------------------------------------------
  // Cell rendering (`Cell::console_output`)

  function CellGlyph(c: Cell): string {
    match c
    case Empty => " "
    case Bomb => "*"
    case BombNeighbor(v) => DecimalString(v)
  }

  /** Reads a rendered cell back; the partner of `CellGlyph`. */
  function DecodeGlyph(s: string): Option<Cell> {
    if s == " " then Some(Empty)
    else if s == "*" then Some(Bomb)
    else if |s| >= 1 && (forall i | 0 <= i < |s| :: IsDigit(s[i])) && ParseDecimal(s) < 0x100
    then Some(BombNeighbor(ParseDecimal(s)))
    else None
  }

  /** Rendering a cell loses nothing: every cell is recovered from its glyph. */
  lemma GlyphRoundTrip(c: Cell)
    ensures DecodeGlyph(CellGlyph(c)) == Some(c)
  {
    if c.BombNeighbor? {
      var s := DecimalString(c.count);
      assert IsDigit(s[0]);
      DecimalRoundTrip(c.count);
    }
  }

  /** A neighbour count 1..8 renders as one digit character. */
  lemma CountGlyphIsOneDigit(c: Cell)
    requires c.BombNeighbor? ==> 1 <= c.count <= 8
    ensures |CellGlyph(c)| == 1
  {
  }

  // ---------------------------------------------------------------------
  // Grid shape

  /** `rows` has `height` rows of `width` cells each. */
  ghost predicate Shape(rows: seq<seq<Cell>>, width: u16, height: u16) {
    |rows| == height && forall y | 0 <= y < |rows| :: |rows[y]| == width
  }

  predicate InGrid(c: Coordinates, width: u16, height: u16) {
    c.x < width && c.y < height
  }

  /** The coordinates of a `width`×`height` grid, row by row. */
  function GridCoords(width: u16, height: u16): set<Coordinates> {
    if height == 0 then {} else GridCoords(width, height - 1) + RowCoords(width, height - 1)
  }

  function RowCoords(width: u16, y: u16): set<Coordinates> {
    if width == 0 then {} else RowCoords(width - 1, y) + {Coordinates(width - 1, y)}
  }

  /** `GridCoords` holds exactly the in-grid coordinates. */
  lemma {:induction false} GridCoordsMembers(width: u16, height: u16, p: Coordinates)
    ensures p in GridCoords(width, height) <==> InGrid(p, width, height)
  {
    if height > 0 {
      GridCoordsMembers(width, height - 1, p);
      RowCoordsMembers(width, height - 1, p);
    }
  }

  lemma {:induction false} RowCoordsMembers(width: u16, y: u16, p: Coordinates)
    ensures p in RowCoords(width, y) <==> p.y == y && p.x < width
  {
    if width > 0 {
      RowCoordsMembers(width - 1, y, p);
    }
  }

  lemma {:induction false} RowCoordsCount(width: u16, y: u16)
    ensures |RowCoords(width, y)| == width
  {
    if width > 0 {
      RowCoordsCount(width - 1, y);
      RowCoordsMembers(width - 1, y, Coordinates(width - 1, y));
    }
  }

  /** A grid has `width * height` distinct coordinates. */
  lemma {:induction false} GridCoordsCount(width: u16, height: u16)
    ensures |GridCoords(width, height)| == width * height
  {
    if height > 0 {
      var n := |GridCoords(width, height - 1)|;
      var m := |RowCoords(width, height - 1)|;
      GridCoordsSplit(width, height);
      GridCoordsCount(width, height - 1);
      RowCoordsCount(width, height - 1);
      MulStep(width, height, n, m);
    }
  }

  lemma GridCoordsSplit(width: u16, height: u16)
    requires height > 0
    ensures |GridCoords(width, height)|
         == |GridCoords(width, height - 1)| + |RowCoords(width, height - 1)|
  {
    var upper, row := GridCoords(width, height - 1), RowCoords(width, height - 1);
    assert upper !! row by {
      forall p | p in upper ensures p !in row {
        GridCoordsMembers(width, height - 1, p);
        RowCoordsMembers(width, height - 1, p);
      }
    }
  }

  lemma MulStep(w: int, h: int, n: int, m: int)
    requires n == w * (h - 1) && m == w
    ensures n + m == w * h
  {
  }

  /** The rows of `Grid::empty`. */
  function EmptyRows(width: u16, height: u16): (rows: seq<seq<Cell>>)
    ensures Shape(rows, width, height)
    ensures forall y, x | 0 <= y < height && 0 <= x < width :: rows[y][x] == Empty
  {
    seq(height, _ => seq(width, _ => Empty))
  }

  // ---------------------------------------------------------------------
  // Queries

  /** `is_bomb_at`: the one place where out-of-range coordinates (including
      wrapped neighbours) are turned into `false`. */
  function IsBombAt(rows: seq<seq<Cell>>, width: u16, height: u16, c: Coordinates): (b: bool)
    requires Shape(rows, width, height)
    ensures b <==> InGrid(c, width, height) && rows[c.y][c.x] == Bomb
  {
    if c.x >= width || c.y >= height then false
    else rows[c.y][c.x].IsBomb()
  }

  /** `get_neighbors`: the eight offsets added to `c`, wrapped, not clipped. */
  function GetNeighbors(c: Coordinates): (ns: seq<Coordinates>)
    ensures |ns| == 8
    ensures forall i | 0 <= i < 8 :: ns[i] == AddOffset(c, NEIGHBORS[i])
  {
    seq(8, i requires 0 <= i < 8 => AddOffset(c, NEIGHBORS[i]))
  }

  /** Number of positions in `cs` holding a bomb (the iterator `filter().count()`). */
  function CountBombs(rows: seq<seq<Cell>>, width: u16, height: u16, cs: seq<Coordinates>): (n: nat)
    requires Shape(rows, width, height)
    ensures n <= |cs|
  {
    if cs == [] then 0
    else (if IsBombAt(rows, width, height, cs[0]) then 1 else 0)
         + CountBombs(rows, width, height, cs[1..])
  }

  /** `count_bomb_neighbors`: 0 on a bomb, otherwise the bombs among the
      eight (wrapped) neighbour positions. */
  function CountBombNeighbors(rows: seq<seq<Cell>>, width: u16, height: u16, c: Coordinates): (n: nat)
    requires Shape(rows, width, height)
    ensures n <= 8
    ensures IsBombAt(rows, width, height, c) ==> n == 0
  {
    if IsBombAt(rows, width, height, c) then 0
    else CountBombs(rows, width, height, GetNeighbors(c))
  }

  // ---------------------------------------------------------------------
  // Reference definition of the neighbour count

  /** The bombs at the up-to-eight in-grid positions adjacent to `c`, with
      plain integer arithmetic: the edge-clipped neighbourhood. */
  ghost function AdjacentBombs(rows: seq<seq<Cell>>, width: u16, height: u16, c: Coordinates): set<Coordinates>
    requires Shape(rows, width, height)
  {
    set x: int, y: int |
      c.x - 1 <= x <= c.x + 1 && c.y - 1 <= y <= c.y + 1 &&
      0 <= x < width && 0 <= y < height && (x != c.x || y != c.y) && rows[y][x] == Bomb
      :: Coordinates(x, y)
  }

  /** Positions in `cs` that hold a bomb. */
  ghost function BombsAmong(rows: seq<seq<Cell>>, width: u16, height: u16, cs: seq<Coordinates>): set<Coordinates>
    requires Shape(rows, width, height)
  {
    set p | p in cs && IsBombAt(rows, width, height, p)
  }

  ghost predicate Distinct(cs: seq<Coordinates>) {
    forall i, j | 0 <= i < j < |cs| :: cs[i] != cs[j]
  }

  lemma {:induction false} CountBombsIsCardinality(rows: seq<seq<Cell>>, width: u16, height: u16, cs: seq<Coordinates>)
    requires Shape(rows, width, height)
    requires Distinct(cs)
    ensures CountBombs(rows, width, height, cs) == |BombsAmong(rows, width, height, cs)|
  {
    if cs != [] {
      var tail := cs[1..];
      CountBombsIsCardinality(rows, width, height, tail);
      var s := BombsAmong(rows, width, height, cs);
      var t := BombsAmong(rows, width, height, tail);
      assert cs[0] !in tail by {
        forall j | 0 <= j < |tail| ensures tail[j] != cs[0] {
          assert tail[j] == cs[j + 1];
        }
      }
      if IsBombAt(rows, width, height, cs[0]) {
        assert s == t + {cs[0]};
      } else {
        assert s == t;
      }
    }
  }

  /** Two different small offsets move a component to different places. */
  lemma AddComponentInjective(v: u16, d: i8, e: i8)
    requires -1 <= d <= 1 && -1 <= e <= 1
    requires AddComponent(v, d) == AddComponent(v, e)
    ensures d == e
  {
    AddComponentCases(v, d);
    AddComponentCases(v, e);
  }

  lemma NeighborsDistinct(c: Coordinates)
    ensures Distinct(GetNeighbors(c))
  {
    var ns := GetNeighbors(c);
    NeighborOffsetsAreTheSurrounding();
    forall i, j | 0 <= i < j < 8
      ensures ns[i] != ns[j]
    {
      var (a, b) := (NEIGHBORS[i], NEIGHBORS[j]);
      if ns[i] == ns[j] {
        AddComponentInjective(c.x, a.0, b.0);
        AddComponentInjective(c.y, a.1, b.1);
      }
    }
  }

  /** For a cell inside the grid, a neighbour position is inside the grid
      exactly when the unwrapped sum is, and is then that sum; in particular
      it is never the cell itself. */
  lemma NeighborInGrid(c: Coordinates, o: Offset, width: u16, height: u16)
    requires InGrid(c, width, height)
    requires -1 <= o.0 <= 1 && -1 <= o.1 <= 1
    ensures InGrid(AddOffset(c, o), width, height) <==>
      (0 <= c.x + o.0 < width && 0 <= c.y + o.1 < height)
    ensures InGrid(AddOffset(c, o), width, height) ==>
      AddOffset(c, o) == Coordinates(c.x + o.0, c.y + o.1)
  {
    StepInRange(c.x, o.0, width);
    StepInRange(c.y, o.1, height);
  }

  /** An edge cell never counts itself: for any grid size, no neighbour
      position of an in-grid cell, wrapped or not, equals that cell. */
  lemma NeighborIsNeverSelf(c: Coordinates, i: nat)
    requires i < 8
    ensures GetNeighbors(c)[i] != c
  {
    NeighborOffsetsAreTheSurrounding();
    var o := NEIGHBORS[i];
    AddComponentCases(c.x, o.0);
    AddComponentCases(c.y, o.1);
  }

  lemma NeighborBombsAreAdjacent(rows: seq<seq<Cell>>, width: u16, height: u16, c: Coordinates, p: Coordinates)
    requires Shape(rows, width, height) && InGrid(c, width, height)
    requires p in BombsAmong(rows, width, height, GetNeighbors(c))
    ensures p in AdjacentBombs(rows, width, height, c)
  {
    var ns := GetNeighbors(c);
    var i :| 0 <= i < 8 && ns[i] == p;
    NeighborOffsetsAreTheSurrounding();
    NeighborInGrid(c, NEIGHBORS[i], width, height);
    var (x, y) := (c.x + NEIGHBORS[i].0, c.y + NEIGHBORS[i].1);
    assert p == Coordinates(x, y) && rows[y][x] == Bomb;
  }

  /** Membership in the reference set, stated on the components of `p`. */
  lemma AdjacentBombsMember(rows: seq<seq<Cell>>, width: u16, height: u16, c: Coordinates, p: Coordinates)
    requires Shape(rows, width, height)
    requires p in AdjacentBombs(rows, width, height, c)
    ensures c.x - 1 <= p.x <= c.x + 1 && c.y - 1 <= p.y <= c.y + 1
    ensures p != c && rows[p.y][p.x] == Bomb
  {
  }

  lemma AdjacentBombsAreNeighbors(rows: seq<seq<Cell>>, width: u16, height: u16, c: Coordinates, p: Coordinates)
    requires Shape(rows, width, height) && InGrid(c, width, height)
    requires p in AdjacentBombs(rows, width, height, c)
    ensures p in BombsAmong(rows, width, height, GetNeighbors(c))
  {
    AdjacentBombsMember(rows, width, height, c, p);
    var i := OffsetIndex(p.x - c.x, p.y - c.y);
    NeighborInGrid(c, NEIGHBORS[i], width, height);
    assert GetNeighbors(c)[i] == p;
  }

  /** `count_bomb_neighbors` agrees with the reference: for a non-bomb cell it
      is the number of bombs among the in-grid cells adjacent to it. */
  lemma CountIsAdjacentBombs(rows: seq<seq<Cell>>, width: u16, height: u16, c: Coordinates)
    requires Shape(rows, width, height)
    requires InGrid(c, width, height) && !IsBombAt(rows, width, height, c)
    ensures CountBombNeighbors(rows, width, height, c) == |AdjacentBombs(rows, width, height, c)|
  {
    var ns := GetNeighbors(c);
    NeighborsDistinct(c);
    CountBombsIsCardinality(rows, width, height, ns);
    var got := BombsAmong(rows, width, height, ns);
    var want := AdjacentBombs(rows, width, height, c);
    forall p | p in got ensures p in want {
      NeighborBombsAreAdjacent(rows, width, height, c, p);
    }
    forall p | p in want ensures p in got {
      AdjacentBombsAreNeighbors(rows, width, height, c, p);
    }
    assert got == want;
  }
}

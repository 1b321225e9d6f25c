/** What one click uncovers, stated without the event queue: every covered
    position joined to the clicked one by a chain of covered positions,
    each step going from an empty-tagged cell to one of its eight
    neighbour positions. That is the connected empty region plus its
    bordering numbered cells. */
module Cascade {
  import opened Numbers
  import opened Coords
  import opened GridCells
  import opened Session

  /** `path` starts at `c`, stays on covered positions and only steps on
      from a cell tagged empty to one of its neighbour positions. */
  ghost predicate IsRevealPath(cells: map<Coordinates, CellTag>, covered: set<Coordinates>, c: Coordinates, path: seq<Coordinates>) {
    |path| >= 1 && path[0] == c
    && (forall k | 0 <= k < |path| :: path[k] in covered)
    && (forall k | 0 <= k < |path| - 1 ::
          path[k] in cells && cells[path[k]] == EmptyCell && path[k + 1] in GetNeighbors(path[k]))
  }

  /** The positions a click on `c` uncovers. */
  ghost function Reach(cells: map<Coordinates, CellTag>, covered: set<Coordinates>, c: Coordinates): set<Coordinates> {
    set p | p in covered && exists path :: IsRevealPath(cells, covered, c, path) && path[|path| - 1] == p
  }

  /** A covered click position is uncovered. */
  lemma ReachStart(cells: map<Coordinates, CellTag>, covered: set<Coordinates>, c: Coordinates)
    requires c in covered
    ensures c in Reach(cells, covered, c)
  {
    assert IsRevealPath(cells, covered, c, [c]);
  }

  /** Uncovering an empty-tagged cell uncovers its covered neighbours. */
  lemma ReachStep(cells: map<Coordinates, CellTag>, covered: set<Coordinates>, c: Coordinates, p: Coordinates, n: Coordinates)
    requires p in Reach(cells, covered, c) && p in cells && cells[p] == EmptyCell
    requires n in GetNeighbors(p) && n in covered
    ensures n in Reach(cells, covered, c)
  {
    var path :| IsRevealPath(cells, covered, c, path) && path[|path| - 1] == p;
    assert IsRevealPath(cells, covered, c, path + [n]);
  }

  /** `Reach` is the least such set: any set of positions that contains the
      covered click position and is closed under `ReachStep` contains it. */
  lemma ReachLeast(cells: map<Coordinates, CellTag>, covered: set<Coordinates>, c: Coordinates, s: set<Coordinates>)
    requires c in covered ==> c in s
    requires forall p, n | p in s && p in cells && cells[p] == EmptyCell && n in GetNeighbors(p) && n in covered :: n in s
    ensures Reach(cells, covered, c) <= s
  {
    forall p | p in Reach(cells, covered, c) ensures p in s {
      var path :| IsRevealPath(cells, covered, c, path) && path[|path| - 1] == p;
      PathInside(cells, covered, c, s, path, |path| - 1);
    }
  }

  lemma {:induction false} PathInside(cells: map<Coordinates, CellTag>, covered: set<Coordinates>, c: Coordinates,
                                      s: set<Coordinates>, path: seq<Coordinates>, k: nat)
    requires c in covered ==> c in s
    requires forall p, n | p in s && p in cells && cells[p] == EmptyCell && n in GetNeighbors(p) && n in covered :: n in s
    requires IsRevealPath(cells, covered, c, path) && k < |path|
    ensures path[k] in s
  {
    if k > 0 {
      PathInside(cells, covered, c, s, path, k - 1);
      assert path[k] in GetNeighbors(path[k - 1]);
    }
  }

  /** Unless the click itself is on a bomb, nothing uncovered is a bomb: a
      chain only moves on from empty cells, and those border no bomb. */
  lemma ReachHasNoBomb(cells: map<Coordinates, CellTag>, covered: set<Coordinates>, c: Coordinates, p: Coordinates)
    requires TagsSafe(cells) && covered <= cells.Keys
    requires c in cells ==> cells[c] != BombTag
    requires p in Reach(cells, covered, c)
    ensures cells[p] != BombTag
  {
    var path :| IsRevealPath(cells, covered, c, path) && path[|path| - 1] == p;
    if |path| > 1 {
      var k := |path| - 2;
      var q := path[k];
      assert p in GetNeighbors(q);
      var i :| 0 <= i < 8 && GetNeighbors(q)[i] == p;
    }
  }

  /** A click on a covered cell that is not tagged empty (a bomb or a
      number) uncovers that cell alone; a click on an uncovered position
      uncovers nothing. */
  lemma ReachOfNonEmpty(cells: map<Coordinates, CellTag>, covered: set<Coordinates>, c: Coordinates)
    requires c in cells && cells[c] != EmptyCell
    ensures Reach(cells, covered, c) == if c in covered then {c} else {}
  {
    forall p | p in Reach(cells, covered, c) ensures p == c {
      var path :| IsRevealPath(cells, covered, c, path) && path[|path| - 1] == p;
    }
    if c in covered {
      ReachStart(cells, covered, c);
    }
  }
}

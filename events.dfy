/** The event handlers of events.rs as methods on the shared `World`, and the
    reveal cascade they make up: the uncover requests Bevy spreads over
    several frames are processed here by one first-in first-out worklist. */
module Events {
  import opened Numbers
  import opened Coords
  import opened GridCells
  import opened Config
  import opened Session
  import opened Cascade

  // ---------------------------------------------------------------------
  // Uncovering

  /** `uncover_event_handler`, for one `UncoverCellEvent(c)`: takes `c`'s
      cover out of the covered map (nothing happens if there is none), then
      declares victory when the covers left number `bomb_count` — even when
      nothing was removed. Returns the cover that gets the `Uncover` mark. */
  method UncoverEventHandler(w: World, c: Coordinates) returns (cover: Option<Entity>)
    modifies w`covered, w`state
    ensures w.covered == old(w.covered) - {c}
    ensures cover == if c in old(w.covered) then Some(old(w.covered)[c]) else None
    ensures w.state == if |w.covered.Keys| == w.config.difficulty.bombCount then Victory else old(w.state)
  {
    cover := if c in w.covered then Some(w.covered[c]) else None;
    w.covered := w.covered - {c};
    if |w.covered.Keys| == w.config.difficulty.bombCount {
      w.state := Victory;
    }
  }

  /** `explosion_event_handler`. */
  method ExplosionEventHandler(w: World)
    modifies w`state
    ensures w.state == GameOver
  {
    w.state := GameOver;
  }

  /** `uncover_cell`, for the cell whose cover was marked: a bomb explodes
      (and the explosion handler ends the game); an empty cell asks for its
      eight neighbour positions to be uncovered, wrapped but not clipped; a
      numbered cell does neither. */
  method UncoverCell(w: World, c: Coordinates) returns (requests: seq<Coordinates>)
    requires c in w.cells
    modifies w`state
    ensures requests == if w.cells[c] == EmptyCell then GetNeighbors(c) else []
    ensures w.state == if w.cells[c] == BombTag then GameOver else old(w.state)
  {
    requests := [];
    if w.cells[c] == BombTag {
      ExplosionEventHandler(w);
    }
    if w.cells[c] == EmptyCell {
      for i := 0 to 8
        invariant requests == GetNeighbors(c)[..i]
      {
        requests := requests + [AddOffset(c, NEIGHBORS[i])];
      }
    }
  }

  /** The whole cascade started by a click on `c` during play: each request
      is handled by `UncoverEventHandler`, and a cover it actually removed
      by `UncoverCell`, whose requests join the back of the queue.

      Within one request the cover is removed and the victory test made
      before the cell is looked at, as in the source. Unlike the source, the
      cell is looked at whatever phase that test set, so a click on a bomb
      always ends in `GameOver`; `RequestPhaseAsWritten` shows where the
      source differs. */
  method Reveal(w: World, c: Coordinates)
    requires w.Valid() && w.state == InGame
    modifies w`covered, w`state
    ensures w.Valid()
    ensures w.covered == old(w.covered) - Reach(w.cells, old(w.covered).Keys, c)
    ensures w.state ==
      if c in old(w.covered) && w.cells[c] == BombTag then GameOver
      else if |w.covered.Keys| == w.config.difficulty.bombCount then Victory
      else InGame
  {
    ghost var cells, orig, bombCount := w.cells, w.covered, w.config.difficulty.bombCount;
    DrainQueue(w, c, cells, orig, bombCount);
  }

  /** The worklist of `Reveal`, started with the click position alone and
      run until it is empty. */
  method DrainQueue(w: World, c: Coordinates, ghost cells: map<Coordinates, CellTag>,
                    ghost orig: map<Coordinates, Entity>, ghost bombCount: nat)
    requires w.cells == cells && w.covered == orig && w.config.difficulty.bombCount == bombCount
    requires orig.Keys <= cells.Keys && TagsSafe(cells) && |BombCells(cells)| == bombCount
    requires w.state == InGame && BombCells(cells) <= orig.Keys && bombCount < |orig.Keys|
    modifies w`covered, w`state
    ensures w.covered == orig - Reach(cells, orig.Keys, c)
    ensures w.state ==
      if c in orig && cells[c] == BombTag then GameOver
      else if |w.covered.Keys| == bombCount then Victory
      else InGame
    ensures w.state == InGame ==> BombCells(cells) <= w.covered.Keys && bombCount < |w.covered.Keys|
  {
    CascadeStart(cells, orig, c, w.state, bombCount);
    var queue := [c];
    while queue != []
      invariant CascadeInv(cells, orig, w.covered, c, queue, w.state, bombCount)
      decreases |w.covered.Keys|, |queue|
    {
      RemoveCount(w.covered, queue[0]);
      queue := HandleRequest(w, c, queue, cells, orig, bombCount);
    }
    CascadeEnd(cells, orig, w.covered, c, w.state, bombCount);
  }

  /** The head of the cascade's queue handled: `UncoverEventHandler`, then,
      if it removed a cover, `UncoverCell`, whose requests join the back of
      the queue. */
  method HandleRequest(w: World, c: Coordinates, queue: seq<Coordinates>, ghost cells: map<Coordinates, CellTag>,
                       ghost orig: map<Coordinates, Entity>, ghost bombCount: nat)
    returns (queue': seq<Coordinates>)
    requires w.cells == cells && w.config.difficulty.bombCount == bombCount
    requires orig.Keys <= cells.Keys && TagsSafe(cells) && |BombCells(cells)| == bombCount
    requires queue != [] && CascadeInv(cells, orig, w.covered, c, queue, w.state, bombCount)
    modifies w`covered, w`state
    ensures CascadeInv(cells, orig, w.covered, c, queue', w.state, bombCount)
    ensures w.covered == old(w.covered) - {queue[0]}
    ensures queue[0] !in old(w.covered) ==> |queue'| < |queue|
  {
    ghost var covered, state := w.covered, w.state;
    var q := queue[0];
    var cover := UncoverEventHandler(w, q);
    var requests := [];
    if cover.Some? {
      requests := UncoverCell(w, q);
    }
    queue' := queue[1..] + requests;
    CascadeStep(cells, orig, covered, w.covered, c, queue, requests, state, w.state, bombCount);
  }

  /** Removing a key shrinks a map; removing an absent one changes nothing. */
  lemma RemoveCount(m: map<Coordinates, Entity>, q: Coordinates)
    ensures q in m ==> |(m - {q}).Keys| < |m.Keys|
    ensures q !in m ==> m - {q} == m
  {
    assert (m - {q}).Keys == m.Keys - {q};
  }

  /** The invariant of the worklist in `Reveal`, over the tags `cells`, the
      covers `orig` before the click and `covered` now. */
  ghost predicate CascadeInv(cells: map<Coordinates, CellTag>, orig: map<Coordinates, Entity>,
                             covered: map<Coordinates, Entity>, c: Coordinates, queue: seq<Coordinates>,
                             state: AppState, bombCount: nat)
  {
    var start := orig.Keys;
    var reach := Reach(cells, start, c);
    var startOnBomb := c in start && c in cells && cells[c] == BombTag;
    var bombHit := startOnBomb && c !in covered;
    covered.Keys <= start && (forall p | p in covered :: covered[p] == orig[p])
    && start - covered.Keys <= reach
    && (forall q | q in queue && q in start :: q in reach)
    && Frontier(cells, start, covered.Keys, c, queue)
    && (startOnBomb ==> queue == if c in covered then [c] else [])
    && (!bombHit ==> BombCells(cells) <= covered.Keys)
    && state == StateAfter(bombHit, |covered.Keys|, bombCount)
  }

  /** What a valid world during play gives the cascade to start from. */
  lemma CascadeStart(cells: map<Coordinates, CellTag>, orig: map<Coordinates, Entity>, c: Coordinates,
                     state: AppState, bombCount: nat)
    requires orig.Keys <= cells.Keys && TagsSafe(cells) && |BombCells(cells)| == bombCount
    requires state == InGame && BombCells(cells) <= orig.Keys && bombCount < |orig.Keys|
    ensures CascadeInv(cells, orig, orig, c, [c], state, bombCount)
  {
  }

  /** One request of the worklist keeps its invariant. */
  lemma CascadeStep(cells: map<Coordinates, CellTag>, orig: map<Coordinates, Entity>,
                    covered: map<Coordinates, Entity>, covered': map<Coordinates, Entity>, c: Coordinates,
                    queue: seq<Coordinates>, requests: seq<Coordinates>,
                    state: AppState, state': AppState, bombCount: nat)
    requires orig.Keys <= cells.Keys && TagsSafe(cells) && |BombCells(cells)| == bombCount
    requires queue != [] && CascadeInv(cells, orig, covered, c, queue, state, bombCount)
    requires covered' == covered - {queue[0]}
    requires var q := queue[0];
      requests == (if q in covered && cells[q] == EmptyCell then GetNeighbors(q) else [])
      && var s := if |covered'.Keys| == bombCount then Victory else state;
         state' == if q in covered && cells[q] == BombTag then GameOver else s
    ensures CascadeInv(cells, orig, covered', c, queue[1..] + requests, state', bombCount)
  {
    var q := queue[0];
    var start := orig.Keys;
    assert covered'.Keys == covered.Keys - {q};
    StepReach(cells, start, covered.Keys, covered'.Keys, c, queue, requests);
    StepPhase(cells, start, covered.Keys, covered'.Keys, c, queue, requests, state, state', bombCount);
    FrontierStep(cells, start, covered.Keys, covered'.Keys, c, queue, requests);
  }

  /** The removed covers and the queued positions stay within `Reach`. */
  lemma StepReach(cells: map<Coordinates, CellTag>, start: set<Coordinates>, covered: set<Coordinates>,
                  covered': set<Coordinates>, c: Coordinates, queue: seq<Coordinates>, requests: seq<Coordinates>)
    requires start <= cells.Keys && covered <= start && queue != []
    requires start - covered <= Reach(cells, start, c)
    requires forall q | q in queue && q in start :: q in Reach(cells, start, c)
    requires covered' == covered - {queue[0]}
    requires requests == (if queue[0] in covered && cells[queue[0]] == EmptyCell then GetNeighbors(queue[0]) else [])
    ensures start - covered' <= Reach(cells, start, c)
    ensures forall q | q in queue[1..] + requests && q in start :: q in Reach(cells, start, c)
  {
    var q := queue[0];
    if q in covered {
      assert q in Reach(cells, start, c);
      forall n | n in requests && n in start ensures n in Reach(cells, start, c) {
        ReachStep(cells, start, c, q, n);
      }
    }
  }

  /** The clicked bomb stays alone in the queue, the other bombs stay
      covered, and the phase follows `StateAfter`. */
  lemma StepPhase(cells: map<Coordinates, CellTag>, start: set<Coordinates>, covered: set<Coordinates>,
                  covered': set<Coordinates>, c: Coordinates, queue: seq<Coordinates>, requests: seq<Coordinates>,
                  state: AppState, state': AppState, bombCount: nat)
    requires start <= cells.Keys && TagsSafe(cells) && covered <= start && queue != []
    requires start - covered <= Reach(cells, start, c)
    requires forall q | q in queue && q in start :: q in Reach(cells, start, c)
    requires var startOnBomb := c in start && cells[c] == BombTag;
      var bombHit := startOnBomb && c !in covered;
      (startOnBomb ==> queue == if c in covered then [c] else [])
      && (!bombHit ==> BombCells(cells) <= covered)
      && state == StateAfter(bombHit, |covered|, bombCount)
    requires covered' == covered - {queue[0]}
    requires var q := queue[0];
      requests == (if q in covered && cells[q] == EmptyCell then GetNeighbors(q) else [])
      && var s := if |covered'| == bombCount then Victory else state;
         state' == if q in covered && cells[q] == BombTag then GameOver else s
    ensures var startOnBomb := c in start && cells[c] == BombTag;
      var bombHit := startOnBomb && c !in covered';
      (startOnBomb ==> queue[1..] + requests == if c in covered' then [c] else [])
      && (!bombHit ==> BombCells(cells) <= covered')
      && state' == StateAfter(bombHit, |covered'|, bombCount)
  {
    var q := queue[0];
    var startOnBomb := c in start && cells[c] == BombTag;
    if startOnBomb {
      ReachOfNonEmpty(cells, start, c);
    }
    if q in covered && !startOnBomb {
      ReachHasNoBomb(cells, start, c, q);
    }
  }

  /** With the queue empty, the covers removed are exactly `Reach`, and the
      world is valid again. */
  lemma CascadeEnd(cells: map<Coordinates, CellTag>, orig: map<Coordinates, Entity>,
                   covered: map<Coordinates, Entity>, c: Coordinates, state: AppState, bombCount: nat)
    requires orig.Keys <= cells.Keys && |BombCells(cells)| == bombCount
    requires CascadeInv(cells, orig, covered, c, [], state, bombCount)
    ensures covered == orig - Reach(cells, orig.Keys, c)
    ensures state ==
      if c in orig && cells[c] == BombTag then GameOver
      else if |covered.Keys| == bombCount then Victory
      else InGame
    ensures state == InGame ==> BombCells(cells) <= covered.Keys && bombCount < |covered.Keys|
  {
    EndCovers(cells, orig, covered, c);
    EndPhase(cells, orig.Keys, covered.Keys, c, state, bombCount);
  }

  /** With nothing left to do, every position of `Reach` has lost its cover. */
  lemma EndCovers(cells: map<Coordinates, CellTag>, orig: map<Coordinates, Entity>,
                  covered: map<Coordinates, Entity>, c: Coordinates)
    requires covered.Keys <= orig.Keys && forall p | p in covered :: covered[p] == orig[p]
    requires orig.Keys - covered.Keys <= Reach(cells, orig.Keys, c)
    requires Frontier(cells, orig.Keys, covered.Keys, c, [])
    ensures covered == orig - Reach(cells, orig.Keys, c)
  {
    var start := orig.Keys;
    var removed := start - covered.Keys;
    forall p, n | p in removed && p in cells && cells[p] == EmptyCell && n in GetNeighbors(p) && n in start
      ensures n in removed
    {
      var i :| 0 <= i < 8 && GetNeighbors(p)[i] == n;
      assert GetNeighbors(p)[i] !in covered.Keys;
    }
    ReachLeast(cells, start, c, removed);
  }

  /** With nothing left to do, the phase is decided by the click and the
      number of covers left. */
  lemma EndPhase(cells: map<Coordinates, CellTag>, start: set<Coordinates>, covered: set<Coordinates>,
                 c: Coordinates, state: AppState, bombCount: nat)
    requires start <= cells.Keys && |BombCells(cells)| == bombCount
    requires var startOnBomb := c in start && cells[c] == BombTag;
      var bombHit := startOnBomb && c !in covered;
      (startOnBomb ==> c !in covered)
      && (!bombHit ==> BombCells(cells) <= covered)
      && state == StateAfter(bombHit, |covered|, bombCount)
    ensures state ==
      if c in start && cells[c] == BombTag then GameOver
      else if |covered| == bombCount then Victory
      else InGame
    ensures state == InGame ==> BombCells(cells) <= covered && bombCount < |covered|
  {
    if !(c in start && cells[c] == BombTag) {
      WinCondition(cells, covered, bombCount);
    }
  }

  /** The bookkeeping that makes the worklist complete: the click position
      is uncovered or still queued, and every covered neighbour position of
      an uncovered empty cell is still queued. */
  ghost predicate Frontier(cells: map<Coordinates, CellTag>, start: set<Coordinates>, covered: set<Coordinates>,
                           c: Coordinates, queue: seq<Coordinates>)
  {
    (c in covered ==> c in queue)
    && forall r, i | r in start - covered && r in cells && cells[r] == EmptyCell && 0 <= i < 8 ::
         GetNeighbors(r)[i] !in covered || GetNeighbors(r)[i] in queue
  }

  /** Handling the head of the queue keeps the bookkeeping. */
  lemma FrontierStep(cells: map<Coordinates, CellTag>, start: set<Coordinates>, covered: set<Coordinates>,
                     covered': set<Coordinates>, c: Coordinates, queue: seq<Coordinates>, requests: seq<Coordinates>)
    requires queue != [] && Frontier(cells, start, covered, c, queue)
    requires covered' == covered - {queue[0]}
    requires requests == if queue[0] in covered && queue[0] in cells && cells[queue[0]] == EmptyCell
                         then GetNeighbors(queue[0]) else []
    ensures Frontier(cells, start, covered', c, queue[1..] + requests)
  {
    var q := queue[0];
    var rest := queue[1..] + requests;
    forall r, i | r in start - covered' && r in cells && cells[r] == EmptyCell && 0 <= i < 8 && GetNeighbors(r)[i] in covered'
      ensures GetNeighbors(r)[i] in rest
    {
      var n := GetNeighbors(r)[i];
      if r == q && q in covered {
        assert n == requests[i];
      } else {
        assert n in queue && n != q;
        assert n in queue[1..];
      }
    }
  }

  /** The phase during a cascade: lost once the clicked bomb is uncovered,
      won once no more than `bomb_count` covers are left, playing
      otherwise. */
  function StateAfter(bombHit: bool, coversLeft: nat, bombCount: nat): AppState {
    if bombHit then GameOver else if coversLeft <= bombCount then Victory else InGame
  }

  // ---------------------------------------------------------------------
  // The source's frame order

  /** The phase after an uncover request on `c` during play, in the order
      the source's frames impose. `uncover_event_handler` makes the victory
      test at once and marks the cover through `Commands`; `uncover_cell`
      sees the mark only in a later frame, when the phase that test set is
      in force, and runs only in `InGame`. So the explosion only follows if
      the test left the game running. */
  function RequestPhaseAsWritten(cells: map<Coordinates, CellTag>, covered: set<Coordinates>, c: Coordinates,
                                 bombCount: nat): AppState
  {
    var tested := if |covered - {c}| == bombCount then Victory else InGame;
    if tested == InGame && c in covered && c in cells && cells[c] == BombTag then GameOver else tested
  }

  /** As written, a click on a covered bomb wins when it leaves exactly
      `bomb_count` covers, that is when one safe cell was left. */
  lemma MineClickAsWritten(cells: map<Coordinates, CellTag>, covered: set<Coordinates>, c: Coordinates, bombCount: nat)
    requires c in covered && c in cells && cells[c] == BombTag
    ensures RequestPhaseAsWritten(cells, covered, c, bombCount)
         == if |covered| == bombCount + 1 then Victory else GameOver
  {
    assert covered == (covered - {c}) + {c};
  }

  /** A concrete game: a 2×1 grid with a bomb at (0, 0), a 1 at (1, 0), both
      covered and `bomb_count` 1, which is a valid game in progress. The
      first click, on the bomb, wins as written. */
  lemma MineClickWinsAsWritten()
    ensures var bomb, safe := Coordinates(0, 0), Coordinates(1, 0);
      var cells := map[bomb := BombTag, safe := BombNeighbors(1)];
      TagsSafe(cells) && BombCells(cells) == {bomb} && 1 < |cells.Keys|
      && RequestPhaseAsWritten(cells, cells.Keys, bomb, 1) == Victory
  {
    var bomb, safe := Coordinates(0, 0), Coordinates(1, 0);
    var cells := map[bomb := BombTag, safe := BombNeighbors(1)];
    assert cells.Keys == {bomb, safe};
    assert BombCells(cells) == {bomb};
    MineClickAsWritten(cells, cells.Keys, bomb, 1);
  }

  // ---------------------------------------------------------------------
  // Flags

  /** What one run of `flag_event_handler` does to the set of flagged cells.
      Each event reads the cell's `Flag` component through the query, and
      the flag is spawned or removed through `Commands`, which take effect
      only after the run. So every event of a run is decided against the
      flags the run started with: a cell named by at least one event
      changes its flag once, however often it is named. Positions without a
      cell entity are ignored. Whether the cell is still covered is not
      looked at. */
  function FlagBatch(flags: set<Coordinates>, cells: set<Coordinates>, events: seq<Coordinates>): set<Coordinates> {
    var named := set p | p in events && p in cells;
    (flags - named) + (named - flags)
  }

  /** `flag_event_handler`: the flag commands of all events are collected
      against the flags at the start, then applied. */
  method FlagEventHandler(w: World, events: seq<Coordinates>)
    modifies w`flags
    ensures w.flags == FlagBatch(old(w.flags), w.cells.Keys, events)
  {
    var start, cells := w.flags, w.cells.Keys;
    var next := start;
    for k := 0 to |events|
      invariant next == FlagBatch(start, cells, events[..k])
    {
      var c := events[k];
      assert events[..k + 1] == events[..k] + [c];
      if c in cells {
        if c in start {
          next := next - {c};
        } else {
          next := next + {c};
        }
      }
    }
    assert events[..|events|] == events;
    w.flags := next;
  }

  /** A cell is flagged after a run exactly when it was flagged before and
      no event named it, or was not and some event did; only cells are ever
      flagged. */
  lemma FlagBatchMembership(flags: set<Coordinates>, cells: set<Coordinates>, events: seq<Coordinates>, p: Coordinates)
    requires flags <= cells
    ensures FlagBatch(flags, cells, events) <= cells
    ensures p in FlagBatch(flags, cells, events) <==> (p in flags) != (p in cells && p in events)
  {
  }

  /** Neither the order of the events of a run nor their repetition
      matters, only which cells they name. */
  lemma FlagBatchNamesOnly(flags: set<Coordinates>, cells: set<Coordinates>, a: seq<Coordinates>, b: seq<Coordinates>)
    requires forall p :: p in a <==> p in b
    ensures FlagBatch(flags, cells, a) == FlagBatch(flags, cells, b)
  {
    assert (set p | p in a && p in cells) == (set p | p in b && p in cells);
  }

  /** What a run with the single event `c` does: the cell entity at `c`, if
      there is one, gains a flag if it had none and loses it otherwise. */
  function ToggleFlag(flags: set<Coordinates>, cells: set<Coordinates>, c: Coordinates): set<Coordinates> {
    if c !in cells then flags
    else if c in flags then flags - {c}
    else flags + {c}
  }

  lemma FlagBatchSingle(flags: set<Coordinates>, cells: set<Coordinates>, c: Coordinates)
    ensures FlagBatch(flags, cells, [c]) == ToggleFlag(flags, cells, c)
  {
    assert (set p | p in [c] && p in cells) == if c in cells then {c} else {};
  }

  /** Flagging the same cell in two successive runs restores the flags. */
  lemma ToggleTwice(flags: set<Coordinates>, cells: set<Coordinates>, c: Coordinates)
    ensures ToggleFlag(ToggleFlag(flags, cells, c), cells, c) == flags
  {
  }

  /** Two events for the same unflagged cell in one run leave it flagged,
      where two successive runs of one event each leave it unflagged. */
  lemma DoubleEventInOneRun(flags: set<Coordinates>, cells: set<Coordinates>, c: Coordinates)
    requires c in cells && c !in flags
    ensures c in FlagBatch(flags, cells, [c, c])
    ensures ToggleFlag(ToggleFlag(flags, cells, c), cells, c) == flags
  {
  }

  /** The flags after successive runs of the handler with one event each, as
      the clicks of successive frames give them. */
  function ToggleAll(flags: set<Coordinates>, cells: set<Coordinates>, events: seq<Coordinates>): set<Coordinates>
    decreases |events|
  {
    if events == [] then flags
    else ToggleAll(ToggleFlag(flags, cells, events[0]), cells, events[1..])
  }

  /** How many times `c` occurs in `events`. */
  function Occurrences(events: seq<Coordinates>, c: Coordinates): nat {
    if events == [] then 0
    else (if events[0] == c then 1 else 0) + Occurrences(events[1..], c)
  }

  /** Over successive single-event runs a cell is flagged exactly when it
      was before and was toggled an even number of times, or was not and
      was toggled an odd number of times; positions without a cell are
      never flagged. */
  lemma {:induction false} ToggleAllParity(flags: set<Coordinates>, cells: set<Coordinates>, events: seq<Coordinates>, p: Coordinates)
    requires flags <= cells
    decreases |events|
    ensures ToggleAll(flags, cells, events) <= cells
    ensures p in ToggleAll(flags, cells, events) <==>
      if p in cells && Occurrences(events, p) % 2 == 1 then p !in flags else p in flags
  {
    if events != [] {
      var next := ToggleFlag(flags, cells, events[0]);
      ToggleAllParity(next, cells, events[1..], p);
    }
  }

  // ---------------------------------------------------------------------
  // Difficulty

  /** The difficulty after applying `events` one after the other. */
  function ApplyDifficulties(current: DifficultySettings, events: seq<DifficultySettings>): DifficultySettings
    decreases |events|
  {
    if events == [] then current else ApplyDifficulties(events[0], events[1..])
  }

  /** The last event wins. */
  lemma {:induction false} LastDifficultyWins(current: DifficultySettings, events: seq<DifficultySettings>)
    decreases |events|
    ensures ApplyDifficulties(current, events) == if events == [] then current else events[|events| - 1]
  {
    if events != [] {
      LastDifficultyWins(events[0], events[1..]);
    }
  }

  /** `update_difficulty`: stores each event's settings in turn, then sends
      one `RestartEvent` (returned as the number of restarts sent). */
  method UpdateDifficulty(w: World, events: seq<DifficultySettings>) returns (restarts: nat)
    modifies w`config
    ensures w.config == old(w.config).(difficulty := ApplyDifficulties(old(w.config).difficulty, events))
    ensures restarts == 1
  {
    for k := 0 to |events|
      invariant w.config == old(w.config).(difficulty := ApplyDifficulties(old(w.config).difficulty, events[..k]))
    {
      LastDifficultyWins(old(w.config).difficulty, events[..k + 1]);
      LastDifficultyWins(old(w.config).difficulty, events[..k]);
      w.config := w.config.(difficulty := events[k]);
    }
    assert events[..|events|] == events;
    restarts := 1;
  }
}

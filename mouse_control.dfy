/** The pure part of actuation: turning a change map into the screen
    positions to right-click (new flags) and to left-click (new safe tiles),
    the centre of the board for the opening click, and the round loop that
    reads a snapshot, runs the solver and clicks. Mouse clicks are recorded
    in an action log instead of being sent. */
module MouseControl {
  import opened Wrappers
  import opened Tiles
  import opened GridData
  import opened DeterministicSolver

  /** A click sent to the mouse. */
  datatype Action = LeftClick(at: Point) | RightClick(at: Point)

  /** Every cell the collection loop visits can be read: each row of the
      change map is at least as long as the first. */
  predicate Scannable(changes: Board) {
    forall r :: 0 <= r < |changes| ==> |changes[r]| >= Cols(changes)
  }

  /** The tiles the collector picks up: 'F' and 'S'. */
  predicate Marked(t: Tile) {
    t == Flag || t == Safe
  }

  /** `coords[p.0][p.1]` exists. */
  predicate HasEntry<P>(coords: seq<seq<P>>, p: Coord) {
    0 <= p.0 < |coords| && 0 <= p.1 < |coords[p.0]|
  }

  /** The loop reads `changes[r][c]` for every cell in row-major order, and
      `coords[r][c]` for every 'F' or 'S' among them; all of these exist. */
  predicate Readable<P>(changes: Board, coords: seq<seq<P>>) {
    Scannable(changes) &&
    forall r, c :: 0 <= r < |changes| && 0 <= c < Cols(changes) && Marked(changes[r][c]) ==>
      HasEntry(coords, (r, c))
  }

  /** The change map's entry at `p`; 'x' where there is none. */
  function Entry(changes: Board, p: Coord): Tile {
    if HasEntry(changes, p) then changes[p.0][p.1] else OffBoard
  }

  /** The cells of `cells` that hold `v`, in the order of `cells`. */
  function Holding(changes: Board, v: Tile, cells: seq<Coord>): seq<Coord> {
    if cells == [] then []
    else
      var p := cells[|cells| - 1];
      Holding(changes, v, cells[..|cells| - 1]) + (if Entry(changes, p) == v then [p] else [])
  }

  /** The coordinate-grid entries of the cells of `cells` that hold `v`, in
      the order of `cells` (cells without an entry are skipped; on a readable
      map there are none). */
  function Gather<P>(changes: Board, coords: seq<seq<P>>, v: Tile, cells: seq<Coord>): seq<P> {
    if cells == [] then []
    else
      var p := cells[|cells| - 1];
      Gather(changes, coords, v, cells[..|cells| - 1]) +
        (if Entry(changes, p) == v && HasEntry(coords, p) then [coords[p.0][p.1]] else [])
  }

  lemma GatherSnoc<P>(changes: Board, coords: seq<seq<P>>, v: Tile, cells: seq<Coord>, p: Coord)
    ensures Gather(changes, coords, v, cells + [p]) ==
      Gather(changes, coords, v, cells) + (if Entry(changes, p) == v && HasEntry(coords, p) then [coords[p.0][p.1]] else [])
  {
    assert (cells + [p])[..|cells|] == cells;
  }

  lemma {:induction false} HoldingMembers(changes: Board, v: Tile, cells: seq<Coord>)
    ensures forall p :: p in Holding(changes, v, cells) <==> p in cells && Entry(changes, p) == v
  {
    if cells != [] {
      var init := cells[..|cells| - 1];
      assert cells == init + [cells[|cells| - 1]];
      HoldingMembers(changes, v, init);
    }
  }

  /** The kept cells are a subsequence, so row-major order survives. */
  lemma {:induction false} HoldingOrdered(changes: Board, v: Tile, cells: seq<Coord>)
    requires Ordered(cells)
    ensures Ordered(Holding(changes, v, cells))
  {
    if cells != [] {
      var init, last := cells[..|cells| - 1], cells[|cells| - 1];
      assert cells == init + [last];
      HoldingOrdered(changes, v, init);
      HoldingMembers(changes, v, init);
      var h := Holding(changes, v, init);
      forall k | 0 <= k < |h| ensures Before(h[k], last.0, last.1) {
        assert h[k] in init;
        var i :| 0 <= i < |init| && init[i] == h[k];
        assert cells[i] == h[k] && cells[|cells| - 1] == last;
      }
    }
  }

  /** With an entry for every cell holding `v`, the gathered entries are
      those of the held cells, one for one. */
  lemma {:induction false} GatherHolding<P>(changes: Board, coords: seq<seq<P>>, v: Tile, cells: seq<Coord>)
    requires forall p :: p in cells && Entry(changes, p) == v ==> HasEntry(coords, p)
    ensures |Gather(changes, coords, v, cells)| == |Holding(changes, v, cells)|
    ensures forall k :: 0 <= k < |Holding(changes, v, cells)| ==>
      HasEntry(coords, Holding(changes, v, cells)[k]) &&
      Gather(changes, coords, v, cells)[k] == coords[Holding(changes, v, cells)[k].0][Holding(changes, v, cells)[k].1]
  {
    if cells != [] {
      var init := cells[..|cells| - 1];
      assert cells == init + [cells[|cells| - 1]];
      GatherHolding(changes, coords, v, init);
    }
  }

  /** The board's cells in row-major order, as the nested `for r` / `for c` loops visit them. */
  function VisitOrder(changes: Board): seq<Coord> {
    RowMajor(|changes|, Cols(changes))
  }

  /** The 'F' (or 'S') cells of the change map, as coordinate-grid entries in row-major order. */
  function Collected<P>(changes: Board, coords: seq<seq<P>>, v: Tile): seq<P> {
    Gather(changes, coords, v, VisitOrder(changes))
  }

  /** On a readable map every visited cell holding 'F' or 'S' has an entry. */
  lemma ReadableEntries<P>(changes: Board, coords: seq<seq<P>>, v: Tile)
    requires Readable(changes, coords) && Marked(v)
    ensures forall p :: p in VisitOrder(changes) && Entry(changes, p) == v ==> HasEntry(coords, p)
  {
    CellsBeforeMembers(Cols(changes), |changes|, 0);
  }

  /** The cells behind the collected entries: those of the change map holding
      `v`, each once, in row-major order. */
  lemma CollectedCells<P>(changes: Board, coords: seq<seq<P>>, v: Tile) returns (hs: seq<Coord>)
    requires Readable(changes, coords) && Marked(v)
    ensures forall p :: p in hs <==> 0 <= p.0 < |changes| && 0 <= p.1 < Cols(changes) && changes[p.0][p.1] == v
    ensures Ordered(hs) && Distinct(hs)
    ensures |Collected(changes, coords, v)| == |hs|
    ensures forall k :: 0 <= k < |hs| ==>
      HasEntry(coords, hs[k]) && Collected(changes, coords, v)[k] == coords[hs[k].0][hs[k].1]
  {
    var cells := VisitOrder(changes);
    CellsBeforeMembers(Cols(changes), |changes|, 0);
    hs := Holding(changes, v, cells);
    HoldingMembers(changes, v, cells);
    CellsBeforeOrdered(Cols(changes), |changes|, 0);
    HoldingOrdered(changes, v, cells);
    forall i, j | 0 <= i < j < |hs| ensures hs[i] != hs[j] {
      assert Before(hs[i], hs[j].0, hs[j].1);
    }
    ReadableEntries(changes, coords, v);
    GatherHolding(changes, coords, v, cells);
  }

  /** No cell is both a new flag and a new safe tile. */
  lemma FlagsAndSafesDisjoint(changes: Board)
    ensures forall p :: p in Holding(changes, Flag, VisitOrder(changes)) ==> p !in Holding(changes, Safe, VisitOrder(changes))
  {
    HoldingMembers(changes, Flag, VisitOrder(changes));
    HoldingMembers(changes, Safe, VisitOrder(changes));
  }

  /** The tiles at `cells`, in order. */
  function TilesAt(changes: Board, cells: seq<Coord>): seq<Tile> {
    if cells == [] then [] else TilesAt(changes, cells[..|cells| - 1]) + [Entry(changes, cells[|cells| - 1])]
  }

  lemma {:induction false} HoldingCount(changes: Board, v: Tile, cells: seq<Coord>)
    ensures |Holding(changes, v, cells)| == Count(TilesAt(changes, cells), v)
  {
    if cells != [] {
      var init := cells[..|cells| - 1];
      HoldingCount(changes, v, init);
      CountAppend(TilesAt(changes, init), [Entry(changes, cells[|cells| - 1])], v);
    }
  }

  lemma {:induction false} FlattenSnoc<T>(g: seq<seq<T>>, row: seq<T>)
    ensures Flatten(g + [row]) == Flatten(g) + row
  {
    if g != [] {
      assert (g + [row])[1..] == g[1..] + [row];
      FlattenSnoc(g[1..], row);
    }
  }

  /** Visiting the cells in row-major order reads the rows one after another. */
  lemma {:induction false} TilesInRowMajor(changes: Board, r: nat, c: nat)
    requires Rect(changes) && c <= Cols(changes) && r <= |changes| && (r == |changes| ==> c == 0)
    ensures TilesAt(changes, CellsBefore(Cols(changes), r, c)) ==
      Flatten(changes[..r]) + (if r < |changes| then changes[r][..c] else [])
    decreases r, c
  {
    if c > 0 {
      TilesInRowMajor(changes, r, c - 1);
      TilesAlongRow(changes, r, c);
    } else if r > 0 {
      TilesInRowMajor(changes, r - 1, Cols(changes));
      TilesAcrossRows(changes, r);
    } else {
      assert changes[..0] == [];
      if 0 < |changes| {
        assert changes[0][..0] == [];
      }
    }
  }

  /** One step along row r. */
  lemma TilesAlongRow(changes: Board, r: nat, c: nat)
    requires Rect(changes) && 0 < c <= Cols(changes) && r < |changes|
    requires TilesAt(changes, CellsBefore(Cols(changes), r, c - 1)) == Flatten(changes[..r]) + changes[r][..c - 1]
    ensures TilesAt(changes, CellsBefore(Cols(changes), r, c)) == Flatten(changes[..r]) + changes[r][..c]
  {
    var cells := CellsBefore(Cols(changes), r, c);
    assert cells == CellsBefore(Cols(changes), r, c - 1) + [(r, c - 1)];
    assert cells[..|cells| - 1] == CellsBefore(Cols(changes), r, c - 1);
    assert Entry(changes, (r, c - 1)) == changes[r][c - 1];
    assert changes[r][..c] == changes[r][..c - 1] + [changes[r][c - 1]];
  }

  /** From the end of row r - 1 to the start of row r. */
  lemma TilesAcrossRows(changes: Board, r: nat)
    requires Rect(changes) && 0 < r <= |changes|
    requires TilesAt(changes, CellsBefore(Cols(changes), r - 1, Cols(changes))) ==
      Flatten(changes[..r - 1]) + changes[r - 1][..Cols(changes)]
    ensures TilesAt(changes, CellsBefore(Cols(changes), r, 0)) ==
      Flatten(changes[..r]) + (if r < |changes| then changes[r][..0] else [])
  {
    assert CellsBefore(Cols(changes), r, 0) == CellsBefore(Cols(changes), r - 1, Cols(changes));
    assert changes[r - 1][..Cols(changes)] == changes[r - 1];
    assert changes[..r] == changes[..r - 1] + [changes[r - 1]];
    FlattenSnoc(changes[..r - 1], changes[r - 1]);
    if r < |changes| {
      assert changes[r][..0] == [];
    }
  }

  /** The tiles met in row-major order hold `v` as often as the board does. */
  lemma VisitCount(changes: Board, v: Tile)
    requires Rect(changes)
    ensures Count(TilesAt(changes, VisitOrder(changes)), v) == OccurrenceCounter(changes, v)
  {
    TilesInRowMajor(changes, |changes|, 0);
    assert changes[..|changes|] == changes;
    assert TilesAt(changes, VisitOrder(changes)) == Flatten(changes);
    CountIsMultiplicity(Flatten(changes), v);
    OccurrenceCounterCounts(changes, v);
  }

  /** As many flags (or safe tiles) are collected as the change map holds. */
  lemma CollectedCount<P>(changes: Board, coords: seq<seq<P>>, v: Tile)
    requires Rect(changes) && Readable(changes, coords) && Marked(v)
    ensures |Collected(changes, coords, v)| == OccurrenceCounter(changes, v)
  {
    ReadableEntries(changes, coords, v);
    GatherHolding(changes, coords, v, VisitOrder(changes));
    HoldingCount(changes, v, VisitOrder(changes));
    VisitCount(changes, v);
  }

  /** `get_flag_and_safe_from_changes`: one row-major pass, appending the
      coordinate-grid entry of each 'F' to the flags and of each 'S' to the
      safe tiles; a missing entry raises `IndexError`. */
  method GetFlagAndSafeFromChanges<P>(changes: Board, coordGrid: seq<seq<P>>)
    returns (res: Result<(seq<P>, seq<P>)>)
    ensures Readable(changes, coordGrid) ==>
      res == Ok((Collected(changes, coordGrid, Flag), Collected(changes, coordGrid, Safe)))
    ensures !Readable(changes, coordGrid) ==> res == Err(IndexError)
  {
    var flagPositions: seq<P> := [];
    var safePositions: seq<P> := [];
    var rows := |changes|;
    var cols := if rows > 0 then |changes[0]| else 0;
    var r := 0;
    while r < rows
      invariant 0 <= r <= rows
      invariant forall a :: 0 <= a < r ==> RowReadable(changes, coordGrid, a, cols)
      invariant flagPositions == Gather(changes, coordGrid, Flag, CellsBefore(cols, r, 0))
      invariant safePositions == Gather(changes, coordGrid, Safe, CellsBefore(cols, r, 0))
    {
      var row := CollectRow(changes, coordGrid, r, cols, flagPositions, safePositions);
      if row.Err? {
        assert !RowReadable(changes, coordGrid, r, cols);
        assert !Readable(changes, coordGrid) by {
          if |changes[r]| >= cols {
            var b :| 0 <= b < cols && Marked(changes[r][b]) && !HasEntry(coordGrid, (r, b));
          }
        }
        return Err(IndexError);
      }
      flagPositions, safePositions := row.value.0, row.value.1;
      r := r + 1;
    }
    assert Readable(changes, coordGrid) by {
      forall a | 0 <= a < |changes| ensures |changes[a]| >= Cols(changes) {
        assert RowReadable(changes, coordGrid, a, cols);
      }
      forall a, b | 0 <= a < |changes| && 0 <= b < Cols(changes) && Marked(changes[a][b])
        ensures HasEntry(coordGrid, (a, b))
      {
        assert RowReadable(changes, coordGrid, a, cols);
      }
    }
    res := Ok((flagPositions, safePositions));
  }

  /** Row r can be read up to column `c`, and so can the entries of its 'F' and 'S' cells. */
  predicate RowReadable<P>(changes: Board, coords: seq<seq<P>>, r: nat, c: nat)
    requires r < |changes|
  {
    |changes[r]| >= c && forall b :: 0 <= b < c && Marked(changes[r][b]) ==> HasEntry(coords, (r, b))
  }

  lemma RowReadableStep<P>(changes: Board, coords: seq<seq<P>>, r: nat, c: nat)
    requires r < |changes| && c < |changes[r]|
    ensures RowReadable(changes, coords, r, c + 1) <==>
      RowReadable(changes, coords, r, c) && (Marked(changes[r][c]) ==> HasEntry(coords, (r, c)))
  {
  }

  /** The inner `for c` loop over row r. */
  method CollectRow<P>(changes: Board, coordGrid: seq<seq<P>>, r: nat, cols: nat, flags: seq<P>, safes: seq<P>)
    returns (res: Result<(seq<P>, seq<P>)>)
    requires r < |changes|
    requires flags == Gather(changes, coordGrid, Flag, CellsBefore(cols, r, 0))
    requires safes == Gather(changes, coordGrid, Safe, CellsBefore(cols, r, 0))
    ensures res.Ok? <==> RowReadable(changes, coordGrid, r, cols)
    ensures res.Ok? ==> res.value == (Gather(changes, coordGrid, Flag, CellsBefore(cols, r + 1, 0)),
                                      Gather(changes, coordGrid, Safe, CellsBefore(cols, r + 1, 0)))
    ensures res.Err? ==> res.error == IndexError
  {
    var flagPositions, safePositions := flags, safes;
    var c := 0;
    while c < cols
      invariant 0 <= c <= cols
      invariant RowReadable(changes, coordGrid, r, c)
      invariant flagPositions == Gather(changes, coordGrid, Flag, CellsBefore(cols, r, c))
      invariant safePositions == Gather(changes, coordGrid, Safe, CellsBefore(cols, r, c))
    {
      if c >= |changes[r]| {
        return Err(IndexError);
      }
      RowReadableStep(changes, coordGrid, r, c);
      var cell := changes[r][c];
      ghost var before := CellsBefore(cols, r, c);
      assert CellsBefore(cols, r, c + 1) == before + [(r, c)];
      GatherSnoc(changes, coordGrid, Flag, before, (r, c));
      GatherSnoc(changes, coordGrid, Safe, before, (r, c));
      assert Entry(changes, (r, c)) == cell;
      if cell == Flag {
        if r >= |coordGrid| || c >= |coordGrid[r]| {
          assert !HasEntry(coordGrid, (r, c));
          return Err(IndexError);
        }
        flagPositions := flagPositions + [coordGrid[r][c]];
      } else if cell == Safe {
        if r >= |coordGrid| || c >= |coordGrid[r]| {
          assert !HasEntry(coordGrid, (r, c));
          return Err(IndexError);
        }
        safePositions := safePositions + [coordGrid[r][c]];
      }
      c := c + 1;
    }
    res := Ok((flagPositions, safePositions));
  }

  /** A map with no rows yields two empty lists. */
  lemma NoRowsNoPositions<P>(changes: Board, coords: seq<seq<P>>)
    requires |changes| == 0
    ensures Readable(changes, coords)
    ensures Collected(changes, coords, Flag) == [] && Collected(changes, coords, Safe) == []
  {
  }

  /** `tx + (n // 2) * tile + tile // 2`: the middle of the centre tile along one axis. */
  function Centre(t: int, n: int, tile: int): int {
    t + (n / 2) * tile + tile / 2
  }

  /** The centre lies inside the board, in the tile `n // 2`. */
  lemma CentreOnBoard(t: int, n: int, tile: int)
    requires n >= 1 && tile >= 1
    ensures t + (n / 2) * tile <= Centre(t, n, tile) < t + (n / 2) * tile + tile
    ensures t <= Centre(t, n, tile) < t + n * tile
  {
    var h := n / 2;
    var d := n - (h + 1);
    assert 0 <= h && d >= 0;
    assert 0 <= d * tile && 0 <= h * tile;
    assert n * tile == h * tile + tile + d * tile;
    assert 0 <= tile / 2 < tile;
  }

  /** The point `first_click` clicks: the centre of the configured board. */
  function FirstClickPoint(cfg: BoardConfig): Point {
    (Centre(cfg.tx, cfg.cols, cfg.tile), Centre(cfg.ty, cfg.rows, cfg.tile))
  }

  function LeftClicks(ps: seq<Point>): (acts: seq<Action>)
    ensures |acts| == |ps| && forall k :: 0 <= k < |ps| ==> acts[k] == LeftClick(ps[k])
  {
    seq(|ps|, k requires 0 <= k < |ps| => LeftClick(ps[k]))
  }

  function RightClicks(ps: seq<Point>): (acts: seq<Action>)
    ensures |acts| == |ps| && forall k :: 0 <= k < |ps| ==> acts[k] == RightClick(ps[k])
  {
    seq(|ps|, k requires 0 <= k < |ps| => RightClick(ps[k]))
  }

  /** `left_clicker`: one left click at each position, in order. */
  method LeftClicker(log: seq<Action>, coords: seq<Point>) returns (log': seq<Action>)
    ensures log' == log + LeftClicks(coords)
  {
    log' := log;
    var k := 0;
    while k < |coords|
      invariant 0 <= k <= |coords| && log' == log + LeftClicks(coords[..k])
    {
      assert LeftClicks(coords[..k + 1]) == LeftClicks(coords[..k]) + [LeftClick(coords[k])];
      log' := log' + [LeftClick(coords[k])];
      k := k + 1;
    }
    assert coords[..k] == coords;
  }

  /** `right_clicker`: one right click at each position, in order. */
  method RightClicker(log: seq<Action>, coords: seq<Point>) returns (log': seq<Action>)
    ensures log' == log + RightClicks(coords)
  {
    log' := log;
    var k := 0;
    while k < |coords|
      invariant 0 <= k <= |coords| && log' == log + RightClicks(coords[..k])
    {
      assert RightClicks(coords[..k + 1]) == RightClicks(coords[..k]) + [RightClick(coords[k])];
      log' := log' + [RightClick(coords[k])];
      k := k + 1;
    }
    assert coords[..k] == coords;
  }

  // ---------------------------------------------------------------------
  // The round loop

  /** One snapshot: the tile grid and the grid of click targets. */
  type Snapshot = (Board, seq<seq<Point>>)

  /** Why the loop ended, if it has. */
  datatype Outcome = Running | NoMoreMoves | Raised(error: Error)

  /** The loop's state: the round counter `i`, the clicks so far, and whether it is still going. */
  datatype Loop = Loop(i: int, log: seq<Action>, outcome: Outcome)

  /** The snapshot boards the screen reader hands over. */
  predicate Boards(snaps: seq<Snapshot>) {
    forall k :: 0 <= k < |snaps| ==> IsBoard(snaps[k].0)
  }

  /** One pass of the `while True` body on a snapshot. */
  function Round(st: Loop, snap: Snapshot): Loop
    requires IsBoard(snap.0)
  {
    var (grid, coords) := snap;
    var changes := Changes(grid, Rule2(Rule1(grid)));
    if !Readable(changes, coords) then st.(outcome := Raised(IndexError))
    else
      var flags, safes := Collected(changes, coords, Flag), Collected(changes, coords, Safe);
      var log := st.log + LeftClicks(safes) + RightClicks(flags);
      if flags == [] && safes == [] then Loop(st.i, log, NoMoreMoves)
      else Loop(st.i + 1, log, Running)
  }

  /** Rounds on successive snapshots until one of them ends the loop. */
  function Rounds(st: Loop, snaps: seq<Snapshot>): Loop
    requires Boards(snaps)
    decreases |snaps|
  {
    if snaps == [] || st.outcome != Running then st
    else Rounds(Round(st, snaps[0]), snaps[1..])
  }

  /** The `__main__` loop of mouse_control.py, over the snapshots it reads in
      turn; it stops early when a round ends the loop. */
  method MainLoop(cfg: BoardConfig, snaps: seq<Snapshot>) returns (st: Loop)
    requires Boards(snaps)
    ensures st == Rounds(Loop(1, [LeftClick(FirstClickPoint(cfg))], Running), snaps)
  {
    ghost var init := Loop(1, [LeftClick(FirstClickPoint(cfg))], Running);
    var i := 1;
    var log := [LeftClick(FirstClickPoint(cfg))];
    var k := 0;
    while k < |snaps|
      invariant 0 <= k <= |snaps|
      invariant Rounds(Loop(i, log, Running), snaps[k..]) == Rounds(init, snaps)
    {
      assert snaps[k..][1..] == snaps[k + 1..];
      var (grid, coordGrid) := snaps[k];
      var changes := SolverRun(grid);
      var collected := GetFlagAndSafeFromChanges(changes, coordGrid);
      if collected.Err? {
        return Loop(i, log, Raised(collected.error));
      }
      var (flags, safes) := collected.value;
      log := LeftClicker(log, safes);
      log := RightClicker(log, flags);
      if flags == [] && safes == [] {
        return Loop(i, log, NoMoreMoves);
      }
      i := i + 1;
      k := k + 1;
    }
    st := Loop(i, log, Running);
  }

  /** Within a round the safe tiles are clicked before the flags, and every
      click lands on the target of a cell the solver just deduced. */
  lemma RoundClicks(st: Loop, snap: Snapshot)
    requires IsBoard(snap.0)
    ensures var changes := Changes(snap.0, Rule2(Rule1(snap.0)));
      Readable(changes, snap.1) ==>
        Round(st, snap).log ==
          st.log + LeftClicks(Collected(changes, snap.1, Safe)) + RightClicks(Collected(changes, snap.1, Flag))
    ensures !Readable(Changes(snap.0, Rule2(Rule1(snap.0))), snap.1) ==> Round(st, snap).log == st.log
  {
  }

  /** A round continues the loop exactly when the solver deduced something,
      and then bumps the round counter. */
  lemma RoundContinues(st: Loop, snap: Snapshot)
    requires IsBoard(snap.0)
    ensures Round(st, snap).outcome == Running <==>
      var changes := Changes(snap.0, Rule2(Rule1(snap.0)));
      Readable(changes, snap.1) &&
      (OccurrenceCounter(changes, Flag) > 0 || OccurrenceCounter(changes, Safe) > 0)
    ensures Round(st, snap).outcome == Running ==> Round(st, snap).i == st.i + 1
    ensures Round(st, snap).outcome != Running ==> Round(st, snap).i == st.i
  {
    var changes := Changes(snap.0, Rule2(Rule1(snap.0)));
    if Readable(changes, snap.1) {
      CollectedCount(changes, snap.1, Flag);
      CollectedCount(changes, snap.1, Safe);
    }
  }

  /** The log only grows; once the loop has ended, later snapshots change
      nothing; while it runs, `i` counts the rounds. */
  lemma {:induction false} RoundsProgress(st: Loop, snaps: seq<Snapshot>)
    requires Boards(snaps)
    ensures st.log <= Rounds(st, snaps).log
    ensures st.outcome != Running ==> Rounds(st, snaps) == st
    ensures st.outcome == Running && Rounds(st, snaps).outcome == Running ==> Rounds(st, snaps).i == st.i + |snaps|
    ensures st.i <= Rounds(st, snaps).i
    decreases |snaps|
  {
    if snaps != [] && st.outcome == Running {
      var next := Round(st, snaps[0]);
      assert st.log <= next.log;
      RoundsProgress(next, snaps[1..]);
    }
  }
}

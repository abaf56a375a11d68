/** The round controller: each round reads a snapshot, stops on a revealed
    mine, runs the solver, records the new flags, falls back to the
    probability heuristic when the rules deduce nothing, clicks, and stops
    on the second round that ends with at least `FLAG_NUMBER` flags found. */
module MainRunner {
  import opened Wrappers
  import opened Tiles
  import opened GridData
  import opened DeterministicSolver
  import ProbabilityHeuristic
  import opened CellChoice
  import MC = MouseControl

  /** Why the loop ended. */
  datatype Stop =
    | MineOnBoard            // the snapshot shows an 'M'
    | NoMove                 // neither the rules nor the heuristic found a move
    | Finished               // the second round at or above the flag target
    | Raised(error: Error)   // an exception ended the program

  /** The loop's variables: the round counter `i`, the rounds `j` ended at or
      above the flag target, the heuristic calls, the flags found so far
      without repeats, the clicks so far and, once it has ended, why. */
  datatype Runner = Runner(i: int, j: int, probCall: int, flagsFound: seq<Point>,
                           log: seq<MC.Action>, stop: Option<Stop>)

  // ---------------------------------------------------------------------
  // flags_found

  /** `for item in flags: if item not in flags_found: flags_found.append(item)`. */
  function Merge(found: seq<Point>, flags: seq<Point>): seq<Point>
    decreases |flags|
  {
    if flags == [] then found
    else Merge(if flags[0] in found then found else found + [flags[0]], flags[1..])
  }

  /** Merging keeps what was found, adds no repeats, and holds exactly the
      points found before or among the new flags. */
  lemma {:induction false} MergeProperties(found: seq<Point>, flags: seq<Point>)
    ensures found <= Merge(found, flags)
    ensures Distinct(found) ==> Distinct(Merge(found, flags))
    ensures forall p :: p in Merge(found, flags) <==> p in found || p in flags
    decreases |flags|
  {
    if flags != [] {
      var next := if flags[0] in found then found else found + [flags[0]];
      MergeProperties(next, flags[1..]);
      assert forall p :: p in flags <==> p == flags[0] || p in flags[1..];
    }
  }

  /** The merging loop of the source. */
  method MergeFlags(found: seq<Point>, flags: seq<Point>) returns (found': seq<Point>)
    ensures found' == Merge(found, flags)
  {
    found' := found;
    var k := 0;
    while k < |flags|
      invariant 0 <= k <= |flags|
      invariant Merge(found', flags[k..]) == Merge(found, flags)
    {
      assert flags[k..][0] == flags[k] && flags[k..][1..] == flags[k + 1..];
      if flags[k] !in found' {
        found' := found' + [flags[k]];
      }
      k := k + 1;
    }
  }

  // ---------------------------------------------------------------------
  // grid_to_coords

  /** Python's `s[i]`, negative indices counting from the end. */
  function PyIndex<T>(s: seq<T>, i: int): (res: Result<T>)
    ensures res.Ok? <==> -|s| <= i < |s|
    ensures 0 <= i < |s| ==> res == Ok(s[i])
    ensures res.Err? ==> res.error == IndexError
  {
    if 0 <= i < |s| then Ok(s[i])
    else if -|s| <= i < 0 then Ok(s[|s| + i])
    else Err(IndexError)
  }

  /** `grid_to_coords(cell, coord_grid)`: the target `coord_grid[r][c]`. */
  function GridToCoords(cell: Coord, coordGrid: seq<seq<Point>>): Result<Point> {
    match PyIndex(coordGrid, cell.0)
    case Err(e) => Err(e)
    case Ok(row) => PyIndex(row, cell.1)
  }

  /** For a cell with non-negative coordinates the lookup succeeds exactly
      when the entry exists, and returns it. */
  lemma GridToCoordsOnBoard(cell: Coord, coordGrid: seq<seq<Point>>)
    requires cell.0 >= 0 && cell.1 >= 0
    ensures GridToCoords(cell, coordGrid).Ok? <==> MC.HasEntry(coordGrid, cell)
    ensures MC.HasEntry(coordGrid, cell) ==> GridToCoords(cell, coordGrid) == Ok(coordGrid[cell.0][cell.1])
    ensures GridToCoords(cell, coordGrid).Err? ==> GridToCoords(cell, coordGrid).error == IndexError
  {
  }

  // ---------------------------------------------------------------------
  // The round

  /** What a snapshot shows the loop before any click: a mine, a change map
      the collector cannot read, or the new flags and safe tiles. */
  datatype Observation = MineSeen | Unreadable | Deduced(flags: seq<Point>, safes: seq<Point>)

  /** The mine test, `solver_run` and the collection of a round. */
  function Observe(grid: Board, coords: seq<seq<Point>>): Observation
    requires IsBoard(grid)
  {
    if OccurrenceCounter(grid, Mine) != 0 then MineSeen
    else
      var changes := Changes(grid, Rule2(Rule1(grid)));
      if !MC.Readable(changes, coords) then Unreadable
      else Deduced(MC.Collected(changes, coords, Flag), MC.Collected(changes, coords, Safe))
  }

  /** The heuristic's answer on the grid and the target of the chosen cell:
      `None` when it chooses nothing, otherwise the result of the lookup. */
  function Guess(grid: Board, coords: seq<seq<Point>>): Option<Result<Point>> {
    match Choose(grid).0
    case None => None
    case Some(cell) => Some(GridToCoords(cell, coords))
  }

  /** The rest of a round once the snapshot has been observed; the guess is
      consulted only when the rules deduced nothing. */
  function Advance(st: Runner, obs: Observation, guess: Option<Result<Point>>): Runner {
    match obs
    case MineSeen => st.(stop := Some(MineOnBoard))
    case Unreadable => st.(stop := Some(Raised(IndexError)))
    case Deduced(flags, safes) =>
      var st' := st.(flagsFound := Merge(st.flagsFound, flags));
      if flags == [] && safes == [] then
        match guess
        case None => st'.(stop := Some(NoMove))
        case Some(Err(e)) => st'.(stop := Some(Raised(e)))
        case Some(Ok(target)) => Click(st'.(probCall := st'.probCall + 1), [], [target])
      else Click(st', flags, safes)
  }

  /** Right clicks on the flags, left clicks on the safe tiles, then the
      flag-target test and the round counter. */
  function Click(st: Runner, flags: seq<Point>, safes: seq<Point>): Runner {
    var log := st.log + MC.RightClicks(flags) + MC.LeftClicks(safes);
    if |st.flagsFound| >= FLAG_NUMBER then
      if st.j + 1 == 2 then st.(j := st.j + 1, log := log, stop := Some(Finished))
      else st.(i := st.i + 1, j := st.j + 1, log := log)
    else st.(i := st.i + 1, log := log)
  }

  /** One pass of the `while True` body on a snapshot. */
  function Round(st: Runner, snap: MC.Snapshot): Runner
    requires IsBoard(snap.0)
  {
    Advance(st, Observe(snap.0, snap.1), Guess(snap.0, snap.1))
  }

  /** Rounds on successive snapshots until one of them ends the loop. */
  function Rounds(st: Runner, snaps: seq<MC.Snapshot>): Runner
    requires MC.Boards(snaps)
    decreases |snaps|
  {
    if snaps == [] || st.stop.Some? then st
    else Rounds(Round(st, snaps[0]), snaps[1..])
  }

  /** The state before the first round: the opening click has been made. */
  function Start(cfg: BoardConfig): Runner {
    Runner(1, 0, 0, [], [MC.LeftClick(MC.FirstClickPoint(cfg))], None)
  }

  /** The mine test, the solver and the collector of one round. */
  method Look(grid: Board, coordGrid: seq<seq<Point>>) returns (obs: Observation)
    requires IsBoard(grid)
    ensures obs == Observe(grid, coordGrid)
  {
    if OccurrenceCounter(grid, Mine) != 0 {
      return MineSeen;
    }
    var changes := SolverRun(grid);
    var collected := MC.GetFlagAndSafeFromChanges(changes, coordGrid);
    if collected.Err? {
      return Unreadable;
    }
    obs := Deduced(collected.value.0, collected.value.1);
  }

  /** The body of the loop on one snapshot, updating the loop's variables. */
  method PlayRound(st: Runner, grid: Board, coordGrid: seq<seq<Point>>) returns (st': Runner)
    requires IsBoard(grid)
    ensures st' == Round(st, (grid, coordGrid))
  {
    var obs := Look(grid, coordGrid);
    st' := Resolve(st, obs, grid, coordGrid);
  }

  /** `choose_lowest_prob_cell` and `grid_to_coords` on the chosen cell. */
  method AskHeuristic(grid: Board, coordGrid: seq<seq<Point>>) returns (guess: Option<Result<Point>>)
    requires IsBoard(grid)
    ensures guess == Guess(grid, coordGrid)
  {
    var lowest, _ := ChooseLowestProbCell(grid);
    if lowest.None? {
      return None;
    }
    guess := Some(GridToCoords(lowest.value, coordGrid));
  }

  /** The loop body after the observation: recording the flags, the
      fallback, the clicks and the flag-target test. */
  method Resolve(st: Runner, obs: Observation, grid: Board, coordGrid: seq<seq<Point>>) returns (st': Runner)
    requires IsBoard(grid)
    ensures st' == Advance(st, obs, Guess(grid, coordGrid))
  {
    if !obs.Deduced? {
      return if obs.MineSeen? then st.(stop := Some(MineOnBoard)) else st.(stop := Some(Raised(IndexError)));
    }
    var flags, safes := obs.flags, obs.safes;
    var flagsFound := MergeFlags(st.flagsFound, flags);
    var probCall := st.probCall;
    if flags == [] && safes == [] {
      var guess := AskHeuristic(grid, coordGrid);
      if guess.None? {
        return st.(flagsFound := flagsFound, stop := Some(NoMove));
      }
      if guess.value.Err? {
        return st.(flagsFound := flagsFound, stop := Some(Raised(guess.value.error)));
      }
      safes := safes + [guess.value.value];
      assert safes == [guess.value.value];
      probCall := probCall + 1;
    }
    st' := ClickAndCount(st.(probCall := probCall, flagsFound := flagsFound), flags, safes);
  }

  /** The clicks of a round and the flag-target test that follows them. */
  method ClickAndCount(st: Runner, flags: seq<Point>, safes: seq<Point>) returns (st': Runner)
    ensures st' == Click(st, flags, safes)
  {
    var log := MC.RightClicker(st.log, flags);
    log := MC.LeftClicker(log, safes);
    var i, j := st.i, st.j;
    var stop := st.stop;
    if |st.flagsFound| >= FLAG_NUMBER {
      j := j + 1;
      if j == 2 {
        stop := Some(Finished);
      }
    }
    if j != 2 || |st.flagsFound| < FLAG_NUMBER {
      i := i + 1;
    }
    st' := Runner(i, j, st.probCall, st.flagsFound, log, stop);
  }

  /** The top-level loop of main_runner.py, over the snapshots it reads in turn. */
  method MainLoop(cfg: BoardConfig, snaps: seq<MC.Snapshot>) returns (st: Runner)
    requires MC.Boards(snaps)
    ensures st == Rounds(Start(cfg), snaps)
  {
    st := Start(cfg);
    var k := 0;
    while k < |snaps| && st.stop.None?
      invariant 0 <= k <= |snaps|
      invariant Rounds(st, snaps[k..]) == Rounds(Start(cfg), snaps)
    {
      assert snaps[k..][1..] == snaps[k + 1..];
      st := PlayRound(st, snaps[k].0, snaps[k].1);
      k := k + 1;
    }
    if k == |snaps| {
      assert snaps[k..] == [];
    }
  }

  // ---------------------------------------------------------------------
  // Properties of an observation

  /** The observation is a mine exactly when the snapshot shows one; it is
      unreadable exactly when the collector would raise `IndexError`; and
      otherwise it holds as many flags and safe tiles as the change map. */
  lemma ObserveCases(grid: Board, coords: seq<seq<Point>>)
    requires IsBoard(grid)
    ensures Observe(grid, coords).MineSeen? <==>
      exists r, c :: 0 <= r < |grid| && 0 <= c < |grid[r]| && grid[r][c] == Mine
    ensures var changes := Changes(grid, Rule2(Rule1(grid)));
      Observe(grid, coords).Unreadable? <==> OccurrenceCounter(grid, Mine) == 0 && !MC.Readable(changes, coords)
    ensures var changes := Changes(grid, Rule2(Rule1(grid)));
      Observe(grid, coords).Deduced? ==>
        |Observe(grid, coords).flags| == OccurrenceCounter(changes, Flag) &&
        |Observe(grid, coords).safes| == OccurrenceCounter(changes, Safe)
  {
    OccurrenceCounterCounts(grid, Mine);
    var changes := Changes(grid, Rule2(Rule1(grid)));
    if Observe(grid, coords).Deduced? {
      MC.CollectedCount(changes, coords, Flag);
      MC.CollectedCount(changes, coords, Safe);
    }
  }

  /** A guess is a target of a covered cell of the grid. */
  lemma GuessIsCovered(grid: Board, coords: seq<seq<Point>>)
    requires IsBoard(grid)
    ensures Guess(grid, coords).None? <==> forall p :: ProbabilityHeuristic.At(grid, p) != Unknown
    ensures Guess(grid, coords).Some? ==>
      var cell := Choose(grid).0.value;
      ProbabilityHeuristic.At(grid, cell) == Unknown &&
      (Guess(grid, coords).value.Ok? <==> MC.HasEntry(coords, cell)) &&
      (Guess(grid, coords).value.Ok? ==> Guess(grid, coords).value.value == coords[cell.0][cell.1])
  {
    ChooseFindsCovered(grid);
    if Choose(grid).0.Some? {
      var cell := Choose(grid).0.value;
      GridToCoordsOnBoard(cell, coords);
    }
  }

  // ---------------------------------------------------------------------
  // Properties of a round

  /** A snapshot showing a mine ends the loop before anything is clicked or recorded. */
  lemma MineEndsLoop(st: Runner, snap: MC.Snapshot)
    requires IsBoard(snap.0)
    requires exists r, c :: 0 <= r < |snap.0| && 0 <= c < |snap.0[r]| && snap.0[r][c] == Mine
    ensures Round(st, snap) == st.(stop := Some(MineOnBoard))
  {
    ObserveCases(snap.0, snap.1);
  }

  /** The flags found only grow, never repeat, and gain exactly the observed new flags. */
  lemma FlagsFoundGrow(st: Runner, obs: Observation, guess: Option<Result<Point>>)
    ensures st.flagsFound <= Advance(st, obs, guess).flagsFound
    ensures Distinct(st.flagsFound) ==> Distinct(Advance(st, obs, guess).flagsFound)
    ensures obs.Deduced? ==>
      forall p :: p in Advance(st, obs, guess).flagsFound <==> p in st.flagsFound || p in obs.flags
    ensures !obs.Deduced? ==> Advance(st, obs, guess).flagsFound == st.flagsFound
  {
    if obs.Deduced? {
      MergeProperties(st.flagsFound, obs.flags);
    }
  }

  /** The heuristic counts as called only in a round that deduced nothing,
      and then the round's only click is a left click on the guessed target. */
  lemma HeuristicOnlyWhenStalled(st: Runner, obs: Observation, guess: Option<Result<Point>>)
    ensures Advance(st, obs, guess).probCall != st.probCall ==>
      Advance(st, obs, guess).probCall == st.probCall + 1 &&
      obs.Deduced? && obs.flags == [] && obs.safes == [] && guess.Some? && guess.value.Ok? &&
      Advance(st, obs, guess).log == st.log + [MC.LeftClick(guess.value.value)]
    ensures obs.Deduced? && obs.flags == [] && obs.safes == [] && guess.None? ==>
      Advance(st, obs, guess).stop == Some(NoMove) && Advance(st, obs, guess).log == st.log
  {
    assert MC.RightClicks([]) == [];
  }

  /** A round with deductions right-clicks every new flag, then left-clicks
      every new safe tile, and does not call the heuristic. */
  lemma FlagsBeforeSafes(st: Runner, obs: Observation, guess: Option<Result<Point>>)
    requires obs.Deduced? && (obs.flags != [] || obs.safes != [])
    ensures Advance(st, obs, guess).log == st.log + MC.RightClicks(obs.flags) + MC.LeftClicks(obs.safes)
    ensures Advance(st, obs, guess).probCall == st.probCall
  {
  }

  /** While the loop runs, `j` is 0 or 1, and 1 only once the flag target has been reached. */
  predicate Invariant(st: Runner) {
    st.stop.None? ==> 0 <= st.j <= 1 && (st.j == 1 ==> |st.flagsFound| >= FLAG_NUMBER)
  }

  /** The clicking tail of a round: it keeps the invariant, moves `j` on
      exactly when the target has been reached, and stops exactly on the
      second such round. */
  lemma ClickCounts(st: Runner, flags: seq<Point>, safes: seq<Point>)
    requires st.stop.None? && 0 <= st.j <= 1 && (st.j == 1 ==> |st.flagsFound| >= FLAG_NUMBER)
    ensures Invariant(Click(st, flags, safes))
    ensures Click(st, flags, safes).flagsFound == st.flagsFound
    ensures Click(st, flags, safes).stop.None? ==> Click(st, flags, safes).i == st.i + 1
    ensures Click(st, flags, safes).stop.Some? ==> Click(st, flags, safes).i == st.i
    ensures |st.flagsFound| >= FLAG_NUMBER ==> Click(st, flags, safes).j == st.j + 1
    ensures |st.flagsFound| < FLAG_NUMBER ==> Click(st, flags, safes).j == st.j
    ensures Click(st, flags, safes).stop.Some? <==> st.j == 1
  {
  }

  /** Every round keeps the invariant; a running round bumps `i` and a
      stopping round does not. */
  lemma AdvanceKeepsInvariant(st: Runner, obs: Observation, guess: Option<Result<Point>>)
    requires st.stop.None? && Invariant(st)
    ensures Invariant(Advance(st, obs, guess))
    ensures Advance(st, obs, guess).stop.None? ==> Advance(st, obs, guess).i == st.i + 1
    ensures Advance(st, obs, guess).stop.Some? ==> Advance(st, obs, guess).i == st.i
    ensures st.log <= Advance(st, obs, guess).log
  {
    if obs.Deduced? {
      var st' := st.(flagsFound := Merge(st.flagsFound, obs.flags));
      MergeProperties(st.flagsFound, obs.flags);
      assert |st.flagsFound| <= |st'.flagsFound|;
      ClickCounts(st', obs.flags, obs.safes);
      match guess
      case Some(Ok(target)) => ClickCounts(st'.(probCall := st'.probCall + 1), [], [target]);
      case _ =>
    }
  }

  /** Once a round has ended at or above the flag target, the next round
      ends the loop whatever its snapshot shows. */
  lemma SecondRoundAtTargetStops(st: Runner, obs: Observation, guess: Option<Result<Point>>)
    requires st.stop.None? && Invariant(st) && st.j == 1
    ensures Advance(st, obs, guess).stop.Some?
  {
    if obs.Deduced? {
      MergeProperties(st.flagsFound, obs.flags);
      assert |st.flagsFound| <= |Merge(st.flagsFound, obs.flags)|;
    }
  }

  /** The first round that ends at or above the flag target sets `j` to 1
      and, whatever else stops it, does not finish the loop. */
  lemma FirstRoundAtTarget(st: Runner, obs: Observation, guess: Option<Result<Point>>)
    requires st.stop.None? && st.j == 0
    ensures Advance(st, obs, guess).stop.None? && |Advance(st, obs, guess).flagsFound| >= FLAG_NUMBER ==>
      Advance(st, obs, guess).j == 1
    ensures Advance(st, obs, guess).stop != Some(Finished)
  {
  }

  // ---------------------------------------------------------------------
  // Properties of the loop

  /** Over any snapshots: the log only grows, the invariant holds, a stopped
      loop stays put, and while it runs `i` counts the rounds. */
  lemma {:induction false} RoundsProgress(st: Runner, snaps: seq<MC.Snapshot>)
    requires MC.Boards(snaps) && Invariant(st)
    ensures Invariant(Rounds(st, snaps))
    ensures st.stop.Some? ==> Rounds(st, snaps) == st
    ensures st.log <= Rounds(st, snaps).log
    ensures st.stop.None? && Rounds(st, snaps).stop.None? ==> Rounds(st, snaps).i == st.i + |snaps|
    decreases |snaps|
  {
    if snaps != [] && st.stop.None? {
      AdvanceKeepsInvariant(st, Observe(snaps[0].0, snaps[0].1), Guess(snaps[0].0, snaps[0].1));
      RoundsProgress(Round(st, snaps[0]), snaps[1..]);
    }
  }

  /** The loop starts in the invariant. */
  lemma StartInvariant(cfg: BoardConfig)
    ensures Invariant(Start(cfg)) && Start(cfg).j == 0 && Start(cfg).flagsFound == []
  {
  }
}

/** The defensive copy of the actuation loop: the collector validates the
    change map and the coordinate grid before reading them, targets are
    rounded to whole pixels before clicking, and every error ends the loop. */
module MouseControlDebug {
  import opened Wrappers
  import opened Text
  import opened Tiles
  import opened GridData
  import opened DeterministicSolver
  import MouseControl

  /** An entry of the coordinate grid: a point with real coordinates, or
      Python's `None`. */
  type Target = Option<(real, real)>

  // ---------------------------------------------------------------------
  // Rounding

  /** Python's `round` on a number: the nearest integer, ties to the even one. */
  function RoundHalfEven(x: real): int {
    var f := x.Floor;
    var frac := x - f as real;
    if frac < 0.5 then f
    else if frac > 0.5 then f + 1
    else if f % 2 == 0 then f
    else f + 1
  }

  /** `RoundHalfEven(x)` is an integer nearest to `x`; of two equally near, the even one. */
  lemma RoundIsNearest(x: real, m: int)
    ensures -0.5 <= RoundHalfEven(x) as real - x <= 0.5
    ensures Abs(RoundHalfEven(x) as real - x) <= Abs(m as real - x)
    ensures Abs(RoundHalfEven(x) as real - x) == Abs(m as real - x) && m != RoundHalfEven(x) ==> RoundHalfEven(x) % 2 == 0
  {
    var f := x.Floor;
    assert f as real <= x < f as real + 1.0;
    if m <= f - 1 {
      assert m as real <= f as real - 1.0;
    } else if m >= f + 2 {
      assert m as real >= f as real + 2.0;
    }
  }

  function Abs(x: real): real {
    if x < 0.0 then -x else x
  }

  /** Whole numbers are left as they are. */
  lemma RoundInteger(n: int)
    ensures RoundHalfEven(n as real) == n
  {
    assert (n as real).Floor == n;
  }

  /** `_to_int_coord`: `None` raises `ValueError`, a point is rounded coordinate by coordinate. */
  function ToIntCoord(coord: Target): (res: Result<Point>)
    ensures coord.None? <==> res == Err(ValueError("Encountered None coordinate in coord_grid"))
    ensures coord.Some? ==>
      res.Ok? &&
      -0.5 <= res.value.0 as real - coord.value.0 <= 0.5 &&
      -0.5 <= res.value.1 as real - coord.value.1 <= 0.5
  {
    match coord
    case None => Err(ValueError("Encountered None coordinate in coord_grid"))
    case Some((x, y)) =>
      RoundIsNearest(x, 0);
      RoundIsNearest(y, 0);
      Ok((RoundHalfEven(x), RoundHalfEven(y)))
  }

  /** Integer coordinates pass through `_to_int_coord` unchanged. */
  lemma ToIntCoordOfIntegers(x: int, y: int)
    ensures ToIntCoord(Some((x as real, y as real))) == Ok((x, y))
  {
    RoundInteger(x);
    RoundInteger(y);
  }

  /** The debug `first_click`: the same centre as before, passed through `int(round(.))`. */
  function FirstClickPoint(cfg: BoardConfig): (p: Point)
    ensures p == MouseControl.FirstClickPoint(cfg)
  {
    var (cx, cy) := MouseControl.FirstClickPoint(cfg);
    RoundInteger(cx);
    RoundInteger(cy);
    (RoundHalfEven(cx as real), RoundHalfEven(cy as real))
  }

  // ---------------------------------------------------------------------
  // The validated collector

  /** The coordinate grid exists and has the change map's shape: as many
      rows, each as long as the change map's first row. */
  predicate ShapeMatches(changes: Board, coordGrid: Option<seq<seq<Target>>>)
    requires |changes| > 0
  {
    coordGrid.Some? && |coordGrid.value| > 0 && |coordGrid.value| == |changes| &&
    forall k :: 0 <= k < |coordGrid.value| ==> |coordGrid.value[k]| == |changes[0]|
  }

  /** The text of the shape-mismatch `ValueError`. */
  function MismatchMessage(changes: Board, coordGrid: Option<seq<seq<Target>>>): string
    requires |changes| > 0
  {
    "coord_grid shape mismatch with changes: changes=" + IntToString(|changes|) + "x" + IntToString(|changes[0]|) +
    ", coord_grid=" +
    (match coordGrid
     case None => "None"
     case Some(cg) => IntToString(|cg|) + "x" + (if |cg| > 0 then IntToString(|cg[0]|) else "0"))
  }

  /** With the shapes matching, every entry the collector asks for exists;
      it can still fail only on a change-map row shorter than the first. */
  lemma MatchedShapeReadable(changes: Board, coordGrid: Option<seq<seq<Target>>>)
    requires |changes| > 0 && ShapeMatches(changes, coordGrid)
    ensures MouseControl.Readable(changes, coordGrid.value) <==> MouseControl.Scannable(changes)
  {
  }

  /** The validated `get_flag_and_safe_from_changes`. */
  method GetFlagAndSafeFromChanges(changes: Option<Board>, coordGrid: Option<seq<seq<Target>>>)
    returns (res: Result<(seq<Target>, seq<Target>)>)
    ensures changes.None? ==> res == Err(ValueError("solver_run returned None for changes"))
    ensures changes.Some? && |changes.value| == 0 ==> res == Ok(([], []))
    ensures changes.Some? && |changes.value| > 0 && !ShapeMatches(changes.value, coordGrid) ==>
      res == Err(ValueError(MismatchMessage(changes.value, coordGrid)))
    ensures changes.Some? && |changes.value| > 0 && ShapeMatches(changes.value, coordGrid) ==>
      if MouseControl.Readable(changes.value, coordGrid.value) then
        res == Ok((MouseControl.Collected(changes.value, coordGrid.value, Flag),
                   MouseControl.Collected(changes.value, coordGrid.value, Safe)))
      else res == Err(IndexError)
  {
    if changes.None? {
      return Err(ValueError("solver_run returned None for changes"));
    }
    var ch := changes.value;
    var rows := |ch|;
    if rows == 0 {
      return Ok(([], []));
    }
    var cols := |ch[0]|;
    var mismatch := coordGrid.None? || |coordGrid.value| == 0 || |coordGrid.value| != rows;
    if !mismatch {
      var k := 0;
      while k < |coordGrid.value| && !mismatch
        invariant 0 <= k <= |coordGrid.value|
        invariant !mismatch <==> forall m :: 0 <= m < k ==> |coordGrid.value[m]| == cols
      {
        if |coordGrid.value[k]| != cols {
          mismatch := true;
        }
        k := k + 1;
      }
    }
    if mismatch {
      return Err(ValueError(MismatchMessage(ch, coordGrid)));
    }
    res := MouseControl.GetFlagAndSafeFromChanges(ch, coordGrid.value);
  }

  // ---------------------------------------------------------------------
  // Clicking

  /** The clicks `left_clicker` (`left`) or `right_clicker` makes on a list of
      targets, and the exception that stops it: unpacking a `None` target
      raises `TypeError`, and the clicks before it have been made. */
  function Clicks(left: bool, targets: seq<Target>): (seq<MouseControl.Action>, Option<Error>)
  {
    if targets == [] then ([], None)
    else match targets[0]
      case None => ([], Some(TypeError("cannot unpack non-iterable NoneType object")))
      case Some((x, y)) =>
        var p := (RoundHalfEven(x), RoundHalfEven(y));
        var rest := Clicks(left, targets[1..]);
        ([if left then MouseControl.LeftClick(p) else MouseControl.RightClick(p)] + rest.0, rest.1)
  }

  /** Without a `None` target every target is clicked, rounded, in order;
      otherwise the clicks stop at the first `None` and a `TypeError` is raised. */
  lemma {:induction false} ClicksStopAtNone(left: bool, targets: seq<Target>)
    ensures (forall k :: 0 <= k < |targets| ==> targets[k].Some?) ==>
      Clicks(left, targets).1 == None && |Clicks(left, targets).0| == |targets|
    ensures forall k :: 0 <= k < |Clicks(left, targets).0| ==>
      k < |targets| && targets[k].Some? &&
      Clicks(left, targets).0[k] ==
        (var p := (RoundHalfEven(targets[k].value.0), RoundHalfEven(targets[k].value.1));
         if left then MouseControl.LeftClick(p) else MouseControl.RightClick(p))
    ensures Clicks(left, targets).1.Some? ==>
      |Clicks(left, targets).0| < |targets| && targets[|Clicks(left, targets).0|].None? &&
      Clicks(left, targets).1.value.TypeError?
  {
    if targets != [] && targets[0].Some? {
      ClicksStopAtNone(left, targets[1..]);
    }
  }

  /** `left_clicker` (`left`) and `right_clicker`: the clicks are appended to the log. */
  method Clicker(left: bool, log: seq<MouseControl.Action>, targets: seq<Target>)
    returns (log': seq<MouseControl.Action>, raised: Option<Error>)
    ensures (log', raised) == (log + Clicks(left, targets).0, Clicks(left, targets).1)
  {
    log' := log;
    var k := 0;
    while k < |targets|
      invariant 0 <= k <= |targets|
      invariant log + Clicks(left, targets).0 == log' + Clicks(left, targets[k..]).0
      invariant Clicks(left, targets).1 == Clicks(left, targets[k..]).1
    {
      assert targets[k..][1..] == targets[k + 1..];
      match targets[k]
      case None =>
        assert targets[k..][0].None?;
        assert Clicks(left, targets[k..]) == ([], Some(TypeError("cannot unpack non-iterable NoneType object")));
        assert log' + [] == log';
        return log', Some(TypeError("cannot unpack non-iterable NoneType object"));
      case Some((x, y)) =>
        var xy := ToIntCoord(Some((x, y)));
        var p := xy.value;
        log' := log' + [if left then MouseControl.LeftClick(p) else MouseControl.RightClick(p)];
      k := k + 1;
    }
    assert targets[k..] == [];
    assert log' + [] == log';
    raised := None;
  }

  // ---------------------------------------------------------------------
  // The round loop

  /** A snapshot as `run` hands it over: either part may be `None`. */
  type Snapshot = (Option<Board>, Option<seq<seq<Target>>>)

  /** Why the loop ended. */
  datatype Stop =
    | GridMissing               // `run` returned no grid
    | CoordsMissing             // `run` returned no coordinate grid
    | ParseError(error: Error)  // the collector raised; caught inside the loop
    | Unhandled(error: Error)   // a clicker raised; caught around the loop
    | NoMoreMoves               // neither flags nor safe tiles

  datatype Loop = Loop(i: int, log: seq<MouseControl.Action>, stop: Option<Stop>)

  /** The grid parts that are present are boards the solver can run on. */
  predicate Boards(snaps: seq<Snapshot>) {
    forall k :: 0 <= k < |snaps| ==> snaps[k].0.Some? ==> IsBoard(snaps[k].0.value)
  }

  /** What the collector returns on a change map. */
  function Parsed(changes: Board, coordGrid: seq<seq<Target>>): Result<(seq<Target>, seq<Target>)>
    requires |changes| > 0
  {
    if !ShapeMatches(changes, Some(coordGrid)) then Err(ValueError(MismatchMessage(changes, Some(coordGrid))))
    else if !MouseControl.Readable(changes, coordGrid) then Err(IndexError)
    else Ok((MouseControl.Collected(changes, coordGrid, Flag), MouseControl.Collected(changes, coordGrid, Safe)))
  }

  /** One pass of the `while True` body. */
  function Round(st: Loop, snap: Snapshot): Loop
    requires snap.0.Some? ==> IsBoard(snap.0.value)
  {
    match snap
    case (None, _) => st.(stop := Some(GridMissing))
    case (_, None) => st.(stop := Some(CoordsMissing))
    case (Some(grid), Some(coordGrid)) =>
      var changes := Changes(grid, Rule2(Rule1(grid)));
      match Parsed(changes, coordGrid)
      case Err(e) => st.(stop := Some(ParseError(e)))
      case Ok((flags, safes)) => Act(st, flags, safes)
  }

  /** The clicking part of a round: the safe tiles, then the flags; an
      exception out of either clicker ends the loop. */
  function Act(st: Loop, flags: seq<Target>, safes: seq<Target>): Loop {
    var (leftLog, leftErr) := Clicks(true, safes);
    if leftErr.Some? then Loop(st.i, st.log + leftLog, Some(Unhandled(leftErr.value)))
    else
      var (rightLog, rightErr) := Clicks(false, flags);
      var log := st.log + leftLog + rightLog;
      if rightErr.Some? then Loop(st.i, log, Some(Unhandled(rightErr.value)))
      else if flags == [] && safes == [] then Loop(st.i, log, Some(NoMoreMoves))
      else Loop(st.i + 1, log, None)
  }

  function Rounds(st: Loop, snaps: seq<Snapshot>): Loop
    requires Boards(snaps)
    decreases |snaps|
  {
    if snaps == [] || st.stop.Some? then st
    else Rounds(Round(st, snaps[0]), snaps[1..])
  }

  /** The `__main__` block of the debug copy, over the snapshots it reads in turn. */
  method MainLoop(cfg: BoardConfig, snaps: seq<Snapshot>) returns (st: Loop)
    requires Boards(snaps)
    ensures st == Rounds(Loop(1, [MouseControl.LeftClick(FirstClickPoint(cfg))], None), snaps)
  {
    ghost var init := Loop(1, [MouseControl.LeftClick(FirstClickPoint(cfg))], None);
    var i := 1;
    var log := [MouseControl.LeftClick(FirstClickPoint(cfg))];
    var k := 0;
    while k < |snaps|
      invariant 0 <= k <= |snaps|
      invariant Rounds(Loop(i, log, None), snaps[k..]) == Rounds(init, snaps)
    {
      assert snaps[k..][1..] == snaps[k + 1..];
      var (grid, coordGrid) := snaps[k];
      if grid.None? {
        return Loop(i, log, Some(GridMissing));
      }
      if coordGrid.None? {
        return Loop(i, log, Some(CoordsMissing));
      }
      var changes := SolverRun(grid.value);
      var collected := GetFlagAndSafeFromChanges(Some(changes), coordGrid);
      if collected.Err? {
        return Loop(i, log, Some(ParseError(collected.error)));
      }
      var (flags, safes) := collected.value;
      var raised;
      log, raised := Clicker(true, log, safes);
      if raised.Some? {
        return Loop(i, log, Some(Unhandled(raised.value)));
      }
      log, raised := Clicker(false, log, flags);
      if raised.Some? {
        return Loop(i, log, Some(Unhandled(raised.value)));
      }
      if flags == [] && safes == [] {
        return Loop(i, log, Some(NoMoreMoves));
      }
      i := i + 1;
      k := k + 1;
    }
    st := Loop(i, log, None);
  }

  /** The solver's change map always has the grid's shape, so in the loop
      the collector fails only on a coordinate grid of another shape, never
      with `IndexError`. */
  lemma LoopParseErrors(grid: Board, coordGrid: seq<seq<Target>>)
    requires IsBoard(grid)
    ensures var changes := Changes(grid, Rule2(Rule1(grid)));
      Parsed(changes, coordGrid).Err? <==> !ShapeMatches(changes, Some(coordGrid))
    ensures var changes := Changes(grid, Rule2(Rule1(grid)));
      Parsed(changes, coordGrid).Err? ==> Parsed(changes, coordGrid).error.ValueError?
  {
  }

  /** A round that continues clicked every safe tile, then every flag, and
      bumps the round counter; a round that clicked nothing and raised
      nothing ends the loop. */
  lemma RoundClicksInOrder(st: Loop, grid: Board, coordGrid: seq<seq<Target>>)
    requires IsBoard(grid)
    ensures var changes := Changes(grid, Rule2(Rule1(grid)));
      var next := Round(st, (Some(grid), Some(coordGrid)));
      Parsed(changes, coordGrid).Ok? ==>
        var (flags, safes) := Parsed(changes, coordGrid).value;
        next.stop.None? ==>
          next.i == st.i + 1 && (flags != [] || safes != []) &&
          next.log == st.log + Clicks(true, safes).0 + Clicks(false, flags).0 &&
          |Clicks(true, safes).0| == |safes| && |Clicks(false, flags).0| == |flags|
  {
    var changes := Changes(grid, Rule2(Rule1(grid)));
    if Parsed(changes, coordGrid).Ok? {
      var (flags, safes) := Parsed(changes, coordGrid).value;
      ClicksStopAtNone(true, safes);
      ClicksStopAtNone(false, flags);
      if Clicks(true, safes).1.None? && Clicks(false, flags).1.None? {
        ClicksAll(true, safes);
        ClicksAll(false, flags);
      }
    }
  }

  /** A clicker that raised nothing clicked every target. */
  lemma {:induction false} ClicksAll(left: bool, targets: seq<Target>)
    requires Clicks(left, targets).1.None?
    ensures |Clicks(left, targets).0| == |targets|
  {
    if targets != [] {
      ClicksAll(left, targets[1..]);
    }
  }

  /** A round only appends to the log and never lowers the counter. */
  lemma RoundGrows(st: Loop, snap: Snapshot)
    requires snap.0.Some? ==> IsBoard(snap.0.value)
    ensures st.log <= Round(st, snap).log && st.i <= Round(st, snap).i
  {
    match snap
    case (Some(grid), Some(coordGrid)) =>
      var changes := Changes(grid, Rule2(Rule1(grid)));
      if Parsed(changes, coordGrid).Ok? {
        var (flags, safes) := Parsed(changes, coordGrid).value;
        assert Round(st, snap) == Act(st, flags, safes);
      }
    case _ =>
  }

  /** Once the loop has stopped, later snapshots change nothing; the log only grows. */
  lemma {:induction false} RoundsProgress(st: Loop, snaps: seq<Snapshot>)
    requires Boards(snaps)
    ensures st.log <= Rounds(st, snaps).log
    ensures st.stop.Some? ==> Rounds(st, snaps) == st
    ensures st.i <= Rounds(st, snaps).i
    decreases |snaps|
  {
    if snaps != [] && st.stop.None? {
      RoundGrows(st, snaps[0]);
      RoundsProgress(Round(st, snaps[0]), snaps[1..]);
    }
  }
}

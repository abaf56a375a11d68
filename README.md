# CPA Minesweeper in Dafny

This project models a Minesweeper auto-solver and the Minesweeper game it was written against.

The solver has five parts:

- a screen reader (`grid_data.py`) that turns a screenshot into a grid of tile tokens;
- a rule-based solver (`deterministic_solver.py`) that applies two local saturation rules and reports what changed;
- a probability heuristic (`probability_heuristic.py`) for rounds in which the rules deduce nothing;
- the actuation scripts (`mouse_control.py`, `mouse_control_debug_chatgpt.py`) that turn a change map into mouse clicks;
- the round controller (`main_runner.py`).

The game (`game.py`) is a Tk program. Its board object places the mines on the first click, reveals cells with a flood fill, toggles flags, chords and ends the game.

Module layout, one module per file:

- `Wrappers`: `Option`, `Result` and the Python exceptions the code raises.
- `Text`: decimal text, Python's `str(int)` and `int(str)`.
- `Tiles`: the tile alphabet, boards, counting, row-major order.
- `GridData`, `DeterministicSolver`: the screen reader and the solver.
- `ProbabilityHeuristic`, `CellChoice`: the probability map, and the candidate filter and scoring of `choose_lowest_prob_cell`.
- `MouseControl`, `MouseControlDebug`, `MainRunner`: mouse actuation and the round loops.
- `GameBoard`, `Game`: the game's cells and board facts, and the `Minesweeper` class with its click handlers.
- `MineBudget`: how many mines fit beside the first click. This is where the finding below comes from.

How the model is built:

- Boards are values: `seq<seq<Tile>>`.
- The solver's copied grid is a local sequence that its loops reassign.
- The game's `Minesweeper` object is a Dafny class. Its `grid`, `firstClick`, `gameOver` and `flagsLeft` fields are updated by methods with `modifies` clauses.
- Each method is proved against a specification function or predicate, and lemmas state what the source promises about those.
- The game's flood fill and chord loop are given exactly by recursive functions on board values, `GameBoard.Flood` and `Game.ChordRun`. The in-place methods are proved to compute them, and lemmas (`FloodReveals`, `UncoveredEffects`, `ChordedEffects`) state what the results promise.
- The game keeps one invariant, `Valid()`, in every handler:
  - the board has its shape;
  - `flagsLeft` plus the number of flags is the mine count;
  - before the first click the board is untouched;
  - after it, every count is right and there are exactly `mines` mines;
  - while the game runs, no revealed cell is flagged or a mine.
- The screen, the mouse, the clock and `random.sample` are parameters:
  - a screenshot is a function from pixel to colour;
  - the clicks are an action log;
  - the sequence of snapshots a loop reads is an argument;
  - the mines `random.sample` draws are an argument that must be a valid sample.

## Model

| member | source | states |
|---|---|---|
| Text.ParseIntRoundTrip | game.py:264-277 | `int()` reads the decimal text of every integer back to that integer |
| Tiles.TokenRoundTrip | grid_data.py:115-138 | every canonical tile survives the trip through its string token and back |
| GridData.TruncDiv | grid_data.py:94-97 | `int(num / den)` truncates toward zero: bounds for both signs of the numerator |
| GridData.OffsetInTile | grid_data.py:92-97 | for an offset k/16 of the tile with k < 16, the sampled coordinate stays inside the tile |
| GridData.SampleCoordsInTile | grid_data.py:90-98 | both the centre and the corner sample point of tile (row, col) lie inside that tile's square |
| GridData.Classify | grid_data.py:115-138 | the colour decision table; every result is canonical, never 'S' or 'x', and a number is at most 8 |
| GridData.MakePixelGrid | grid_data.py:105-143 | `rows` rows of `cols` tiles, each classified from its own centre and corner pixel |
| GridData.RealCoordGrid | grid_data.py:64-76 | a grid of the board's shape whose entry (r, c) is the board origin plus tile (r, c)'s centre sample point |
| GridData.GetNeighbours | grid_data.py:152-165 | exactly eight values clockwise from top-left, 'x' for every off-board slot |
| GridData.OccurrenceCounterCounts | grid_data.py:54-55 | the count is the multiplicity of the value among all cells, and is positive iff some cell holds it |
| GridData.LookupBoard | grid_data.py:13-18 | a `KeyError` exactly for an unknown difficulty, otherwise that board's configuration |
| GridData.Run | grid_data.py:171-179 | `KeyError` iff the difficulty is unknown; otherwise a tile grid and a target grid of the same shape, cell by cell |
| DeterministicSolver.Swept | deterministic_solver.py:7-65 | a rule's result has the board's shape and changes only covered cells with a firing neighbour, to the rule's mark |
| DeterministicSolver.TriggeredStep | deterministic_solver.py:12-33 | moving one cell on in row-major order adds exactly that cell as a possible source of a mark |
| DeterministicSolver.TriggeredRowEnd | deterministic_solver.py:12-13 | the end of a row is the start of the next, and after the last row every neighbour has been considered |
| DeterministicSolver.MarkAround | deterministic_solver.py:26-33 | the direction loop marks exactly the in-bounds covered neighbours and keeps every other cell |
| DeterministicSolver.Sweep | deterministic_solver.py:8-35 | the nested loops over a copy compute `Swept`: marks come from the original grid, never from earlier marks |
| DeterministicSolver.ApplyRule1 | deterministic_solver.py:7-35 | a covered cell becomes 'F' iff a numbered neighbour's covered plus flagged count equals its number; nothing else changes |
| DeterministicSolver.ApplyRule2 | deterministic_solver.py:39-65 | a covered cell becomes 'S' iff a numbered neighbour's flag count equals its number; nothing else changes |
| DeterministicSolver.Changes | deterministic_solver.py:73-86 | the change map has the first grid's shape; where the grids differ it holds the second grid's tile, elsewhere '-' |
| DeterministicSolver.ChangeMap | deterministic_solver.py:73-86 | the `append` loops build `Changes` |
| DeterministicSolver.ChangesOfSame | deterministic_solver.py:73-86 | comparing a grid with itself gives '-' everywhere |
| DeterministicSolver.PatchChangesRoundTrip | deterministic_solver.py:68-86 | patching the first grid with the change map gives back the second iff no changed cell became '-'; the map loses nothing else |
| DeterministicSolver.SolverRun | deterministic_solver.py:88-93 | the change map of Rule 2 after Rule 1: only '-', 'F' or 'S'; 'F', and 'S' only on covered cells that the rules mark |
| DeterministicSolver.SolverChangesRebuildBoard | deterministic_solver.py:88-93 | the round's change map applied to the grid rebuilds the solved board exactly |
| DeterministicSolver.SweptUnchanged | deterministic_solver.py:7-65 | a rule with no firing source leaves the board as it is |
| DeterministicSolver.FixedPointGivesNoChanges | deterministic_solver.py:88-93 | at a local fixed point the solver reports no change at all |
| DeterministicSolver.NoNumbersNoDeductions | deterministic_solver.py:7-65 | without tiles "1".."8" neither rule changes anything |
| ProbabilityHeuristic.Neighbors | probability_heuristic.py:10-14 | at most eight on-board positions |
| ProbabilityHeuristic.NeighborsMembers | probability_heuristic.py:5-14 | the positions yielded are exactly the on-board cells adjacent to (r, c) |
| ProbabilityHeuristic.NeighborsOrdered | probability_heuristic.py:5-14 | the neighbours come in row-major order |
| ProbabilityHeuristic.NeighborsDistinct | probability_heuristic.py:10-14 | no neighbour is listed twice |
| ProbabilityHeuristic.IsNumberMatchesToken | probability_heuristic.py:16-19 | a canonical tile is a number exactly when its token is a digit string |
| ProbabilityHeuristic.CountOpenUnknown | probability_heuristic.py:64-73 | the loop counts the covered positions, and everything else as opened |
| ProbabilityHeuristic.CountNeighbours | probability_heuristic.py:62-73 | `_neighbour_counts` gives (opened, covered) neighbour counts, 'F' counted as opened |
| ProbabilityHeuristic.ScanAround | probability_heuristic.py:39-44 | the neighbour scan of one numbered tile gives its flag count and its covered neighbours |
| ProbabilityHeuristic.UnknownsAroundMembers | probability_heuristic.py:39-44 | the covered neighbours listed are exactly the covered tiles adjacent to the numbered tile |
| ProbabilityHeuristic.TargetsMembers | probability_heuristic.py:34-49 | a cell receives contributions iff it is a covered neighbour of some active number (one with covered neighbours and mines left) |
| ProbabilityHeuristic.Clamp | probability_heuristic.py:54-56 | the two clamps leave a value in [0, 1], keep values already inside, and send a negative value to 0 and one above 1 to 1 |
| ProbabilityHeuristic.ShareIs | probability_heuristic.py:45-47 | an active tile's share is its remaining mines divided by its covered neighbours |
| ProbabilityHeuristic.RatioIsQuotient | probability_heuristic.py:47 | the exact ratio times the divisor is the dividend |
| ProbabilityHeuristic.AveragesLookup | probability_heuristic.py:51-56 | the map has a value exactly for the listed cells, and that value is the clamped mean of the cell's list |
| ProbabilityHeuristic.AveragedAgrees | probability_heuristic.py:51-56 | averaging the collected lists gives the map of the definition |
| ProbabilityHeuristic.ScanCells | probability_heuristic.py:39-44 | the neighbour loop counts the flags and lists the covered positions in order |
| ProbabilityHeuristic.HandOut | probability_heuristic.py:48-49 | appending a share to each listed cell extends the dict, records each new key once, in first-seen order |
| ProbabilityHeuristic.AddContributions | probability_heuristic.py:34-49 | one cell of the loop extends the collected state by exactly that cell's contributions |
| ProbabilityHeuristic.Distribute | probability_heuristic.py:45-49 | a share is handed out only with covered neighbours and a non-negative remainder |
| ProbabilityHeuristic.Aggregate | probability_heuristic.py:51-56 | each list becomes its clamped mean, in key order |
| ProbabilityHeuristic.ComputeLocalProbs | probability_heuristic.py:25-57 | the map is `LocalProbs`: keys in insertion order, each the clamped mean of its contributions |
| ProbabilityHeuristic.LocalProbsKeys | probability_heuristic.py:30-57 | the keys are exactly the frontier cells (covered, next to an active number), each once |
| ProbabilityHeuristic.ContribsMembers | probability_heuristic.py:34-49 | a cell's contributions are the shares of the active tiles around it |
| ProbabilityHeuristic.LocalProbsRange | probability_heuristic.py:51-56 | each key has a value, and every value lies in [0, 1] |
| ProbabilityHeuristic.LocalProbsValues | probability_heuristic.py:51-56 | every value is the mean of a non-empty list of non-negative shares, capped at 1; the clamp at 0 never applies |
| ProbabilityHeuristic.SatisfiedFrontierIsSafe | probability_heuristic.py:45-56 | a frontier cell all of whose active neighbours already have their flags gets probability 0 |
| ProbabilityHeuristic.FirstCoveredNone | probability_heuristic.py:81-86 | the fallback finds nothing exactly when no tile is covered |
| ProbabilityHeuristic.FirstCoveredLeast | probability_heuristic.py:81-86 | otherwise it finds the covered tile that comes first in row-major order |
| ProbabilityHeuristic.FirstCoveredCell | probability_heuristic.py:81-86 | the early-return loops return `FirstCovered` of the cells in row-major order |
| CellChoice.FilterMembers | probability_heuristic.py:95 | the comprehension keeps exactly the accepted elements, in order |
| CellChoice.OpenAtLeastMembers | probability_heuristic.py:95 | a key is kept iff it has at least the threshold of opened neighbours |
| CellChoice.PreferredUnfold | probability_heuristic.py:92-97 | the threshold loop gives the keys with 3 opened neighbours, else those with 2, else every key |
| CellChoice.CandidatesThree | probability_heuristic.py:92-97 | if some key has 3 opened neighbours, the candidates are exactly those keys |
| CellChoice.CandidatesTwo | probability_heuristic.py:92-97 | if none has 3 but some have 2, the candidates are exactly the keys with 2 |
| CellChoice.CandidatesAll | probability_heuristic.py:92-101 | if none has 2, every key is a candidate |
| CellChoice.PreferredEmpty | probability_heuristic.py:94-101 | the loop comes back empty only for no keys, so the fallback to all candidates never changes anything |
| CellChoice.CandidatesAreKeys | probability_heuristic.py:89-101 | every candidate is a key, none twice |
| CellChoice.KeepOpen | probability_heuristic.py:95 | the comprehension with one `_neighbour_counts` per candidate computes `OpenAtLeast` |
| CellChoice.PreferOpened | probability_heuristic.py:92-97 | the loop with its `break` computes `Preferred` |
| CellChoice.ScanNearMinimum | probability_heuristic.py:105-128 | once any candidate is scored, one leads, and its score is within the tolerance of the kept score, which nothing undercuts by more |
| CellChoice.ScanSeparated | probability_heuristic.py:105-128 | with separated scores the loop keeps the first candidate nobody beats (lowest score, then fewest numbered neighbours) |
| CellChoice.ScoresLookup | probability_heuristic.py:117 | the score map has a score exactly for the scored candidates |
| CellChoice.ChooseLowestProbCell | probability_heuristic.py:76-135 | the method returns `Choose`: the chosen cell and the score map |
| CellChoice.ScoreCandidates | probability_heuristic.py:105-128 | the scoring loop records every score and keeps the leader as `Scan` does |
| CellChoice.ScoreCell | probability_heuristic.py:109-114 | a score is the probability (1.0 without one) plus 0.4 times the covered-neighbour fraction |
| CellChoice.Contend | probability_heuristic.py:119-128 | a clearly lower score takes the lead; a tie within 1e-9 takes it only with fewer numbered neighbours |
| CellChoice.LeaderOnBoard | probability_heuristic.py:130-132 | the kept candidate is a key on the board and covered, so the sanity check never fails |
| CellChoice.ChooseFindsCovered | probability_heuristic.py:76-135 | the result is `None` iff no tile is covered; a pick is covered; with a frontier the pick is the scan's leader |
| CellChoice.ScoreBounds | probability_heuristic.py:110-114 | every score lies in [0, 1.4] |
| CellChoice.ScoreMapDomain | probability_heuristic.py:78-117 | the score map is empty without a frontier, and otherwise holds exactly the candidates with their scores |
| CellChoice.ChooseNearMinimum | probability_heuristic.py:105-128 | with a frontier, the pick is a candidate whose score is within 2e-9 of every candidate's score |
| CellChoice.ChooseSeparated | probability_heuristic.py:105-128 | with separated scores, the pick is the first unbeaten candidate |
| MouseControl.CollectedCells | mouse_control.py:9-24 | the collected targets are those of the cells holding the mark, each once, in row-major order |
| MouseControl.FlagsAndSafesDisjoint | mouse_control.py:19-22 | no cell is both a new flag and a new safe tile |
| MouseControl.CollectedCount | mouse_control.py:9-24 | as many targets are collected as the change map holds marks |
| MouseControl.GetFlagAndSafeFromChanges | mouse_control.py:9-24 | the flag and safe targets in row-major order; `IndexError` exactly when a row or target cannot be read |
| MouseControl.CollectRow | mouse_control.py:17-22 | one row extends both lists by that row's marked cells, or fails with `IndexError` iff the row cannot be read |
| MouseControl.NoRowsNoPositions | mouse_control.py:13-14 | a map with no rows yields two empty lists |
| MouseControl.CentreOnBoard | mouse_control.py:41-45 | the first click's coordinate lies inside the board, in the middle tile |
| MouseControl.LeftClicker | mouse_control.py:27-32 | one left click per position, in order, appended to the log |
| MouseControl.RightClicker | mouse_control.py:34-39 | one right click per position, in order, appended to the log |
| MouseControl.MainLoop | mouse_control.py:51-82 | the loop after the opening click is `Rounds` over the snapshots |
| MouseControl.RoundClicks | mouse_control.py:63-75 | within a round the safe tiles are clicked before the flags, each on a cell the solver just deduced |
| MouseControl.RoundContinues | mouse_control.py:78-82 | a round continues exactly when the solver deduced something, and then bumps the round counter |
| MouseControl.RoundsProgress | mouse_control.py:58-82 | the log only grows; a finished loop stays finished; while running, the counter counts the rounds |
| MouseControlDebug.RoundIsNearest | mouse_control_debug_chatgpt.py:49 | `round` gives an integer nearest to its argument; of two equally near, the even one |
| MouseControlDebug.RoundInteger | mouse_control_debug_chatgpt.py:49 | whole numbers are left as they are |
| MouseControlDebug.ToIntCoord | mouse_control_debug_chatgpt.py:44-49 | `None` raises `ValueError`; otherwise each coordinate moves by at most 0.5 |
| MouseControlDebug.ToIntCoordOfIntegers | mouse_control_debug_chatgpt.py:44-49 | integer coordinates pass through unchanged |
| MouseControlDebug.FirstClickPoint | mouse_control_debug_chatgpt.py:68-76 | the rounded centre is the same point the plain `first_click` uses |
| MouseControlDebug.MatchedShapeReadable | mouse_control_debug_chatgpt.py:26-39 | with matching shapes every target the collector asks for exists |
| MouseControlDebug.GetFlagAndSafeFromChanges | mouse_control_debug_chatgpt.py:10-41 | each validation error, the empty result for no rows, and otherwise the plain collector's result |
| MouseControlDebug.ClicksStopAtNone | mouse_control_debug_chatgpt.py:52-65 | without a `None` target all targets are clicked, rounded, in order; else the clicks stop at the first `None` with a `TypeError` |
| MouseControlDebug.Clicker | mouse_control_debug_chatgpt.py:52-65 | the clicker appends `Clicks` to the log and reports its exception |
| MouseControlDebug.MainLoop | mouse_control_debug_chatgpt.py:79-132 | the guarded loop after the opening click is `Rounds` over the snapshots |
| MouseControlDebug.LoopParseErrors | mouse_control_debug_chatgpt.py:98-112 | inside the loop the collector fails only on a target grid of another shape, never for the change map |
| MouseControlDebug.RoundClicksInOrder | mouse_control_debug_chatgpt.py:119-128 | a continuing round clicked every safe tile and then every flag, and bumps the counter |
| MouseControlDebug.ClicksAll | mouse_control_debug_chatgpt.py:52-65 | a clicker that raised nothing clicked every target |
| MouseControlDebug.RoundGrows | mouse_control_debug_chatgpt.py:85-128 | a round only appends to the log and never lowers the counter |
| MouseControlDebug.RoundsProgress | mouse_control_debug_chatgpt.py:85-132 | a stopped loop stays stopped, and the log only grows |
| MainRunner.MergeProperties | main_runner.py:29-31 | merging keeps what was found, adds no repeats, and holds exactly the old and the new flags |
| MainRunner.MergeFlags | main_runner.py:29-31 | the `not in` / `append` loop computes `Merge` |
| MainRunner.PyIndex | main_runner.py:49 | Python indexing: negative indices count from the end, outside the range `IndexError` |
| MainRunner.GridToCoordsOnBoard | main_runner.py:49 | for a cell with non-negative coordinates the lookup succeeds iff the entry exists, and returns it |
| MainRunner.Look | main_runner.py:18-26 | the mine test, the solver and the collector give `Observe` |
| MainRunner.PlayRound | main_runner.py:15-65 | the loop body on one snapshot is `Round` |
| MainRunner.AskHeuristic | main_runner.py:45-49 | the heuristic and the target lookup give `Guess` |
| MainRunner.Resolve | main_runner.py:29-64 | the body after the observation is `Advance` |
| MainRunner.ClickAndCount | main_runner.py:54-64 | the clicks and the flag-target test are `Click` |
| MainRunner.MainLoop | main_runner.py:7-65 | the loop after the opening click is `Rounds` over the snapshots |
| MainRunner.ObserveCases | main_runner.py:20-26 | a mine iff the snapshot shows one; unreadable iff the collector raises; otherwise the round's new flags and safe tiles |
| MainRunner.GuessIsCovered | main_runner.py:45-49 | a guess is the target of a covered cell |
| MainRunner.MineEndsLoop | main_runner.py:20-22 | a snapshot with a mine ends the loop before anything is clicked or recorded |
| MainRunner.FlagsFoundGrow | main_runner.py:29-31 | the flags found only grow, never repeat, and gain exactly the observed new flags |
| MainRunner.HeuristicOnlyWhenStalled | main_runner.py:42-52 | the heuristic is called only in a round with no deductions, and then the round's only click is on its target |
| MainRunner.FlagsBeforeSafes | main_runner.py:54-55 | a round with deductions right-clicks every new flag, then left-clicks every safe tile |
| MainRunner.ClickCounts | main_runner.py:54-64 | the tail keeps the invariant, moves `j` on iff the target is reached, and stops iff `j` reaches 2 |
| MainRunner.AdvanceKeepsInvariant | main_runner.py:15-65 | every round keeps the invariant; a running round bumps `i`, a stopping one does not |
| MainRunner.SecondRoundAtTargetStops | main_runner.py:58-62 | once a round has ended at the flag target, the next round ends the loop whatever it sees |
| MainRunner.FirstRoundAtTarget | main_runner.py:58-62 | the first round at the flag target sets `j` to 1 and, by itself, does not finish the loop |
| MainRunner.RoundsProgress | main_runner.py:15-65 | over any snapshots the log only grows, the invariant holds, and while running `i` counts the rounds |
| MainRunner.StartInvariant | main_runner.py:7-13 | the loop starts in the invariant after one left click |
| GameBoard.FreshGrid | game.py:25-43 | `rows` rows of `cols` fresh cells: no mine, covered, unflagged, count 0 |
| GameBoard.NbAdjacent | game.py:127-131 | the eight offsets name exactly the cells around a position |
| GameBoard.AdjacentIndex | game.py:127-131 | every adjacent cell is reached by one of the eight offsets |
| GameBoard.MinesAmongZero | game.py:122-134 | a cell counted 0 has no mine among its in-board neighbours |
| GameBoard.RevealOne | game.py:209-213 | revealing one covered unflagged cell reveals only that cell, and starts a fill when it is an empty non-mine |
| GameBoard.OnlyRevealsTrans | game.py:209-223 | "only reveals" composes across calls |
| GameBoard.FewerUnrevealed | game.py:209-223 | a reveal strictly shrinks the set of covered cells, so the recursion ends |
| GameBoard.SpreadTrans | game.py:214-223 | every cell the fill reveals is the start or next to an empty revealed non-mine, across nested calls |
| GameBoard.FillRevealsNoMine | game.py:209-223 | with correct counts, a fill from a non-mine reveals no mine |
| GameBoard.Flood | game.py:209-223 | `reveal_cell` on a board value, recursing through the eight neighbours in the source's order; the covered cells never grow, which makes the recursion end |
| GameBoard.FloodReveals | game.py:209-223 | the fill only reveals; it reveals its start unless that is flagged; every revealed cell is the start or next to a revealed empty non-mine; every revealed empty non-mine has all its in-board neighbours revealed or flagged |
| GameBoard.FloodFromFills | game.py:216-223 | the neighbour loop, from any neighbour on, keeps the fill's invariant and ends with every neighbour settled |
| GameBoard.FloodVisit | game.py:222-223 | one recursive call on a covered neighbour settles it and keeps the invariant |
| GameBoard.RevealMinesProperties | game.py:225-231 | revealing all mines only reveals, leaves every mine revealed, and uncovers nothing else |
| GameBoard.FlagsAmongMines | game.py:185-196 | if every flag around a cell sits on a mine, flags counted equal mines counted only when no mine is unflagged |
| GameBoard.ChordSafe | game.py:196-204 | a chord on a correct count whose flags all sit on mines meets no mine |
| GameBoard.FlagToggle | game.py:167-170 | toggling a covered cell's flag adds it to or removes it from the flag set, changing its size by one |
| GameBoard.PositionsMembers | game.py:108-116 | the positions are exactly the board cells outside the click's 3x3 block, each once |
| GameBoard.DistinctCard | game.py:117 | a sample without repeats has as many distinct cells as draws |
| GameBoard.CoordsFromEventSquare | game.py:95-104 | `Some((r, c))` iff the pixel lies in cell (r, c)'s 28-pixel square after the 4-pixel padding; `None` elsewhere |
| Game.RecountPlaced | game.py:118-134 | marking the drawn mines and then recounting is a placement: same cover, mines added, every count right |
| Game.ToggleKeeps | game.py:167-170 | a flag toggle with the matching `flags_left` change keeps the game invariant |
| Game.RevealKeeps | game.py:209-231 | reveals that uncover no mine, or a lost game, keep the game invariant |
| Game.PlacedKeeps | game.py:106-134 | a first placement on the untouched board gives the invariant with `first_click` off, the flags unchanged and mines only from the draw |
| Game.MinesFromDraw | game.py:117-119 | a placement on the untouched board holds exactly as many mines as draws |
| Game.UncoveredEffects | game.py:148-157 | uncovering only reveals and keeps flags and mines; a flagged or revealed cell is left and the game goes on; otherwise the cell ends revealed; a mine ends the game with every mine shown and only mines newly revealed; a safe cell starts a fill that reveals no mine, leaves every revealed empty cell closed, and ends the game iff every safe cell is revealed |
| Game.FirstClickEffects | game.py:144-157 | after the first click the board holds exactly the drawn mines, none on or next to the clicked cell, the flags are unchanged, and unless the cell was flagged it is revealed with no mine revealed, the game ending iff it is won |
| Game.PlacedAwayFromClick | game.py:106-134 | placing a sample of the positions on an untouched board gives exactly the drawn mines, none on or next to the click, and leaves the click covered with its flag |
| Game.ChordRunEffects | game.py:196-204 | the chord loop from any neighbour on only reveals; a loss shows every mine and comes from a covered unflagged mine among the remaining neighbours; otherwise every neighbour ends revealed or flagged and no mine is revealed |
| Game.ChordedEffects | game.py:182-207 | a chord on a counted safe cell keeps the flags and only reveals; it loses only on an unflagged mine next to the cell, then showing every mine; otherwise every neighbour is settled, no mine is revealed and the game ends iff won; it never loses when every flag around the cell is on a mine |
| Game.ChordDone | game.py:197-204 | a chord that hit nothing leaves every neighbour revealed or flagged |
| Game.Minesweeper.constructor | game.py:33-43 | a fresh first-click board, `flags_left == mines`, invariant established |
| Game.Minesweeper.PlaceMines | game.py:106-134 | `ValueError` iff the mine count does not fit the positions outside the click's block; otherwise exactly the drawn mines are added and every count is right |
| Game.Minesweeper.MarkMines | game.py:118-119 | exactly the drawn cells become mines |
| Game.Minesweeper.RecountAll | game.py:122-134 | the row loop computes `Recount` |
| Game.Minesweeper.RecountRow | game.py:123-134 | one row is recounted and the other rows are unchanged |
| Game.Minesweeper.CountRow | game.py:123-134 | each non-mine cell of the row gets its neighbour mine count and mines are skipped |
| Game.Minesweeper.CountAround | game.py:126-133 | the offset loops count the in-board neighbouring mines |
| Game.Minesweeper.OnLeftClick | game.py:136-157 | no-op after game over or off the board; a failed first placement raises `ValueError` and changes nothing; otherwise the flag counter is kept, `first_click` is off, and the new board is exactly the drawn mines placed (on the first click) followed by the uncovering of the clicked cell, whose effects `UncoveredEffects` and `FirstClickEffects` state |
| Game.Minesweeper.FirstClick | game.py:144-147 | raises iff the mine count does not fit the positions, then changes nothing; otherwise the drawn mines are placed exactly, none on or next to the click, cover and flags as before, and `first_click` cleared |
| Game.Minesweeper.Uncover | game.py:148-157 | a flagged or revealed cell is left; a covered mine is revealed, then every mine, and the game is lost; any other cell gives exactly the fill `Flood`, and the game ends iff every safe cell is revealed |
| Game.Minesweeper.RevealCell | game.py:209-223 | the in-place recursion leaves exactly the board `Flood` computes from the old one, and keeps its shape |
| Game.Minesweeper.OnRightClick | game.py:159-172 | no-op after game over, off the board or on a revealed cell; otherwise exactly that flag toggles and `flags_left` moves the other way |
| Game.Minesweeper.OnDoubleClick | game.py:174-207 | no-op unless a revealed counted cell with as many flags around it is double-clicked on a running game; then the new board and the loss are exactly the chord loop `ChordRun` over its in-board neighbours, the game ending on a loss or iff won |
| Game.Minesweeper.Chord | game.py:196-207 | the reveal loop over the neighbour list, stopping at the first covered unflagged mine, gives exactly `ChordRun`'s board and loss; the game ends on a loss or iff won |
| Game.Minesweeper.ChordStep | game.py:197-203 | one neighbour: flagged or revealed is passed over; a covered mine is hit, revealed with every other mine and the game lost; any other is filled exactly as `Flood` |
| Game.Minesweeper.EndIfWon | game.py:205-207 | the game ends iff every safe cell is revealed |
| Game.Minesweeper.Survey | game.py:185-195 | the flagged count and the in-board neighbour list |
| Game.Minesweeper.GameLost | game.py:225-231 | game over, and exactly the mines become revealed |
| Game.Minesweeper.CheckWin | game.py:235-242 | true iff every non-mine cell is revealed |
| Game.Minesweeper.GameWon | game.py:244-246 | the game is over |
| Game.Minesweeper.Restart | game.py:248-255 | a fresh first-click board with `flags_left == mines` and the invariant |
| Game.Clamp | game.py:279-281 | `max(lo, min(hi, v))` lies in [lo, hi], keeps values already inside, and sends a value below `lo` to `lo` and one above `hi` to `hi` (so 100 rows become 30) |
| Game.ParseArgs | game.py:261-282 | rows and columns in [5, 30], mines in [1, rows * cols - 1] |
| Game.ParseArgsDefaults | game.py:262 | without arguments the game is 9 x 9 with 10 mines |
| Game.ParseArgsKeepsDefault | game.py:262-276 | each argument is read on its own: rows, columns or mines that are missing or that `int` cannot read keep their default 9, 9 or 10, whatever the other arguments are |
| Game.ParseArgsRoundTrip | game.py:261-282 | in-range values written in decimal come back unchanged |
| MineBudget.CellsBeforeLength | game.py:116 | row-major order lists r * cols + c cells before (r, c) |
| MineBudget.BoardCells | game.py:116 | the board has exactly rows * cols distinct cells |
| MineBudget.PositionsAtLeast | game.py:108-116 | at least rows * cols - 9 positions remain outside the click's block, wherever the click is |
| MineBudget.PositionsAtMost | game.py:108-116 | for a click on a board at least two columns wide, at most rows * cols - 2 positions remain |
| MineBudget.ParseArgsOverfull | game.py:261-282 | the arguments 5 5 24 are accepted as they are, yet every first click leaves fewer than 24 positions |
| MineBudget.ParseArgsCapped | game.py:261-282 | the corrected parser: rows and columns in [5, 30], mines in [1, rows * cols - 9] |
| MineBudget.ParseArgsCappedFits | game.py:261-282 | with the cap, the mine count fits the positions left by any first click |
| MineBudget.ParseArgsCappedAgrees | game.py:261-282 | the cap changes nothing for counts that already fit |

## Findings

| source | as written | input that shows it | evidently intended | confidence | as-written member | corrected member |
|---|---|---|---|---|---|---|
| game.py:281 with game.py:108-117 | `parse_args` caps the mines at `rows*cols-1`, but `place_mines` keeps the first click and its in-board 3x3 block free, so at least 4 and up to 9 cells cannot take a mine | `python game.py 5 5 24`: on a 5 x 5 board at most 23 positions remain after any first click, so `random.sample(positions, 24)` raises `ValueError` and the game cannot start | a cap of `rows*cols-9`, the most that fits beside every first click | not executed | MineBudget.ParseArgsOverfull | MineBudget.ParseArgsCapped |

The as-written parser is `Game.ParseArgs`. With its output, `Game.Minesweeper.PlaceMines` raises `Game.SAMPLE_ERROR` exactly when the count does not fit. `MineBudget.ParseArgsCappedFits` proves the corrected cap always fits.

## Left out

- Tk widgets, canvas drawing, titles, message boxes and the event loop of game.py (game.py:49-93, 233, 246, 257-258, 285-291): display only. A click arrives as its pixel position.
- `random.sample` (game.py:117): the drawn list is a parameter. It must be a sample of the right size whenever one exists.
- Game.Minesweeper.constructor: rows and columns are natural numbers. The parser never produces fewer than 5, and a negative size would give an empty board in Python too.
- Screenshots, the mouse, `time.sleep`, `time.perf_counter`, `countdown`, `print`, `grid_print`, `print_board_info` and `capture_board_screenshot`: I/O. A screenshot is a function from pixel to colour, the mouse an action log, each loop's screen reads a finite sequence of snapshots.
- The `while True` loops run until a stop condition, or for as many rounds as there are snapshots. A loop that would never stop is not modelled.
- Python's `int()` also accepts underscores between digits and non-ASCII digits. The model reads ASCII digits with an optional sign and surrounding whitespace, which covers every argument the game is given in decimal.
- ProbabilityHeuristic: probabilities are exact reals, not floats. Division and the 1e-9 tolerance are exact.
- CellChoice.ChooseNearMinimum: on a tie within 1e-9 the source keeps the old `best_score`, so the pick can be up to 2e-9 above another candidate. This is stated instead of "the minimum". `CellChoice.ChooseSeparated` gives the exact choice when scores are separated.
- The dict `score_map` is modelled as a map. Its key order is the candidate order, used by nothing but `print`.
- GridData.GetNeighbours, ProbabilityHeuristic.ComputeLocalProbs, CellChoice.ChooseLowestProbCell and DeterministicSolver.SolverRun require a rectangular board with at least one row (`IsBoard`), as do the members built on them. Python raises `IndexError` at `len(grid[0])` on an empty grid. On ragged rows it takes `len(grid[0])` as the width, so a shorter row raises `IndexError`. Neither error path is modelled, since every grid read from the screen is a full rectangle.
- DeterministicSolver.ChangeMap: `change_map` raises `IndexError` in Python on an empty first grid (`len(grid1[0])`), on a second grid with fewer rows than the first, and on a row of either grid shorter than the first grid's first row. The model requires none of these to happen (`Comparable`); `SolverRun`, the only caller, passes two grids of the same shape.
- `grid_data_refactored.py`, which mouse_control.py and mouse_control_debug_chatgpt.py import, is not part of this model. Its `run` is taken to behave like `GridData.Run`.
- main_runner.py imports `get_flags_and_safes_locations` and `grid_to_coords` from mouse_control.py, which does not define them. They are modelled as the collector `MouseControl.GetFlagAndSafeFromChanges` and as indexing `coord_grid[r][c]`.
- MouseControlDebug.ToIntCoord: its `ValueError` branch for `None` cannot be reached from the clickers. They unpack `(x, y)` first, which raises `TypeError` on `None`, and that is what `Clicks` models.
- The `COLOR_VALUE_MAP` entries for (189, 189, 189) and (0, 0, 0) are unreachable from the lookup. Both colours are handled before it.
- Context files `grid_data_ithinkitworksnow.py`, `extra.py` and `idk_bro.py` are not part of this model.

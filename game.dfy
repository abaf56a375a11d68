/** The playable Minesweeper game: a board object whose click handlers place
    the mines on the first click, reveal cells with a flood fill, toggle
    flags, chord, and end the game; and the command-line parsing of its
    size. Drawing, dialogs and the Tk event loop are not modelled; a click
    arrives as its pixel position. */
module Game {
  import opened Wrappers
  import opened Text
  import opened Tiles
  import opened GameBoard

  /** What `random.sample` raises when asked for more mines than free cells,
      or for a negative number. */
  const SAMPLE_ERROR: Error := ValueError("Sample larger than population or is negative")

  /** No mine, nothing revealed, no counts: the board before the first click. */
  ghost predicate Untouched(g: Grid) {
    forall r, c :: InGrid(g, (r, c)) ==> !g[r][c].isMine && !g[r][c].revealed && g[r][c].adjacent == 0
  }

  /** While the game runs, a revealed cell is neither flagged nor a mine. */
  ghost predicate Sound(g: Grid) {
    forall r, c :: InGrid(g, (r, c)) && g[r][c].revealed ==> !g[r][c].flagged && !g[r][c].isMine
  }

  /** Same shape, and every cell as revealed and as flagged as before. */
  ghost predicate SameCover(g0: Grid, g1: Grid) {
    SameShape(g0, g1) &&
    forall r, c :: InGrid(g0, (r, c)) ==> g1[r][c].revealed == g0[r][c].revealed && g1[r][c].flagged == g0[r][c].flagged
  }

  /** Flags and revealed cells as before, mines and counts as the placement
      left them: what `place_mines` changes. */
  ghost predicate Placed(g0: Grid, g1: Grid, draw: seq<Coord>) {
    SameCover(g0, g1) &&
    (forall r, c :: InGrid(g0, (r, c)) ==>
      g1[r][c].isMine == (g0[r][c].isMine || (r, c) in draw) &&
      (g1[r][c].isMine ==> g1[r][c].adjacent == g0[r][c].adjacent)) &&
    AdjacencyCorrect(g1)
  }

  /** A cell after the adjacency update: counted unless it holds a mine. */
  function Recounted(g: Grid, p: Coord): Cell
    requires InGrid(g, p)
  {
    if At(g, p).isMine then At(g, p) else At(g, p).(adjacent := MinesAround(g, p))
  }

  /** The board after the adjacency update. */
  function Recount(g: Grid): Grid {
    seq(|g|, r requires 0 <= r < |g| => seq(|g[r]|, c requires 0 <= c < |g[r]| => Recounted(g, (r, c))))
  }

  /** Setting the drawn mines and then updating the counts is a placement. */
  lemma RecountPlaced(g0: Grid, g1: Grid, draw: seq<Coord>)
    requires SameShape(g0, g1)
    requires forall r, c :: InGrid(g0, (r, c)) ==> g1[r][c] == g0[r][c].(isMine := g0[r][c].isMine || (r, c) in draw)
    ensures Placed(g0, Recount(g1), draw)
  {
    var g2 := Recount(g1);
    assert SameMines(g1, g2);
    forall r, c | InGrid(g2, (r, c)) && !g2[r][c].isMine
      ensures g2[r][c].adjacent == MinesAround(g2, (r, c))
    {
      MinesAmongSame(g1, g2, (r, c), 8);
    }
  }

  /** The invariant of a game, over its fields: the board matches its size,
      the flag counter matches the flags, mines are absent before the first
      click and counted after it, and a running game shows no mine and no
      flag on a revealed cell. */
  ghost predicate Consistent(g: Grid, rows: nat, cols: nat, mines: int, firstClick: bool, gameOver: bool, flagsLeft: int) {
    Shaped(g, rows, cols) &&
    flagsLeft + |FlagSet(g)| == mines &&
    (firstClick ==> Untouched(g) && !gameOver) &&
    (!firstClick ==> AdjacencyCorrect(g) && |MineSet(g)| == mines) &&
    (!gameOver ==> Sound(g))
  }

  /** `grid[p.0][p.1]` replaced by `cell`. */
  function WithCell(g: Grid, p: Coord, cell: Cell): Grid
    requires InGrid(g, p)
  {
    g[p.0 := g[p.0][p.1 := cell]]
  }

  /** Changing one cell's flag or cover keeps mines and counts. */
  lemma WithCellLayout(g: Grid, p: Coord, cell: Cell)
    requires InGrid(g, p) && cell.isMine == At(g, p).isMine && cell.adjacent == At(g, p).adjacent
    ensures SameLayout(g, WithCell(g, p, cell)) && MineSet(WithCell(g, p, cell)) == MineSet(g)
  {
    assert MineSet(WithCell(g, p, cell)) == MineSet(g);
  }

  lemma WithCellSound(g: Grid, p: Coord, cell: Cell)
    requires InGrid(g, p) && Sound(g) && (cell.revealed ==> !cell.flagged && !cell.isMine)
    ensures Sound(WithCell(g, p, cell))
  {
  }

  lemma WithCellUntouched(g: Grid, p: Coord, cell: Cell)
    requires InGrid(g, p) && Untouched(g) && !cell.isMine && !cell.revealed && cell.adjacent == 0
    ensures Untouched(WithCell(g, p, cell))
  {
  }

  /** Toggling the flag of a covered cell keeps a running game consistent,
      the counter moving against the flag. */
  lemma ToggleKeeps(g: Grid, p: Coord, rows: nat, cols: nat, mines: int, firstClick: bool, flagsLeft: int)
    requires Consistent(g, rows, cols, mines, firstClick, false, flagsLeft) && InGrid(g, p) && !At(g, p).revealed
    ensures Consistent(WithCell(g, p, At(g, p).(flagged := !At(g, p).flagged)), rows, cols, mines, firstClick, false,
      flagsLeft + (if At(g, p).flagged then 1 else -1))
  {
    var cell := At(g, p).(flagged := !At(g, p).flagged);
    var g' := WithCell(g, p, cell);
    FlagToggle(g, p);
    WithCellLayout(g, p, cell);
    WithCellSound(g, p, cell);
    if firstClick {
      WithCellUntouched(g, p, cell);
    } else {
      AdjacencyKept(g, g');
    }
    assert Shaped(g', rows, cols);
  }

  /** Revealing cells keeps a started game consistent, whether it ends or
      not; while it runs, the new cells must be neither mines nor flagged. */
  lemma RevealKeeps(g0: Grid, g1: Grid, rows: nat, cols: nat, mines: int, flagsLeft: int, over: bool)
    requires Consistent(g0, rows, cols, mines, false, false, flagsLeft) && OnlyReveals(g0, g1)
    requires !over ==> forall q :: Fresh(g0, g1, q) ==> !At(g1, q).isMine && !At(g1, q).flagged
    ensures Consistent(g1, rows, cols, mines, false, over, flagsLeft)
  {
    OnlyRevealsSets(g0, g1);
    AdjacencyKept(g0, g1);
    ShapedKept(g0, g1, rows, cols);
    if !over {
      forall r, c | InGrid(g1, (r, c)) && g1[r][c].revealed
        ensures !g1[r][c].flagged && !g1[r][c].isMine
      {
        if !g0[r][c].revealed {
          assert Fresh(g0, g1, (r, c));
        }
      }
    }
  }

  /** Placing the drawn mines on an untouched board starts the game. */
  lemma PlacedKeeps(g0: Grid, g1: Grid, draw: seq<Coord>, rows: nat, cols: nat, mines: int, flagsLeft: int)
    requires Consistent(g0, rows, cols, mines, true, false, flagsLeft) && Placed(g0, g1, draw)
    requires Distinct(draw) && |draw| == mines && forall i :: 0 <= i < |draw| ==> InGrid(g0, draw[i])
    ensures Consistent(g1, rows, cols, mines, false, false, flagsLeft)
    ensures FlagSet(g1) == FlagSet(g0) && forall q :: q in MineSet(g1) ==> q in draw
  {
    MinesFromDraw(g0, g1, draw);
    assert FlagSet(g1) == FlagSet(g0);
  }

  /** The in-board neighbours among the first k, in the order of the `dr` / `dc` loops. */
  function NeighbourCells(rows: int, cols: int, p: Coord, k: nat): seq<Coord>
    requires k <= 8
  {
    if k == 0 then []
    else
      var q := Nb(p, k - 1);
      NeighbourCells(rows, cols, p, k - 1) + (if 0 <= q.0 < rows && 0 <= q.1 < cols then [q] else [])
  }

  /** The list holds the in-board cells among the first k neighbours, and only those. */
  lemma {:induction false} NeighbourCellsMembers(rows: int, cols: int, p: Coord, k: nat)
    requires k <= 8
    ensures forall j :: 0 <= j < k && 0 <= Nb(p, j).0 < rows && 0 <= Nb(p, j).1 < cols ==>
      Nb(p, j) in NeighbourCells(rows, cols, p, k)
    ensures forall q :: q in NeighbourCells(rows, cols, p, k) ==> Adjacent(p, q) && 0 <= q.0 < rows && 0 <= q.1 < cols
  {
    if k > 0 {
      NeighbourCellsMembers(rows, cols, p, k - 1);
      NbAdjacent(p, k - 1);
    }
  }

  /** Every drawn position lies on the board. */
  lemma DrawOnBoard(g: Grid, rows: nat, cols: nat, click: Coord, draw: seq<Coord>, k: int)
    requires Shaped(g, rows, cols) && IsSample(draw, Positions(rows, cols, click), k)
    ensures forall i :: 0 <= i < |draw| ==> InGrid(g, draw[i])
  {
    PositionsMembers(rows, cols, click);
  }

  /** One entry of the neighbour list is an in-board neighbour. */
  lemma NeighbourCellsEntry(rows: int, cols: int, p: Coord, neighbors: seq<Coord>, i: nat)
    requires neighbors == NeighbourCells(rows, cols, p, 8) && i < |neighbors|
    ensures Adjacent(p, neighbors[i]) && 0 <= neighbors[i].0 < rows && 0 <= neighbors[i].1 < cols
  {
    NeighbourCellsMembers(rows, cols, p, 8);
    assert neighbors[i] in neighbors;
  }

  /** A board placed on an untouched grid holds exactly the drawn mines. */
  lemma MinesFromDraw(g0: Grid, g1: Grid, draw: seq<Coord>)
    requires Untouched(g0) && Placed(g0, g1, draw) && Distinct(draw)
    requires forall i :: 0 <= i < |draw| ==> InGrid(g0, draw[i])
    ensures |MineSet(g1)| == |draw|
  {
    assert MineSet(g1) == set i | 0 <= i < |draw| :: draw[i];
    DistinctCard(draw);
  }

  /** The mines are placed and the game started: cover and flags as
      before, and no mine on or around the clicked cell. */
  ghost predicate FirstPlaced(g0: Grid, g1: Grid, p: Coord) {
    SameCover(g0, g1) && FlagSet(g1) == FlagSet(g0) && InGrid(g1, p) &&
    !At(g1, p).isMine && forall q :: q in MineSet(g1) ==> !NearClick(p, q)
  }

  /** The rest of `on_left_click` on a started board, once the mines are
      placed: a flagged or revealed cell is left alone; a covered mine is
      revealed and then every mine is shown and the game is over; any other
      cell is filled from, and the game is over exactly when every safe
      cell is revealed. */
  ghost predicate Uncovered(g0: Grid, g1: Grid, p: Coord, over: bool) {
    InGrid(g0, p) &&
    if At(g0, p).flagged || At(g0, p).revealed then g1 == g0 && !over
    else if At(g0, p).isMine then over && g1 == RevealMines(WithCell(g0, p, At(g0, p).(revealed := true)))
    else g1 == Flood(g0, p) && over == AllSafeRevealed(g1)
  }

  /** What a handled left click on `p` does, `first` telling whether it
      was the first click: the first click places the drawn mines, then
      the cell is uncovered. */
  ghost predicate LeftClicked(g0: Grid, g1: Grid, p: Coord, first: bool, draw: seq<Coord>, over: bool) {
    if first then exists gp :: Placed(g0, gp, draw) && Uncovered(gp, g1, p, over)
    else Uncovered(g0, g1, p, over)
  }

  /** Uncovering only reveals and keeps flags and mines; the clicked cell
      ends revealed unless it was flagged or revealed already; a mine loses
      and shows every mine and nothing else; on a correctly counted board a
      fill from a safe cell reveals no mine, spreads only from revealed
      empty cells and leaves them closed, and ends the game iff it is won. */
  lemma UncoveredEffects(g0: Grid, g1: Grid, p: Coord, over: bool)
    requires AdjacencyCorrect(g0) && Uncovered(g0, g1, p, over)
    ensures OnlyReveals(g0, g1) && FlagSet(g1) == FlagSet(g0) && MineSet(g1) == MineSet(g0)
    ensures At(g0, p).flagged || At(g0, p).revealed ==> g1 == g0 && !over
    ensures !At(g0, p).flagged && !At(g0, p).revealed ==> At(g1, p).revealed
    ensures !At(g0, p).flagged && !At(g0, p).revealed && At(g0, p).isMine ==>
      over && AllMinesRevealed(g1) && forall q :: Fresh(g0, g1, q) ==> At(g1, q).isMine
    ensures !At(g0, p).flagged && !At(g0, p).revealed && !At(g0, p).isMine ==>
      Spread(g0, g1, p) && Closed(g0, g1) && over == AllSafeRevealed(g1) &&
      forall q :: Fresh(g0, g1, q) ==> !At(g1, q).isMine
  {
    var cell := At(g0, p);
    if cell.flagged || cell.revealed {
      OnlyRevealsRefl(g0, p);
    } else if cell.isMine {
      var wc := RevealOne(g0, p);
      assert wc == WithCell(g0, p, cell.(revealed := true));
      RevealMinesProperties(wc);
      OnlyRevealsTrans(g0, wc, g1);
      forall q | Fresh(g0, g1, q)
        ensures At(g1, q).isMine
      {
        if !At(wc, q).revealed {
          assert Fresh(wc, g1, q);
        }
      }
    } else {
      FloodReveals(g0, p);
      FillRevealsNoMine(g0, g1, p);
    }
    OnlyRevealsSets(g0, g1);
  }

  /** The first click: the board holds exactly the drawn mines, none on or
      around the clicked cell, the flags are as before, and unless the cell
      was flagged it is revealed without revealing any mine, the game ending
      only when that fill wins it. */
  lemma FirstClickEffects(g0: Grid, g1: Grid, rows: nat, cols: nat, p: Coord, draw: seq<Coord>, over: bool)
    requires Shaped(g0, rows, cols) && Untouched(g0) && IsSample(draw, Positions(rows, cols, p), |draw|)
    requires LeftClicked(g0, g1, p, true, draw, over)
    ensures MineSet(g1) == (set i | 0 <= i < |draw| :: draw[i]) && FlagSet(g1) == FlagSet(g0)
    ensures InGrid(g1, p) && !At(g1, p).isMine && forall q :: q in MineSet(g1) ==> !NearClick(p, q)
    ensures !At(g0, p).flagged ==>
      At(g1, p).revealed && over == AllSafeRevealed(g1) && forall q :: Fresh(g0, g1, q) ==> !At(g1, q).isMine
  {
    var gp :| Placed(g0, gp, draw) && Uncovered(gp, g1, p, over);
    PlacedAwayFromClick(g0, gp, rows, cols, p, draw);
    UncoveredEffects(gp, g1, p, over);
    SameCoverFresh(g0, gp, g1);
  }

  /** Boards with the same cover reveal the same cells on the way to g1. */
  lemma SameCoverFresh(g0: Grid, g0': Grid, g1: Grid)
    requires SameCover(g0, g0')
    ensures forall q :: Fresh(g0, g1, q) <==> Fresh(g0', g1, q)
  {
  }

  /** Placing a sample of the positions on an untouched board: exactly the
      drawn mines, none on or around the click, the cover as before. */
  lemma PlacedAwayFromClick(g0: Grid, gp: Grid, rows: nat, cols: nat, p: Coord, draw: seq<Coord>)
    requires Shaped(g0, rows, cols) && Untouched(g0) && IsSample(draw, Positions(rows, cols, p), |draw|)
    requires Placed(g0, gp, draw) && InGrid(gp, p)
    ensures MineSet(gp) == (set i | 0 <= i < |draw| :: draw[i]) && FlagSet(gp) == FlagSet(g0)
    ensures !At(gp, p).isMine && !At(gp, p).revealed && At(gp, p).flagged == At(g0, p).flagged
    ensures forall q :: q in MineSet(gp) ==> !NearClick(p, q)
  {
    DrawOnBoard(g0, rows, cols, p, draw, |draw|);
    assert MineSet(gp) == (set i | 0 <= i < |draw| :: draw[i]);
    assert FlagSet(gp) == FlagSet(g0);
    PositionsMembers(rows, cols, p);
    assert forall i :: 0 <= i < |draw| ==> !NearClick(p, draw[i]);
  }

  /** The second loop of `on_double_click` on a board value, from the i-th
      neighbour on: a flagged or revealed neighbour is passed over; the
      first covered one holding a mine is revealed, every mine is shown and
      the chord is lost; any other is filled from. The result is the board
      and whether the chord was lost. The neighbours the loop is given all
      lie on the board; the `InGrid` test only keeps the function total. */
  ghost function ChordRun(g: Grid, ns: seq<Coord>, i: nat): (Grid, bool)
    requires i <= |ns|
    decreases |ns| - i
  {
    if i == |ns| then (g, false)
    else
      var q := ns[i];
      if !InGrid(g, q) || At(g, q).flagged || At(g, q).revealed then ChordRun(g, ns, i + 1)
      else if At(g, q).isMine then (RevealMines(WithCell(g, q, At(g, q).(revealed := true))), true)
      else ChordRun(Flood(g, q), ns, i + 1)
  }

  /** What a chord on `p` does: the loop over its in-board neighbours, the
      game ending on a loss or else exactly when it is won. */
  ghost predicate Chorded(g0: Grid, g1: Grid, rows: int, cols: int, p: Coord, lost: bool, over: bool) {
    (g1, lost) == ChordRun(g0, NeighbourCells(rows, cols, p, 8), 0) && over == (lost || AllSafeRevealed(g1))
  }

  /** The rest of a chord loop, started from a board that only revealed
      safe cells since g0 and settled the first i neighbours: it only
      reveals; a loss shows every mine and comes from a covered unflagged
      mine among the remaining neighbours; otherwise every neighbour ends
      settled and no mine is revealed. */
  lemma {:induction false} ChordRunEffects(g0: Grid, g: Grid, ns: seq<Coord>, i: nat)
    requires i <= |ns| && AdjacencyCorrect(g0) && OnlyReveals(g0, g) && AllSettled(g, ns, i)
    requires forall q :: Fresh(g0, g, q) ==> !At(g, q).isMine
    ensures var (g1, lost) := ChordRun(g, ns, i);
      OnlyReveals(g0, g1) &&
      (lost ==> (AllMinesRevealed(g1) &&
        exists j :: i <= j < |ns| && InGrid(g0, ns[j]) && !At(g0, ns[j]).flagged && At(g0, ns[j]).isMine)) &&
      (!lost ==> (AllSettled(g1, ns, |ns|) && forall q :: Fresh(g0, g1, q) ==> !At(g1, q).isMine))
    decreases |ns| - i
  {
    if i < |ns| {
      var q := ns[i];
      if !InGrid(g, q) || At(g, q).flagged || At(g, q).revealed {
        OnlyRevealsRefl(g, q);
        AllSettledStep(g, g, ns, i);
        ChordRunEffects(g0, g, ns, i + 1);
      } else if At(g, q).isMine {
        var wc := RevealOne(g, q);
        assert wc == WithCell(g, q, At(g, q).(revealed := true));
        RevealMinesProperties(wc);
        OnlyRevealsTrans(g0, g, wc);
        OnlyRevealsTrans(g0, wc, RevealMines(wc));
        assert InGrid(g0, ns[i]) && !At(g0, ns[i]).flagged && At(g0, ns[i]).isMine;
      } else {
        var g2 := Flood(g, q);
        FloodReveals(g, q);
        OnlyRevealsSets(g0, g);
        AdjacencyKept(g0, g);
        FillRevealsNoMine(g, g2, q);
        AllSettledStep(g, g2, ns, i);
        OnlyRevealsTrans(g0, g, g2);
        forall q' | Fresh(g0, g2, q')
          ensures !At(g2, q').isMine
        {
          if At(g, q').revealed {
            assert Fresh(g0, g, q');
          } else {
            assert Fresh(g, g2, q');
          }
        }
        ChordRunEffects(g0, g2, ns, i + 1);
      }
    }
  }

  /** A chord on a correctly counted safe cell with as many flags as its
      count only reveals and keeps the flags; it loses only on an unflagged
      mine next to `p`, then showing every mine; otherwise every neighbour
      ends revealed or flagged, no mine is revealed, and the game ends
      exactly when it is won; and it never loses when every flag around `p`
      sits on a mine. */
  lemma ChordedEffects(g0: Grid, g1: Grid, rows: nat, cols: nat, p: Coord, lost: bool, over: bool)
    requires Shaped(g0, rows, cols) && AdjacencyCorrect(g0) && InGrid(g0, p) && !At(g0, p).isMine
    requires FlagsAmong(g0, p, 8) == At(g0, p).adjacent
    requires Chorded(g0, g1, rows, cols, p, lost, over)
    ensures OnlyReveals(g0, g1) && FlagSet(g1) == FlagSet(g0)
    ensures lost ==> over && AllMinesRevealed(g1)
    ensures lost ==> exists q :: Adjacent(p, q) && InGrid(g0, q) && !At(g0, q).flagged && At(g0, q).isMine
    ensures !lost ==> over == AllSafeRevealed(g1) && forall j :: 0 <= j < 8 ==> Settled(g1, Nb(p, j))
    ensures !lost ==> forall q :: Fresh(g0, g1, q) ==> !At(g1, q).isMine
    ensures FlagsRight(g0, p) ==> !lost
  {
    var ns := NeighbourCells(rows, cols, p, 8);
    OnlyRevealsRefl(g0, p);
    ChordRunEffects(g0, g0, ns, 0);
    OnlyRevealsSets(g0, g1);
    if lost {
      var j :| 0 <= j < |ns| && InGrid(g0, ns[j]) && !At(g0, ns[j]).flagged && At(g0, ns[j]).isMine;
      NeighbourCellsEntry(rows, cols, p, ns, j);
      var k := AdjacentIndex(p, ns[j]);
      ChordSafe(g0, p);
    } else {
      ChordDone(g0, g1, rows, cols, p, ns);
    }
  }

  /** A chord that went through every in-board neighbour without a hit. */
  lemma ChordDone(g0: Grid, g1: Grid, rows: nat, cols: nat, p: Coord, neighbors: seq<Coord>)
    requires Shaped(g0, rows, cols) && OnlyReveals(g0, g1)
    requires neighbors == NeighbourCells(rows, cols, p, 8) && AllSettled(g1, neighbors, |neighbors|)
    ensures forall j :: 0 <= j < 8 ==> Settled(g1, Nb(p, j))
  {
    NeighbourCellsMembers(rows, cols, p, 8);
    forall j | 0 <= j < 8
      ensures Settled(g1, Nb(p, j))
    {
      if InGrid(g1, Nb(p, j)) {
        assert Nb(p, j) in neighbors;
      }
    }
  }

  class Minesweeper {
    const rows: nat
    const cols: nat
    const mines: int
    var firstClick: bool
    var gameOver: bool
    var flagsLeft: int
    var grid: Grid

    ghost predicate Valid()
      reads this
    {
      Consistent(grid, rows, cols, mines, firstClick, gameOver, flagsLeft)
    }

    constructor (rows: nat, cols: nat, mines: int)
      ensures Valid()
      ensures this.rows == rows && this.cols == cols && this.mines == mines
      ensures firstClick && !gameOver && flagsLeft == mines && grid == FreshGrid(rows, cols)
    {
      this.rows := rows;
      this.cols := cols;
      this.mines := mines;
      firstClick := true;
      gameOver := false;
      flagsLeft := mines;
      grid := FreshGrid(rows, cols);
      new;
      assert FlagSet(grid) == {};
    }

    /** `place_mines`: `draw` stands for the list `random.sample` returns. */
    method PlaceMines(click: Coord, draw: seq<Coord>) returns (raised: Option<Error>)
      requires Shaped(grid, rows, cols)
      requires 0 <= mines <= |Positions(rows, cols, click)| ==> IsSample(draw, Positions(rows, cols, click), mines)
      modifies this`grid
      ensures raised.Some? <==> !(0 <= mines <= |Positions(rows, cols, click)|)
      ensures raised.Some? ==> raised == Some(SAMPLE_ERROR) && grid == old(grid)
      ensures raised.None? ==> Shaped(grid, rows, cols) && Placed(old(grid), grid, draw)
    {
      var positions := Positions(rows, cols, click);
      if !(0 <= mines <= |positions|) {
        return Some(SAMPLE_ERROR);
      }
      DrawOnBoard(grid, rows, cols, click, draw, mines);
      MarkMines(draw);
      ghost var g1 := grid;
      RecountAll(g1);
      RecountPlaced(old(grid), g1, draw);
      return None;
    }

    /** The `for (r, c) in mines` loop of `place_mines`. */
    method MarkMines(draw: seq<Coord>)
      requires Shaped(grid, rows, cols) && forall i :: 0 <= i < |draw| ==> InGrid(grid, draw[i])
      modifies this`grid
      ensures Shaped(grid, rows, cols)
      ensures forall r, c :: InGrid(grid, (r, c)) ==>
        grid[r][c] == old(grid)[r][c].(isMine := old(grid)[r][c].isMine || (r, c) in draw)
    {
      var i := 0;
      while i < |draw|
        invariant 0 <= i <= |draw|
        invariant Shaped(grid, rows, cols)
        invariant forall r, c :: InGrid(grid, (r, c)) ==>
          grid[r][c] == old(grid)[r][c].(isMine := old(grid)[r][c].isMine || (r, c) in draw[..i])
      {
        var (r, c) := draw[i];
        grid := grid[r := grid[r][c := grid[r][c].(isMine := true)]];
        i := i + 1;
      }
      assert draw[..i] == draw;
    }

    /** The adjacency update of `place_mines`, row by row. */
    method RecountAll(ghost g1: Grid)
      requires Shaped(grid, rows, cols) && grid == g1
      modifies this`grid
      ensures grid == Recount(g1)
    {
      var r := 0;
      while r < rows
        invariant 0 <= r <= rows
        invariant Shaped(grid, rows, cols) && SameMines(g1, grid)
        invariant forall r' :: r <= r' < rows ==> grid[r'] == g1[r']
        invariant forall r' :: 0 <= r' < r ==> grid[r'] == Recount(g1)[r']
      {
        RecountRow(r, g1);
        r := r + 1;
      }
      assert forall r' :: 0 <= r' < rows ==> grid[r'] == Recount(g1)[r'];
    }

    /** The body of the `for r` loop of the adjacency update: every cell of
        row r without a mine gets the count of mines around it. */
    method RecountRow(r: nat, ghost g1: Grid)
      requires Shaped(grid, rows, cols) && r < rows && SameMines(g1, grid) && grid[r] == g1[r]
      modifies this`grid
      ensures Shaped(grid, rows, cols) && SameMines(g1, grid)
      ensures forall r' :: 0 <= r' < rows && r' != r ==> grid[r'] == old(grid)[r']
      ensures grid[r] == Recount(g1)[r]
    {
      var row := CountRow(r, g1);
      assert forall c' :: 0 <= c' < cols ==> row[c'] == Recount(g1)[r][c'];
      grid := grid[r := row];
    }

    /** The `for c` loop of the adjacency update, building row r. */
    method CountRow(r: nat, ghost g1: Grid) returns (row: seq<Cell>)
      requires Shaped(grid, rows, cols) && r < rows && SameMines(g1, grid) && grid[r] == g1[r]
      ensures |row| == cols && forall c :: 0 <= c < cols ==> row[c] == Recounted(g1, (r, c))
    {
      row := grid[r];
      var c := 0;
      while c < cols
        invariant 0 <= c <= cols && |row| == cols
        invariant forall c' :: c <= c' < cols ==> row[c'] == g1[r][c']
        invariant forall c' :: 0 <= c' < c ==> row[c'] == Recounted(g1, (r, c'))
      {
        if !row[c].isMine {
          var cnt := CountAround((r, c));
          MinesAmongSame(g1, grid, (r, c), 8);
          row := row[c := row[c].(adjacent := cnt)];
        }
        c := c + 1;
      }
    }

    /** The `dr` / `dc` loops counting the mines around `p`. */
    method CountAround(p: Coord) returns (cnt: nat)
      requires Shaped(grid, rows, cols)
      ensures cnt == MinesAround(grid, p)
    {
      cnt := 0;
      var k := 0;
      while k < 8
        invariant 0 <= k <= 8
        invariant cnt == MinesAmong(grid, p, k)
      {
        var q := Nb(p, k);
        if 0 <= q.0 < rows && 0 <= q.1 < cols && grid[q.0][q.1].isMine {
          cnt := cnt + 1;
        }
        k := k + 1;
      }
    }

    /** What the first click must be given as `random.sample`'s list. */
    ghost predicate DrawFits(x: int, y: int, draw: seq<Coord>)
      reads this
    {
      var pos := CoordsFromEvent(x, y, rows, cols);
      firstClick && pos.Some? && 0 <= mines <= |Positions(rows, cols, pos.value)| ==>
        IsSample(draw, Positions(rows, cols, pos.value), mines)
    }

    /** `on_left_click`. The first click places the mines away from the
        clicked cell; a click on a covered unflagged cell then either hits a
        mine and loses, or reveals with a flood fill and wins once every
        safe cell is revealed. The first click never hits a mine. */
    method OnLeftClick(x: int, y: int, draw: seq<Coord>) returns (raised: Option<Error>)
      requires Valid() && DrawFits(x, y, draw)
      modifies this
      ensures Valid()
      ensures var pos := CoordsFromEvent(x, y, rows, cols);
        if old(gameOver) || pos.None? then raised.None? && unchanged(this)
        else if old(firstClick) && !(0 <= mines <= |Positions(rows, cols, pos.value)|) then
          raised == Some(SAMPLE_ERROR) && unchanged(this)
        else
          raised.None? && !firstClick && flagsLeft == old(flagsLeft) &&
          LeftClicked(old(grid), grid, pos.value, old(firstClick), draw, gameOver)
    {
      raised := None;
      if gameOver {
        return;
      }
      var pos := CoordsFromEvent(x, y, rows, cols);
      if pos.None? {
        return;
      }
      var p := pos.value;
      ghost var g0 := grid;
      ghost var first := firstClick;
      if firstClick {
        raised := FirstClick(p, draw);
        if raised.Some? {
          return;
        }
      }
      ghost var g1 := grid;
      Uncover(p);
      if first {
        assert Placed(g0, g1, draw) && Uncovered(g1, grid, p, gameOver);
      }
    }

    /** The `if self.first_click` block of `on_left_click`: place the mines
        away from the clicked cell and start the game. */
    method FirstClick(p: Coord, draw: seq<Coord>) returns (raised: Option<Error>)
      requires Valid() && firstClick && InGrid(grid, p)
      requires 0 <= mines <= |Positions(rows, cols, p)| ==> IsSample(draw, Positions(rows, cols, p), mines)
      modifies this`grid, this`firstClick
      ensures Valid()
      ensures raised.Some? <==> !(0 <= mines <= |Positions(rows, cols, p)|)
      ensures raised.Some? ==> raised == Some(SAMPLE_ERROR) && grid == old(grid) && firstClick
      ensures raised.None? ==> !firstClick && Placed(old(grid), grid, draw) && FirstPlaced(old(grid), grid, p)
    {
      ghost var g0 := grid;
      raised := PlaceMines(p, draw);
      if raised.Some? {
        return;
      }
      PositionsMembers(rows, cols, p);
      PlacedKeeps(g0, grid, draw, rows, cols, mines, flagsLeft);
      assert p !in MineSet(grid);
      firstClick := false;
    }

    /** The rest of `on_left_click`, once the mines are placed. */
    method Uncover(p: Coord)
      requires Valid() && !firstClick && !gameOver && InGrid(grid, p)
      modifies this`grid, this`gameOver
      ensures Valid()
      ensures Uncovered(old(grid), grid, p, gameOver)
    {
      var cell := grid[p.0][p.1];
      if cell.flagged || cell.revealed {
        return;
      }
      ghost var g0 := grid;
      if cell.isMine {
        grid := WithCell(grid, p, cell.(revealed := true));
        ghost var g1 := grid;
        GameLost();
        UncoveredEffects(g0, grid, p, true);
        RevealKeeps(g0, grid, rows, cols, mines, flagsLeft, true);
        return;
      }
      RevealCell(p);
      FloodReveals(g0, p);
      FillRevealsNoMine(g0, grid, p);
      RevealKeeps(g0, grid, rows, cols, mines, flagsLeft, false);
      EndIfWon();
    }

    /** `reveal_cell`: reveal the cell and, when it is empty, recursively
        every covered in-board neighbour; the result is `Flood`, whose
        properties `FloodReveals` states. */
    method RevealCell(p: Coord)
      requires Shaped(grid, rows, cols) && InGrid(grid, p)
      modifies this`grid
      ensures grid == Flood(old(grid), p) && Shaped(grid, rows, cols)
      decreases Unrevealed(grid)
    {
      var cell := grid[p.0][p.1];
      if cell.revealed || cell.flagged {
        return;
      }
      ghost var g0 := grid;
      ghost var g1 := RevealOne(g0, p);
      grid := grid[p.0 := grid[p.0][p.1 := cell.(revealed := true)]];
      assert grid == g1;
      ShapedKept(g0, grid, rows, cols);
      FewerUnrevealed(g0, grid, p);
      if cell.adjacent == 0 && !cell.isMine {
        var k := 0;
        while k < 8
          invariant 0 <= k <= 8
          invariant Shaped(grid, rows, cols) && Unrevealed(grid) < Unrevealed(g0)
          invariant FloodFrom(grid, p, k) == FloodFrom(g1, p, 0)
        {
          var q := Nb(p, k);
          FloodFromStep(grid, p, k);
          if 0 <= q.0 < rows && 0 <= q.1 < cols && !grid[q.0][q.1].revealed {
            RevealCell(q);
          }
          k := k + 1;
        }
      }
    }

    /** `on_right_click`: toggle the flag of a covered cell and move the
        flag counter the other way. */
    method OnRightClick(x: int, y: int)
      requires Valid()
      modifies this`grid, this`flagsLeft
      ensures Valid()
      ensures var pos := CoordsFromEvent(x, y, rows, cols);
        if old(gameOver) || pos.None? || At(old(grid), pos.value).revealed then
          grid == old(grid) && flagsLeft == old(flagsLeft)
        else
          var cell := At(old(grid), pos.value);
          grid == WithCell(old(grid), pos.value, cell.(flagged := !cell.flagged)) &&
          flagsLeft == old(flagsLeft) + (if cell.flagged then 1 else -1)
    {
      if gameOver {
        return;
      }
      var pos := CoordsFromEvent(x, y, rows, cols);
      if pos.None? {
        return;
      }
      var p := pos.value;
      var cell := grid[p.0][p.1];
      if cell.revealed {
        return;
      }
      ToggleKeeps(grid, p, rows, cols, mines, firstClick, flagsLeft);
      grid := WithCell(grid, p, cell.(flagged := !cell.flagged));
      flagsLeft := flagsLeft + (if !cell.flagged then -1 else 1);
    }

    /** The chord condition: the game runs, the click is on a revealed cell
        with a nonzero count, and that many of its neighbours are flagged. */
    ghost predicate Chords(x: int, y: int)
      reads this
    {
      var pos := CoordsFromEvent(x, y, rows, cols);
      !gameOver && pos.Some? && InGrid(grid, pos.value) &&
      At(grid, pos.value).revealed && At(grid, pos.value).adjacent != 0 &&
      FlagsAmong(grid, pos.value, 8) == At(grid, pos.value).adjacent
    }

    /** `on_double_click`: a chord reveals every covered unflagged neighbour,
        losing at the first one that holds a mine; what that means is
        stated by `ChordedEffects`. */
    method OnDoubleClick(x: int, y: int) returns (lost: bool)
      requires Valid()
      modifies this`grid, this`gameOver
      ensures Valid()
      ensures !old(Chords(x, y)) ==> !lost && grid == old(grid) && gameOver == old(gameOver)
      ensures old(Chords(x, y)) ==>
        Chorded(old(grid), grid, rows, cols, CoordsFromEvent(x, y, rows, cols).value, lost, gameOver)
    {
      lost := false;
      if gameOver {
        return;
      }
      var pos := CoordsFromEvent(x, y, rows, cols);
      if pos.None? {
        return;
      }
      var p := pos.value;
      var cell := grid[p.0][p.1];
      if !cell.revealed || cell.adjacent == 0 {
        return;
      }
      var flagged, neighbors := Survey(p);
      if flagged != cell.adjacent {
        return;
      }
      assert !firstClick;
      lost := Chord(p, neighbors);
    }

    /** The second loop of `on_double_click`, over the in-board neighbours,
        followed by the win check when nothing was hit. */
    method Chord(p: Coord, neighbors: seq<Coord>) returns (lost: bool)
      requires Valid() && !firstClick && !gameOver && neighbors == NeighbourCells(rows, cols, p, 8)
      modifies this`grid, this`gameOver
      ensures Valid() && Chorded(old(grid), grid, rows, cols, p, lost, gameOver)
    {
      ghost var g0 := grid;
      var i := 0;
      while i < |neighbors|
        invariant 0 <= i <= |neighbors|
        invariant Valid() && !gameOver
        invariant ChordRun(grid, neighbors, i) == ChordRun(g0, neighbors, 0)
      {
        var q := neighbors[i];
        NeighbourCellsEntry(rows, cols, p, neighbors, i);
        var hit := ChordStep(q);
        if hit {
          return true;
        }
        i := i + 1;
      }
      EndIfWon();
      return false;
    }

    /** `if self.check_win(): self.game_won()`, the last step of a click. */
    method EndIfWon()
      requires Valid() && !firstClick && !gameOver
      modifies this`gameOver
      ensures Valid() && gameOver == AllSafeRevealed(grid)
    {
      var won := CheckWin();
      OnlyRevealsRefl(grid, (0, 0));
      RevealKeeps(grid, grid, rows, cols, mines, flagsLeft, won);
      if won {
        GameWon();
      }
    }

    /** One pass of the second loop of `on_double_click`: a covered
        unflagged neighbour is revealed, and if it holds a mine every mine
        is shown and the game is lost; otherwise it is filled from. */
    method ChordStep(q: Coord) returns (hit: bool)
      requires Valid() && !firstClick && !gameOver && InGrid(grid, q)
      modifies this`grid, this`gameOver
      ensures Valid()
      ensures var cell := At(old(grid), q);
        hit == (!cell.flagged && !cell.revealed && cell.isMine) && gameOver == hit &&
        grid == (if cell.flagged || cell.revealed then old(grid)
          else if cell.isMine then RevealMines(WithCell(old(grid), q, cell.(revealed := true)))
          else Flood(old(grid), q))
    {
      ghost var gm := grid;
      var neigh := grid[q.0][q.1];
      if neigh.flagged || neigh.revealed {
        return false;
      }
      if neigh.isMine {
        grid := WithCell(grid, q, neigh.(revealed := true));
        GameLost();
        UncoveredEffects(gm, grid, q, true);
        RevealKeeps(gm, grid, rows, cols, mines, flagsLeft, true);
        return true;
      }
      RevealCell(q);
      FloodReveals(gm, q);
      FillRevealsNoMine(gm, grid, q);
      RevealKeeps(gm, grid, rows, cols, mines, flagsLeft, false);
      return false;
    }

    /** The first loop of `on_double_click`: the in-board neighbours and how
        many of them are flagged. */
    method Survey(p: Coord) returns (flagged: nat, neighbors: seq<Coord>)
      requires Shaped(grid, rows, cols)
      ensures flagged == FlagsAmong(grid, p, 8) && neighbors == NeighbourCells(rows, cols, p, 8)
    {
      flagged := 0;
      neighbors := [];
      var k := 0;
      while k < 8
        invariant 0 <= k <= 8
        invariant flagged == FlagsAmong(grid, p, k) && neighbors == NeighbourCells(rows, cols, p, k)
      {
        var q := Nb(p, k);
        if 0 <= q.0 < rows && 0 <= q.1 < cols {
          neighbors := neighbors + [q];
          if grid[q.0][q.1].flagged {
            flagged := flagged + 1;
          }
        }
        k := k + 1;
      }
    }

    /** `game_lost`: the game ends and every mine is shown. */
    method GameLost()
      requires Shaped(grid, rows, cols)
      modifies this`grid, this`gameOver
      ensures gameOver && grid == RevealMines(old(grid))
    {
      gameOver := true;
      var r := 0;
      while r < rows
        invariant 0 <= r <= rows && gameOver
        invariant Shaped(grid, rows, cols)
        invariant forall r' :: 0 <= r' < r ==> grid[r'] == RevealRowMines(old(grid)[r'])
        invariant forall r' :: r <= r' < rows ==> grid[r'] == old(grid)[r']
      {
        var c := 0;
        while c < cols
          invariant 0 <= c <= cols && gameOver
          invariant Shaped(grid, rows, cols)
          invariant forall r' :: 0 <= r' < r ==> grid[r'] == RevealRowMines(old(grid)[r'])
          invariant forall r' :: r < r' < rows ==> grid[r'] == old(grid)[r']
          invariant forall c' :: 0 <= c' < c ==> grid[r][c'] == RevealRowMines(old(grid)[r])[c']
          invariant forall c' :: c <= c' < cols ==> grid[r][c'] == old(grid)[r][c']
        {
          if grid[r][c].isMine {
            grid := grid[r := grid[r][c := grid[r][c].(revealed := true)]];
          }
          c := c + 1;
        }
        assert grid[r] == RevealRowMines(old(grid)[r]);
        r := r + 1;
      }
      assert forall r' :: 0 <= r' < rows ==> grid[r'] == RevealMines(old(grid))[r'];
    }

    /** `check_win`: whether every cell without a mine is revealed. */
    method CheckWin() returns (won: bool)
      requires Shaped(grid, rows, cols)
      ensures won == AllSafeRevealed(grid)
    {
      var r := 0;
      while r < rows
        invariant 0 <= r <= rows
        invariant forall r', c' :: 0 <= r' < r && 0 <= c' < cols && !grid[r'][c'].isMine ==> grid[r'][c'].revealed
      {
        var c := 0;
        while c < cols
          invariant 0 <= c <= cols
          invariant forall r', c' :: 0 <= r' < r && 0 <= c' < cols && !grid[r'][c'].isMine ==> grid[r'][c'].revealed
          invariant forall c' :: 0 <= c' < c && !grid[r][c'].isMine ==> grid[r][c'].revealed
        {
          var cell := grid[r][c];
          if !cell.isMine && !cell.revealed {
            assert InGrid(grid, (r, c));
            return false;
          }
          c := c + 1;
        }
        r := r + 1;
      }
      return true;
    }

    /** `game_won`: the game ends; the board stays as it is. */
    method GameWon()
      modifies this`gameOver
      ensures gameOver
    {
      gameOver := true;
    }

    /** `restart`: a fresh board of the same size, waiting for its first click. */
    method Restart()
      requires Shaped(grid, rows, cols)
      modifies this`firstClick, this`gameOver, this`flagsLeft, this`grid
      ensures Valid()
      ensures firstClick && !gameOver && flagsLeft == mines && grid == FreshGrid(rows, cols)
    {
      firstClick := true;
      gameOver := false;
      flagsLeft := mines;
      grid := FreshGrid(rows, cols);
      assert FlagSet(grid) == {};
    }
  }

  // -----------------------------------------------------------------------
  // Command line

  /** `int(sys.argv[i])` when the argument exists and parses, else `default`. */
  function ArgOr(argv: seq<string>, i: nat, default: int): int {
    if |argv| > i then
      match ParseInt(argv[i])
      case Some(n) => n
      case None => default
    else default
  }

  /** `max(lo, min(hi, v))`. */
  function Clamp(lo: int, hi: int, v: int): (r: int)
    requires lo <= hi
    ensures lo <= r <= hi
    ensures lo <= v <= hi ==> r == v
    ensures v < lo ==> r == lo
    ensures v > hi ==> r == hi
  {
    if v < lo then lo else if v > hi then hi else v
  }

  /** `parse_args`: rows, columns and mines from the command line, `argv[0]`
      being the program name, defaults 9, 9 and 10, each clamped. */
  function ParseArgs(argv: seq<string>): (res: (int, int, int))
    ensures 5 <= res.0 <= 30 && 5 <= res.1 <= 30 && 1 <= res.2 <= res.0 * res.1 - 1
  {
    var rows := Clamp(5, 30, ArgOr(argv, 1, 9));
    var cols := Clamp(5, 30, ArgOr(argv, 2, 9));
    AreaAtLeast(rows, cols);
    (rows, cols, Clamp(1, rows * cols - 1, ArgOr(argv, 3, 10)))
  }

  lemma AreaAtLeast(rows: int, cols: int)
    requires 5 <= rows && 5 <= cols
    ensures rows * cols >= 25
  {
    assert rows * cols >= 5 * cols;
  }

  /** Without arguments the game is 9 x 9 with 10 mines. */
  lemma ParseArgsDefaults(argv: seq<string>)
    requires |argv| <= 1
    ensures ParseArgs(argv) == (9, 9, 10)
  {
  }

  /** Each argument is read on its own: one that is missing or that `int`
      cannot read keeps its default, whatever the others are. */
  lemma ParseArgsKeepsDefault(argv: seq<string>)
    ensures |argv| <= 1 || ParseInt(argv[1]).None? ==> ParseArgs(argv).0 == 9
    ensures |argv| <= 2 || ParseInt(argv[2]).None? ==> ParseArgs(argv).1 == 9
    ensures |argv| <= 3 || ParseInt(argv[3]).None? ==> ParseArgs(argv).2 == 10
  {
    var res := ParseArgs(argv);
    AreaAtLeast(res.0, res.1);
  }

  /** In-range values written in decimal come back unchanged. */
  lemma ParseArgsRoundTrip(prog: string, rows: int, cols: int, mines: int)
    requires 5 <= rows <= 30 && 5 <= cols <= 30 && 1 <= mines <= rows * cols - 1
    ensures ParseArgs([prog, IntToString(rows), IntToString(cols), IntToString(mines)]) == (rows, cols, mines)
  {
    ParseIntRoundTrip(rows);
    ParseIntRoundTrip(cols);
    ParseIntRoundTrip(mines);
  }
}

/** The board of the playable Minesweeper game: cells, neighbourhoods,
    adjacency, the pixel geometry of the canvas, the positions a mine may be
    placed on, and the notions the flood-fill reveal is specified by. */
module GameBoard {
  import opened Wrappers
  import opened Tiles

  const CELL_SIZE: int := 28
  const PADDING: int := 4

  /** The eight neighbour offsets in the order of the nested `dr` / `dc`
      loops, the centre skipped. */
  const OFFSETS: seq<(int, int)> := [(-1, -1), (-1, 0), (-1, 1), (0, -1), (0, 1), (1, -1), (1, 0), (1, 1)]

  /** `Cell`: whether it holds a mine, is revealed, is flagged, and its count of adjacent mines. */
  datatype Cell = Cell(isMine: bool, revealed: bool, flagged: bool, adjacent: int)

  /** A cell as `Cell()` creates it. */
  const FRESH: Cell := Cell(false, false, false, 0)

  type Grid = seq<seq<Cell>>

  predicate Shaped(g: Grid, rows: int, cols: int) {
    |g| == rows && forall r :: 0 <= r < |g| ==> |g[r]| == cols
  }

  /** `[[Cell() for _ in range(cols)] for _ in range(rows)]`. */
  function FreshGrid(rows: nat, cols: nat): (g: Grid)
    ensures Shaped(g, rows, cols)
    ensures forall r, c :: 0 <= r < rows && 0 <= c < cols ==> g[r][c] == FRESH
  {
    seq(rows, _ => seq(cols, _ => FRESH))
  }

  predicate InGrid(g: Grid, p: Coord) {
    0 <= p.0 < |g| && 0 <= p.1 < |g[p.0]|
  }

  function At(g: Grid, p: Coord): Cell
    requires InGrid(g, p)
  {
    g[p.0][p.1]
  }

  /** The k-th neighbour position of `p`. */
  function Nb(p: Coord, k: int): Coord
    requires 0 <= k < 8
  {
    (p.0 + OFFSETS[k].0, p.1 + OFFSETS[k].1)
  }

  /** The neighbour relation is symmetric: offset `7 - k` undoes offset `k`. */
  lemma NbBack(p: Coord, k: int)
    requires 0 <= k < 8
    ensures Nb(Nb(p, k), 7 - k) == p
  {
  }

  /** `q` is one of the eight cells around `p`. */
  predicate Adjacent(p: Coord, q: Coord) {
    q != p && -1 <= q.0 - p.0 <= 1 && -1 <= q.1 - p.1 <= 1
  }

  /** The offsets list exactly the cells around a position. */
  lemma NbAdjacent(p: Coord, k: int)
    requires 0 <= k < 8
    ensures Adjacent(p, Nb(p, k))
  {
  }

  lemma AdjacentIndex(p: Coord, q: Coord) returns (k: int)
    requires Adjacent(p, q)
    ensures 0 <= k < 8 && Nb(p, k) == q
  {
    var dr, dc := q.0 - p.0, q.1 - p.1;
    k := if dr == -1 then dc + 1 else if dr == 0 then (if dc == -1 then 3 else 4) else dc + 6;
  }

  /** Mines among the first k neighbours of `p`. */
  function MinesAmong(g: Grid, p: Coord, k: nat): nat
    requires k <= 8
  {
    if k == 0 then 0
    else MinesAmong(g, p, k - 1) + (if InGrid(g, Nb(p, k - 1)) && At(g, Nb(p, k - 1)).isMine then 1 else 0)
  }

  /** Flags among the first k neighbours of `p`. */
  function FlagsAmong(g: Grid, p: Coord, k: nat): nat
    requires k <= 8
  {
    if k == 0 then 0
    else FlagsAmong(g, p, k - 1) + (if InGrid(g, Nb(p, k - 1)) && At(g, Nb(p, k - 1)).flagged then 1 else 0)
  }

  function MinesAround(g: Grid, p: Coord): nat {
    MinesAmong(g, p, 8)
  }

  /** Every non-mine cell counts the mines around it. */
  ghost predicate AdjacencyCorrect(g: Grid) {
    forall r, c :: InGrid(g, (r, c)) && !g[r][c].isMine ==> g[r][c].adjacent == MinesAround(g, (r, c))
  }

  /** The grids have the same shape, the same mines and the same counts. */
  ghost predicate SameLayout(g1: Grid, g2: Grid) {
    |g1| == |g2| && (forall r :: 0 <= r < |g1| ==> |g1[r]| == |g2[r]|) &&
    forall r, c :: InGrid(g1, (r, c)) ==> g1[r][c].isMine == g2[r][c].isMine && g1[r][c].adjacent == g2[r][c].adjacent
  }

  /** The grids have the same shape and the same mines. */
  ghost predicate SameMines(g1: Grid, g2: Grid) {
    |g1| == |g2| && (forall r :: 0 <= r < |g1| ==> |g1[r]| == |g2[r]|) &&
    forall r, c :: InGrid(g1, (r, c)) ==> g1[r][c].isMine == g2[r][c].isMine
  }

  lemma {:induction false} MinesAmongSame(g1: Grid, g2: Grid, p: Coord, k: nat)
    requires k <= 8 && SameMines(g1, g2)
    ensures MinesAmong(g1, p, k) == MinesAmong(g2, p, k)
  {
    if k > 0 {
      MinesAmongSame(g1, g2, p, k - 1);
    }
  }

  /** Adjacency depends on mines and counts only. */
  lemma AdjacencyKept(g1: Grid, g2: Grid)
    requires AdjacencyCorrect(g1) && SameLayout(g1, g2)
    ensures AdjacencyCorrect(g2)
  {
    forall r, c | InGrid(g2, (r, c)) && !g2[r][c].isMine
      ensures g2[r][c].adjacent == MinesAround(g2, (r, c))
    {
      MinesAmongSame(g1, g2, (r, c), 8);
    }
  }

  /** A cell counting no mines around it has no mine next to it. */
  lemma {:induction false} MinesAmongZero(g: Grid, p: Coord, k: nat)
    requires k <= 8 && MinesAmong(g, p, k) == 0
    ensures forall j :: 0 <= j < k && InGrid(g, Nb(p, j)) ==> !At(g, Nb(p, j)).isMine
  {
    if k > 0 {
      MinesAmongZero(g, p, k - 1);
    }
  }

  /** Every non-mine cell is revealed: the winning condition. */
  ghost predicate AllSafeRevealed(g: Grid) {
    forall r, c :: InGrid(g, (r, c)) && !g[r][c].isMine ==> g[r][c].revealed
  }

  /** Every mine is revealed: the board after a loss. */
  ghost predicate AllMinesRevealed(g: Grid) {
    forall r, c :: InGrid(g, (r, c)) && g[r][c].isMine ==> g[r][c].revealed
  }

  function FlagSet(g: Grid): set<Coord> {
    set r, c | 0 <= r < |g| && 0 <= c < |g[r]| && g[r][c].flagged :: (r, c)
  }

  function MineSet(g: Grid): set<Coord> {
    set r, c | 0 <= r < |g| && 0 <= c < |g[r]| && g[r][c].isMine :: (r, c)
  }

  function Unrevealed(g: Grid): set<Coord> {
    set r, c | 0 <= r < |g| && 0 <= c < |g[r]| && !g[r][c].revealed :: (r, c)
  }

  // ---------------------------------------------------------------------
  // Revealing

  /** `p` was covered in g0 and is revealed in g1. */
  predicate Fresh(g0: Grid, g1: Grid, p: Coord) {
    InGrid(g0, p) && InGrid(g1, p) && At(g1, p).revealed && !At(g0, p).revealed
  }

  /** A revealed-by-flood source: no mine and no adjacent mine. */
  predicate Empty(g: Grid, p: Coord) {
    InGrid(g, p) && At(g, p).adjacent == 0 && !At(g, p).isMine
  }

  /** Off the board, revealed, or flagged: nothing left for a flood to do. */
  predicate Settled(g: Grid, p: Coord) {
    !InGrid(g, p) || At(g, p).revealed || At(g, p).flagged
  }

  /** g1 is g0 with some more cells revealed and nothing else changed. */
  ghost predicate OnlyReveals(g0: Grid, g1: Grid) {
    |g0| == |g1| && (forall r :: 0 <= r < |g0| ==> |g0[r]| == |g1[r]|) &&
    forall r, c :: InGrid(g0, (r, c)) ==>
      g1[r][c] == g0[r][c].(revealed := g1[r][c].revealed) && (g0[r][c].revealed ==> g1[r][c].revealed)
  }

  /** Every cell revealed from g0 to g1 was unflagged, and is either `start`
      or a neighbour of a revealed empty cell: the fill spreads only from
      cells without adjacent mines. */
  ghost predicate Spread(g0: Grid, g1: Grid, start: Coord) {
    forall p :: Fresh(g0, g1, p) ==> !At(g0, p).flagged && (p == start || FedBy(g0, g1, p))
  }

  /** Some neighbour of `p` is an empty cell revealed from g0 to g1. */
  ghost predicate FedBy(g0: Grid, g1: Grid, p: Coord) {
    exists k :: 0 <= k < 8 && Fresh(g0, g1, Nb(p, k)) && Empty(g1, Nb(p, k))
  }

  /** Every empty cell revealed from g0 to g1, other than `except` if given,
      has all its neighbours settled. */
  ghost predicate ClosedBut(g0: Grid, g1: Grid, except: Option<Coord>) {
    forall p, k :: Fresh(g0, g1, p) && Empty(g1, p) && Some(p) != except && 0 <= k < 8 ==> Settled(g1, Nb(p, k))
  }

  ghost predicate Closed(g0: Grid, g1: Grid) {
    ClosedBut(g0, g1, None)
  }

  /** Revealing nothing is a fill from anywhere. */
  lemma OnlyRevealsRefl(g: Grid, p: Coord)
    ensures OnlyReveals(g, g) && Spread(g, g, p) && Closed(g, g)
  {
  }

  /** Revealing one covered unflagged cell starts a fill from it, and is a
      whole fill when the cell is not empty. */
  lemma RevealOne(g0: Grid, p: Coord) returns (g1: Grid)
    requires InGrid(g0, p) && !At(g0, p).revealed && !At(g0, p).flagged
    ensures g1 == g0[p.0 := g0[p.0][p.1 := At(g0, p).(revealed := true)]]
    ensures OnlyReveals(g0, g1) && Spread(g0, g1, p)
    ensures Empty(g1, p) ==> Filling(g0, g1, p, 0)
    ensures !Empty(g1, p) ==> Closed(g0, g1)
  {
    g1 := g0[p.0 := g0[p.0][p.1 := At(g0, p).(revealed := true)]];
    assert forall q :: Fresh(g0, g1, q) ==> q == p;
  }

  lemma OnlyRevealsTrans(g0: Grid, g1: Grid, g2: Grid)
    requires OnlyReveals(g0, g1) && OnlyReveals(g1, g2)
    ensures OnlyReveals(g0, g2)
  {
  }

  /** Revealing one more cell leaves strictly fewer covered cells. */
  lemma FewerUnrevealed(g0: Grid, g1: Grid, p: Coord)
    requires OnlyReveals(g0, g1) && Fresh(g0, g1, p)
    ensures Unrevealed(g1) < Unrevealed(g0)
  {
    assert p in Unrevealed(g0) && p !in Unrevealed(g1);
  }

  /** Gluing two fills: the second starts next to an empty cell the first revealed. */
  lemma SpreadTrans(g0: Grid, g1: Grid, g2: Grid, start: Coord, next: Coord, k: int)
    requires OnlyReveals(g0, g1) && OnlyReveals(g1, g2)
    requires Spread(g0, g1, start) && Spread(g1, g2, next)
    requires 0 <= k < 8 && next == Nb(start, k) && Fresh(g0, g1, start) && Empty(g1, start)
    ensures Spread(g0, g2, start)
  {
    forall p | Fresh(g0, g2, p)
      ensures !At(g0, p).flagged && (p == start || FedBy(g0, g2, p))
    {
      if Fresh(g0, g1, p) {
        if p != start {
          var j :| 0 <= j < 8 && Fresh(g0, g1, Nb(p, j)) && Empty(g1, Nb(p, j));
          assert Fresh(g0, g2, Nb(p, j)) && Empty(g2, Nb(p, j));
        }
      } else {
        assert Fresh(g1, g2, p);
        if p == next {
          NbBack(start, k);
          assert Fresh(g0, g2, Nb(p, 7 - k)) && Empty(g2, Nb(p, 7 - k));
        } else {
          var j :| 0 <= j < 8 && Fresh(g1, g2, Nb(p, j)) && Empty(g2, Nb(p, j));
          assert Fresh(g0, g2, Nb(p, j));
        }
      }
    }
  }

  /** Gluing two fills keeps every finished empty cell's neighbours settled. */
  lemma ClosedTrans(g0: Grid, g1: Grid, g2: Grid, except: Option<Coord>)
    requires OnlyReveals(g0, g1) && OnlyReveals(g1, g2)
    requires ClosedBut(g0, g1, except) && Closed(g1, g2)
    ensures ClosedBut(g0, g2, except)
  {
    forall p, k | Fresh(g0, g2, p) && Empty(g2, p) && Some(p) != except && 0 <= k < 8
      ensures Settled(g2, Nb(p, k))
    {
      if Fresh(g0, g1, p) {
        assert Settled(g1, Nb(p, k));
      } else {
        assert Fresh(g1, g2, p);
      }
    }
  }

  /** With the counts right, a fill started on a cell without a mine reveals no mine. */
  lemma FillRevealsNoMine(g0: Grid, g1: Grid, start: Coord)
    requires AdjacencyCorrect(g0) && OnlyReveals(g0, g1) && Spread(g0, g1, start)
    requires InGrid(g0, start) ==> !At(g0, start).isMine
    ensures forall p :: Fresh(g0, g1, p) ==> !At(g1, p).isMine
  {
    forall p | Fresh(g0, g1, p) && p != start
      ensures !At(g1, p).isMine
    {
      var k :| 0 <= k < 8 && Fresh(g0, g1, Nb(p, k)) && Empty(g1, Nb(p, k));
      var q := Nb(p, k);
      assert g0[q.0][q.1].adjacent == MinesAround(g0, q);
      MinesAmongZero(g0, q, 8);
      NbBack(p, k);
      assert InGrid(g0, Nb(q, 7 - k));
    }
  }

  /** Settled cells stay settled while only reveals happen. */
  lemma SettledKept(g0: Grid, g1: Grid, p: Coord)
    requires OnlyReveals(g0, g1) && Settled(g0, p)
    ensures Settled(g1, p)
  {
  }

  /** Reveals change neither the flags nor the mines. */
  lemma OnlyRevealsSets(g0: Grid, g1: Grid)
    requires OnlyReveals(g0, g1)
    ensures FlagSet(g1) == FlagSet(g0) && MineSet(g1) == MineSet(g0)
    ensures SameLayout(g0, g1)
  {
  }

  /** The first n cells of `cells` are settled. */
  ghost predicate AllSettled(g: Grid, cells: seq<Coord>, n: nat)
    requires n <= |cells|
  {
    forall j :: 0 <= j < n ==> Settled(g, cells[j])
  }

  /** Settling one more cell of the list, while only revealing. */
  lemma AllSettledStep(g0: Grid, g1: Grid, cells: seq<Coord>, n: nat)
    requires n < |cells| && AllSettled(g0, cells, n) && OnlyReveals(g0, g1) && Settled(g1, cells[n])
    ensures AllSettled(g1, cells, n + 1)
  {
    forall j | 0 <= j < n
      ensures Settled(g1, cells[j])
    {
      SettledKept(g0, g1, cells[j]);
    }
  }

  /** Closing the last open cell: `except` had its neighbours settled. */
  lemma CloseExcept(g0: Grid, g1: Grid, p: Coord)
    requires ClosedBut(g0, g1, Some(p))
    requires forall k :: 0 <= k < 8 ==> Settled(g1, Nb(p, k))
    ensures Closed(g0, g1)
  {
  }

  /** The state of the neighbour loop of a fill from `p` after k offsets:
      `p` is revealed and empty, the fill so far only reveals, spreads
      from `p` and is closed everywhere but at `p`, whose first k
      neighbours are settled. */
  ghost predicate Filling(g0: Grid, g: Grid, p: Coord, k: nat)
    requires k <= 8
  {
    OnlyReveals(g0, g) && Spread(g0, g, p) && ClosedBut(g0, g, Some(p)) &&
    Fresh(g0, g, p) && Empty(g, p) && forall j :: 0 <= j < k ==> Settled(g, Nb(p, j))
  }

  /** A neighbour already settled needs no visit. */
  lemma FillSkip(g0: Grid, g: Grid, p: Coord, k: nat)
    requires k < 8 && Filling(g0, g, p, k) && (!InGrid(g, Nb(p, k)) || At(g, Nb(p, k)).revealed)
    ensures Filling(g0, g, p, k + 1)
  {
  }

  /** Visiting a covered neighbour with a fill of its own. */
  lemma FillVisit(g0: Grid, gm: Grid, g: Grid, p: Coord, k: nat)
    requires k < 8 && Filling(g0, gm, p, k) && InGrid(gm, Nb(p, k))
    requires OnlyReveals(gm, g) && Spread(gm, g, Nb(p, k)) && Closed(gm, g)
    requires !At(gm, Nb(p, k)).flagged ==> At(g, Nb(p, k)).revealed
    ensures Filling(g0, g, p, k + 1)
  {
    OnlyRevealsTrans(g0, gm, g);
    SpreadTrans(g0, gm, g, p, Nb(p, k), k);
    ClosedTrans(g0, gm, g, Some(p));
    forall j | 0 <= j < k
      ensures Settled(g, Nb(p, j))
    {
      SettledKept(gm, g, Nb(p, j));
    }
  }

  /** A finished neighbour loop leaves a closed fill. */
  lemma FillDone(g0: Grid, g: Grid, p: Coord)
    requires Filling(g0, g, p, 8)
    ensures OnlyReveals(g0, g) && Spread(g0, g, p) && Closed(g0, g)
  {
    CloseExcept(g0, g, p);
  }

  /** `reveal_cell(r, c)` on a board value: nothing happens off the board
      or on a revealed or flagged cell; otherwise the cell is revealed and,
      when it is empty, the fill goes on from each of its neighbours in the
      order of the `dr` / `dc` loops. */
  ghost function Flood(g: Grid, p: Coord): (g': Grid)
    ensures Unrevealed(g') <= Unrevealed(g)
    decreases Unrevealed(g), 0
  {
    if !InGrid(g, p) || At(g, p).revealed || At(g, p).flagged then g
    else
      var g1 := g[p.0 := g[p.0][p.1 := At(g, p).(revealed := true)]];
      assert OnlyReveals(g, g1) && Fresh(g, g1, p);
      FewerUnrevealed(g, g1, p);
      if Empty(g1, p) then FloodFrom(g1, p, 0) else g1
  }

  /** The neighbour loop of `reveal_cell` from the k-th offset on: every
      covered in-board neighbour gets a fill of its own, one after the other. */
  ghost function FloodFrom(g: Grid, p: Coord, k: nat): (g': Grid)
    requires k <= 8
    ensures Unrevealed(g') <= Unrevealed(g)
    decreases Unrevealed(g), 9 - k
  {
    if k == 8 then g
    else
      var q := Nb(p, k);
      if InGrid(g, q) && !At(g, q).revealed then FloodFrom(Flood(g, q), p, k + 1)
      else FloodFrom(g, p, k + 1)
  }

  /** One step of the neighbour loop. */
  lemma FloodFromStep(g: Grid, p: Coord, k: nat)
    requires k < 8
    ensures FloodFrom(g, p, k) ==
      if InGrid(g, Nb(p, k)) && !At(g, Nb(p, k)).revealed then FloodFrom(Flood(g, Nb(p, k)), p, k + 1)
      else FloodFrom(g, p, k + 1)
  {
  }

  /** A fill reveals its start unless that is flagged, spreads only from
      revealed empty cells, and leaves every empty cell it revealed with
      all its neighbours settled. */
  lemma {:induction false} FloodReveals(g: Grid, p: Coord)
    ensures OnlyReveals(g, Flood(g, p)) && Spread(g, Flood(g, p), p) && Closed(g, Flood(g, p))
    ensures InGrid(g, p) && !At(g, p).flagged ==> At(Flood(g, p), p).revealed
    decreases Unrevealed(g), 0
  {
    if !InGrid(g, p) || At(g, p).revealed || At(g, p).flagged {
      OnlyRevealsRefl(g, p);
    } else {
      var g1 := RevealOne(g, p);
      if Empty(g1, p) {
        FewerUnrevealed(g, g1, p);
        var r := FloodFromFills(g, g1, p, 0);
        FillDone(g, r, p);
      }
    }
  }

  /** The rest of the neighbour loop keeps the loop's state and ends it. */
  lemma {:induction false} FloodFromFills(g0: Grid, g: Grid, p: Coord, k: nat) returns (r: Grid)
    requires k <= 8 && Filling(g0, g, p, k)
    ensures r == FloodFrom(g, p, k) && Filling(g0, r, p, 8)
    decreases Unrevealed(g), 9 - k
  {
    if k == 8 {
      r := g;
    } else if InGrid(g, Nb(p, k)) && !At(g, Nb(p, k)).revealed {
      FloodVisit(g0, g, p, k);
      r := FloodFromFills(g0, Flood(g, Nb(p, k)), p, k + 1);
    } else {
      FillSkip(g0, g, p, k);
      r := FloodFromFills(g0, g, p, k + 1);
    }
  }


  /** One visit of the neighbour loop: the fill from a covered neighbour
      keeps the loop's state one offset further on. */
  lemma {:induction false} FloodVisit(g0: Grid, g: Grid, p: Coord, k: nat)
    requires k < 8 && Filling(g0, g, p, k) && InGrid(g, Nb(p, k)) && !At(g, Nb(p, k)).revealed
    ensures Filling(g0, Flood(g, Nb(p, k)), p, k + 1)
    decreases Unrevealed(g), 1
  {
    var g2 := Flood(g, Nb(p, k));
    FloodReveals(g, Nb(p, k));
    FillVisit(g0, g, g2, p, k);
  }

  /** Revealing only keeps the shape. */
  lemma ShapedKept(g0: Grid, g: Grid, rows: int, cols: int)
    requires Shaped(g0, rows, cols) && OnlyReveals(g0, g)
    ensures Shaped(g, rows, cols)
  {
  }

  // ---------------------------------------------------------------------
  // The end of a game

  function RevealRowMines(row: seq<Cell>): (row': seq<Cell>) {
    seq(|row|, c requires 0 <= c < |row| => row[c].(revealed := row[c].revealed || row[c].isMine))
  }

  /** The board `game_lost` leaves: every mine uncovered. */
  function RevealMines(g: Grid): Grid {
    seq(|g|, r requires 0 <= r < |g| => RevealRowMines(g[r]))
  }

  /** Uncovering the mines only reveals, reveals every mine and nothing else. */
  lemma RevealMinesProperties(g: Grid)
    ensures OnlyReveals(g, RevealMines(g)) && AllMinesRevealed(RevealMines(g))
    ensures forall p :: Fresh(g, RevealMines(g), p) ==> At(g, p).isMine
  {
  }

  // ---------------------------------------------------------------------
  // Flags and chords

  /** Flags on the first k neighbours that all sit on mines are no more than
      the mines there, and when the two counts agree every such mine is flagged. */
  lemma {:induction false} FlagsAmongMines(g: Grid, p: Coord, k: nat)
    requires k <= 8
    requires forall j :: 0 <= j < k && InGrid(g, Nb(p, j)) && At(g, Nb(p, j)).flagged ==> At(g, Nb(p, j)).isMine
    ensures FlagsAmong(g, p, k) <= MinesAmong(g, p, k)
    ensures FlagsAmong(g, p, k) == MinesAmong(g, p, k) ==>
      forall j :: 0 <= j < k && InGrid(g, Nb(p, j)) && At(g, Nb(p, j)).isMine ==> At(g, Nb(p, j)).flagged
  {
    if k > 0 {
      FlagsAmongMines(g, p, k - 1);
    }
  }

  /** All flags around `p` are on mines. */
  ghost predicate FlagsRight(g: Grid, p: Coord) {
    forall j :: 0 <= j < 8 && InGrid(g, Nb(p, j)) && At(g, Nb(p, j)).flagged ==> At(g, Nb(p, j)).isMine
  }

  /** A chord on a correctly counted cell whose flags match its count and
      all sit on mines uncovers no mine. */
  lemma ChordSafe(g: Grid, p: Coord)
    requires AdjacencyCorrect(g) && InGrid(g, p) && !At(g, p).isMine
    requires FlagsAmong(g, p, 8) == At(g, p).adjacent
    ensures FlagsRight(g, p) ==>
      forall j :: 0 <= j < 8 && InGrid(g, Nb(p, j)) && !At(g, Nb(p, j)).flagged ==> !At(g, Nb(p, j)).isMine
  {
    if FlagsRight(g, p) {
      FlagsAmongMines(g, p, 8);
    }
  }

  /** Toggling the flag of one cell adds it to, or takes it from, the flag set. */
  lemma FlagToggle(g: Grid, p: Coord)
    requires InGrid(g, p)
    ensures var g' := g[p.0 := g[p.0][p.1 := At(g, p).(flagged := !At(g, p).flagged)]];
      if At(g, p).flagged then FlagSet(g') == FlagSet(g) - {p} && |FlagSet(g')| == |FlagSet(g)| - 1
      else FlagSet(g') == FlagSet(g) + {p} && |FlagSet(g')| == |FlagSet(g)| + 1
  {
    var g' := g[p.0 := g[p.0][p.1 := At(g, p).(flagged := !At(g, p).flagged)]];
    if At(g, p).flagged {
      assert FlagSet(g') == FlagSet(g) - {p};
    } else {
      assert FlagSet(g') == FlagSet(g) + {p};
    }
  }

  // ---------------------------------------------------------------------
  // Mine placement

  /** `p` is the clicked cell or one of the cells around it. */
  predicate NearClick(click: Coord, p: Coord) {
    -1 <= p.0 - click.0 <= 1 && -1 <= p.1 - click.1 <= 1
  }

  /** The cells of `cells` away from the click, in their order. */
  function AwayFrom(cells: seq<Coord>, click: Coord): seq<Coord> {
    if cells == [] then []
    else AwayFrom(cells[..|cells| - 1], click) + (if NearClick(click, cells[|cells| - 1]) then [] else [cells[|cells| - 1]])
  }

  /** `positions` in `place_mines`: every cell of the board outside the
      clicked cell's 3 x 3 neighbourhood, in row-major order. */
  function Positions(rows: nat, cols: nat, click: Coord): seq<Coord> {
    AwayFrom(RowMajor(rows, cols), click)
  }

  lemma {:induction false} AwayFromMembers(cells: seq<Coord>, click: Coord)
    ensures forall p :: p in AwayFrom(cells, click) <==> p in cells && !NearClick(click, p)
    ensures Distinct(cells) ==> Distinct(AwayFrom(cells, click))
  {
    if cells != [] {
      var init := cells[..|cells| - 1];
      AwayFromMembers(init, click);
      assert forall p :: p in cells <==> p in init || p == cells[|cells| - 1];
      if Distinct(cells) {
        assert cells[|cells| - 1] !in init;
      }
    }
  }

  /** The positions are the cells of the board away from the click, each once. */
  lemma PositionsMembers(rows: nat, cols: nat, click: Coord)
    ensures forall p :: p in Positions(rows, cols, click) <==>
      0 <= p.0 < rows && 0 <= p.1 < cols && !NearClick(click, p)
    ensures Distinct(Positions(rows, cols, click))
  {
    CellsBeforeMembers(cols, rows, 0);
    CellsBeforeOrdered(cols, rows, 0);
    assert Distinct(RowMajor(rows, cols));
    AwayFromMembers(RowMajor(rows, cols), click);
  }

  /** What `random.sample(population, k)` returns: k distinct members. */
  predicate IsSample(draw: seq<Coord>, population: seq<Coord>, k: int) {
    |draw| == k && Distinct(draw) && forall i :: 0 <= i < |draw| ==> draw[i] in population
  }

  /** A list without repeats has as many members as elements. */
  lemma {:induction false} DistinctCard(s: seq<Coord>)
    requires Distinct(s)
    ensures |set i | 0 <= i < |s| :: s[i]| == |s|
  {
    if s != [] {
      var init := s[..|s| - 1];
      DistinctCard(init);
      assert (set i | 0 <= i < |s| :: s[i]) == (set i | 0 <= i < |init| :: init[i]) + {s[|s| - 1]};
      assert s[|s| - 1] !in (set i | 0 <= i < |init| :: init[i]);
    }
  }

  // ---------------------------------------------------------------------
  // The canvas

  /** `coords_from_event`: the cell under pixel (x, y), if any. */
  function CoordsFromEvent(x: int, y: int, rows: int, cols: int): Option<Coord> {
    var x', y' := x - PADDING, y - PADDING;
    if x' < 0 || y' < 0 then None
    else
      var c, r := x' / CELL_SIZE, y' / CELL_SIZE;
      if 0 <= r < rows && 0 <= c < cols then Some((r, c)) else None
  }

  /** A pixel maps to a cell exactly when it lies in that cell's square as
      `draw_board` paints it. */
  lemma CoordsFromEventSquare(x: int, y: int, rows: int, cols: int, r: int, c: int)
    ensures CoordsFromEvent(x, y, rows, cols) == Some((r, c)) <==>
      0 <= r < rows && 0 <= c < cols &&
      PADDING + c * CELL_SIZE <= x < PADDING + c * CELL_SIZE + CELL_SIZE &&
      PADDING + r * CELL_SIZE <= y < PADDING + r * CELL_SIZE + CELL_SIZE
  {
    var x', y' := x - PADDING, y - PADDING;
    if 0 <= r < rows && 0 <= c < cols && c * CELL_SIZE <= x' < c * CELL_SIZE + CELL_SIZE &&
       r * CELL_SIZE <= y' < r * CELL_SIZE + CELL_SIZE {
      DivInSquare(x', c);
      DivInSquare(y', r);
    }
    if CoordsFromEvent(x, y, rows, cols) == Some((r, c)) {
      assert x' >= 0 && y' >= 0 && x' / CELL_SIZE == c && y' / CELL_SIZE == r;
      SquareOfDiv(x');
      SquareOfDiv(y');
    }
  }

  lemma DivInSquare(v: int, n: int)
    requires n * CELL_SIZE <= v < n * CELL_SIZE + CELL_SIZE
    ensures v / CELL_SIZE == n
  {
    assert v == n * CELL_SIZE + (v - n * CELL_SIZE);
  }

  lemma SquareOfDiv(v: int)
    requires v >= 0
    ensures (v / CELL_SIZE) * CELL_SIZE <= v < (v / CELL_SIZE) * CELL_SIZE + CELL_SIZE
  {
  }
}

/** How many mines a board can take once the first click and its
    neighbourhood are kept free, and what that means for the mine count
    `parse_args` allows. */
module MineBudget {
  import opened Tiles
  import opened Text
  import opened GameBoard
  import opened Game

  /** The positions a list holds. */
  ghost function Elements(s: seq<Coord>): set<Coord> {
    set i | 0 <= i < |s| :: s[i]
  }

  lemma ElementsMembers(s: seq<Coord>)
    ensures forall p :: p in Elements(s) <==> p in s
  {
    forall p | p in s ensures p in Elements(s) {
      var i :| 0 <= i < |s| && s[i] == p;
    }
  }

  /** A list has at least as many elements as it holds positions. */
  lemma {:induction false} ElementsAtMost(s: seq<Coord>)
    ensures |Elements(s)| <= |s|
  {
    if s != [] {
      var init := s[..|s| - 1];
      ElementsAtMost(init);
      assert Elements(s) == Elements(init) + {s[|s| - 1]};
    }
  }

  lemma SubsetCard(a: set<Coord>, b: set<Coord>)
    requires a <= b
    ensures |a| <= |b|
  {
    assert b == a + (b - a);
    assert a * (b - a) == {};
  }

  /** Row-major order lists r * cols + c cells before (r, c). */
  lemma {:induction false} CellsBeforeLength(cols: nat, r: nat, c: nat)
    requires c <= cols
    ensures |CellsBefore(cols, r, c)| == r * cols + c
    decreases r, c
  {
    if c > 0 {
      CellsBeforeLength(cols, r, c - 1);
    } else if r > 0 {
      CellsBeforeLength(cols, r - 1, cols);
      assert (r - 1) * cols + cols == r * cols;
    }
  }

  /** The board as a set: one position per cell, rows * cols in all. */
  lemma BoardCells(rows: nat, cols: nat)
    ensures forall p :: p in Elements(RowMajor(rows, cols)) <==> 0 <= p.0 < rows && 0 <= p.1 < cols
    ensures |Elements(RowMajor(rows, cols))| == rows * cols
  {
    CellsBeforeMembers(cols, rows, 0);
    CellsBeforeOrdered(cols, rows, 0);
    CellsBeforeLength(cols, rows, 0);
    assert Distinct(RowMajor(rows, cols));
    DistinctCard(RowMajor(rows, cols));
    ElementsMembers(RowMajor(rows, cols));
  }

  /** The clicked position and the eight around it. */
  function NearList(click: Coord): seq<Coord> {
    [click] + seq(8, k requires 0 <= k < 8 => Nb(click, k))
  }

  lemma NearListMembers(click: Coord)
    ensures forall p :: NearClick(click, p) <==> p in NearList(click)
  {
    forall p | NearClick(click, p) ensures p in NearList(click) {
      if p != click {
        var k := AdjacentIndex(click, p);
        assert NearList(click)[k + 1] == p;
      }
    }
    forall k | 0 <= k < 8 ensures NearClick(click, Nb(click, k)) {
      NbAdjacent(click, k);
    }
  }

  /** Keeping the click's neighbourhood free leaves at least
      rows * cols - 9 positions for mines, wherever the click is. */
  lemma PositionsAtLeast(rows: nat, cols: nat, click: Coord)
    ensures |Positions(rows, cols, click)| >= rows * cols - 9
  {
    var board := Elements(RowMajor(rows, cols));
    var free := Elements(Positions(rows, cols, click));
    var near := Elements(NearList(click));
    BoardCells(rows, cols);
    PositionsMembers(rows, cols, click);
    DistinctCard(Positions(rows, cols, click));
    ElementsMembers(Positions(rows, cols, click));
    ElementsMembers(NearList(click));
    NearListMembers(click);
    ElementsAtMost(NearList(click));
    SubsetCard(board, free + near);
  }

  /** A click on a board at least two columns wide keeps the clicked cell
      and a horizontal neighbour free, so at most rows * cols - 2
      positions remain. */
  lemma PositionsAtMost(rows: nat, cols: nat, click: Coord)
    requires 2 <= cols && 0 <= click.0 < rows && 0 <= click.1 < cols
    ensures |Positions(rows, cols, click)| <= rows * cols - 2
  {
    var side := if click.1 + 1 < cols then (click.0, click.1 + 1) else (click.0, click.1 - 1);
    var board := Elements(RowMajor(rows, cols));
    var free := Elements(Positions(rows, cols, click));
    BoardCells(rows, cols);
    PositionsMembers(rows, cols, click);
    DistinctCard(Positions(rows, cols, click));
    ElementsMembers(Positions(rows, cols, click));
    SubsetCard(free, board - {click, side});
    assert board == (board - {click, side}) + {click, side};
  }

  /** As written, `parse_args` accepts 24 mines on a 5 x 5 board, and then
      every first click leaves too few positions, so `random.sample`
      raises and the game cannot start. */
  lemma ParseArgsOverfull(prog: string, click: Coord)
    requires 0 <= click.0 < 5 && 0 <= click.1 < 5
    ensures ParseArgs([prog, IntToString(5), IntToString(5), IntToString(24)]) == (5, 5, 24)
    ensures |Positions(5, 5, click)| < 24
  {
    ParseIntRoundTrip(5);
    ParseIntRoundTrip(24);
    PositionsAtMost(5, 5, click);
  }

  /** `parse_args` with the mine count capped at rows * cols - 9, the most
      that fits beside any first click. */
  function ParseArgsCapped(argv: seq<string>): (res: (int, int, int))
    ensures 5 <= res.0 <= 30 && 5 <= res.1 <= 30 && 1 <= res.2 <= res.0 * res.1 - 9
  {
    var rows := Clamp(5, 30, ArgOr(argv, 1, 9));
    var cols := Clamp(5, 30, ArgOr(argv, 2, 9));
    AreaAtLeast(rows, cols);
    (rows, cols, Clamp(1, rows * cols - 9, ArgOr(argv, 3, 10)))
  }

  /** With the cap, the mines always fit: wherever the first click lands,
      the sample is no larger than the positions left. */
  lemma ParseArgsCappedFits(argv: seq<string>, click: Coord)
    ensures var (rows, cols, mines) := ParseArgsCapped(argv);
      0 <= mines <= |Positions(rows, cols, click)|
  {
    var (rows, cols, mines) := ParseArgsCapped(argv);
    PositionsAtLeast(rows, cols, click);
  }

  /** The cap changes nothing for counts that fit, the defaults included. */
  lemma ParseArgsCappedAgrees(argv: seq<string>)
    ensures var (rows, cols, mines) := ParseArgs(argv);
      mines <= rows * cols - 9 ==> ParseArgsCapped(argv) == ParseArgs(argv)
  {
  }
}

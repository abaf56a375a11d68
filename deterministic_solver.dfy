/** The two local saturation rules, the change map and one solver round.
    Rule 1 flags every covered neighbour of a numbered tile whose covered plus
    flagged neighbours equal its number; Rule 2, run on Rule 1's output,
    marks safe every covered neighbour of a numbered tile whose flagged
    neighbours equal its number. Each rule makes one pass over a copy of its
    input; the input itself is a value and never changes. */
module DeterministicSolver {
  import opened Tiles
  import opened GridData

  datatype Rule = FlagRule | SafeRule

  /** The solver acts only on the tiles "1".."8"; "0" is not among them. */
  predicate IsSolverNumber(t: Tile) {
    t.Num? && 1 <= t.n <= 8
  }

  /** The tile a rule writes. */
  function Mark(rule: Rule): Tile {
    match rule
    case FlagRule => Flag
    case SafeRule => Safe
  }

  /** The rule's condition holds at the numbered tile (r, c), with the
      neighbour counts taken on `g`. */
  predicate Fires(rule: Rule, g: Board, r: int, c: int)
    requires Rect(g)
  {
    InBounds(g, r, c) && IsSolverNumber(g[r][c]) && Saturated(rule, Neighbours(g, r, c), g[r][c].n)
  }

  /** Some in-bounds neighbour of (a, b) fires the rule. */
  predicate Triggered(rule: Rule, g: Board, a: int, b: int)
    requires Rect(g)
  {
    exists d :: 0 <= d < 8 && Fires(rule, g, a - CLOCKWISE[d].0, b - CLOCKWISE[d].1)
  }

  /** Some neighbour of (a, b) that comes before (r, c) in row-major order fires the rule. */
  predicate TriggeredBefore(rule: Rule, g: Board, a: int, b: int, r: int, c: int)
    requires Rect(g)
  {
    exists d :: 0 <= d < 8 && Fires(rule, g, a - CLOCKWISE[d].0, b - CLOCKWISE[d].1) &&
      Before((a - CLOCKWISE[d].0, b - CLOCKWISE[d].1), r, c)
  }

  /** The board a rule produces: each covered cell with a firing neighbour
      takes the rule's mark, every other cell is copied. */
  function Swept(rule: Rule, g: Board): (h: Board)
    requires Rect(g)
    ensures SameShape(h, g) && Rect(h)
    ensures forall a, b :: 0 <= a < |g| && 0 <= b < |g[a]| && h[a][b] != g[a][b] ==>
      g[a][b] == Unknown && h[a][b] == Mark(rule)
  {
    seq(|g|, a requires 0 <= a < |g| =>
      seq(|g[a]|, b requires 0 <= b < |g[a]| =>
        if g[a][b] == Unknown && Triggered(rule, g, a, b) then Mark(rule) else g[a][b]))
  }

  function Rule1(g: Board): Board
    requires Rect(g)
  {
    Swept(FlagRule, g)
  }

  function Rule2(g: Board): Board
    requires Rect(g)
  {
    Swept(SafeRule, g)
  }

  lemma TriggeredStepA(rule: Rule, g: Board, a: int, b: int, r: int, c: int)
    requires Rect(g)
    ensures TriggeredBefore(rule, g, a, b, r, c + 1) ==>
      TriggeredBefore(rule, g, a, b, r, c) || (Fires(rule, g, r, c) && (a - r, b - c) in CLOCKWISE)
  {
    if TriggeredBefore(rule, g, a, b, r, c + 1) && !TriggeredBefore(rule, g, a, b, r, c) {
      var d :| 0 <= d < 8 && Fires(rule, g, a - CLOCKWISE[d].0, b - CLOCKWISE[d].1) &&
        Before((a - CLOCKWISE[d].0, b - CLOCKWISE[d].1), r, c + 1);
      assert (a - r, b - c) == CLOCKWISE[d];
    }
  }
  lemma TriggeredStepB(rule: Rule, g: Board, a: int, b: int, r: int, c: int)
    requires Rect(g)
    ensures TriggeredBefore(rule, g, a, b, r, c) || (Fires(rule, g, r, c) && (a - r, b - c) in CLOCKWISE) ==>
      TriggeredBefore(rule, g, a, b, r, c + 1)
  {
    if Fires(rule, g, r, c) && (a - r, b - c) in CLOCKWISE {
      var d :| 0 <= d < 8 && CLOCKWISE[d] == (a - r, b - c);
      assert Fires(rule, g, a - CLOCKWISE[d].0, b - CLOCKWISE[d].1);
    }
  }

  /** Moving past (r, c) in row-major order adds (r, c) itself as a possible source. */
  lemma TriggeredStep(rule: Rule, g: Board, a: int, b: int, r: int, c: int)
    requires Rect(g)
    ensures TriggeredBefore(rule, g, a, b, r, c + 1) <==>
      TriggeredBefore(rule, g, a, b, r, c) || (Fires(rule, g, r, c) && (a - r, b - c) in CLOCKWISE)
  {
    TriggeredStepA(rule, g, a, b, r, c);
    TriggeredStepB(rule, g, a, b, r, c);
  }

  /** A source past the last column of row r is no source at all, and every
      source lies before the end of the board. */
  lemma TriggeredRowEnd(rule: Rule, g: Board, a: int, b: int, r: int)
    requires Rect(g)
    ensures TriggeredBefore(rule, g, a, b, r, Cols(g)) <==> TriggeredBefore(rule, g, a, b, r + 1, 0)
    ensures TriggeredBefore(rule, g, a, b, |g|, 0) <==> Triggered(rule, g, a, b)
  {
  }

  /** The `for dr, dc in directions` loop: mark each in-bounds covered
      neighbour of (r, c) in `newGrid`, testing coverage on `grid`. */
  method MarkAround(grid: Board, newGrid: Board, r: int, c: int, mark: Tile) returns (out: Board)
    requires Rect(grid) && SameShape(newGrid, grid)
    ensures SameShape(out, grid)
    ensures forall a, b :: InBounds(grid, a, b) ==>
      out[a][b] == (if grid[a][b] == Unknown && (a - r, b - c) in CLOCKWISE then mark else newGrid[a][b])
  {
    out := newGrid;
    var d := 0;
    while d < 8
      invariant 0 <= d <= 8 && SameShape(out, grid)
      invariant forall a, b :: InBounds(grid, a, b) ==>
        out[a][b] == (if grid[a][b] == Unknown && (a - r, b - c) in CLOCKWISE[..d] then mark else newGrid[a][b])
    {
      assert CLOCKWISE[..d + 1] == CLOCKWISE[..d] + [CLOCKWISE[d]];
      var (dr, dc) := CLOCKWISE[d];
      var nr, nc := r + dr, c + dc;
      if 0 <= nr < |grid| && 0 <= nc < Cols(grid) {
        if grid[nr][nc] == Unknown {
          out := out[nr := out[nr][nc := mark]];
        }
      }
      d := d + 1;
    }
    assert CLOCKWISE[..8] == CLOCKWISE;
  }

  /** Whether the rule's count condition holds for the numbered tile `n`
      with neighbours `ns`. */
  function Saturated(rule: Rule, ns: seq<Tile>, n: nat): bool {
    match rule
    case FlagRule => Count(ns, Unknown) + Count(ns, Flag) == n
    case SafeRule => Count(ns, Flag) == n
  }

  /** One pass of a rule over a copy of `grid`, row by row, column by column. */
  method Sweep(rule: Rule, grid: Board) returns (newGrid: Board)
    requires Rect(grid)
    ensures newGrid == Swept(rule, grid)
  {
    newGrid := grid;
    var rows := |grid|;
    var cols := if rows > 0 then |grid[0]| else 0;
    var r := 0;
    while r < rows
      invariant 0 <= r <= rows && SameShape(newGrid, grid)
      invariant forall a, b :: InBounds(grid, a, b) ==>
        newGrid[a][b] == (if grid[a][b] == Unknown && TriggeredBefore(rule, grid, a, b, r, 0)
                          then Mark(rule) else grid[a][b])
    {
      var c := 0;
      while c < cols
        invariant 0 <= c <= cols && SameShape(newGrid, grid)
        invariant forall a, b :: InBounds(grid, a, b) ==>
          newGrid[a][b] == (if grid[a][b] == Unknown && TriggeredBefore(rule, grid, a, b, r, c)
                            then Mark(rule) else grid[a][b])
      {
        var tile := grid[r][c];
        if IsSolverNumber(tile) {
          var neighbours := GetNeighbours(r, c, grid);
          if Saturated(rule, neighbours, tile.n) {
            assert Fires(rule, grid, r, c);
            newGrid := MarkAround(grid, newGrid, r, c, Mark(rule));
          }
        }
        forall a, b | InBounds(grid, a, b)
          ensures newGrid[a][b] == (if grid[a][b] == Unknown && TriggeredBefore(rule, grid, a, b, r, c + 1)
                                    then Mark(rule) else grid[a][b])
        {
          TriggeredStep(rule, grid, a, b, r, c);
        }
        c := c + 1;
      }
      forall a, b | InBounds(grid, a, b)
        ensures TriggeredBefore(rule, grid, a, b, r, c) <==> TriggeredBefore(rule, grid, a, b, r + 1, 0)
      {
        TriggeredRowEnd(rule, grid, a, b, r);
      }
      r := r + 1;
    }
    forall a, b | InBounds(grid, a, b)
      ensures TriggeredBefore(rule, grid, a, b, r, 0) <==> Triggered(rule, grid, a, b)
    {
      TriggeredRowEnd(rule, grid, a, b, r);
    }
    var want := Swept(rule, grid);
    forall a | 0 <= a < |grid| ensures newGrid[a] == want[a] {
      assert forall b :: 0 <= b < |grid[a]| ==> newGrid[a][b] == want[a][b];
    }
  }

  /** `apply_rule1`: a fresh grid of the same shape in which exactly the
      covered cells next to a saturated number ("1".."8" whose covered plus
      flagged neighbours, counted on the input, equal it) become flags. */
  method ApplyRule1(grid: Board) returns (newGrid: Board)
    requires Rect(grid)
    ensures SameShape(newGrid, grid)
    ensures forall a, b :: InBounds(grid, a, b) ==>
      newGrid[a][b] == (if grid[a][b] == Unknown && Triggered(FlagRule, grid, a, b) then Flag else grid[a][b])
    ensures newGrid == Rule1(grid)
  {
    newGrid := Sweep(FlagRule, grid);
  }

  /** `apply_rule2`: a fresh grid of the same shape in which exactly the
      covered cells next to a number whose flagged neighbours equal it become 'S'. */
  method ApplyRule2(grid: Board) returns (newGrid: Board)
    requires Rect(grid)
    ensures SameShape(newGrid, grid)
    ensures forall a, b :: InBounds(grid, a, b) ==>
      newGrid[a][b] == (if grid[a][b] == Unknown && Triggered(SafeRule, grid, a, b) then Safe else grid[a][b])
    ensures newGrid == Rule2(grid)
  {
    newGrid := Sweep(SafeRule, grid);
  }

  /** What `change_map(g1, g2)` may index: all of g1's rows, each to the first row's length. */
  predicate Comparable(g1: Board, g2: Board) {
    |g1| > 0 && |g2| >= |g1| &&
    forall r :: 0 <= r < |g1| ==> |g1[r]| >= |g1[0]| && |g2[r]| >= |g1[0]|
  }

  /** The change map of g1 against g2: the second grid's tile where they
      differ, '-' where they agree. */
  function Changes(g1: Board, g2: Board): (ch: Board)
    requires Comparable(g1, g2)
    ensures |ch| == |g1| && Rect(ch) && Cols(ch) == |g1[0]|
  {
    seq(|g1|, r requires 0 <= r < |g1| =>
      seq(|g1[0]|, c requires 0 <= c < |g1[0]| =>
        if g1[r][c] != g2[r][c] then g2[r][c] else Unknown))
  }

  /** `change_map`, built row by row with `append`. */
  method ChangeMap(grid1: Board, grid2: Board) returns (changes: Board)
    requires Comparable(grid1, grid2)
    ensures |changes| == |grid1| && forall r :: 0 <= r < |changes| ==> |changes[r]| == |grid1[0]|
    ensures forall r, c :: 0 <= r < |changes| && 0 <= c < |changes[r]| ==>
      changes[r][c] == (if grid1[r][c] != grid2[r][c] then grid2[r][c] else Unknown)
    ensures changes == Changes(grid1, grid2)
  {
    changes := [];
    var rows := |grid1|;
    var cols := |grid1[0]|;
    var r := 0;
    while r < rows
      invariant 0 <= r <= rows && |changes| == r
      invariant forall i :: 0 <= i < r ==> changes[i] == Changes(grid1, grid2)[i]
    {
      var rowChanges: seq<Tile> := [];
      var c := 0;
      while c < cols
        invariant 0 <= c <= cols && |rowChanges| == c
        invariant forall j :: 0 <= j < c ==> rowChanges[j] == Changes(grid1, grid2)[r][j]
      {
        if grid1[r][c] != grid2[r][c] {
          rowChanges := rowChanges + [grid2[r][c]];
        } else {
          rowChanges := rowChanges + [Unknown];
        }
        c := c + 1;
      }
      changes := changes + [rowChanges];
      r := r + 1;
    }
  }

  /** Comparing a grid with itself gives '-' everywhere. The general
      per-cell fact is `ChangeMap`'s ensures and `PatchChangesRoundTrip`. */
  lemma ChangesOfSame(g: Board)
    requires IsBoard(g)
    ensures forall r, c :: 0 <= r < |g| && 0 <= c < Cols(g) ==> Changes(g, g)[r][c] == Unknown
  {
  }

  /** Reads a change map back onto the first grid, taking '-' as "no change": the
      inverse that states what `change_map` keeps. No caller applies one. */
  function Patch(g: Board, ch: Board): (h: Board)
    requires SameShape(g, ch)
    ensures SameShape(h, g)
  {
    seq(|g|, r requires 0 <= r < |g| =>
      seq(|g[r]|, c requires 0 <= c < |g[r]| => if ch[r][c] == Unknown then g[r][c] else ch[r][c]))
  }

  /** The change map loses information exactly where the second grid holds
      '-' at a cell that differs: only then does patching fail to rebuild it. */
  lemma PatchChangesRoundTrip(g1: Board, g2: Board)
    requires IsBoard(g1) && SameShape(g1, g2)
    ensures SameShape(g1, Changes(g1, g2))
    ensures Patch(g1, Changes(g1, g2)) == g2 <==>
      forall r, c :: 0 <= r < |g1| && 0 <= c < |g1[r]| && g1[r][c] != g2[r][c] ==> g2[r][c] != Unknown
  {
    var ch := Changes(g1, g2);
    var p := Patch(g1, ch);
    if forall r, c :: 0 <= r < |g1| && 0 <= c < |g1[r]| && g1[r][c] != g2[r][c] ==> g2[r][c] != Unknown {
      forall r | 0 <= r < |g1| ensures p[r] == g2[r] {
        assert forall c :: 0 <= c < |g1[r]| ==> p[r][c] == g2[r][c];
      }
    }
    if p == g2 {
      forall r, c | 0 <= r < |g1| && 0 <= c < |g1[r]| && g1[r][c] != g2[r][c] ensures g2[r][c] != Unknown {
        assert p[r][c] == g2[r][c];
      }
    }
  }

  /** `solver_run`: one pass of Rule 1, one pass of Rule 2 on its output, and
      the change map of the result against the input. */
  method SolverRun(grid: Board) returns (changes: Board)
    requires IsBoard(grid)
    ensures SameShape(changes, grid)
    ensures forall a, b :: InBounds(grid, a, b) ==> changes[a][b] in {Unknown, Flag, Safe}
    ensures forall a, b :: InBounds(grid, a, b) ==>
      (changes[a][b] == Flag <==> grid[a][b] == Unknown && Triggered(FlagRule, grid, a, b))
    ensures forall a, b :: InBounds(grid, a, b) ==>
      (changes[a][b] == Safe <==>
        grid[a][b] == Unknown && !Triggered(FlagRule, grid, a, b) && Triggered(SafeRule, Rule1(grid), a, b))
    ensures forall a, b :: InBounds(grid, a, b) && grid[a][b] != Unknown ==> changes[a][b] == Unknown
    ensures changes == Changes(grid, Rule2(Rule1(grid)))
  {
    var updatedGrid := ApplyRule1(grid);
    updatedGrid := ApplyRule2(updatedGrid);
    changes := ChangeMap(grid, updatedGrid);
  }

  /** The change map of a round holds exactly the round's new deductions:
      patching the input with it rebuilds the solved grid. */
  lemma SolverChangesRebuildBoard(g: Board)
    requires IsBoard(g)
    ensures Patch(g, Changes(g, Rule2(Rule1(g)))) == Rule2(Rule1(g))
  {
    var h := Rule2(Rule1(g));
    PatchChangesRoundTrip(g, h);
  }

  /** No covered cell has a neighbour that would fire either rule. */
  ghost predicate AtLocalFixedPoint(g: Board)
    requires Rect(g)
  {
    forall a, b :: InBounds(g, a, b) && g[a][b] == Unknown ==>
      !Triggered(FlagRule, g, a, b) && !Triggered(SafeRule, g, a, b)
  }

  lemma SweptUnchanged(rule: Rule, g: Board)
    requires Rect(g)
    requires forall a, b :: InBounds(g, a, b) && g[a][b] == Unknown ==> !Triggered(rule, g, a, b)
    ensures Swept(rule, g) == g
  {
    var h := Swept(rule, g);
    forall a | 0 <= a < |g| ensures h[a] == g[a] {
      assert forall b :: 0 <= b < |g[a]| ==> h[a][b] == g[a][b];
    }
  }

  /** On a board already at a local fixed point the solver deduces nothing:
      its change map is '-' everywhere. */
  lemma FixedPointGivesNoChanges(g: Board)
    requires IsBoard(g) && AtLocalFixedPoint(g)
    ensures forall a, b :: InBounds(g, a, b) ==> Changes(g, Rule2(Rule1(g)))[a][b] == Unknown
  {
    SweptUnchanged(FlagRule, g);
    SweptUnchanged(SafeRule, g);
  }

  /** "0", 'x', flags, mines and unrecognised tiles never fire a rule, so a
      board without any "1".."8" tile comes back unchanged from both passes. */
  lemma NoNumbersNoDeductions(g: Board)
    requires IsBoard(g)
    requires forall a, b :: InBounds(g, a, b) ==> !IsSolverNumber(g[a][b])
    ensures Rule1(g) == g && Rule2(g) == g
  {
    SweptUnchanged(FlagRule, g);
    SweptUnchanged(SafeRule, g);
  }
}

/** Reading the board off the screen: the board geometry table, the sample
    points inside each tile, the colour-to-tile decision table, the grid of
    click targets, the 8-neighbour lookup and cell counting. The screenshot
    itself is an abstract function from pixel position to colour. */
module GridData {
  import opened Wrappers
  import opened Text
  import opened Tiles

  /** (top_left_x, top_left_y, rows, cols, tile_size) of a board on screen. */
  datatype BoardConfig = BoardConfig(tx: int, ty: int, rows: int, cols: int, tile: int)

  const BOARD_COORDS: map<string, BoardConfig> := map[
    "beginner" := BoardConfig(260, 158, 9, 9, 32),
    "intermediate" := BoardConfig(260, 158, 16, 16, 32),
    "expert" := BoardConfig(260, 158, 16, 30, 32),
    "custom1" := BoardConfig(260, 158, 20, 30, 32)
  ]

  const DIFFICULTY: string := "intermediate"

  /** Total number of mines on the configured board. */
  const FLAG_NUMBER: nat := 40

  type RGB = (int, int, int)

  /** A screenshot: the colour of each pixel, relative to the board's top-left corner. */
  type Image = ((int, int)) -> RGB

  /** A screen position to click. */
  type Point = (int, int)

  const GREY: RGB := (189, 189, 189)
  const WHITE: RGB := (255, 255, 255)
  const RED: RGB := (255, 0, 0)
  const BLACK: RGB := (0, 0, 0)

  /** Exact colour matches; the grey entry maps to nothing. */
  const COLOR_VALUE_MAP: map<RGB, Option<Tile>> := map[
    GREY := None,
    (0, 0, 255) := Some(Num(1)),
    (0, 123, 0) := Some(Num(2)),
    (255, 0, 0) := Some(Num(3)),
    (0, 0, 123) := Some(Num(4)),
    (123, 0, 0) := Some(Num(5)),
    (0, 123, 123) := Some(Num(6)),
    BLACK := Some(Num(7)),
    (123, 123, 123) := Some(Num(8))
  ]

  /** The clockwise neighbour order, starting top-left. */
  const CLOCKWISE: seq<(int, int)> := [(-1, -1), (-1, 0), (-1, 1), (0, 1), (1, 1), (1, 0), (1, -1), (0, -1)]

  /** `range(n)` has max(n, 0) elements. */
  function RangeLen(n: int): nat {
    if n < 0 then 0 else n
  }

  /** Python's `int(num / den)` for a positive `den`: truncation toward zero. */
  function TruncDiv(num: int, den: int): (q: int)
    requires den > 0
    ensures num >= 0 ==> q * den <= num < q * den + den
    ensures num < 0 ==> q <= 0 && -q * den <= -num < -q * den + den
  {
    if num >= 0 then num / den else -((-num) / den)
  }

  /** `sample_coords`: the centre sample point and the corner point of the
      tile at (col, row), relative to the board's top-left corner. */
  function SampleCoords(col: int, row: int, tile: int): ((int, int), (int, int)) {
    var baseX := col * tile;
    var baseY := row * tile;
    ((TruncDiv(16 * baseX + 10 * tile, 16), TruncDiv(16 * baseY + 12 * tile, 16)),
     (TruncDiv(16 * baseX + 2 * tile, 16), TruncDiv(16 * baseY + 2 * tile, 16)))
  }

  lemma OffsetInTile(base: int, k: int, tile: int)
    requires tile >= 1 && base >= 0 && 0 <= k < 16
    ensures base <= TruncDiv(16 * base + k * tile, 16) < base + tile
  {
    var q := TruncDiv(16 * base + k * tile, 16);
    assert q * 16 <= 16 * base + k * tile < q * 16 + 16;
    assert k * tile < 16 * tile;
  }

  /** For a positive tile size, both sample points lie inside the tile's own square. */
  lemma SampleCoordsInTile(col: int, row: int, tile: int)
    requires tile >= 1 && col >= 0 && row >= 0
    ensures var ((sx, sy), (cx, cy)) := SampleCoords(col, row, tile);
      col * tile <= sx < col * tile + tile && row * tile <= sy < row * tile + tile &&
      col * tile <= cx < col * tile + tile && row * tile <= cy < row * tile + tile
  {
    assert col * tile >= 0 && row * tile >= 0;
    OffsetInTile(col * tile, 10, tile);
    OffsetInTile(row * tile, 12, tile);
    OffsetInTile(col * tile, 2, tile);
    OffsetInTile(row * tile, 2, tile);
  }

  /** Python's `str(pixel)` for an RGB tuple, e.g. "(12, 34, 56)". */
  function PixelText(p: RGB): string {
    "(" + IntToString(p.0) + ", " + IntToString(p.1) + ", " + IntToString(p.2) + ")"
  }

  /** The per-tile decision table of `make_pixel_grid`, from the colours of
      the centre and the corner sample points. */
  function Classify(center: RGB, corner: RGB): (t: Tile)
    ensures center == GREY ==> t == (if corner == WHITE then Unknown else Num(0))
    ensures center == BLACK ==> t == (if corner == WHITE then Flag else if corner == RED then Mine else Num(7))
    ensures center != GREY && center != BLACK ==>
      t == (if center in COLOR_VALUE_MAP && COLOR_VALUE_MAP[center].Some?
            then COLOR_VALUE_MAP[center].value else Other(PixelText(center)))
    ensures Canonical(t) && t != Safe && t != OffBoard
    ensures t.Num? ==> t.n <= 8
  {
    if center == GREY then
      (if corner == WHITE then Unknown else Num(0))
    else if center == BLACK then
      (if corner == WHITE then Flag else if corner == RED then Mine else Num(7))
    else
      var mapped := if center in COLOR_VALUE_MAP then COLOR_VALUE_MAP[center] else None;
      if mapped.Some? then mapped.value
      else
        var s := PixelText(center);
        assert s[0] == '(';
        Other(s)
  }

  /** `make_pixel_grid`: one classified tile per board cell, row by row. */
  method MakePixelGrid(img: Image, board: BoardConfig) returns (grid: Board)
    ensures |grid| == RangeLen(board.rows)
    ensures forall r :: 0 <= r < |grid| ==> |grid[r]| == RangeLen(board.cols)
    ensures forall r, c :: 0 <= r < |grid| && 0 <= c < |grid[r]| ==>
      var (m, k) := SampleCoords(c, r, board.tile);
      grid[r][c] == Classify(img(m), img(k))
  {
    grid := [];
    var r := 0;
    while r < board.rows
      invariant 0 <= r <= RangeLen(board.rows) && |grid| == r
      invariant forall i :: 0 <= i < r ==> |grid[i]| == RangeLen(board.cols)
      invariant forall i, c :: 0 <= i < r && 0 <= c < |grid[i]| ==>
        var (m, k) := SampleCoords(c, i, board.tile);
        grid[i][c] == Classify(img(m), img(k))
    {
      var rowVals: seq<Tile> := [];
      var c := 0;
      while c < board.cols
        invariant 0 <= c <= RangeLen(board.cols) && |rowVals| == c
        invariant forall j :: 0 <= j < c ==>
          var (m, k) := SampleCoords(j, r, board.tile);
          rowVals[j] == Classify(img(m), img(k))
      {
        var (m, k) := SampleCoords(c, r, board.tile);
        rowVals := rowVals + [Classify(img(m), img(k))];
        c := c + 1;
      }
      grid := grid + [rowVals];
      r := r + 1;
    }
  }

  /** `real_coord_grid`: the absolute screen position of every tile's centre sample point. */
  method RealCoordGrid(board: BoardConfig) returns (coords: seq<seq<Point>>)
    ensures |coords| == RangeLen(board.rows)
    ensures forall r :: 0 <= r < |coords| ==> |coords[r]| == RangeLen(board.cols)
    ensures forall r, c :: 0 <= r < |coords| && 0 <= c < |coords[r]| ==>
      coords[r][c] == (board.tx + SampleCoords(c, r, board.tile).0.0,
                       board.ty + SampleCoords(c, r, board.tile).0.1)
  {
    coords := [];
    var r := 0;
    while r < board.rows
      invariant 0 <= r <= RangeLen(board.rows) && |coords| == r
      invariant forall i :: 0 <= i < r ==> |coords[i]| == RangeLen(board.cols)
      invariant forall i, c :: 0 <= i < r && 0 <= c < |coords[i]| ==>
        coords[i][c] == (board.tx + SampleCoords(c, i, board.tile).0.0,
                         board.ty + SampleCoords(c, i, board.tile).0.1)
    {
      var rowCoords: seq<Point> := [];
      var c := 0;
      while c < board.cols
        invariant 0 <= c <= RangeLen(board.cols) && |rowCoords| == c
        invariant forall j :: 0 <= j < c ==>
          rowCoords[j] == (board.tx + SampleCoords(j, r, board.tile).0.0,
                           board.ty + SampleCoords(j, r, board.tile).0.1)
      {
        var (mx, my) := SampleCoords(c, r, board.tile).0;
        rowCoords := rowCoords + [(board.tx + mx, board.ty + my)];
        c := c + 1;
      }
      coords := coords + [rowCoords];
      r := r + 1;
    }
  }

  /** The tile at (r, c), or the off-board marker 'x'. */
  function TileAt(g: Board, r: int, c: int): Tile
    requires Rect(g)
  {
    if InBounds(g, r, c) then g[r][c] else OffBoard
  }

  /** What `get_neighbours` returns: the eight neighbours in clockwise order. */
  function Neighbours(g: Board, r: int, c: int): (ns: seq<Tile>)
    requires Rect(g)
  {
    seq(8, d requires 0 <= d < 8 => TileAt(g, r + CLOCKWISE[d].0, c + CLOCKWISE[d].1))
  }

  /** `get_neighbours`: exactly eight values, clockwise from the top-left,
      with 'x' for every position off the board. */
  method GetNeighbours(r: int, c: int, grid: Board) returns (ns: seq<Tile>)
    requires IsBoard(grid)
    ensures |ns| == 8
    ensures forall d :: 0 <= d < 8 ==>
      ns[d] == (if InBounds(grid, r + CLOCKWISE[d].0, c + CLOCKWISE[d].1)
                then grid[r + CLOCKWISE[d].0][c + CLOCKWISE[d].1] else OffBoard)
    ensures ns == Neighbours(grid, r, c)
  {
    ns := [];
    var d := 0;
    while d < 8
      invariant 0 <= d <= 8 && |ns| == d
      invariant forall e :: 0 <= e < d ==> ns[e] == TileAt(grid, r + CLOCKWISE[e].0, c + CLOCKWISE[e].1)
    {
      var (dr, dc) := CLOCKWISE[d];
      var nr, nc := r + dr, c + dc;
      if 0 <= nr < |grid| && 0 <= nc < |grid[0]| {
        ns := ns + [grid[nr][nc]];
      } else {
        ns := ns + [OffBoard];
      }
      d := d + 1;
    }
  }

  /** All entries of a grid, row after row. */
  function Flatten<T>(g: seq<seq<T>>): seq<T> {
    if g == [] then [] else g[0] + Flatten(g[1..])
  }

  /** `occurrence_counter`: the sum over the rows of how often `v` occurs in each. */
  function OccurrenceCounter(g: Board, v: Tile): nat {
    if g == [] then 0 else Count(g[0], v) + OccurrenceCounter(g[1..], v)
  }

  /** The count is the multiplicity of `v` among all cells, and is positive
      exactly when some cell holds `v`. */
  lemma {:induction false} OccurrenceCounterCounts(g: Board, v: Tile)
    ensures OccurrenceCounter(g, v) == multiset(Flatten(g))[v]
    ensures OccurrenceCounter(g, v) > 0 <==> exists r, c :: 0 <= r < |g| && 0 <= c < |g[r]| && g[r][c] == v
  {
    if g != [] {
      var rest := OccurrenceCounter(g[1..], v);
      OccurrenceCounterCounts(g[1..], v);
      CountIsMultiplicity(g[0], v);
      assert Flatten(g) == g[0] + Flatten(g[1..]);
      assert rest > 0 ==> exists r, c :: 0 <= r < |g| && 0 <= c < |g[r]| && g[r][c] == v by {
        if rest > 0 {
          var r, c :| 0 <= r < |g[1..]| && 0 <= c < |g[1..][r]| && g[1..][r][c] == v;
          assert g[r + 1][c] == v;
        }
      }
      assert (exists r, c :: 0 <= r < |g| && 0 <= c < |g[r]| && g[r][c] == v) ==> Count(g[0], v) + rest > 0 by {
        if exists r, c :: 0 <= r < |g| && 0 <= c < |g[r]| && g[r][c] == v {
          var r, c :| 0 <= r < |g| && 0 <= c < |g[r]| && g[r][c] == v;
          if r == 0 {
            assert g[0][c] in g[0];
          } else {
            assert g[1..][r - 1][c] == v;
          }
        }
      }
    }
  }

  /** `run`'s difficulty lookup, raising `KeyError` for an unknown name. */
  function LookupBoard(difficulty: string): (res: Result<BoardConfig>)
    ensures res.Err? <==> difficulty !in BOARD_COORDS
    ensures res.Err? ==> res.error == KeyError(difficulty)
    ensures res.Ok? ==> res.value == BOARD_COORDS[difficulty]
  {
    if difficulty !in BOARD_COORDS then Err(KeyError(difficulty)) else Ok(BOARD_COORDS[difficulty])
  }

  /** `run`: look up the board, read the tiles off the screenshot and build the
      matching grid of click targets. */
  method Run(difficulty: string, img: Image) returns (res: Result<(Board, seq<seq<Point>>)>)
    ensures res.Err? <==> difficulty !in BOARD_COORDS
    ensures res.Err? ==> res.error == KeyError(difficulty)
    ensures res.Ok? ==>
      var cfg := BOARD_COORDS[difficulty];
      var (grid, coords) := res.value;
      |grid| == cfg.rows && Rect(grid) && SameShape(grid, coords) &&
      (cfg.rows > 0 ==> Cols(grid) == RangeLen(cfg.cols)) &&
      forall r, c :: 0 <= r < |grid| && 0 <= c < |grid[r]| ==>
        grid[r][c] == Classify(img(SampleCoords(c, r, cfg.tile).0), img(SampleCoords(c, r, cfg.tile).1)) &&
        coords[r][c] == (cfg.tx + SampleCoords(c, r, cfg.tile).0.0, cfg.ty + SampleCoords(c, r, cfg.tile).0.1)
  {
    var board := LookupBoard(difficulty);
    if board.Err? {
      return Err(board.error);
    }
    var cfg := board.value;
    var grid := MakePixelGrid(img, cfg);
    var coords := RealCoordGrid(cfg);
    res := Ok((grid, coords));
  }
}

/** The fallback used when neither rule deduces anything: a local mine
    estimate for every covered cell next to a numbered tile, a filter that
    prefers cells with many opened neighbours, and a score that picks the
    covered cell to open next. Probabilities are exact rationals. */
module ProbabilityHeuristic {
  import opened Wrappers
  import opened Tiles

  /** Neighbour offsets in row-major order. */
  const DIRS: seq<(int, int)> := [(-1, -1), (-1, 0), (-1, 1), (0, -1), (0, 1), (1, -1), (1, 0), (1, 1)]

  /** The tie tolerance 1e-9. */
  const EPS: real := 0.000000001

  /** Minimum opened-neighbour counts tried in turn when picking candidates. */
  const MIN_OPEN_THRESHOLDS: seq<nat> := [3, 2, 0]

  /** The position DIRS[d] away from (r, c). */
  function Shift(r: int, c: int, d: nat): Coord
    requires d < 8
  {
    (r + DIRS[d].0, c + DIRS[d].1)
  }

  /** p is one of the eight cells around (r, c). */
  predicate Adjacent(p: Coord, r: int, c: int) {
    p != (r, c) && -1 <= p.0 - r <= 1 && -1 <= p.1 - c <= 1
  }

  lemma ShiftOrdered(r: int, c: int, i: nat, j: nat)
    requires i < j < 8
    ensures Before(Shift(r, c, i), Shift(r, c, j).0, Shift(r, c, j).1)
  {
  }

  lemma AdjacentIsShift(p: Coord, r: int, c: int)
    ensures Adjacent(p, r, c) <==> exists d :: 0 <= d < 8 && p == Shift(r, c, d)
  {
    if Adjacent(p, r, c) {
      var k := (p.0 - r + 1) * 3 + (p.1 - c + 1);
      var d := if k < 4 then k else k - 1;
      assert p == Shift(r, c, d);
    }
  }

  /** The positions `neighbors` yields from DIRS[k] on. */
  function NeighborsFrom(g: Board, r: int, c: int, k: nat): (ns: seq<Coord>)
    requires k <= 8
    ensures |ns| <= 8 - k
    decreases 8 - k
  {
    if k == 8 then []
    else
      var p := Shift(r, c, k);
      (if InBounds(g, p.0, p.1) then [p] else []) + NeighborsFrom(g, r, c, k + 1)
  }

  lemma {:induction false} NeighborsFromMembers(g: Board, r: int, c: int, k: nat)
    requires k <= 8
    ensures forall p :: p in NeighborsFrom(g, r, c, k) <==>
      InBounds(g, p.0, p.1) && exists d :: k <= d < 8 && p == Shift(r, c, d)
    decreases 8 - k
  {
    if k < 8 {
      NeighborsFromMembers(g, r, c, k + 1);
    }
  }

  lemma {:induction false} NeighborsFromOrdered(g: Board, r: int, c: int, k: nat)
    requires k <= 8
    ensures forall i, j :: 0 <= i < j < |NeighborsFrom(g, r, c, k)| ==>
      Before(NeighborsFrom(g, r, c, k)[i], NeighborsFrom(g, r, c, k)[j].0, NeighborsFrom(g, r, c, k)[j].1)
    decreases 8 - k
  {
    if k < 8 {
      NeighborsFromOrdered(g, r, c, k + 1);
      NeighborsFromMembers(g, r, c, k + 1);
      var p := Shift(r, c, k);
      var rest := NeighborsFrom(g, r, c, k + 1);
      forall q | q in rest ensures Before(p, q.0, q.1) {
        var d :| k + 1 <= d < 8 && q == Shift(r, c, d);
        ShiftOrdered(r, c, k, d);
      }
    }
  }

  /** `neighbors`: the positions DIRS yields around (r, c) that are on the
      board, in DIRS order; at most eight (NeighborsMembers says which). */
  function Neighbors(g: Board, r: int, c: int): (ns: seq<Coord>)
    ensures |ns| <= 8
  {
    NeighborsFrom(g, r, c, 0)
  }

  /** The neighbours are exactly the on-board cells adjacent to (r, c);
      never (r, c) itself. */
  lemma NeighborsMembers(g: Board, r: int, c: int)
    ensures forall p :: p in Neighbors(g, r, c) <==> InBounds(g, p.0, p.1) && Adjacent(p, r, c)
  {
    NeighborsFromMembers(g, r, c, 0);
    forall p ensures p in Neighbors(g, r, c) <==> InBounds(g, p.0, p.1) && Adjacent(p, r, c) {
      AdjacentIsShift(p, r, c);
    }
  }

  /** The neighbours come in row-major order, so each appears once. */
  lemma NeighborsOrdered(g: Board, r: int, c: int)
    ensures forall i, j :: 0 <= i < j < |Neighbors(g, r, c)| ==>
      Before(Neighbors(g, r, c)[i], Neighbors(g, r, c)[j].0, Neighbors(g, r, c)[j].1)
  {
    NeighborsFromOrdered(g, r, c, 0);
  }

  /** No neighbour is listed twice. */
  lemma NeighborsDistinct(g: Board, r: int, c: int)
    ensures Distinct(Neighbors(g, r, c))
  {
    NeighborsOrdered(g, r, c);
  }

  /** `is_number`: every digit tile counts, "0" included. */
  predicate IsNumber(t: Tile) {
    t.Num?
  }

  /** A canonical tile is a number exactly when its token is a digit string. */
  lemma IsNumberMatchesToken(t: Tile)
    requires Canonical(t)
    ensures IsNumber(t) <==> Text.IsDigitString(Token(t))
  {
    match t
    case Num(n) => Text.NatToStringDigits(n);
    case Other(_) =>
    case _ => assert !Text.IsDigit(Token(t)[0]);
  }

  /** The tile at p, or OffBoard outside the board. */
  function At(g: Board, p: Coord): Tile {
    if 0 <= p.0 < |g| && 0 <= p.1 < |g[p.0]| then g[p.0][p.1] else OffBoard
  }

  /** How many of the positions hold `v`. */
  function CountAt(g: Board, ps: seq<Coord>, v: Tile): (n: nat)
    ensures n <= |ps|
  {
    if ps == [] then 0
    else CountAt(g, ps[..|ps| - 1], v) + (if At(g, ps[|ps| - 1]) == v then 1 else 0)
  }

  /** How many of the positions hold a number. */
  function CountNumbers(g: Board, ps: seq<Coord>): (n: nat)
    ensures n <= |ps|
  {
    if ps == [] then 0
    else CountNumbers(g, ps[..|ps| - 1]) + (if IsNumber(At(g, ps[|ps| - 1])) then 1 else 0)
  }

  /** The positions that hold '-', in their original order. */
  function KeepUnknown(g: Board, ps: seq<Coord>): (us: seq<Coord>)
    ensures |us| == CountAt(g, ps, Unknown)
  {
    if ps == [] then []
    else
      var last := ps[|ps| - 1];
      KeepUnknown(g, ps[..|ps| - 1]) + (if At(g, last) == Unknown then [last] else [])
  }

  lemma {:induction false} KeepUnknownMembers(g: Board, ps: seq<Coord>)
    ensures forall u :: u in KeepUnknown(g, ps) <==> u in ps && At(g, u) == Unknown
    ensures Distinct(ps) ==> Distinct(KeepUnknown(g, ps))
  {
    if ps != [] {
      var init, last := ps[..|ps| - 1], ps[|ps| - 1];
      assert ps == init + [last];
      KeepUnknownMembers(g, init);
      assert Distinct(ps) ==> Distinct(init) && last !in init;
    }
  }

  /** Flagged neighbours of (r, c). */
  function FlaggedAround(g: Board, r: int, c: int): nat {
    CountAt(g, Neighbors(g, r, c), Flag)
  }

  /** Covered neighbours of (r, c), in DIRS order. */
  function UnknownsAround(g: Board, r: int, c: int): seq<Coord> {
    KeepUnknown(g, Neighbors(g, r, c))
  }

  /** (opened, covered) neighbour counts: every tile other than '-' counts as opened. */
  function NeighbourCounts(g: Board, r: int, c: int): (nat, nat) {
    var ns := Neighbors(g, r, c);
    (|ns| - CountAt(g, ns, Unknown), CountAt(g, ns, Unknown))
  }

  /** Numbered neighbours of (r, c), the tie-break measure. */
  function NumberedNeighbours(g: Board, r: int, c: int): nat {
    CountNumbers(g, Neighbors(g, r, c))
  }

  lemma CountAtPrefix(g: Board, ps: seq<Coord>, i: nat, v: Tile)
    requires i < |ps|
    ensures CountAt(g, ps[..i + 1], v) == CountAt(g, ps[..i], v) + (if At(g, ps[i]) == v then 1 else 0)
  {
    assert ps[..i + 1][..i] == ps[..i];
  }

  /** The loop of `_neighbour_counts` over a list of on-board positions. */
  method CountOpenUnknown(grid: Board, ns: seq<Coord>) returns (openN: nat, unknownN: nat)
    requires Rect(grid) && forall p :: p in ns ==> InBounds(grid, p.0, p.1)
    ensures unknownN == CountAt(grid, ns, Unknown) && openN + unknownN == |ns|
  {
    var i := 0;
    openN, unknownN := 0, 0;
    while i < |ns|
      invariant 0 <= i <= |ns|
      invariant unknownN == CountAt(grid, ns[..i], Unknown) && openN + unknownN == i
    {
      CountAtPrefix(grid, ns, i, Unknown);
      assert ns[i] in ns;
      if grid[ns[i].0][ns[i].1] == Unknown {
        unknownN := unknownN + 1;
      } else {
        openN := openN + 1;
      }
      i := i + 1;
    }
    assert ns[..i] == ns;
  }

  /** `_neighbour_counts`: one pass over the neighbours, counting covered
      ones and everything else as opened. */
  method CountNeighbours(grid: Board, r: int, c: int) returns (openN: nat, unknownN: nat)
    requires Rect(grid)
    ensures openN + unknownN == |Neighbors(grid, r, c)| <= 8
    ensures unknownN == NeighbourCounts(grid, r, c).1 && openN == NeighbourCounts(grid, r, c).0
  {
    NeighborsMembers(grid, r, c);
    openN, unknownN := CountOpenUnknown(grid, Neighbors(grid, r, c));
  }

  /** Clamp to [0, 1], as the aggregation does after averaging. */
  function Clamp(x: real): (y: real)
    ensures 0.0 <= y <= 1.0
    ensures 0.0 <= x <= 1.0 ==> y == x
    ensures x < 0.0 ==> y == 0.0
    ensures x > 1.0 ==> y == 1.0
  {
    if x < 0.0 then 0.0 else if x > 1.0 then 1.0 else x
  }

  function Sum(xs: seq<real>): real {
    if xs == [] then 0.0 else Sum(xs[..|xs| - 1]) + xs[|xs| - 1]
  }

  /** Arithmetic mean; 0 for the empty list, which never arises. */
  function Mean(xs: seq<real>): real {
    if xs == [] then 0.0 else Sum(xs) / |xs| as real
  }

  /** A numbered tile that hands out probability: it has covered
      neighbours and no more flags around it than its number. */
  predicate Active(g: Board, s: Coord) {
    IsNumber(At(g, s)) && |UnknownsAround(g, s.0, s.1)| > 0 && FlaggedAround(g, s.0, s.1) <= At(g, s).n
  }

  /** The share an active tile gives each covered neighbour: remaining
      mines over covered neighbours. */
  function Share(g: Board, s: Coord): (x: real)
    requires Active(g, s)
    ensures x >= 0.0
  {
    Ratio(Remaining(g, s), |UnknownsAround(g, s.0, s.1)|)
  }

  /** Mines a numbered tile still has to place: its number minus its flags. */
  function Remaining(g: Board, s: Coord): int
    requires IsNumber(At(g, s))
  {
    At(g, s).n as int - FlaggedAround(g, s.0, s.1) as int
  }

  lemma ShareIs(g: Board, s: Coord, rem: int, k: nat)
    requires Active(g, s)
    requires rem == Remaining(g, s)
    requires k == |UnknownsAround(g, s.0, s.1)|
    ensures 1 <= k <= 8 && Share(g, s) == Ratio(rem, k)
  {
  }

  /** a / b as an exact rational, for a divisor in 1..8 (a count of
      neighbours); split by divisor so that every division has a constant
      denominator. */
  function Ratio(a: int, b: nat): (x: real)
    requires 1 <= b <= 8
    ensures a >= 0 ==> x >= 0.0
  {
    var y := a as real;
    if b == 1 then y else if b == 2 then y / 2.0 else if b == 3 then y / 3.0
    else if b == 4 then y / 4.0 else if b == 5 then y / 5.0 else if b == 6 then y / 6.0
    else if b == 7 then y / 7.0 else y / 8.0
  }

  lemma RatioIsQuotient(a: int, b: nat)
    requires 1 <= b <= 8
    ensures Ratio(a, b) == a as real / b as real
  {
  }

  /** Every contribution target, in the order the sources in `cells` append them. */
  function Targets(g: Board, cells: seq<Coord>): seq<Coord> {
    if cells == [] then []
    else
      var s := cells[|cells| - 1];
      Targets(g, cells[..|cells| - 1]) + Gift(g, s)
  }

  /** The cells source `s` appends its share to. */
  function Gift(g: Board, s: Coord): seq<Coord> {
    if Active(g, s) then UnknownsAround(g, s.0, s.1) else []
  }

  /** What source `s` appends to the list of `u`. */
  function GiftFor(g: Board, u: Coord, s: Coord): seq<real> {
    if Active(g, s) && u in UnknownsAround(g, s.0, s.1) then [Share(g, s)] else []
  }

  /** The contributions `u` collects from the sources in `cells`, in order. */
  function ContribsFor(g: Board, u: Coord, cells: seq<Coord>): seq<real> {
    if cells == [] then []
    else
      var s := cells[|cells| - 1];
      ContribsFor(g, u, cells[..|cells| - 1]) + GiftFor(g, u, s)
  }

  /** First occurrences only: the key order of a dict filled from `xs`. */
  function Dedup(xs: seq<Coord>): (ys: seq<Coord>)
    ensures forall x :: x in ys <==> x in xs
    ensures Distinct(ys)
  {
    if xs == [] then []
    else
      var init := xs[..|xs| - 1];
      var last := xs[|xs| - 1];
      assert forall x :: x in xs <==> x in init || x == last by {
        assert xs == init + [last];
      }
      if last in init then Dedup(init) else Dedup(init) + [last]
  }

  /** A probability map: keys in insertion order and their values. */
  datatype ProbMap = ProbMap(keys: seq<Coord>, prob: map<Coord, real>)

  /** The probability map of a board: for every cell some active tile
      touches, the clamped mean of the shares it receives. */
  function LocalProbs(g: Board): ProbMap {
    var cells := RowMajor(|g|, Cols(g));
    var keys := Dedup(Targets(g, cells));
    ProbMap(keys, Averages(g, keys, cells))
  }

  /** The clamped mean of the contributions from `cells`, for each of `ks`. */
  function Averages(g: Board, ks: seq<Coord>, cells: seq<Coord>): map<Coord, real> {
    if ks == [] then map[]
    else
      var u := ks[|ks| - 1];
      Averages(g, ks[..|ks| - 1], cells)[u := Clamp(Mean(ContribsFor(g, u, cells)))]
  }

  lemma {:induction false} AveragesLookup(g: Board, ks: seq<Coord>, cells: seq<Coord>, u: Coord)
    ensures u in Averages(g, ks, cells) <==> u in ks
    ensures u in ks ==> Averages(g, ks, cells)[u] == Clamp(Mean(ContribsFor(g, u, cells)))
  {
    if ks != [] {
      var init := ks[..|ks| - 1];
      assert ks == init + [ks[|ks| - 1]];
      AveragesLookup(g, init, cells, u);
    }
  }

  /** The aggregation loop's result: each list of `contribs` for `ks`,
      averaged and clamped. */
  function Averaged(contribs: map<Coord, seq<real>>, ks: seq<Coord>): map<Coord, real>
    requires forall u :: u in ks ==> u in contribs
  {
    if ks == [] then map[]
    else
      var u := ks[|ks| - 1];
      Averaged(contribs, ks[..|ks| - 1])[u := Clamp(Mean(contribs[u]))]
  }

  /** Averaging the collected lists gives the map of the definition. */
  lemma {:induction false} AveragedAgrees(g: Board, contribs: map<Coord, seq<real>>, ks: seq<Coord>, cells: seq<Coord>)
    requires forall u :: u in ks ==> u in contribs && contribs[u] == ContribsFor(g, u, cells)
    ensures Averaged(contribs, ks) == Averages(g, ks, cells)
  {
    if ks != [] {
      var init := ks[..|ks| - 1];
      assert forall u :: u in init ==> u in ks;
      AveragedAgrees(g, contribs, init, cells);
    }
  }

  lemma AveragedPrefix(contribs: map<Coord, seq<real>>, ks: seq<Coord>, k: nat)
    requires k < |ks| && forall u :: u in ks ==> u in contribs
    ensures Averaged(contribs, ks[..k + 1]) == Averaged(contribs, ks[..k])[ks[k] := Clamp(Mean(contribs[ks[k]]))]
  {
    assert ks[..k + 1][..k] == ks[..k];
  }

  /** The state of `contribs` once the sources in `cells` have been visited. */
  ghost predicate Collected(g: Board, keys: seq<Coord>, contribs: map<Coord, seq<real>>, cells: seq<Coord>) {
    keys == Dedup(Targets(g, cells))
    && (forall u :: u in contribs <==> u in Targets(g, cells))
    && (forall u :: u in contribs ==> contribs[u] == ContribsFor(g, u, cells))
  }

  lemma {:induction false} NoTargetNoContribs(g: Board, u: Coord, cells: seq<Coord>)
    requires u !in Targets(g, cells)
    ensures ContribsFor(g, u, cells) == []
  {
    if cells != [] {
      NoTargetNoContribs(g, u, cells[..|cells| - 1]);
    }
  }

  lemma {:induction false} TargetsHaveContribs(g: Board, u: Coord, cells: seq<Coord>)
    requires u in Targets(g, cells)
    ensures |ContribsFor(g, u, cells)| > 0
  {
    var init := cells[..|cells| - 1];
    if u in Targets(g, init) {
      TargetsHaveContribs(g, u, init);
    }
  }

  /** Visiting one more source cell extends the folds by that cell. */
  lemma TargetsStep(g: Board, cells: seq<Coord>, s: Coord)
    ensures Targets(g, cells + [s]) == Targets(g, cells) + Gift(g, s)
  {
    assert (cells + [s])[..|cells|] == cells;
  }

  lemma ContribsStep(g: Board, u: Coord, cells: seq<Coord>, s: Coord)
    ensures ContribsFor(g, u, cells + [s]) == ContribsFor(g, u, cells) + GiftFor(g, u, s)
  {
    assert (cells + [s])[..|cells|] == cells;
  }

  lemma DedupSnoc(xs: seq<Coord>, x: Coord)
    ensures Dedup(xs + [x]) == if x in xs then Dedup(xs) else Dedup(xs) + [x]
  {
    assert (xs + [x])[..|xs|] == xs;
  }

  lemma KeepUnknownPrefix(g: Board, ps: seq<Coord>, i: nat)
    requires i < |ps|
    ensures KeepUnknown(g, ps[..i + 1]) == KeepUnknown(g, ps[..i]) + (if At(g, ps[i]) == Unknown then [ps[i]] else [])
  {
    assert ps[..i + 1][..i] == ps[..i];
  }

  /** The loop of the neighbour scan over a list of on-board positions:
      flags counted, covered positions listed in order. */
  method ScanCells(grid: Board, ns: seq<Coord>) returns (flagged: nat, unknowns: seq<Coord>)
    requires Rect(grid) && forall p :: p in ns ==> InBounds(grid, p.0, p.1)
    ensures flagged == CountAt(grid, ns, Flag) && unknowns == KeepUnknown(grid, ns)
  {
    flagged, unknowns := 0, [];
    var i := 0;
    while i < |ns|
      invariant 0 <= i <= |ns|
      invariant flagged == CountAt(grid, ns[..i], Flag) && unknowns == KeepUnknown(grid, ns[..i])
    {
      CountAtPrefix(grid, ns, i, Flag);
      KeepUnknownPrefix(grid, ns, i);
      assert ns[i] in ns;
      var v := grid[ns[i].0][ns[i].1];
      if v == Flag {
        flagged := flagged + 1;
      } else if v == Unknown {
        unknowns := unknowns + [ns[i]];
      }
      i := i + 1;
    }
    assert ns[..i] == ns;
  }

  /** `m` after appending `x` to the list of each cell of `us` in turn,
      a missing list starting empty. */
  function Extend(m: map<Coord, seq<real>>, us: seq<Coord>, x: real): map<Coord, seq<real>> {
    if us == [] then m
    else
      var m' := Extend(m, us[..|us| - 1], x);
      var u := us[|us| - 1];
      m'[u := (if u in m' then m'[u] else []) + [x]]
  }

  lemma ExtendPrefix(m: map<Coord, seq<real>>, us: seq<Coord>, j: nat, x: real)
    requires j < |us|
    ensures Extend(m, us[..j + 1], x) ==
      Extend(m, us[..j], x)[us[j] := (if us[j] in Extend(m, us[..j], x) then Extend(m, us[..j], x)[us[j]] else []) + [x]]
  {
    assert us[..j + 1][..j] == us[..j];
  }

  lemma {:induction false} ExtendMember(m: map<Coord, seq<real>>, us: seq<Coord>, x: real, v: Coord)
    ensures v in Extend(m, us, x) <==> v in m || v in us
  {
    if us != [] {
      ExtendMember(m, us[..|us| - 1], x, v);
      assert us == us[..|us| - 1] + [us[|us| - 1]];
    }
  }

  lemma {:induction false} ExtendValue(m: map<Coord, seq<real>>, us: seq<Coord>, x: real, v: Coord)
    requires Distinct(us) && v in Extend(m, us, x)
    ensures Extend(m, us, x)[v] == (if v in m then m[v] else []) + (if v in us then [x] else [])
  {
    if us != [] {
      var init := us[..|us| - 1];
      assert us == init + [us[|us| - 1]];
      assert Distinct(init);
      if v == us[|us| - 1] {
        assert v !in init;
        ExtendMember(m, init, x, v);
        if v in Extend(m, init, x) {
          ExtendValue(m, init, x, v);
        }
      } else {
        ExtendMember(m, init, x, v);
        ExtendValue(m, init, x, v);
      }
    }
  }

  lemma HandingEnd(g: Board, keys: seq<Coord>, cells: seq<Coord>, base: map<Coord, seq<real>>, s: Coord)
    requires Active(g, s)
    requires Collected(g, Dedup(Targets(g, cells)), base, cells)
    requires keys == Dedup(Targets(g, cells) + UnknownsAround(g, s.0, s.1))
    ensures Collected(g, keys, Extend(base, UnknownsAround(g, s.0, s.1), Share(g, s)), cells + [s])
  {
    var us := UnknownsAround(g, s.0, s.1);
    var m := Extend(base, us, Share(g, s));
    NeighborsDistinct(g, s.0, s.1);
    KeepUnknownMembers(g, Neighbors(g, s.0, s.1));
    TargetsStep(g, cells, s);
    assert Gift(g, s) == us;
    forall u ensures u in m <==> u in Targets(g, cells + [s]) {
      ExtendMember(base, us, Share(g, s), u);
    }
    forall u | u in m ensures m[u] == ContribsFor(g, u, cells + [s]) {
      ExtendValue(base, us, Share(g, s), u);
      ContribsStep(g, u, cells, s);
      assert GiftFor(g, u, s) == if u in us then [Share(g, s)] else [];
      if u !in base {
        NoTargetNoContribs(g, u, cells);
      }
    }
  }

  lemma CollectedSkip(g: Board, keys: seq<Coord>, contribs: map<Coord, seq<real>>, cells: seq<Coord>, s: Coord)
    requires !Active(g, s)
    requires Collected(g, keys, contribs, cells)
    ensures Collected(g, keys, contribs, cells + [s])
  {
    TargetsStep(g, cells, s);
    assert Gift(g, s) == [];
    assert Targets(g, cells + [s]) == Targets(g, cells);
    forall u | u in contribs ensures contribs[u] == ContribsFor(g, u, cells + [s]) {
      ContribsStep(g, u, cells, s);
      assert GiftFor(g, u, s) == [];
    }
  }

  /** `for u in unknowns: contribs[u].append(contrib)`, where a missing
      list is created and its key recorded. */
  method HandOut(keys: seq<Coord>, contribs: map<Coord, seq<real>>, ghost t: seq<Coord>, us: seq<Coord>, x: real)
    returns (keys': seq<Coord>, contribs': map<Coord, seq<real>>)
    requires keys == Dedup(t) && forall v :: v in contribs <==> v in t
    ensures keys' == Dedup(t + us) && contribs' == Extend(contribs, us, x)
  {
    keys', contribs' := keys, contribs;
    assert t + us[..0] == t;
    var j := 0;
    while j < |us|
      invariant 0 <= j <= |us|
      invariant keys' == Dedup(t + us[..j]) && contribs' == Extend(contribs, us[..j], x)
    {
      var u := us[j];
      assert t + us[..j + 1] == (t + us[..j]) + [u];
      DedupSnoc(t + us[..j], u);
      ExtendMember(contribs, us[..j], x, u);
      ExtendPrefix(contribs, us, j, x);
      if u in contribs' {
        contribs' := contribs'[u := contribs'[u] + [x]];
      } else {
        assert [] + [x] == [x];
        contribs' := contribs'[u := [x]];
        keys' := keys' + [u];
      }
      j := j + 1;
    }
    assert us[..j] == us;
  }

  /** The body of the cell loop of `compute_local_probs` for the tile at
      (r, c): a numbered tile with covered neighbours and no more flags
      than its number appends its share to each covered neighbour. */
  method AddContributions(grid: Board, r: nat, c: nat, keys: seq<Coord>, contribs: map<Coord, seq<real>>,
                          ghost done: seq<Coord>)
    returns (keys': seq<Coord>, contribs': map<Coord, seq<real>>)
    requires IsBoard(grid) && InBounds(grid, r, c)
    requires Collected(grid, keys, contribs, done)
    ensures Collected(grid, keys', contribs', done + [(r, c)])
  {
    keys', contribs' := keys, contribs;
    assert At(grid, (r, c)) == grid[r][c];
    var cell := grid[r][c];
    if !IsNumber(cell) {
      CollectedSkip(grid, keys, contribs, done, (r, c));
      return;
    }
    var flagged, unknowns := ScanAround(grid, r, c);
    keys', contribs' := Distribute(grid, r, c, cell.n as int - flagged as int, unknowns, keys, contribs, done);
  }

  /** The neighbour scan of the loop body for the tile at (r, c). */
  method ScanAround(grid: Board, r: nat, c: nat) returns (flagged: nat, unknowns: seq<Coord>)
    requires IsBoard(grid) && InBounds(grid, r, c)
    ensures flagged == FlaggedAround(grid, r, c) && unknowns == UnknownsAround(grid, r, c)
  {
    NeighborsMembers(grid, r, c);
    flagged, unknowns := ScanCells(grid, Neighbors(grid, r, c));
  }

  /** The second half of the loop body: with `rem` mines left to place
      among the covered neighbours `unknowns`, share them out evenly. */
  method Distribute(grid: Board, r: nat, c: nat, rem: int, unknowns: seq<Coord>,
                    keys: seq<Coord>, contribs: map<Coord, seq<real>>, ghost done: seq<Coord>)
    returns (keys': seq<Coord>, contribs': map<Coord, seq<real>>)
    requires IsBoard(grid) && InBounds(grid, r, c) && IsNumber(At(grid, (r, c)))
    requires rem == Remaining(grid, (r, c)) && unknowns == UnknownsAround(grid, r, c)
    requires Collected(grid, keys, contribs, done)
    ensures Collected(grid, keys', contribs', done + [(r, c)])
  {
    keys', contribs' := keys, contribs;
    if !(|unknowns| > 0 && rem >= 0) {
      CollectedSkip(grid, keys, contribs, done, (r, c));
      return;
    }
    ShareIs(grid, (r, c), rem, |unknowns|);
    var contrib := Ratio(rem, |unknowns|);  // rem / len(unknowns), see RatioIsQuotient
    keys', contribs' := HandOut(keys, contribs, Targets(grid, done), unknowns, contrib);
    HandingEnd(grid, keys', done, contribs, (r, c));
  }

  /** The aggregation loop: each list, in key order, becomes its clamped mean. */
  method Aggregate(keys: seq<Coord>, contribs: map<Coord, seq<real>>) returns (prob: map<Coord, real>)
    requires forall u :: u in keys ==> u in contribs && |contribs[u]| > 0
    ensures prob == Averaged(contribs, keys)
  {
    prob := map[];
    var k := 0;
    while k < |keys|
      invariant 0 <= k <= |keys|
      invariant prob == Averaged(contribs, keys[..k])
    {
      var coord := keys[k];
      var lst := contribs[coord];
      var v := Sum(lst) / |lst| as real;
      if v < 0.0 {
        v := 0.0;
      }
      if v > 1.0 {
        v := 1.0;
      }
      AveragedPrefix(contribs, keys, k);
      prob := prob[coord := v];
      k := k + 1;
    }
    assert keys[..k] == keys;
  }

  /** `compute_local_probs`: the contributions of every tile in row-major
      order, then each touched cell's clamped mean. */
  method ComputeLocalProbs(grid: Board) returns (pm: ProbMap)
    requires IsBoard(grid)
    ensures pm == LocalProbs(grid)
  {
    var keys: seq<Coord> := [];
    var contribs: map<Coord, seq<real>> := map[];
    var rows, cols := |grid|, |grid[0]|;
    ghost var done: seq<Coord> := [];
    var r := 0;
    while r < rows
      invariant 0 <= r <= rows && done == CellsBefore(cols, r, 0)
      invariant Collected(grid, keys, contribs, done)
    {
      var c := 0;
      assert r > 0 ==> CellsBefore(cols, r, 0) == CellsBefore(cols, r - 1, cols);
      while c < cols
        invariant 0 <= c <= cols && done == CellsBefore(cols, r, c)
        invariant Collected(grid, keys, contribs, done)
      {
        keys, contribs := AddContributions(grid, r, c, keys, contribs, done);
        done := done + [(r, c)];
        c := c + 1;
      }
      r := r + 1;
    }
    assert done == RowMajor(|grid|, Cols(grid));
    forall u | u in keys ensures u in contribs && |contribs[u]| > 0 {
      TargetsHaveContribs(grid, u, done);
    }
    var prob := Aggregate(keys, contribs);
    AveragedAgrees(grid, contribs, keys, done);
    pm := ProbMap(keys, prob);
  }

  // ---------------------------------------------------------------------
  // What the probability map holds

  /** A covered cell next to an active numbered tile: a frontier cell. */
  ghost predicate Frontier(g: Board, u: Coord) {
    At(g, u) == Unknown && exists s :: Active(g, s) && Adjacent(u, s.0, s.1)
  }

  lemma UnknownsAroundMembers(g: Board, s: Coord, u: Coord)
    requires Rect(g)
    ensures u in UnknownsAround(g, s.0, s.1) <==> At(g, u) == Unknown && Adjacent(u, s.0, s.1)
  {
    NeighborsMembers(g, s.0, s.1);
    KeepUnknownMembers(g, Neighbors(g, s.0, s.1));
  }

  /** An active tile is on the board. */
  lemma ActiveOnBoard(g: Board, s: Coord)
    requires Rect(g) && Active(g, s)
    ensures InBounds(g, s.0, s.1) && s in RowMajor(|g|, Cols(g))
  {
    CellsBeforeMembers(Cols(g), |g|, 0);
  }

  lemma {:induction false} TargetsMembers(g: Board, cells: seq<Coord>, u: Coord)
    ensures u in Targets(g, cells) <==> exists s :: s in cells && Active(g, s) && u in UnknownsAround(g, s.0, s.1)
  {
    if cells != [] {
      var init, last := cells[..|cells| - 1], cells[|cells| - 1];
      assert cells == init + [last];
      TargetsMembers(g, init, u);
    }
  }

  /** The keys are exactly the frontier cells, each once. */
  lemma LocalProbsKeys(g: Board)
    requires IsBoard(g)
    ensures Distinct(LocalProbs(g).keys)
    ensures forall u :: u in LocalProbs(g).keys <==> Frontier(g, u)
  {
    var cells := RowMajor(|g|, Cols(g));
    forall u ensures u in LocalProbs(g).keys <==> Frontier(g, u) {
      TargetsMembers(g, cells, u);
      if Frontier(g, u) {
        var s :| Active(g, s) && Adjacent(u, s.0, s.1);
        ActiveOnBoard(g, s);
        UnknownsAroundMembers(g, s, u);
      }
      if u in LocalProbs(g).keys {
        var s :| s in cells && Active(g, s) && u in UnknownsAround(g, s.0, s.1);
        UnknownsAroundMembers(g, s, u);
      }
    }
  }

  /** The contributions of `u` are the shares of the active tiles of
      `cells` it is next to. */
  lemma {:induction false} ContribsMembers(g: Board, u: Coord, cells: seq<Coord>, x: real)
    ensures x in ContribsFor(g, u, cells) <==>
      exists s :: s in cells && Active(g, s) && u in UnknownsAround(g, s.0, s.1) && x == Share(g, s)
  {
    if cells != [] {
      var init, last := cells[..|cells| - 1], cells[|cells| - 1];
      assert cells == init + [last];
      ContribsMembers(g, u, init, x);
      GiftForMembers(g, u, last, x);
    }
  }

  lemma GiftForMembers(g: Board, u: Coord, s: Coord, x: real)
    ensures x in GiftFor(g, u, s) <==> Active(g, s) && u in UnknownsAround(g, s.0, s.1) && x == Share(g, s)
  {
    if Active(g, s) && u in UnknownsAround(g, s.0, s.1) {
      assert GiftFor(g, u, s) == [Share(g, s)];
    } else {
      assert GiftFor(g, u, s) == [];
    }
  }

  /** A satisfied active tile hands out nothing. */
  lemma SatisfiedShare(g: Board, s: Coord)
    requires Active(g, s) && Remaining(g, s) == 0
    ensures Share(g, s) == 0.0
  {
    ShareIs(g, s, 0, |UnknownsAround(g, s.0, s.1)|);
    RatioZero(|UnknownsAround(g, s.0, s.1)|);
  }

  lemma RatioZero(b: nat)
    requires 1 <= b <= 8
    ensures Ratio(0, b) == 0.0
  {
  }

  lemma {:induction false} SumNonNegative(xs: seq<real>)
    requires forall i :: 0 <= i < |xs| ==> xs[i] >= 0.0
    ensures Sum(xs) >= 0.0
  {
    if xs != [] {
      var init := xs[..|xs| - 1];
      assert forall i :: 0 <= i < |init| ==> init[i] == xs[i];
      SumNonNegative(init);
    }
  }

  lemma {:induction false} SumZero(xs: seq<real>)
    requires forall i :: 0 <= i < |xs| ==> xs[i] == 0.0
    ensures Sum(xs) == 0.0
  {
    if xs != [] {
      var init := xs[..|xs| - 1];
      assert forall i :: 0 <= i < |init| ==> init[i] == xs[i];
      SumZero(init);
    }
  }

  lemma MeanNonNegative(xs: seq<real>)
    requires forall x :: x in xs ==> x >= 0.0
    ensures Mean(xs) >= 0.0
  {
    forall i | 0 <= i < |xs| ensures xs[i] >= 0.0 {
      assert xs[i] in xs;
    }
    SumNonNegative(xs);
    if xs != [] {
      DivNonNegative(Sum(xs), |xs| as real);
    }
  }

  lemma DivNonNegative(a: real, b: real)
    requires a >= 0.0 && b > 0.0
    ensures a / b >= 0.0
  {
  }

  /** The map has a value exactly for each key, and every value is a probability. */
  lemma LocalProbsRange(g: Board, u: Coord)
    ensures u in LocalProbs(g).prob <==> u in LocalProbs(g).keys
    ensures u in LocalProbs(g).prob ==> 0.0 <= LocalProbs(g).prob[u] <= 1.0
  {
    AveragesLookup(g, LocalProbs(g).keys, RowMajor(|g|, Cols(g)), u);
  }

  /** Every value is the mean of a non-empty list of non-negative shares,
      capped at 1; the clamp at 0 never applies. */
  lemma LocalProbsValues(g: Board, u: Coord)
    requires IsBoard(g) && u in LocalProbs(g).keys
    ensures |ContribsFor(g, u, RowMajor(|g|, Cols(g)))| > 0
    ensures forall x :: x in ContribsFor(g, u, RowMajor(|g|, Cols(g))) ==> x >= 0.0
    ensures u in LocalProbs(g).prob
    ensures LocalProbs(g).prob[u] ==
      var m := Mean(ContribsFor(g, u, RowMajor(|g|, Cols(g)))); if m > 1.0 then 1.0 else m
  {
    var cells := RowMajor(|g|, Cols(g));
    var xs := ContribsFor(g, u, cells);
    TargetsHaveContribs(g, u, cells);
    AveragesLookup(g, LocalProbs(g).keys, cells, u);
    forall x | x in xs ensures x >= 0.0 {
      ContribsMembers(g, u, cells, x);
    }
    MeanNonNegative(xs);
  }

  lemma {:induction false} ContribsAllZero(g: Board, u: Coord, cells: seq<Coord>)
    requires forall s :: s in cells && Active(g, s) && u in UnknownsAround(g, s.0, s.1) ==> Remaining(g, s) == 0
    ensures forall i :: 0 <= i < |ContribsFor(g, u, cells)| ==> ContribsFor(g, u, cells)[i] == 0.0
  {
    if cells != [] {
      var init, last := cells[..|cells| - 1], cells[|cells| - 1];
      assert cells == init + [last];
      ContribsAllZero(g, u, init);
      var xs, gs := ContribsFor(g, u, init), GiftFor(g, u, last);
      assert ContribsFor(g, u, cells) == xs + gs;
      if Active(g, last) && u in UnknownsAround(g, last.0, last.1) {
        SatisfiedShare(g, last);
        assert gs == [0.0];
      } else {
        assert gs == [];
      }
      forall i | 0 <= i < |xs + gs| ensures (xs + gs)[i] == 0.0 {
        if i < |xs| {
          assert (xs + gs)[i] == xs[i];
        }
      }
    }
  }

  /** A frontier cell whose active neighbours all have their mines flagged
      already gets probability 0. */
  lemma SatisfiedFrontierIsSafe(g: Board, u: Coord)
    requires IsBoard(g) && Frontier(g, u)
    requires forall s :: Active(g, s) && Adjacent(u, s.0, s.1) ==> Remaining(g, s) == 0
    ensures u in LocalProbs(g).prob && LocalProbs(g).prob[u] == 0.0
  {
    var cells := RowMajor(|g|, Cols(g));
    LocalProbsKeys(g);
    forall s | s in cells && Active(g, s) && u in UnknownsAround(g, s.0, s.1) ensures Remaining(g, s) == 0 {
      UnknownsAroundMembers(g, s, u);
    }
    ContribsAllZero(g, u, cells);
    var xs := ContribsFor(g, u, cells);
    SumZero(xs);
    MeanZero(xs);
    AveragesLookup(g, LocalProbs(g).keys, cells, u);
  }

  lemma MeanZero(xs: seq<real>)
    requires Sum(xs) == 0.0
    ensures Mean(xs) == 0.0
  {
  }

  // ---------------------------------------------------------------------
  // The fallback: the first covered tile

  /** The first covered tile among `cells`, in their order. */
  function FirstCovered(g: Board, cells: seq<Coord>): Option<Coord> {
    if cells == [] then None
    else
      match FirstCovered(g, cells[..|cells| - 1])
      case Some(p) => Some(p)
      case None => if At(g, cells[|cells| - 1]) == Unknown then Some(cells[|cells| - 1]) else None
  }

  lemma {:induction false} FirstCoveredProps(g: Board, cells: seq<Coord>)
    ensures FirstCovered(g, cells).None? <==> forall i :: 0 <= i < |cells| ==> At(g, cells[i]) != Unknown
    ensures FirstCovered(g, cells).Some? ==>
      exists k :: 0 <= k < |cells| && cells[k] == FirstCovered(g, cells).value && At(g, cells[k]) == Unknown
        && forall i :: 0 <= i < k ==> At(g, cells[i]) != Unknown
  {
    if cells != [] {
      var init := cells[..|cells| - 1];
      FirstCoveredProps(g, init);
      assert forall i :: 0 <= i < |init| ==> init[i] == cells[i];
    }
  }

  /** Once found, the first covered tile stays first as the scan goes on. */
  lemma {:induction false} FirstCoveredStays(g: Board, cols: nat, r: nat, c: nat, r2: nat, c2: nat, q: Coord)
    requires c <= cols && c2 <= cols
    requires FirstCovered(g, CellsBefore(cols, r, c)) == Some(q)
    requires (r, c) == (r2, c2) || Before((r, c), r2, c2)
    ensures FirstCovered(g, CellsBefore(cols, r2, c2)) == Some(q)
    decreases r2, c2
  {
    if (r, c) != (r2, c2) {
      if c2 > 0 {
        FirstCoveredStays(g, cols, r, c, r2, c2 - 1, q);
        var init := CellsBefore(cols, r2, c2 - 1);
        assert (init + [(r2, c2 - 1)])[..|init|] == init;
      } else if r2 > 0 {
        FirstCoveredStays(g, cols, r, c, r2 - 1, cols, q);
      }
    }
  }

  /** The fallback finds nothing exactly when no tile is covered. */
  lemma FirstCoveredNone(g: Board)
    requires IsBoard(g)
    ensures FirstCovered(g, RowMajor(|g|, Cols(g))).None? <==> forall p :: At(g, p) != Unknown
  {
    var cells := RowMajor(|g|, Cols(g));
    FirstCoveredProps(g, cells);
    forall p | At(g, p) == Unknown ensures exists i :: 0 <= i < |cells| && cells[i] == p {
      CoveredIsListed(g, p);
    }
  }

  lemma {:induction false} FirstCoveredFirst(g: Board, cells: seq<Coord>)
    requires Ordered(cells) && FirstCovered(g, cells).Some?
    ensures FirstCovered(g, cells).value in cells && At(g, FirstCovered(g, cells).value) == Unknown
    ensures forall i :: 0 <= i < |cells| && At(g, cells[i]) == Unknown ==>
      !Before(cells[i], FirstCovered(g, cells).value.0, FirstCovered(g, cells).value.1)
  {
    var init, last := cells[..|cells| - 1], cells[|cells| - 1];
    assert cells == init + [last];
    assert Ordered(init);
    if FirstCovered(g, init).Some? {
      FirstCoveredFirst(g, init);
      var q := FirstCovered(g, init).value;
      var k :| 0 <= k < |init| && init[k] == q;
      assert Before(cells[k], last.0, last.1);
    } else {
      FirstCoveredProps(g, init);
    }
  }

  /** Otherwise it finds the covered tile that comes first in row-major order. */
  lemma FirstCoveredLeast(g: Board)
    requires IsBoard(g) && FirstCovered(g, RowMajor(|g|, Cols(g))).Some?
    ensures var q := FirstCovered(g, RowMajor(|g|, Cols(g))).value;
      At(g, q) == Unknown && forall p :: At(g, p) == Unknown ==> !Before(p, q.0, q.1)
  {
    var cells := RowMajor(|g|, Cols(g));
    CellsBeforeOrdered(Cols(g), |g|, 0);
    FirstCoveredFirst(g, cells);
    forall p | At(g, p) == Unknown ensures exists i :: 0 <= i < |cells| && cells[i] == p {
      CoveredIsListed(g, p);
    }
  }

  lemma CoveredIsListed(g: Board, p: Coord)
    requires IsBoard(g) && At(g, p) == Unknown
    ensures p in RowMajor(|g|, Cols(g))
  {
    CellsBeforeMembers(Cols(g), |g|, 0);
  }

  /** The fallback loops of `choose_lowest_prob_cell`: the first '-' in
      row-major order, or None. */
  method FirstCoveredCell(grid: Board) returns (best: Option<Coord>)
    requires IsBoard(grid)
    ensures best == FirstCovered(grid, RowMajor(|grid|, Cols(grid)))
  {
    var rows, cols := |grid|, |grid[0]|;
    ghost var done: seq<Coord> := [];
    var r := 0;
    while r < rows
      invariant 0 <= r <= rows && done == CellsBefore(cols, r, 0)
      invariant FirstCovered(grid, done) == None
    {
      var c := 0;
      assert r > 0 ==> CellsBefore(cols, r, 0) == CellsBefore(cols, r - 1, cols);
      while c < cols
        invariant 0 <= c <= cols && done == CellsBefore(cols, r, c)
        invariant FirstCovered(grid, done) == None
      {
        assert (done + [(r, c)])[..|done|] == done;
        if grid[r][c] == Unknown {
          FirstCoveredStays(grid, cols, r, c + 1, rows, 0, (r, c));
          return Some((r, c));
        }
        done := done + [(r, c)];
        c := c + 1;
      }
      r := r + 1;
    }
    return None;
  }
}

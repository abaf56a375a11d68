/** The decision half of `choose_lowest_prob_cell`: which frontier cells
    are candidates, how each is scored, and which one the scoring loop
    keeps. The filter and the scoring fold are stated over the measures
    they use, so that what they do is independent of how the board
    produces those measures. */
module CellChoice {
  import opened Wrappers
  import opened Tiles
  import opened ProbabilityHeuristic

  // ---------------------------------------------------------------------
  // Candidates: prefer cells with many opened neighbours

  /** The elements of `cs` that `keep` accepts, in order: a list
      comprehension with a condition. */
  function Filter(cs: seq<Coord>, keep: Coord -> bool): seq<Coord> {
    if cs == [] then []
    else
      var last := cs[|cs| - 1];
      Filter(cs[..|cs| - 1], keep) + (if keep(last) then [last] else [])
  }

  lemma {:induction false} FilterMembers(cs: seq<Coord>, keep: Coord -> bool)
    ensures forall u :: u in Filter(cs, keep) <==> u in cs && keep(u)
    ensures Distinct(cs) ==> Distinct(Filter(cs, keep))
  {
    if cs != [] {
      var init, last := cs[..|cs| - 1], cs[|cs| - 1];
      assert cs == init + [last];
      FilterMembers(init, keep);
      assert Distinct(cs) ==> Distinct(init) && last !in init;
    }
  }

  /** A condition every element meets keeps the whole list. */
  lemma {:induction false} FilterAll(cs: seq<Coord>, keep: Coord -> bool)
    requires forall u :: u in cs ==> keep(u)
    ensures Filter(cs, keep) == cs
  {
    if cs != [] {
      var init, last := cs[..|cs| - 1], cs[|cs| - 1];
      assert cs == init + [last];
      FilterAll(init, keep);
    }
  }

  lemma FilterPrefix(cs: seq<Coord>, i: nat, keep: Coord -> bool)
    requires i < |cs|
    ensures Filter(cs[..i + 1], keep) == Filter(cs[..i], keep) + (if keep(cs[i]) then [cs[i]] else [])
  {
    assert cs[..i + 1][..i] == cs[..i];
  }

  /** Opened neighbours of u: everything around it that is not '-'. */
  function Opened(g: Board, u: Coord): nat {
    NeighbourCounts(g, u.0, u.1).0
  }

  /** `[coord for coord in cands if _neighbour_counts(grid, *coord)[0] >= thr]` */
  function OpenAtLeast(g: Board, cands: seq<Coord>, thr: nat): seq<Coord> {
    Filter(cands, u => Opened(g, u) >= thr)
  }

  /** The threshold loop: the filter for the first threshold that keeps
      something, or [] when none does. */
  function Preferred(g: Board, cands: seq<Coord>, thrs: seq<nat>): seq<Coord> {
    if thrs == [] then []
    else
      var f := OpenAtLeast(g, cands, thrs[0]);
      if f != [] then f else Preferred(g, cands, thrs[1..])
  }

  /** The candidate list: the preferred cells, or every key when no
      threshold keeps any. */
  function Candidates(g: Board, keys: seq<Coord>): seq<Coord> {
    var f := Preferred(g, keys, MIN_OPEN_THRESHOLDS);
    if f == [] then keys else f
  }

  lemma OpenAtLeastMembers(g: Board, cands: seq<Coord>, thr: nat)
    ensures forall u :: u in OpenAtLeast(g, cands, thr) <==> u in cands && Opened(g, u) >= thr
    ensures Distinct(cands) ==> Distinct(OpenAtLeast(g, cands, thr))
  {
    FilterMembers(cands, u => Opened(g, u) >= thr);
  }

  /** A condition no element meets keeps nothing. */
  lemma {:induction false} FilterNone(cs: seq<Coord>, keep: Coord -> bool)
    requires forall u :: u in cs ==> !keep(u)
    ensures Filter(cs, keep) == []
  {
    if cs != [] {
      var init, last := cs[..|cs| - 1], cs[|cs| - 1];
      assert cs == init + [last];
      FilterNone(init, keep);
    }
  }

  /** The three thresholds written out; the last keeps every key. */
  lemma PreferredUnfold(g: Board, keys: seq<Coord>)
    ensures Preferred(g, keys, MIN_OPEN_THRESHOLDS) ==
      if OpenAtLeast(g, keys, 3) != [] then OpenAtLeast(g, keys, 3)
      else if OpenAtLeast(g, keys, 2) != [] then OpenAtLeast(g, keys, 2)
      else keys
  {
    var f3, f2, f0 := OpenAtLeast(g, keys, 3), OpenAtLeast(g, keys, 2), OpenAtLeast(g, keys, 0);
    FilterAll(keys, u => Opened(g, u) >= 0);
    assert f0 == keys;
    var t: seq<nat> := [0];
    assert t[0] == 0 && t[1..] == [];
    assert Preferred(g, keys, t) == if f0 != [] then f0 else [];
    var t2: seq<nat> := [2, 0];
    assert t2[0] == 2 && t2[1..] == t;
    assert Preferred(g, keys, t2) == if f2 != [] then f2 else Preferred(g, keys, t);
    assert MIN_OPEN_THRESHOLDS[0] == 3 && MIN_OPEN_THRESHOLDS[1..] == t2;
  }

  /** The threshold loop comes back empty only when there are no keys, so
      the source's fallback to all candidates never applies. */
  lemma PreferredEmpty(g: Board, keys: seq<Coord>)
    ensures Preferred(g, keys, MIN_OPEN_THRESHOLDS) == [] <==> keys == []
    ensures Candidates(g, keys) == Preferred(g, keys, MIN_OPEN_THRESHOLDS)
  {
    PreferredUnfold(g, keys);
  }

  /** Keys with at least three opened neighbours, if there are any. */
  lemma CandidatesThree(g: Board, keys: seq<Coord>)
    requires exists u :: u in keys && Opened(g, u) >= 3
    ensures forall u :: u in Candidates(g, keys) <==> u in keys && Opened(g, u) >= 3
  {
    PreferredUnfold(g, keys);
    OpenAtLeastMembers(g, keys, 3);
    var u :| u in keys && Opened(g, u) >= 3;
    assert u in OpenAtLeast(g, keys, 3);
  }

  /** Otherwise those with at least two, if there are any. */
  lemma CandidatesTwo(g: Board, keys: seq<Coord>)
    requires forall u :: u in keys ==> Opened(g, u) < 3
    requires exists u :: u in keys && Opened(g, u) >= 2
    ensures forall u :: u in Candidates(g, keys) <==> u in keys && Opened(g, u) >= 2
  {
    PreferredUnfold(g, keys);
    FilterNone(keys, u => Opened(g, u) >= 3);
    OpenAtLeastMembers(g, keys, 2);
    var u :| u in keys && Opened(g, u) >= 2;
    assert u in OpenAtLeast(g, keys, 2);
  }

  /** Otherwise every key. */
  lemma CandidatesAll(g: Board, keys: seq<Coord>)
    requires forall u :: u in keys ==> Opened(g, u) < 2
    ensures Candidates(g, keys) == keys
  {
    PreferredUnfold(g, keys);
    FilterNone(keys, u => Opened(g, u) >= 3);
    FilterNone(keys, u => Opened(g, u) >= 2);
  }

  /** Each candidate is a key, and none occurs twice. */
  lemma CandidatesAreKeys(g: Board, keys: seq<Coord>)
    requires Distinct(keys)
    ensures Distinct(Candidates(g, keys))
    ensures forall u :: u in Candidates(g, keys) ==> u in keys
  {
    PreferredUnfold(g, keys);
    OpenAtLeastMembers(g, keys, 3);
    OpenAtLeastMembers(g, keys, 2);
  }

  /** The list comprehension for one threshold, with one `_neighbour_counts`
      per candidate. */
  method KeepOpen(grid: Board, cands: seq<Coord>, thr: nat) returns (filtered: seq<Coord>)
    requires Rect(grid)
    ensures filtered == OpenAtLeast(grid, cands, thr)
  {
    filtered := [];
    var i := 0;
    while i < |cands|
      invariant 0 <= i <= |cands|
      invariant filtered == Filter(cands[..i], u => Opened(grid, u) >= thr)
    {
      FilterPrefix(cands, i, u => Opened(grid, u) >= thr);
      var openN, _ := CountNeighbours(grid, cands[i].0, cands[i].1);
      if openN >= thr {
        filtered := filtered + [cands[i]];
      }
      i := i + 1;
    }
    assert cands[..i] == cands;
  }

  /** `for thr in min_open_thresholds: ... if filtered: break` */
  method PreferOpened(grid: Board, cands: seq<Coord>) returns (filtered: seq<Coord>)
    requires Rect(grid)
    ensures filtered == Preferred(grid, cands, MIN_OPEN_THRESHOLDS)
  {
    filtered := [];
    var t := 0;
    while t < |MIN_OPEN_THRESHOLDS|
      invariant 0 <= t <= |MIN_OPEN_THRESHOLDS| && filtered == []
      invariant Preferred(grid, cands, MIN_OPEN_THRESHOLDS) == Preferred(grid, cands, MIN_OPEN_THRESHOLDS[t..])
    {
      filtered := KeepOpen(grid, cands, MIN_OPEN_THRESHOLDS[t]);
      if filtered != [] {
        break;
      }
      assert MIN_OPEN_THRESHOLDS[t..][1..] == MIN_OPEN_THRESHOLDS[t + 1..];
      t := t + 1;
    }
  }

  // ---------------------------------------------------------------------
  // Scoring

  function Abs(x: real): real {
    if x < 0.0 then -x else x
  }

  /** `best` and `best_score` of the scoring loop; before the first
      candidate `best` is None and `best_score` is infinite. */
  datatype Leader = NoneYet | Lead(best: Coord, score: real)

  /** One iteration of the scoring loop for candidate u with score `s`,
      `rank` counting numbered neighbours. A clear improvement takes over
      both; within the tolerance, a lower rank takes over the cell but
      keeps the old score. */
  function Step(st: Leader, u: Coord, s: real, rank: Coord -> nat): Leader {
    match st
    case NoneYet => Lead(u, s)
    case Lead(b, bs) =>
      if s < bs - EPS then Lead(u, s)
      else if Abs(s - bs) < EPS && rank(u) < rank(b) then Lead(u, bs)
      else st
  }

  /** The leader after scoring `cs` in order. */
  function Scan(cs: seq<Coord>, score: Coord -> real, rank: Coord -> nat): Leader {
    if cs == [] then NoneYet
    else
      var u := cs[|cs| - 1];
      Step(Scan(cs[..|cs| - 1], score, rank), u, score(u), rank)
  }

  lemma ScanPrefix(cs: seq<Coord>, i: nat, score: Coord -> real, rank: Coord -> nat)
    requires i < |cs|
    ensures Scan(cs[..i + 1], score, rank) == Step(Scan(cs[..i], score, rank), cs[i], score(cs[i]), rank)
  {
    assert cs[..i + 1][..i] == cs[..i];
  }

  /** Some candidate leads once any has been scored; its score is within
      the tolerance of the kept score, which no candidate undercuts by
      the tolerance or more. So the chosen cell's score is less than 2e-9
      above every candidate's. */
  lemma {:induction false} ScanNearMinimum(cs: seq<Coord>, score: Coord -> real, rank: Coord -> nat)
    requires cs != []
    ensures Scan(cs, score, rank).Lead? && Scan(cs, score, rank).best in cs
    ensures Abs(score(Scan(cs, score, rank).best) - Scan(cs, score, rank).score) < EPS
    ensures forall u :: u in cs ==> score(u) >= Scan(cs, score, rank).score - EPS
    ensures forall u :: u in cs ==> score(Scan(cs, score, rank).best) < score(u) + 2.0 * EPS
  {
    var init, last := cs[..|cs| - 1], cs[|cs| - 1];
    assert cs == init + [last];
    if init != [] {
      ScanNearMinimum(init, score, rank);
    }
  }

  /** Every pair of scores is equal or further apart than the tolerance. */
  predicate Separated(cs: seq<Coord>, score: Coord -> real) {
    forall i, j :: 0 <= i < |cs| && 0 <= j < |cs| ==>
      score(cs[i]) == score(cs[j]) || Abs(score(cs[i]) - score(cs[j])) > EPS
  }

  /** u beats v: a lower score, or the same score and a lower rank. */
  predicate Better(u: Coord, v: Coord, score: Coord -> real, rank: Coord -> nat) {
    score(u) < score(v) || (score(u) == score(v) && rank(u) < rank(v))
  }

  /** cs[k] beats every earlier candidate and no later one beats it. */
  predicate FirstUnbeaten(cs: seq<Coord>, k: int, score: Coord -> real, rank: Coord -> nat) {
    0 <= k < |cs|
    && (forall i :: 0 <= i < k ==> Better(cs[k], cs[i], score, rank))
    && (forall i :: k < i < |cs| ==> !Better(cs[i], cs[k], score, rank))
  }

  /** With separated scores the loop keeps exactly the first candidate no
      candidate beats: the lowest score, then the lowest rank, then the
      earliest. */
  /** A newcomer that beats the first unbeaten candidate is the new one. */
  lemma Overtake(cs: seq<Coord>, k: nat, u: Coord, score: Coord -> real, rank: Coord -> nat)
    requires FirstUnbeaten(cs, k, score, rank) && Better(u, cs[k], score, rank)
    ensures FirstUnbeaten(cs + [u], |cs|, score, rank)
  {
    var cs' := cs + [u];
    forall i | 0 <= i < |cs| ensures Better(cs'[|cs|], cs'[i], score, rank) {
      assert cs'[i] == cs[i];
    }
  }

  /** A newcomer that does not beat it leaves it first and unbeaten. */
  lemma Keep(cs: seq<Coord>, k: nat, u: Coord, score: Coord -> real, rank: Coord -> nat)
    requires FirstUnbeaten(cs, k, score, rank) && !Better(u, cs[k], score, rank)
    ensures FirstUnbeaten(cs + [u], k, score, rank)
  {
    var cs' := cs + [u];
    forall i | 0 <= i < k ensures Better(cs'[k], cs'[i], score, rank) {
      assert cs'[i] == cs[i];
    }
    forall i | k < i < |cs'| ensures !Better(cs'[i], cs'[k], score, rank) {
      if i < |cs| {
        assert cs'[i] == cs[i];
      }
    }
  }

  lemma SeparatedPrefix(cs: seq<Coord>, score: Coord -> real)
    requires cs != [] && Separated(cs, score)
    ensures Separated(cs[..|cs| - 1], score)
  {
    var init := cs[..|cs| - 1];
    forall i, j | 0 <= i < |init| && 0 <= j < |init|
      ensures score(init[i]) == score(init[j]) || Abs(score(init[i]) - score(init[j])) > EPS
    {
      assert init[i] == cs[i] && init[j] == cs[j];
    }
  }

  lemma {:induction false} ScanSeparated(cs: seq<Coord>, score: Coord -> real, rank: Coord -> nat) returns (k: nat)
    requires cs != [] && Separated(cs, score)
    ensures Scan(cs, score, rank).Lead? && Scan(cs, score, rank).score == score(Scan(cs, score, rank).best)
    ensures FirstUnbeaten(cs, k, score, rank) && cs[k] == Scan(cs, score, rank).best
  {
    var init, last := cs[..|cs| - 1], cs[|cs| - 1];
    var n := |init|;
    assert cs == init + [last];
    if init == [] {
      k := 0;
      return;
    }
    SeparatedPrefix(cs, score);
    var k0 := ScanSeparated(init, score, rank);
    var b := init[k0];
    assert cs[k0] == b && cs[n] == last;
    assert score(last) == score(b) || Abs(score(last) - score(b)) > EPS;
    assert Scan(cs, score, rank) == Step(Lead(b, score(b)), last, score(last), rank);
    if Better(last, b, score, rank) {
      Overtake(init, k0, last, score, rank);
      k := n;
    } else {
      Keep(init, k0, last, score, rank);
      k := k0;
    }
  }

  // ---------------------------------------------------------------------
  // The whole choice

  /** `prob_map.get(coord, 1.0) + 0.4 * (unknown_n / 8.0)`: the weight 0.4
      of the covered-neighbour penalty is written as a literal so that the
      product stays linear. */
  function Score(g: Board, pm: ProbMap, u: Coord): real {
    (if u in pm.prob then pm.prob[u] else 1.0) + 0.4 * (NeighbourCounts(g, u.0, u.1).1 as real / 8.0)
  }

  /** The score as the function the scan ranks by. */
  function ScoreOf(g: Board, pm: ProbMap): Coord -> real {
    (u: Coord) => Score(g, pm, u)
  }

  /** The tie-break measure: numbered neighbours. */
  function RankOf(g: Board): Coord -> nat {
    (u: Coord) => NumberedNeighbours(g, u.0, u.1)
  }

  /** The score map after scoring `cs` in order. */
  function Scores(cs: seq<Coord>, score: Coord -> real): map<Coord, real> {
    if cs == [] then map[]
    else
      var u := cs[|cs| - 1];
      Scores(cs[..|cs| - 1], score)[u := score(u)]
  }

  lemma {:induction false} ScoresLookup(cs: seq<Coord>, score: Coord -> real, u: Coord)
    ensures u in Scores(cs, score) <==> u in cs
    ensures u in cs ==> Scores(cs, score)[u] == score(u)
  {
    if cs != [] {
      var init := cs[..|cs| - 1];
      assert cs == init + [cs[|cs| - 1]];
      ScoresLookup(init, score, u);
    }
  }

  lemma ScoresPrefix(cs: seq<Coord>, i: nat, score: Coord -> real)
    requires i < |cs|
    ensures Scores(cs[..i + 1], score) == Scores(cs[..i], score)[cs[i] := score(cs[i])]
  {
    assert cs[..i + 1][..i] == cs[..i];
  }

  /** What `choose_lowest_prob_cell` returns: the chosen cell, if any, and
      the score of every candidate. */
  function Choose(g: Board): (Option<Coord>, map<Coord, real>) {
    var pm := LocalProbs(g);
    if pm.keys == [] then (FirstCovered(g, RowMajor(|g|, Cols(g))), map[])
    else
      var cs := Candidates(g, pm.keys);
      var st := Scan(cs, ScoreOf(g, pm), RankOf(g));
      (if st.Lead? && At(g, st.best) == Unknown then Some(st.best) else None,
       Scores(cs, ScoreOf(g, pm)))
  }

  /** `choose_lowest_prob_cell`. */
  method ChooseLowestProbCell(grid: Board) returns (best: Option<Coord>, scoreMap: map<Coord, real>)
    requires IsBoard(grid)
    ensures best == Choose(grid).0 && scoreMap == Choose(grid).1
  {
    var pm := ComputeLocalProbs(grid);
    if pm.keys == [] {
      best := FirstCoveredCell(grid);
      scoreMap := map[];
      return;
    }
    var candidates := pm.keys;
    var filtered := PreferOpened(grid, candidates);
    if filtered == [] {
      filtered := candidates;
    }
    var lead;
    lead, scoreMap := ScoreCandidates(grid, pm, filtered);
    if lead.NoneYet? {
      best := None;
      return;
    }
    LeaderOnBoard(grid, pm, filtered);
    if grid[lead.best.0][lead.best.1] != Unknown {
      best := None;
    } else {
      best := Some(lead.best);
    }
  }

  /** The scoring loop of `choose_lowest_prob_cell`: every candidate's
      score goes into the score map, and the leader is kept as `Scan`
      describes. */
  method ScoreCandidates(grid: Board, pm: ProbMap, filtered: seq<Coord>)
    returns (lead: Leader, scoreMap: map<Coord, real>)
    requires Rect(grid)
    ensures lead == Scan(filtered, ScoreOf(grid, pm), RankOf(grid))
    ensures scoreMap == Scores(filtered, ScoreOf(grid, pm))
  {
    ghost var score, rank := ScoreOf(grid, pm), RankOf(grid);
    lead := NoneYet;
    scoreMap := map[];
    var i := 0;
    while i < |filtered|
      invariant 0 <= i <= |filtered|
      invariant lead == Scan(filtered[..i], score, rank)
      invariant scoreMap == Scores(filtered[..i], score)
    {
      var coord := filtered[i];
      var s := ScoreCell(grid, pm, coord);
      assert s == score(coord);
      scoreMap := scoreMap[coord := s];
      ScanPrefix(filtered, i, score, rank);
      ScoresPrefix(filtered, i, score);
      lead := Contend(grid, lead, coord, s);
      i := i + 1;
    }
    assert filtered[..i] == filtered;
  }

  /** One candidate's score: its probability (1.0 when it has none) plus
      the covered-neighbour penalty. */
  method ScoreCell(grid: Board, pm: ProbMap, coord: Coord) returns (s: real)
    requires Rect(grid)
    ensures s == Score(grid, pm, coord)
  {
    var p := if coord in pm.prob then pm.prob[coord] else 1.0;
    var _, unknownN := CountNeighbours(grid, coord.0, coord.1);
    var penalty := 0.4 * (unknownN as real / 8.0);
    s := p + penalty;
  }

  /** The tie-break step of the scoring loop: a clearly lower score takes
      the lead; a score within EPS takes it only with fewer numbered
      neighbours, and then keeps the old best score. */
  method Contend(grid: Board, lead: Leader, coord: Coord, s: real) returns (next: Leader)
    ensures next == Step(lead, coord, s, RankOf(grid))
  {
    next := lead;
    if lead.NoneYet? || s < lead.score - EPS {
      next := Lead(coord, s);
    } else if Abs(s - lead.score) < EPS {
      var cur := NumberedNeighbours(grid, coord.0, coord.1);
      var bestN := NumberedNeighbours(grid, lead.best.0, lead.best.1);
      if cur < bestN {
        next := Lead(coord, lead.score);
      }
    }
  }

  /** The kept candidate is a frontier cell, so on the board and covered. */
  lemma LeaderOnBoard(g: Board, pm: ProbMap, cs: seq<Coord>)
    requires IsBoard(g) && pm == LocalProbs(g) && pm.keys != [] && cs == Candidates(g, pm.keys)
    ensures Scan(cs, ScoreOf(g, pm), RankOf(g)).Lead?
    ensures var b := Scan(cs, ScoreOf(g, pm), RankOf(g)).best;
      b in pm.keys && InBounds(g, b.0, b.1) && At(g, b) == Unknown
  {
    LocalProbsKeys(g);
    PreferredEmpty(g, pm.keys);
    CandidatesAreKeys(g, pm.keys);
    ScanNearMinimum(cs, ScoreOf(g, pm), RankOf(g));
  }

  /** The heuristic comes back empty-handed exactly when no tile is
      covered; whatever it picks is covered; with a frontier it picks the
      cell the scoring loop keeps, so its final sanity check never fails. */
  lemma ChooseFindsCovered(g: Board)
    requires IsBoard(g)
    ensures Choose(g).0.None? <==> forall p :: At(g, p) != Unknown
    ensures Choose(g).0.Some? ==> At(g, Choose(g).0.value) == Unknown
    ensures LocalProbs(g).keys != [] ==>
      var st := Scan(Candidates(g, LocalProbs(g).keys), ScoreOf(g, LocalProbs(g)), RankOf(g));
      st.Lead? && Choose(g).0 == Some(st.best)
  {
    var pm := LocalProbs(g);
    if pm.keys == [] {
      FirstCoveredNone(g);
      if FirstCovered(g, RowMajor(|g|, Cols(g))).Some? {
        FirstCoveredLeast(g);
      }
    } else {
      LeaderOnBoard(g, pm, Candidates(g, pm.keys));
    }
  }

  /** Every score lies in [0, 1.4]: a probability plus at most 0.4. */
  lemma ScoreBounds(g: Board, u: Coord)
    requires IsBoard(g)
    ensures 0.0 <= Score(g, LocalProbs(g), u) <= 1.4
  {
    var pm := LocalProbs(g);
    var k := NeighbourCounts(g, u.0, u.1).1;
    assert k <= 8;
    LocalProbsRange(g, u);
  }

  /** The score map holds one score for each candidate and nothing else. */
  lemma ScoreMapDomain(g: Board, u: Coord)
    requires IsBoard(g)
    ensures LocalProbs(g).keys == [] ==> Choose(g).1 == map[]
    ensures LocalProbs(g).keys != [] ==>
      (u in Choose(g).1 <==> u in Candidates(g, LocalProbs(g).keys))
    ensures u in Choose(g).1 ==> Choose(g).1[u] == Score(g, LocalProbs(g), u)
  {
    var pm := LocalProbs(g);
    if pm.keys != [] {
      ScoresLookup(Candidates(g, pm.keys), ScoreOf(g, pm), u);
    }
  }

  /** With a frontier, the pick is a preferred candidate whose score is
      within 2 * EPS of every candidate's score (the tie rule keeps the old
      best score, so the pick can sit just above a near-tied rival). */
  lemma ChooseNearMinimum(g: Board)
    requires IsBoard(g) && LocalProbs(g).keys != []
    ensures Choose(g).0.Some?
    ensures Choose(g).0.value in Candidates(g, LocalProbs(g).keys)
    ensures forall u :: u in Candidates(g, LocalProbs(g).keys) ==>
      Score(g, LocalProbs(g), Choose(g).0.value) < Score(g, LocalProbs(g), u) + 2.0 * EPS
  {
    var pm := LocalProbs(g);
    var cs := Candidates(g, pm.keys);
    LeaderOnBoard(g, pm, cs);
    ScanNearMinimum(cs, ScoreOf(g, pm), RankOf(g));
    var b := Scan(cs, ScoreOf(g, pm), RankOf(g)).best;
    assert Choose(g).0 == Some(b);
    forall u | u in cs
      ensures Score(g, pm, b) < Score(g, pm, u) + 2.0 * EPS
    {
      assert ScoreOf(g, pm)(b) < ScoreOf(g, pm)(u) + 2.0 * EPS;
    }
  }

  /** When no two candidate scores are within EPS of each other without
      being equal, the pick is the first candidate that is lowest in
      (score, numbered neighbours). */
  lemma ChooseSeparated(g: Board) returns (k: nat)
    requires IsBoard(g) && LocalProbs(g).keys != []
    requires Separated(Candidates(g, LocalProbs(g).keys), ScoreOf(g, LocalProbs(g)))
    ensures FirstUnbeaten(Candidates(g, LocalProbs(g).keys), k, ScoreOf(g, LocalProbs(g)), RankOf(g))
    ensures Choose(g).0 == Some(Candidates(g, LocalProbs(g).keys)[k])
  {
    var pm := LocalProbs(g);
    var cs := Candidates(g, pm.keys);
    LeaderOnBoard(g, pm, cs);
    k := ScanSeparated(cs, ScoreOf(g, pm), RankOf(g));
  }
}

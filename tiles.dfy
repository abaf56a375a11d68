/** The tile alphabet shared by the screen reader, the solver and the
    heuristic, boards as row-major grids of tiles, and the counting and
    ordering helpers every component uses. */
module Tiles {
  import opened Text

  /** One grid entry. The Python lists hold these as strings: "-" (covered),
      "0".."8" (opened, with that many mines around), "F", "M", "S" (a cell
      the solver declares safe, only ever inside a change map), "x" (an
      off-board neighbour slot) and the text of an unrecognised pixel. */
  datatype Tile = Unknown | Num(n: nat) | Flag | Mine | Safe | OffBoard | Other(text: string)

  type Board = seq<seq<Tile>>

  /** A (row, column) position. */
  type Coord = (int, int)

  /** The string that stands for `t` in the Python lists. */
  function Token(t: Tile): string {
    match t
    case Unknown => "-"
    case Num(n) => NatToString(n)
    case Flag => "F"
    case Mine => "M"
    case Safe => "S"
    case OffBoard => "x"
    case Other(s) => s
  }

  /** Reads a token back; digit strings become numbers (a leading zero is
      not kept, and the screen reader never produces one). */
  function FromToken(s: string): Tile {
    if s == "-" then Unknown
    else if s == "F" then Flag
    else if s == "M" then Mine
    else if s == "S" then Safe
    else if s == "x" then OffBoard
    else if IsDigitString(s) then Num(DigitsValue(s))
    else Other(s)
  }

  /** `Other` never carries text that another variant stands for. */
  predicate Canonical(t: Tile) {
    t.Other? ==> (!IsDigitString(t.text) && t.text != "-" && t.text != "F" && t.text != "M"
                  && t.text != "S" && t.text != "x")
  }

  /** Every canonical tile survives the trip through its token. */
  lemma TokenRoundTrip(t: Tile)
    requires Canonical(t)
    ensures Canonical(FromToken(Token(t)))
    ensures FromToken(Token(t)) == t
  {
    if t.Num? {
      NatToStringDigits(t.n);
      assert Token(t)[0] != '-' && Token(t)[0] != 'F' && Token(t)[0] != 'M';
      assert Token(t)[0] != 'S' && Token(t)[0] != 'x';
    }
  }

  /** Number of occurrences of `v` in `s`. */
  function Count<T(==)>(s: seq<T>, v: T): nat {
    if s == [] then 0 else (if s[0] == v then 1 else 0) + Count(s[1..], v)
  }

  lemma {:induction false} CountIsMultiplicity<T>(s: seq<T>, v: T)
    ensures Count(s, v) == multiset(s)[v]
  {
    if s != [] {
      CountIsMultiplicity(s[1..], v);
      assert s == [s[0]] + s[1..];
    }
  }

  lemma {:induction false} CountAppend<T>(s: seq<T>, t: seq<T>, v: T)
    ensures Count(s + t, v) == Count(s, v) + Count(t, v)
  {
    CountIsMultiplicity(s + t, v);
    CountIsMultiplicity(s, v);
    CountIsMultiplicity(t, v);
  }

  lemma {:induction false} CountPositive<T>(s: seq<T>, v: T)
    ensures Count(s, v) > 0 <==> v in s
  {
    CountIsMultiplicity(s, v);
  }

  /** Number of columns: the length of the first row, 0 for no rows. */
  function Cols<T>(g: seq<seq<T>>): nat {
    if |g| == 0 then 0 else |g[0]|
  }

  /** Every row has as many entries as the first. */
  predicate Rect<T>(g: seq<seq<T>>) {
    forall r :: 0 <= r < |g| ==> |g[r]| == Cols(g)
  }

  /** A board the snapshot provider hands over: at least one row, rectangular. */
  predicate IsBoard<T>(g: seq<seq<T>>) {
    |g| > 0 && Rect(g)
  }

  /** Same row count and same row lengths. */
  predicate SameShape<S, T>(g: seq<seq<S>>, h: seq<seq<T>>) {
    |g| == |h| && forall r :: 0 <= r < |g| ==> |g[r]| == |h[r]|
  }

  /** Python's `0 <= r < len(g) and 0 <= c < len(g[0])`; the second test is
      only reached when there is a row 0. */
  predicate InBounds<T>(g: seq<seq<T>>, r: int, c: int) {
    0 <= r < |g| && 0 <= c < Cols(g)
  }

  /** Position `p` comes before `(r, c)` in row-major order. */
  predicate Before(p: Coord, r: int, c: int) {
    p.0 < r || (p.0 == r && p.1 < c)
  }

  /** No element occurs twice. */
  predicate Distinct<T(==)>(xs: seq<T>) {
    forall i, j :: 0 <= i < j < |xs| ==> xs[i] != xs[j]
  }

  /** Strictly increasing in row-major order. */
  predicate Ordered(cells: seq<Coord>) {
    forall i, j :: 0 <= i < j < |cells| ==> Before(cells[i], cells[j].0, cells[j].1)
  }

  /** All cells of a board with `cols` columns that come before `(r, c)`,
      in row-major order: the order of the nested `for r` / `for c` loops. */
  function CellsBefore(cols: nat, r: nat, c: nat): (cells: seq<Coord>)
    requires c <= cols
    decreases r, c
  {
    if c > 0 then CellsBefore(cols, r, c - 1) + [(r, c - 1)]
    else if r > 0 then CellsBefore(cols, r - 1, cols)
    else []
  }

  /** Every cell of a `rows` x `cols` board in row-major order. */
  function RowMajor(rows: nat, cols: nat): seq<Coord> {
    CellsBefore(cols, rows, 0)
  }

  lemma {:induction false} CellsBeforeMembers(cols: nat, r: nat, c: nat)
    requires c <= cols
    ensures forall p :: p in CellsBefore(cols, r, c) <==> 0 <= p.0 && 0 <= p.1 < cols && Before(p, r, c)
    decreases r, c
  {
    if c > 0 {
      CellsBeforeMembers(cols, r, c - 1);
    } else if r > 0 {
      CellsBeforeMembers(cols, r - 1, cols);
    }
  }

  /** Row-major order lists each cell once, in strictly increasing order. */
  lemma {:induction false} CellsBeforeOrdered(cols: nat, r: nat, c: nat)
    requires c <= cols
    ensures forall i, j :: 0 <= i < j < |CellsBefore(cols, r, c)| ==>
      Before(CellsBefore(cols, r, c)[i], CellsBefore(cols, r, c)[j].0, CellsBefore(cols, r, c)[j].1)
    decreases r, c
  {
    if c > 0 {
      CellsBeforeOrdered(cols, r, c - 1);
      CellsBeforeMembers(cols, r, c - 1);
      var s := CellsBefore(cols, r, c - 1);
      forall i | 0 <= i < |s| ensures Before(s[i], r, c - 1) {
        assert s[i] in s;
      }
    } else if r > 0 {
      CellsBeforeOrdered(cols, r - 1, cols);
    }
  }
}

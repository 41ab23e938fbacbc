/** Cells, king moves and paths over a rectangular letter grid, and the word
    a path spells. */
module Paths {
  import opened Text
  import opened Board

  /** (row, column), 0-based. */
  type Cell = (int, int)

  type Path = seq<Cell>

  /** The longest path the search records has `DEPTH` cells. */
  const DEPTH := 8

  /** The eight king moves in the order the search tries them: up-left, up,
      up-right, left, right, down-left, down, down-right. */
  const MOVES: seq<Cell> := [(-1, -1), (-1, 0), (-1, 1), (0, -1), (0, 1), (1, -1), (1, 0), (1, 1)]

  /** At least one row, and every row as long as the first. */
  predicate IsRect(g: Grid)
  {
    |g| > 0 && forall r :: 0 <= r < |g| ==> |g[r]| == |g[0]|
  }

  /** Inside `[0, n) x [0, m)` with `n` rows and `m` the first row's length. */
  predicate InBounds(g: Grid, c: Cell)
  {
    0 <= c.0 < |g| && 0 <= c.1 < |g[0]|
  }

  predicate AllInBounds(g: Grid, p: Path)
  {
    forall t :: 0 <= t < |p| ==> InBounds(g, p[t])
  }

  /** No cell occurs twice. */
  predicate Simple(p: Path)
  {
    forall a, b :: 0 <= a < b < |p| ==> p[a] != p[b]
  }

  /** `b` is one king move away from `a`. */
  predicate Adjacent(a: Cell, b: Cell)
  {
    (b.0 - a.0, b.1 - a.1) in MOVES
  }

  /** Each cell is one move from the one before it. */
  predicate Chained(p: Path)
  {
    forall t :: 0 <= t < |p| - 1 ==> Adjacent(p[t], p[t + 1])
  }

  /** A path the search may walk: 1 to `DEPTH` distinct in-bounds cells,
      each adjacent to the previous one. */
  predicate ValidPath(g: Grid, p: Path)
  {
    1 <= |p| <= DEPTH && AllInBounds(g, p) && Simple(p) && Chained(p)
  }

  /** The moves are exactly the king steps: each coordinate changes by at
      most one, and not both by zero. */
  lemma MovesAreKingSteps(d: Cell)
    ensures d in MOVES <==> -1 <= d.0 <= 1 && -1 <= d.1 <= 1 && d != (0, 0)
  {
  }

  /** No move stays in place, so the step the search takes from the last
      cell of `here` to a cell outside `here[..|here| - 1]` keeps the path
      simple, although its visited test does not look at the last cell. */
  lemma {:induction false} StepKeepsSimple(here: Path, next: Cell)
    requires |here| >= 1 && Simple(here)
    requires Adjacent(here[|here| - 1], next)
    requires next !in here[..|here| - 1]
    ensures Simple(here + [next])
  {
    var last := here[|here| - 1];
    MovesAreKingSteps((next.0 - last.0, next.1 - last.1));
    assert next != last;
    forall a, b | 0 <= a < b < |here| + 1
      ensures (here + [next])[a] != (here + [next])[b]
    {
      if b == |here| && a < |here| - 1 {
        assert here[a] in here[..|here| - 1];
      }
    }
  }

  /** One more step to an in-bounds adjacent cell not yet on the path (the
      last cell aside) gives a valid path again, while there is room. */
  lemma ExtendValid(g: Grid, here: Path, next: Cell)
    requires ValidPath(g, here) && |here| < DEPTH
    requires InBounds(g, next) && Adjacent(here[|here| - 1], next)
    requires next !in here[..|here| - 1]
    ensures ValidPath(g, here + [next])
  {
    StepKeepsSimple(here, next);
    var p := here + [next];
    forall t | 0 <= t < |p| - 1 ensures Adjacent(p[t], p[t + 1]) {
      if t < |here| - 1 {
        assert p[t] == here[t] && p[t + 1] == here[t + 1];
      }
    }
  }

  /** Cell `n` of a valid path is in bounds, one move from cell `n - 1`,
      and not among cells `0 .. n - 2`. */
  lemma StepOfValid(g: Grid, q: Path, n: nat)
    requires ValidPath(g, q) && 1 <= n < |q|
    ensures InBounds(g, q[n]) && Adjacent(q[n - 1], q[n]) && q[n] !in q[..n - 1]
  {
    var before := q[..n - 1];
    forall t | 0 <= t < |before| ensures before[t] != q[n] {
      assert before[t] == q[t];
    }
  }

  /** The letter at `c`; outside the grid (never reached by the search,
      see `Search.SearchSound`) a placeholder. */
  function CellAt(g: Grid, c: Cell): char
  {
    if 0 <= c.0 < |g| && 0 <= c.1 < |g[c.0]| then g[c.0][c.1] else '?'
  }

  /** The grid letters along `p`, concatenated. */
  function Spell(g: Grid, p: Path): (s: string)
    ensures |s| == |p|
    ensures forall k :: 0 <= k < |p| ==> s[k] == CellAt(g, p[k])
  {
    if p == [] then [] else Spell(g, p[..|p| - 1]) + [CellAt(g, p[|p| - 1])]
  }

  /** The word a path spells: its letters, lowered. */
  function Word(g: Grid, p: Path): (w: string)
    ensures |w| == |p|
    ensures forall k :: 0 <= k < |p| ==> w[k] == Lower(CellAt(g, p[k]))
  {
    LowerString(Spell(g, p))
  }

  /** The accumulation loop of the word builder: one character per cell,
      character k the lowered letter at cell k. */
  method GetWord(g: Grid, p: Path) returns (w: string)
    requires IsRect(g) && AllInBounds(g, p)
    ensures w == Word(g, p)
    ensures |w| == |p|
    ensures forall k :: 0 <= k < |p| ==> w[k] == Lower(g[p[k].0][p[k].1])
  {
    var raw := "";
    for t := 0 to |p|
      invariant raw == Spell(g, p[..t])
    {
      assert p[..t + 1][..t] == p[..t];
      raw := raw + [g[p[t].0][p[t].1]];
      assert CellAt(g, p[t]) == g[p[t].0][p[t].1];
    }
    assert p[..|p|] == p;
    w := LowerString(raw);
  }
}

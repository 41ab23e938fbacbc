/** The depth-bounded backtracking search and the dictionary it fills.

    The search walks every simple king path of at most `DEPTH` cells and,
    whenever the word a path spells is in the dictionary, assigns
    `result[word] = path` in one shared insertion-ordered dictionary.
    Its behaviour is specified in two layers: `Visits`, the paths the calls
    visit in traversal order, and `Hits`, the assignments those visits make.
    The dictionary afterwards is the old one with those assignments applied
    (`PutAll`). Soundness, completeness up to `DEPTH` cells, and the rule
    that the last path found for a word is the one kept are proved about
    these sequences. */
module Search {
  import opened Board
  import opened Paths

  /** One assignment `result[word] = path`. */
  type Write = (string, Path)

  /** An insertion-ordered dictionary: `keys` in insertion order, `paths`
      the current value of each key. */
  datatype Results = Results(keys: seq<string>, paths: map<string, Path>)

  const Empty := Results([], map[])

  predicate Distinct(s: seq<string>)
  {
    forall a, b :: 0 <= a < b < |s| ==> s[a] != s[b]
  }

  /** The keys list names each key of the map exactly once. */
  predicate WellFormed(r: Results)
  {
    && Distinct(r.keys)
    && (forall w :: w in r.paths ==> w in r.keys)
    && (forall w :: w in r.keys ==> w in r.paths)
  }

  /** Dictionary assignment: a new key goes to the end of the order, an
      existing key keeps its place and takes the new value. */
  function Put(r: Results, w: string, p: Path): (r': Results)
    ensures w in r'.paths && r'.paths[w] == p
    ensures r.keys <= r'.keys && |r'.keys| <= |r.keys| + 1
    ensures forall k :: k in r.paths && k != w ==> k in r'.paths && r'.paths[k] == r.paths[k]
  {
    Results(if w in r.paths then r.keys else r.keys + [w], r.paths[w := p])
  }

  /** The assignments `ws`, applied in order. */
  function PutAll(r: Results, ws: seq<Write>): Results
    decreases |ws|
  {
    if ws == [] then r else PutAll(Put(r, ws[0].0, ws[0].1), ws[1..])
  }

  /** The keys of `ws` in order of first occurrence, skipping those in
      `seen`. */
  function FirstKeys(ws: seq<Write>, seen: set<string>): seq<string>
    decreases |ws|
  {
    if ws == [] then []
    else if ws[0].0 in seen then FirstKeys(ws[1..], seen)
    else [ws[0].0] + FirstKeys(ws[1..], seen + {ws[0].0})
  }

  lemma {:induction false} PutAllAppend(r: Results, a: seq<Write>, b: seq<Write>)
    ensures PutAll(r, a + b) == PutAll(PutAll(r, a), b)
    decreases |a|
  {
    if a == [] {
      assert a + b == b;
    } else {
      assert (a + b)[0] == a[0];
      assert (a + b)[1..] == a[1..] + b;
      PutAllAppend(Put(r, a[0].0, a[0].1), a[1..], b);
    }
  }

  /** Dictionary order: the old keys stay first and in place, then each new
      key at the position of its first assignment. */
  lemma {:induction false} PutAllKeys(r: Results, ws: seq<Write>)
    ensures PutAll(r, ws).keys == r.keys + FirstKeys(ws, r.paths.Keys)
    decreases |ws|
  {
    if ws == [] {
      assert r.keys + [] == r.keys;
    } else {
      var w := ws[0].0;
      var r' := Put(r, w, ws[0].1);
      assert r'.paths.Keys == r.paths.Keys + {w};
      PutAllKeys(r', ws[1..]);
      if w in r.paths {
        assert r'.paths.Keys == r.paths.Keys;
      } else {
        assert r.keys + [w] + FirstKeys(ws[1..], r.paths.Keys + {w})
            == r.keys + ([w] + FirstKeys(ws[1..], r.paths.Keys + {w}));
      }
    }
  }

  /** Assignments keep the key list and the map in step, each key listed
      once. */
  lemma {:induction false} PutAllWellFormed(r: Results, ws: seq<Write>)
    requires WellFormed(r)
    ensures WellFormed(PutAll(r, ws))
    decreases |ws|
  {
    if ws != [] {
      var r' := Put(r, ws[0].0, ws[0].1);
      assert WellFormed(r');
      PutAllWellFormed(r', ws[1..]);
    }
  }

  /** A key no assignment in `ws` touches keeps its old value (or stays
      absent). */
  lemma {:induction false} PutAllUntouched(r: Results, ws: seq<Write>, w: string)
    requires forall u :: 0 <= u < |ws| ==> ws[u].0 != w
    ensures w in PutAll(r, ws).paths <==> w in r.paths
    ensures w in r.paths ==> PutAll(r, ws).paths[w] == r.paths[w]
    decreases |ws|
  {
    if ws != [] {
      PutAllUntouched(Put(r, ws[0].0, ws[0].1), ws[1..], w);
    }
  }

  /** No assignment after the `t`-th touches its key. */
  predicate IsLastFor(ws: seq<Write>, t: int)
  {
    0 <= t < |ws| && forall u :: t < u < |ws| ==> ws[u].0 != ws[t].0
  }

  /** Last assignment wins: the value of a key is the path of its last
      assignment in `ws`. */
  lemma {:induction false} PutAllLastWins(r: Results, ws: seq<Write>, t: nat)
    requires IsLastFor(ws, t)
    ensures ws[t].0 in PutAll(r, ws).paths && PutAll(r, ws).paths[ws[t].0] == ws[t].1
    decreases |ws|
  {
    var r' := Put(r, ws[0].0, ws[0].1);
    if t == 0 {
      PutAllUntouched(r', ws[1..], ws[0].0);
    } else {
      PutAllLastWins(r', ws[1..], t - 1);
    }
  }

  /** Every key of `ws` ends up in the dictionary, and every value in it is
      an old value or one of the assigned paths. */
  lemma {:induction false} PutAllOrigin(r: Results, ws: seq<Write>)
    ensures forall e :: e in ws ==> e.0 in PutAll(r, ws).paths
    ensures forall w :: w in r.paths ==> w in PutAll(r, ws).paths
    ensures forall w :: w in PutAll(r, ws).paths ==>
      (w, PutAll(r, ws).paths[w]) in ws || (w in r.paths && PutAll(r, ws).paths[w] == r.paths[w])
    decreases |ws|
  {
    if ws != [] {
      var r' := Put(r, ws[0].0, ws[0].1);
      PutAllOrigin(r', ws[1..]);
      forall e | e in ws ensures e.0 in PutAll(r, ws).paths {
        if e != ws[0] {
          assert e in ws[1..];
        }
      }
    }
  }

  /** A dictionary built from empty: well formed, keys in order of first
      assignment, each value the last one assigned. */
  lemma FromEmpty(ws: seq<Write>)
    ensures WellFormed(PutAll(Empty, ws))
    ensures PutAll(Empty, ws).keys == FirstKeys(ws, {})
    ensures forall t :: IsLastFor(ws, t) ==>
      ws[t].0 in PutAll(Empty, ws).paths && PutAll(Empty, ws).paths[ws[t].0] == ws[t].1
  {
    PutAllWellFormed(Empty, ws);
    PutAllKeys(Empty, ws);
    assert Empty.paths.Keys == {};
    forall t | IsLastFor(ws, t)
      ensures ws[t].0 in PutAll(Empty, ws).paths && PutAll(Empty, ws).paths[ws[t].0] == ws[t].1
    {
      PutAllLastWins(Empty, ws, t);
    }
  }

  // ---------------------------------------------------------------------
  // The traversal

  /** The last cell of a path. */
  function Last(p: Path): Cell
    requires p != []
  {
    p[|p| - 1]
  }

  /** The paths one call `DFS(matrix, i, j, path, ...)` with
      `here == path + [(i, j)]` visits, in order: its own, then (unless
      `here` already has `DEPTH` cells) those of the calls for each move in
      turn. */
  function Visits(g: Grid, here: Path): seq<Path>
    requires 1 <= |here| <= DEPTH
    decreases DEPTH - |here|, 2, 0
  {
    if |here| == DEPTH then [here] else [here] + MovesFrom(g, here, MOVES)
  }

  /** The paths the calls for the moves `ms` visit, in order. */
  function MovesFrom(g: Grid, here: Path, ms: seq<Cell>): seq<Path>
    requires 1 <= |here| < DEPTH
    decreases DEPTH - |here|, 1, |ms|
  {
    if ms == [] then [] else Branch(g, here, ms[0]) + MovesFrom(g, here, ms[1..])
  }

  /** The paths the move `d` visits: those of the recursive call when its
      target is in bounds and not on the path before the current cell. */
  function Branch(g: Grid, here: Path, d: Cell): seq<Path>
    requires 1 <= |here| < DEPTH
    decreases DEPTH - |here|, 0, 0
  {
    var next := (Last(here).0 + d.0, Last(here).1 + d.1);
    if 0 <= next.0 < |g| && 0 <= next.1 < |g[0]| && next !in here[..|here| - 1] then
      Visits(g, here + [next])
    else []
  }

  /** The assignment the visit of `p` makes: one if the dictionary has the
      word `p` spells, none otherwise. */
  function Hit(g: Grid, dict: set<string>, p: Path): seq<Write>
  {
    var word := Word(g, p);
    if word in dict then [(word, p)] else []
  }

  /** The assignments the visits `ps` make, in order. */
  function Hits(g: Grid, dict: set<string>, ps: seq<Path>): seq<Write>
  {
    if ps == [] then [] else Hit(g, dict, ps[0]) + Hits(g, dict, ps[1..])
  }

  lemma {:induction false} HitsAppend(g: Grid, dict: set<string>, a: seq<Path>, b: seq<Path>)
    ensures Hits(g, dict, a + b) == Hits(g, dict, a) + Hits(g, dict, b)
    decreases |a|
  {
    if a == [] {
      assert a + b == b;
    } else {
      var h := Hit(g, dict, a[0]);
      assert (a + b)[0] == a[0];
      assert (a + b)[1..] == a[1..] + b;
      HitsAppend(g, dict, a[1..], b);
      calc {
        Hits(g, dict, a + b);
        h + Hits(g, dict, a[1..] + b);
        h + (Hits(g, dict, a[1..]) + Hits(g, dict, b));
        { assert h + (Hits(g, dict, a[1..]) + Hits(g, dict, b)) == (h + Hits(g, dict, a[1..])) + Hits(g, dict, b); }
        Hits(g, dict, a) + Hits(g, dict, b);
      }
    }
  }

  /** A visit makes an assignment exactly when the word its path spells is
      in the dictionary, and the assignment is that word and that path. */
  lemma {:induction false} HitsMember(g: Grid, dict: set<string>, ps: seq<Path>, e: Write)
    ensures e in Hits(g, dict, ps) <==> e.1 in ps && e.0 == Word(g, e.1) && e.0 in dict
    decreases |ps|
  {
    if ps != [] {
      HitsMember(g, dict, ps[1..], e);
      if e.1 != ps[0] && e.1 in ps {
        assert e.1 in ps[1..];
      }
    }
  }

  /** `q` starts with `p`. */
  predicate Extends(q: Path, p: Path)
  {
    |p| <= |q| && q[..|p|] == p
  }

  lemma ExtendsPrefix(q: Path, p: Path, c: Cell)
    requires Extends(q, p + [c])
    ensures Extends(q, p)
  {
    assert q[..|p|] == (p + [c])[..|p|];
  }

  /** The first of the moves `MOVES[k..]`, and the rest. */
  lemma MovesFromStep(g: Grid, here: Path, k: nat)
    requires 1 <= |here| < DEPTH && k < |MOVES|
    ensures MovesFrom(g, here, MOVES[k..]) == Branch(g, here, MOVES[k]) + MovesFrom(g, here, MOVES[k + 1..])
  {
    assert MOVES[k..][1..] == MOVES[k + 1..];
  }

  /** The move `d` to `next`: the recursive call when `next` is in bounds and
      off the path before the current cell, nothing otherwise. */
  lemma BranchOf(g: Grid, here: Path, d: Cell, next: Cell)
    requires 1 <= |here| < DEPTH && next == (Last(here).0 + d.0, Last(here).1 + d.1)
    ensures Branch(g, here, d)
         == if InBounds(g, next) && next !in here[..|here| - 1] then Visits(g, here + [next]) else []
  {
  }

  /** Every path a call visits is valid and continues the call's path. */
  lemma {:induction false} VisitsSound(g: Grid, here: Path)
    requires ValidPath(g, here)
    ensures forall p :: p in Visits(g, here) ==> ValidPath(g, p) && Extends(p, here)
    decreases DEPTH - |here|, 2, 0
  {
    assert Extends(here, here);
    if |here| < DEPTH {
      MovesSound(g, here, MOVES);
    }
  }

  lemma {:induction false} MovesSound(g: Grid, here: Path, ms: seq<Cell>)
    requires ValidPath(g, here) && |here| < DEPTH
    requires forall t :: 0 <= t < |ms| ==> ms[t] in MOVES
    ensures forall p :: p in MovesFrom(g, here, ms) ==> ValidPath(g, p) && Extends(p, here)
    decreases DEPTH - |here|, 1, |ms|
  {
    if ms != [] {
      BranchSound(g, here, ms[0]);
      MovesSound(g, here, ms[1..]);
    }
  }

  lemma {:induction false} BranchSound(g: Grid, here: Path, d: Cell)
    requires ValidPath(g, here) && |here| < DEPTH && d in MOVES
    ensures forall p :: p in Branch(g, here, d) ==> ValidPath(g, p) && Extends(p, here)
    decreases DEPTH - |here|, 0, 0
  {
    var next := (Last(here).0 + d.0, Last(here).1 + d.1);
    BranchOf(g, here, d, next);
    if InBounds(g, next) && next !in here[..|here| - 1] {
      assert Adjacent(Last(here), next);
      ExtendValid(g, here, next);
      VisitsSound(g, here + [next]);
      forall p | p in Visits(g, here + [next]) ensures Extends(p, here) {
        ExtendsPrefix(p, here, next);
      }
    }
  }

  /** The paths of the move `ms[t]` are among those of the moves `ms`. */
  lemma {:induction false} BranchInMoves(g: Grid, here: Path, ms: seq<Cell>, t: nat, p: Path)
    requires 1 <= |here| < DEPTH && t < |ms|
    requires p in Branch(g, here, ms[t])
    ensures p in MovesFrom(g, here, ms)
    decreases t
  {
    if t > 0 {
      BranchInMoves(g, here, ms[1..], t - 1, p);
    }
  }

  /** Completeness of one call: it visits every valid path that continues
      its own. */
  lemma {:induction false} VisitsComplete(g: Grid, here: Path, q: Path)
    requires 1 <= |here| <= DEPTH
    requires ValidPath(g, q) && Extends(q, here)
    ensures q in Visits(g, here)
    decreases |q| - |here|
  {
    var n := |here|;
    if |q| == n {
      assert q == q[..n];
    } else {
      var c := q[n];
      assert q[n - 1] == Last(here);
      StepOfValid(g, q, n);
      assert q[..n - 1] == here[..n - 1];
      var d := (c.0 - Last(here).0, c.1 - Last(here).1);
      var k :| 0 <= k < |MOVES| && MOVES[k] == d;
      assert Extends(q, here + [c]) by {
        assert q[..n + 1] == q[..n] + [q[n]];
      }
      VisitsComplete(g, here + [c], q);
      BranchOf(g, here, d, c);
      BranchInMoves(g, here, MOVES, k, q);
    }
  }

  /** The start cells of the two loops from `(i, j)` on, in row-major order,
      over `n` rows of `m` cells. */
  function Cells(n: nat, m: nat, i: nat, j: nat): seq<Cell>
    requires i <= n && j <= m
    decreases n - i, m - j
  {
    if i == n then []
    else if j == m then Cells(n, m, i + 1, 0)
    else [(i, j)] + Cells(n, m, i, j + 1)
  }

  /** The start cells from `(i, j)` on are exactly the cells of the grid at
      or after `(i, j)` in row-major order. */
  lemma {:induction false} CellsMember(n: nat, m: nat, i: nat, j: nat, c: Cell)
    requires i <= n && j <= m
    ensures c in Cells(n, m, i, j) <==>
      (i < c.0 < n && 0 <= c.1 < m) || (c.0 == i && i < n && j <= c.1 < m)
    decreases n - i, m - j
  {
    if i < n {
      if j == m {
        CellsMember(n, m, i + 1, 0, c);
      } else {
        CellsMember(n, m, i, j + 1, c);
      }
    }
  }

  /** The paths the searches from the start cells `starts` visit, in order. */
  function VisitAll(g: Grid, starts: seq<Cell>): seq<Path>
  {
    if starts == [] then [] else Visits(g, [starts[0]]) + VisitAll(g, starts[1..])
  }

  /** Every path the whole search visits, in order. */
  function AllVisits(g: Grid): seq<Path>
    requires |g| > 0
  {
    VisitAll(g, Cells(|g|, |g[0]|, 0, 0))
  }

  /** Every assignment of the whole search, in the order it makes them. */
  function AllWrites(g: Grid, dict: set<string>): seq<Write>
    requires |g| > 0
  {
    Hits(g, dict, AllVisits(g))
  }

  /** The dictionary the whole search leaves behind. */
  function SearchResult(g: Grid, dict: set<string>): Results
    requires |g| > 0
  {
    PutAll(Empty, AllWrites(g, dict))
  }

  lemma {:induction false} VisitAllSound(g: Grid, starts: seq<Cell>)
    requires forall t :: 0 <= t < |starts| ==> InBounds(g, starts[t])
    ensures forall p :: p in VisitAll(g, starts) ==> ValidPath(g, p)
    decreases |starts|
  {
    if starts != [] {
      assert ValidPath(g, [starts[0]]);
      VisitsSound(g, [starts[0]]);
      VisitAllSound(g, starts[1..]);
    }
  }

  /** The start cell `starts[t]` contributes all its visits. */
  lemma {:induction false} VisitAllContain(g: Grid, starts: seq<Cell>, t: nat, p: Path)
    requires t < |starts| && p in Visits(g, [starts[t]])
    ensures p in VisitAll(g, starts)
    decreases t
  {
    if t > 0 {
      VisitAllContain(g, starts[1..], t - 1, p);
    }
  }

  /** The search visits exactly the valid paths: every simple king path of
      1 to `DEPTH` in-bounds cells, and nothing else. */
  lemma SearchVisits(g: Grid, q: Path)
    requires |g| > 0
    ensures q in AllVisits(g) <==> ValidPath(g, q)
  {
    var starts := Cells(|g|, |g[0]|, 0, 0);
    forall t | 0 <= t < |starts| ensures InBounds(g, starts[t]) {
      CellsMember(|g|, |g[0]|, 0, 0, starts[t]);
    }
    VisitAllSound(g, starts);
    if ValidPath(g, q) {
      var start := q[0];
      assert Extends(q, [start]);
      VisitsComplete(g, [start], q);
      CellsMember(|g|, |g[0]|, 0, 0, start);
      var t :| 0 <= t < |starts| && starts[t] == start;
      VisitAllContain(g, starts, t, q);
    }
  }

  /** Soundness: every entry of the final dictionary is a dictionary word
      together with a valid path (in bounds, no repeated cell, king steps,
      1 to 8 cells) that spells it. */
  lemma SearchSound(g: Grid, dict: set<string>, w: string)
    requires |g| > 0 && w in SearchResult(g, dict).paths
    ensures w in dict
    ensures ValidPath(g, SearchResult(g, dict).paths[w])
    ensures Word(g, SearchResult(g, dict).paths[w]) == w
  {
    var p := SearchResult(g, dict).paths[w];
    PutAllOrigin(Empty, AllWrites(g, dict));
    HitsMember(g, dict, AllVisits(g), (w, p));
    SearchVisits(g, p);
  }

  /** Completeness up to `DEPTH` cells: a dictionary word spelled by any
      valid path is a key of the final dictionary. */
  lemma SearchComplete(g: Grid, dict: set<string>, q: Path)
    requires |g| > 0 && ValidPath(g, q) && Word(g, q) in dict
    ensures Word(g, q) in SearchResult(g, dict).paths
    ensures Word(g, q) in SearchResult(g, dict).keys
  {
    SearchVisits(g, q);
    HitsMember(g, dict, AllVisits(g), (Word(g, q), q));
    PutAllOrigin(Empty, AllWrites(g, dict));
    PutAllWellFormed(Empty, AllWrites(g, dict));
  }

  /** Order and overwriting: the keys appear in order of first discovery,
      each once, and a key's path is the last one discovered for it. */
  lemma SearchOrder(g: Grid, dict: set<string>)
    requires |g| > 0
    ensures WellFormed(SearchResult(g, dict))
    ensures SearchResult(g, dict).keys == FirstKeys(AllWrites(g, dict), {})
    ensures forall t :: IsLastFor(AllWrites(g, dict), t) ==>
      AllWrites(g, dict)[t].0 in SearchResult(g, dict).paths &&
      SearchResult(g, dict).paths[AllWrites(g, dict)[t].0] == AllWrites(g, dict)[t].1
  {
    FromEmpty(AllWrites(g, dict));
  }

  // ---------------------------------------------------------------------
  // The imperative search

  /** The shared result dictionary the search fills in place. */
  class ResultDict {
    var keys: seq<string>
    var paths: map<string, Path>

    function Contents(): Results
      reads this
    {
      Results(keys, paths)
    }

    constructor ()
      ensures Contents() == Empty
    {
      keys := [];
      paths := map[];
    }

    /** `self[w] = p`. */
    method Set(w: string, p: Path)
      modifies this
      ensures Contents() == Put(old(Contents()), w, p)
    {
      if w !in paths {
        keys := keys + [w];
      }
      paths := paths[w := p];
    }
  }

  /** One turn of the loop over the moves: the call for move `k`, if any,
      takes the dictionary from `before` to `after`. */
  lemma MoveStep(g: Grid, dict: set<string>, here: Path, k: nat, i: int, j: int, ii: int, jj: int,
                 vacant: bool, before: Results, after: Results)
    requires 1 <= |here| < DEPTH && k < |MOVES| && Last(here) == (i, j)
    requires ii == MOVES[k].0 + i && jj == MOVES[k].1 + j
    requires vacant == (0 <= ii < |g| && 0 <= jj < |g[0]| && (ii, jj) !in here[..|here| - 1])
    requires vacant ==> after == PutAll(before, Hits(g, dict, Visits(g, here + [(ii, jj)])))
    requires !vacant ==> after == before
    ensures PutAll(before, Hits(g, dict, MovesFrom(g, here, MOVES[k..])))
         == PutAll(after, Hits(g, dict, MovesFrom(g, here, MOVES[k + 1..])))
  {
    var next := (ii, jj);
    var rest := MovesFrom(g, here, MOVES[k + 1..]);
    MovesFromStep(g, here, k);
    BranchOf(g, here, MOVES[k], next);
    HitsAppend(g, dict, Branch(g, here, MOVES[k]), rest);
    PutAllAppend(before, Hits(g, dict, Branch(g, here, MOVES[k])), Hits(g, dict, rest));
  }

  lemma AllInBoundsStep(g: Grid, p: Path, c: Cell)
    requires AllInBounds(g, p) && InBounds(g, c)
    ensures AllInBounds(g, p + [c])
  {
    assert forall t :: 0 <= t < |p| ==> (p + [c])[t] == p[t];
  }

  /** The recursive search from cell `(i, j)` after `path`. */
  method Dfs(g: Grid, i: int, j: int, path: Path, dict: set<string>, result: ResultDict)
    requires IsRect(g) && |path| < DEPTH && AllInBounds(g, path + [(i, j)])
    modifies result
    ensures result.Contents() == PutAll(old(result.Contents()), Hits(g, dict, Visits(g, path + [(i, j)])))
    decreases DEPTH - |path|
  {
    var n, m := |g|, |g[0]|;
    var here := path + [(i, j)];
    var word := GetWord(g, here);
    if word in dict {
      result.Set(word, here);
    }
    assert result.Contents() == PutAll(old(result.Contents()), Hits(g, dict, [here]));
    if |path| == DEPTH - 1 {
      return;
    }
    HitsAppend(g, dict, [here], MovesFrom(g, here, MOVES));
    PutAllAppend(old(result.Contents()), Hits(g, dict, [here]), Hits(g, dict, MovesFrom(g, here, MOVES)));
    assert here[..|here| - 1] == path && Last(here) == (i, j);
    assert MOVES[0..] == MOVES;
    for k := 0 to |MOVES|
      invariant PutAll(result.Contents(), Hits(g, dict, MovesFrom(g, here, MOVES[k..])))
             == PutAll(old(result.Contents()), Hits(g, dict, Visits(g, here)))
    {
      ghost var before := result.Contents();
      var ii, jj := MOVES[k].0 + i, MOVES[k].1 + j;
      var vacant := 0 <= ii < n && 0 <= jj < m && (ii, jj) !in path;
      if vacant {
        AllInBoundsStep(g, here, (ii, jj));
        Dfs(g, ii, jj, here, dict, result);
      }
      MoveStep(g, dict, here, k, i, j, ii, jj, vacant, before, result.Contents());
    }
  }

  /** One turn of the inner start-cell loop: the search from `(i, j)`
      takes the dictionary from `before` to `after`. */
  lemma StartStep(g: Grid, dict: set<string>, n: nat, m: nat, i: nat, j: nat, before: Results, after: Results)
    requires i < n && j < m
    requires after == PutAll(before, Hits(g, dict, Visits(g, [(i, j)])))
    ensures PutAll(before, Hits(g, dict, VisitAll(g, Cells(n, m, i, j))))
         == PutAll(after, Hits(g, dict, VisitAll(g, Cells(n, m, i, j + 1))))
  {
    var rest := VisitAll(g, Cells(n, m, i, j + 1));
    assert VisitAll(g, Cells(n, m, i, j)) == Visits(g, [(i, j)]) + rest by {
      var cs := Cells(n, m, i, j);
      assert cs == [(i, j)] + Cells(n, m, i, j + 1);
      assert cs[0] == (i, j) && cs[1..] == Cells(n, m, i, j + 1);
    }
    HitsAppend(g, dict, Visits(g, [(i, j)]), rest);
    PutAllAppend(before, Hits(g, dict, Visits(g, [(i, j)])), Hits(g, dict, rest));
  }

  /** The start-cell loops: a fresh dictionary, then one search from every
      cell in row-major order. */
  method SearchAll(g: Grid, dict: set<string>) returns (results: Results)
    requires IsRect(g)
    ensures results == SearchResult(g, dict)
  {
    var result := new ResultDict();
    var n, m := |g|, |g[0]|;
    for i := 0 to n
      invariant PutAll(result.Contents(), Hits(g, dict, VisitAll(g, Cells(n, m, i, 0)))) == SearchResult(g, dict)
    {
      SearchRow(g, dict, i, result);
    }
    results := result.Contents();
  }

  /** The inner start-cell loop: one search from every cell of row `i`, left
      to right. */
  method SearchRow(g: Grid, dict: set<string>, i: nat, result: ResultDict)
    requires IsRect(g) && i < |g|
    modifies result
    ensures PutAll(result.Contents(), Hits(g, dict, VisitAll(g, Cells(|g|, |g[0]|, i + 1, 0))))
         == PutAll(old(result.Contents()), Hits(g, dict, VisitAll(g, Cells(|g|, |g[0]|, i, 0))))
  {
    var n, m := |g|, |g[0]|;
    for j := 0 to m
      invariant PutAll(result.Contents(), Hits(g, dict, VisitAll(g, Cells(n, m, i, j))))
             == PutAll(old(result.Contents()), Hits(g, dict, VisitAll(g, Cells(n, m, i, 0))))
    {
      ghost var before := result.Contents();
      Dfs(g, i, j, [], dict, result);
      assert [] + [(i, j)] == [(i, j)];
      StartStep(g, dict, n, m, i, j, before, result.Contents());
    }
  }
}

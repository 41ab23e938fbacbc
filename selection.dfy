/** The last stage of the solver: walk the ranked words, ask the validator
    about each in turn, and for the first `QUOTA` it confirms draw the board
    with the path marked on it. */
module Selection {
  import opened Text
  import opened Board
  import opened Paths

  /** How many confirmed words the solver reports. */
  const QUOTA := 3

  /** A `SIZE` x `SIZE` board of cell texts. */
  type Diagram = seq<seq<string>>

  predicate IsBoard(d: Diagram)
  {
    |d| == SIZE && forall r :: 0 <= r < SIZE ==> |d[r]| == SIZE
  }

  /** The empty board: every cell `"."`. */
  function Blank(): (d: Diagram)
    ensures IsBoard(d)
    ensures forall r, c :: 0 <= r < SIZE && 0 <= c < SIZE ==> d[r][c] == "."
  {
    seq(SIZE, _ => seq(SIZE, _ => "."))
  }

  /** Every cell of `p` lies on the `SIZE` x `SIZE` board. */
  predicate OnBoard(p: Path)
  {
    forall t :: 0 <= t < |p| ==> 0 <= p[t].0 < SIZE && 0 <= p[t].1 < SIZE
  }

  /** The text of step `k` (0-based) spelling letter `c`: the letter raised,
      then the 1-based step number in parentheses. */
  function Label(c: char, k: nat): string
  {
    [Upper(c)] + "(" + DecimalString(k + 1) + ")"
  }

  /** A label reads back as its letter, raised, and its step number, 1-based. */
  lemma LabelParts(c: char, k: nat)
    ensures var s := Label(c, k);
      && |s| >= 4 && s[0] == Upper(c) && s[1] == '(' && s[|s| - 1] == ')'
      && (forall t :: 2 <= t < |s| - 1 ==> IsDigit(s[t]))
      && DecimalValue(s[2..|s| - 1]) == k + 1
  {
    var s := Label(c, k);
    assert s[2..|s| - 1] == DecimalString(k + 1);
    DecimalRoundTrip(k + 1);
  }

  /** `d` with the cell `c` set to `s`. */
  function Mark(d: Diagram, c: Cell, s: string): (e: Diagram)
    requires IsBoard(d) && 0 <= c.0 < SIZE && 0 <= c.1 < SIZE
    ensures IsBoard(e) && e[c.0][c.1] == s
    ensures forall r, col :: 0 <= r < SIZE && 0 <= col < SIZE && (r, col) != c ==> e[r][col] == d[r][col]
  {
    d[c.0 := d[c.0][c.1 := s]]
  }

  /** The blank board with the first `n` steps of `path` written on it, in
      step order, so a later visit of a cell overwrites an earlier one. */
  function Painted(word: string, path: Path, n: nat): (d: Diagram)
    requires n <= |path| && n <= |word| && OnBoard(path)
    ensures IsBoard(d)
  {
    if n == 0 then Blank()
    else
      Mark(Painted(word, path, n - 1), path[n - 1], Label(word[n - 1], n - 1))
  }

  /** The board `get_path` draws for `word` along `path`. */
  function DiagramOf(word: string, path: Path): (d: Diagram)
    requires |path| <= |word| && OnBoard(path)
    ensures IsBoard(d)
  {
    Painted(word, path, |path|)
  }

  /** A cell no step among the first `n` visits stays `"."`. */
  lemma {:induction false} PaintedUnvisited(word: string, path: Path, n: nat, r: int, c: int)
    requires n <= |path| && n <= |word| && OnBoard(path)
    requires 0 <= r < SIZE && 0 <= c < SIZE
    requires forall t :: 0 <= t < n ==> path[t] != (r, c)
    ensures Painted(word, path, n)[r][c] == "."
    decreases n
  {
    if n > 0 {
      var prev := Painted(word, path, n - 1);
      assert Painted(word, path, n) == Mark(prev, path[n - 1], Label(word[n - 1], n - 1));
      PaintedUnvisited(word, path, n - 1, r, c);
      assert path[n - 1] != (r, c);
    }
  }

  /** The cell of step `t`, if no later step among the first `n` returns to
      it, shows step `t`'s label. */
  lemma {:induction false} PaintedVisited(word: string, path: Path, n: nat, t: nat)
    requires n <= |path| && n <= |word| && OnBoard(path)
    requires t < n && forall u :: t < u < n ==> path[u] != path[t]
    ensures Painted(word, path, n)[path[t].0][path[t].1] == Label(word[t], t)
    decreases n
  {
    var prev := Painted(word, path, n - 1);
    assert Painted(word, path, n) == Mark(prev, path[n - 1], Label(word[n - 1], n - 1));
    if t < n - 1 {
      PaintedVisited(word, path, n - 1, t);
      assert path[n - 1] != path[t];
    }
  }

  /** `d` is a board showing `"."` off the path and, on the path, the label
      of the last step that visits each cell. */
  predicate Shows(d: Diagram, word: string, path: Path)
    requires |path| <= |word| && OnBoard(path)
  {
    && IsBoard(d)
    && (forall r, c :: 0 <= r < SIZE && 0 <= c < SIZE && (r, c) !in path ==> d[r][c] == ".")
    && (forall t :: 0 <= t < |path| && path[t] !in path[t + 1..] ==>
          d[path[t].0][path[t].1] == Label(word[t], t))
  }

  /** What the drawn board shows. */
  lemma DiagramCells(word: string, path: Path)
    requires |path| <= |word| && OnBoard(path)
    ensures Shows(DiagramOf(word, path), word, path)
  {
    forall r, c | 0 <= r < SIZE && 0 <= c < SIZE && (r, c) !in path
      ensures DiagramOf(word, path)[r][c] == "."
    {
      PaintedUnvisited(word, path, |path|, r, c);
    }
    forall t | 0 <= t < |path| && path[t] !in path[t + 1..]
      ensures DiagramOf(word, path)[path[t].0][path[t].1] == Label(word[t], t)
    {
      forall u | t < u < |path| ensures path[u] != path[t] {
        assert path[u] == path[t + 1..][u - t - 1];
      }
      PaintedVisited(word, path, |path|, t);
    }
  }

  /** `get_path`: start from the blank board and write each step's label
      into its cell. */
  method GetPath(word: string, path: Path) returns (d: Diagram)
    requires |path| <= |word| && OnBoard(path)
    ensures d == DiagramOf(word, path)
    ensures Shows(d, word, path)
  {
    d := Blank();
    for t := 0 to |path|
      invariant d == Painted(word, path, t)
    {
      d := Mark(d, path[t], Label(word[t], t));
    }
    DiagramCells(word, path);
  }

  /** The keys the validator accepts, in key order. */
  function Confirmed(keys: seq<string>, valid: string -> bool): seq<string>
  {
    if keys == [] then []
    else
      var last := keys[|keys| - 1];
      Confirmed(keys[..|keys| - 1], valid) + (if valid(last) then [last] else [])
  }

  /** A word is confirmed exactly when it is a key the validator accepts. */
  lemma {:induction false} ConfirmedMember(keys: seq<string>, valid: string -> bool, w: string)
    ensures w in Confirmed(keys, valid) <==> w in keys && valid(w)
    decreases |keys|
  {
    if keys != [] {
      var init, last := keys[..|keys| - 1], keys[|keys| - 1];
      ConfirmedMember(init, valid, w);
      assert keys == init + [last];
    }
  }

  lemma ConfirmedAll(keys: seq<string>, valid: string -> bool)
    ensures forall w :: w in Confirmed(keys, valid) ==> w in keys && valid(w)
  {
    forall w | w in Confirmed(keys, valid) ensures w in keys && valid(w) {
      ConfirmedMember(keys, valid, w);
    }
  }

  /** Confirming a list in two parts confirms it whole, in order. */
  lemma {:induction false} ConfirmedAppend(a: seq<string>, b: seq<string>, valid: string -> bool)
    ensures Confirmed(a + b, valid) == Confirmed(a, valid) + Confirmed(b, valid)
    decreases |b|
  {
    if b == [] {
      assert a + b == a;
    } else {
      var init, last := b[..|b| - 1], b[|b| - 1];
      ConfirmedAppend(a, init, valid);
      assert (a + b)[..|a + b| - 1] == a + init;
      assert (a + b)[|a + b| - 1] == last;
    }
  }

  /** The first `QUOTA` confirmed keys (all of them if there are fewer). */
  function Chosen(keys: seq<string>, valid: string -> bool): (r: seq<string>)
    ensures |r| <= QUOTA
    ensures forall w :: w in r ==> w in keys && valid(w)
  {
    var all := Confirmed(keys, valid);
    ConfirmedAll(keys, valid);
    all[..Min(QUOTA, |all|)]
  }

  /** A reported word and the board with its path drawn on it. */
  datatype Pick = Pick(word: string, diagram: Diagram)

  /** `p` shows its word's path from `paths`. */
  predicate Drawn(p: Pick, paths: map<string, Path>)
  {
    p.word in paths && |paths[p.word]| <= |p.word| && OnBoard(paths[p.word]) &&
    p.diagram == DiagramOf(p.word, paths[p.word])
  }

  /** The reported words, in report order. */
  function Words(picks: seq<Pick>): (r: seq<string>)
    ensures |r| == |picks| && forall t :: 0 <= t < |picks| ==> r[t] == picks[t].word
  {
    seq(|picks|, t requires 0 <= t < |picks| => picks[t].word)
  }

  lemma WordsSnoc(picks: seq<Pick>, p: Pick)
    ensures Words(picks + [p]) == Words(picks) + [p.word]
  {
  }

  /** Looking at one more key confirms it or not, after the earlier ones. */
  lemma ConfirmedStep(keys: seq<string>, valid: string -> bool, checked: nat)
    requires checked < |keys|
    ensures Confirmed(keys[..checked + 1], valid)
         == Confirmed(keys[..checked], valid) + (if valid(keys[checked]) then [keys[checked]] else [])
  {
    var prefix := keys[..checked + 1];
    assert prefix[..|prefix| - 1] == keys[..checked] && prefix[|prefix| - 1] == keys[checked];
  }

  /** What the selection loop keeps true after looking at `checked` keys:
      the reports are the confirmed keys among them, each drawn, and at most
      `QUOTA`, the last key looked at confirmed once the quota is met. */
  predicate Progress(keys: seq<string>, paths: map<string, Path>, valid: string -> bool,
                     picks: seq<Pick>, checked: nat)
  {
    && checked <= |keys| && |picks| <= QUOTA
    && Words(picks) == Confirmed(keys[..checked], valid)
    && (|picks| == QUOTA ==> 0 < checked && valid(keys[checked - 1]))
    && (forall t :: 0 <= t < |picks| ==> Drawn(picks[t], paths))
  }

  /** One turn of the loop keeps `Progress`. */
  lemma ProgressStep(keys: seq<string>, paths: map<string, Path>, valid: string -> bool,
                     picks: seq<Pick>, checked: nat, after: seq<Pick>)
    requires Progress(keys, paths, valid, picks, checked)
    requires checked < |keys| && |picks| < QUOTA
    requires keys[checked] in paths && |paths[keys[checked]]| <= |keys[checked]| && OnBoard(paths[keys[checked]])
    requires after == if valid(keys[checked]) then
                        picks + [Pick(keys[checked], DiagramOf(keys[checked], paths[keys[checked]]))]
                      else picks
    ensures Progress(keys, paths, valid, after, checked + 1)
  {
    ConfirmedStep(keys, valid, checked);
    if valid(keys[checked]) {
      WordsSnoc(picks, after[|picks|]);
    }
  }

  /** When the selection stops, either after looking at every key or right
      after the `QUOTA`-th confirmation, the words it has are the chosen ones. */
  lemma SelectionDone(keys: seq<string>, valid: string -> bool, checked: nat, words: seq<string>)
    requires checked <= |keys| && |words| <= QUOTA
    requires words == Confirmed(keys[..checked], valid)
    requires checked == |keys| || |words| == QUOTA
    ensures words == Chosen(keys, valid)
  {
    assert keys == keys[..checked] + keys[checked..];
    ConfirmedAppend(keys[..checked], keys[checked..], valid);
  }

  /** The selection loop: look at the ranked keys in order, stop after
      `QUOTA` confirmed ones or at the end of the list, and draw each
      confirmed word's path. `checked` is how many keys the validator saw:
      always the first `checked` of `keys`. */
  method Select(keys: seq<string>, paths: map<string, Path>, valid: string -> bool)
    returns (picks: seq<Pick>, checked: nat)
    requires forall k :: k in keys ==> k in paths && |paths[k]| <= |k| && OnBoard(paths[k])
    ensures checked <= |keys| && |picks| <= QUOTA
    ensures checked == |keys| || |picks| == QUOTA
    ensures Words(picks) == Confirmed(keys[..checked], valid)
    ensures Words(picks) == Chosen(keys, valid)
    ensures |picks| == QUOTA ==> 0 < checked && valid(keys[checked - 1])
    ensures forall t :: 0 <= t < |picks| ==> Drawn(picks[t], paths)
  {
    picks, checked := [], 0;
    while checked < |keys| && |picks| < QUOTA
      invariant Progress(keys, paths, valid, picks, checked)
    {
      var key := keys[checked];
      ghost var before := picks;
      if valid(key) {
        var diagram := GetPath(key, paths[key]);
        picks := picks + [Pick(key, diagram)];
      }
      ProgressStep(keys, paths, valid, before, checked, picks);
      checked := checked + 1;
    }
    SelectionDone(keys, valid, checked, Words(picks));
  }
}

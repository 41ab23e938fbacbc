/** The solver end to end: letters in, grid, every dictionary word the grid
    spells, ranked longest first, and the first `QUOTA` that the validator
    confirms, each with its path drawn. */
module Pipeline {
  import opened Text
  import opened Board
  import opened Paths
  import opened Search
  import opened Ranking
  import opened Selection

  /** What a run ends with: the shape error, or the reported words and how
      many ranked words the validator was asked about. */
  datatype Report = Aborted(message: string) | Solved(picks: seq<Pick>, checked: nat)

  /** The grid the recognised text lines make. */
  function GridOf(ocr: seq<string>): Grid
  {
    Chunk(UppercaseOf(Concat(ocr)))
  }

  /** Every ranked word of a 5 x 5 grid can be drawn: it has a path, the
      path lies on the board, and the word has a letter for each step. */
  lemma Drawable(g: Grid, dict: set<string>)
    requires IsSquare(g)
    ensures forall k :: k in Rank(SearchResult(g, dict).keys) ==>
              k in SearchResult(g, dict).paths &&
              |SearchResult(g, dict).paths[k]| <= |k| &&
              OnBoard(SearchResult(g, dict).paths[k])
  {
    var found := SearchResult(g, dict);
    SearchOrder(g, dict);
    RankPermutation(found.keys);
    forall k | k in Rank(found.keys)
      ensures k in found.paths && |found.paths[k]| <= |k| && OnBoard(found.paths[k])
    {
      assert k in multiset(Rank(found.keys));
      assert k in found.keys;
      SearchSound(g, dict, k);
      var p := found.paths[k];
      forall t | 0 <= t < |p| ensures 0 <= p[t].0 < SIZE && 0 <= p[t].1 < SIZE {
        assert InBounds(g, p[t]);
      }
    }
  }

  /** `main` after reading the dictionary and the image: check the letters,
      search from every cell, rank the words, and select. */
  method Solve(ocr: seq<string>, dict: set<string>, valid: string -> bool) returns (report: Report)
    ensures report.Aborted? <==> |UppercaseOf(Concat(ocr))| < SIZE * SIZE
    ensures report.Aborted? ==> report.message == SHAPE_ERROR
    ensures report.Solved? ==>
              var found := SearchResult(GridOf(ocr), dict);
              && Words(report.picks) == Chosen(Rank(found.keys), valid)
              && report.checked <= |Rank(found.keys)|
              && (report.checked == |Rank(found.keys)| || |report.picks| == QUOTA)
              && (|report.picks| == QUOTA ==> 0 < report.checked && valid(Rank(found.keys)[report.checked - 1]))
              && Words(report.picks) == Confirmed(Rank(found.keys)[..report.checked], valid)
              && (forall t :: 0 <= t < |report.picks| ==> Drawn(report.picks[t], found.paths))
  {
    var loaded := ReadGrid(ocr);
    match loaded
    case ShapeError(message) =>
      report := Aborted(message);
    case Loaded(g) =>
      var found := SearchAll(g, dict);
      var keys := Rank(found.keys);
      Drawable(g, dict);
      var picks, checked := Select(keys, found.paths, valid);
      report := Solved(picks, checked);
  }

  /** Filtering keeps the order by length. */
  lemma {:induction false} ConfirmedSorted(keys: seq<string>, valid: string -> bool)
    requires NonIncreasing(keys)
    ensures NonIncreasing(Confirmed(keys, valid))
    decreases |keys|
  {
    if keys != [] {
      var init, last := keys[..|keys| - 1], keys[|keys| - 1];
      assert NonIncreasing(init);
      ConfirmedSorted(init, valid);
      var c := Confirmed(init, valid);
      forall a | 0 <= a < |c| ensures |c[a]| >= |last| {
        ConfirmedMember(init, valid, c[a]);
        var t :| 0 <= t < |init| && init[t] == c[a];
        assert keys[t] == c[a];
      }
    }
  }

  /** A confirmed word that is not reported is no longer than any reported
      word: the report holds the longest confirmed words. */
  lemma ChosenLongest(keys: seq<string>, valid: string -> bool, w: string)
    requires NonIncreasing(keys)
    requires w in keys && valid(w) && w !in Chosen(keys, valid)
    ensures forall c :: c in Chosen(keys, valid) ==> |c| >= |w|
  {
    var all := Confirmed(keys, valid);
    ConfirmedSorted(keys, valid);
    ConfirmedMember(keys, valid, w);
    var i :| 0 <= i < |all| && all[i] == w;
    var chosen := Chosen(keys, valid);
    assert chosen == all[..|chosen|];
    assert forall t :: 0 <= t < |chosen| ==> all[t] == chosen[t] != w;
    assert |chosen| <= i;
    forall c | c in chosen ensures |c| >= |w| {
      var a :| 0 <= a < |chosen| && chosen[a] == c;
      assert all[a] == c;
    }
  }

  /** Every word reported for a 5 x 5 grid is in the dictionary, accepted
      by the validator, and spelled on the grid by a valid path, the one its
      diagram draws. */
  lemma ReportSound(g: Grid, dict: set<string>, valid: string -> bool)
    requires IsSquare(g)
    ensures forall w :: w in Chosen(Rank(SearchResult(g, dict).keys), valid) ==>
              && w in dict && valid(w)
              && w in SearchResult(g, dict).paths
              && ValidPath(g, SearchResult(g, dict).paths[w])
              && Word(g, SearchResult(g, dict).paths[w]) == w
  {
    var found := SearchResult(g, dict);
    SearchOrder(g, dict);
    RankPermutation(found.keys);
    forall w | w in Chosen(Rank(found.keys), valid)
      ensures w in dict && valid(w) && w in found.paths
      ensures ValidPath(g, found.paths[w]) && Word(g, found.paths[w]) == w
    {
      assert w in multiset(Rank(found.keys));
      SearchSound(g, dict, w);
    }
  }

  /** The report for a 5 x 5 grid holds the longest words the validator
      confirms among all dictionary words the grid spells: a word some valid
      path spells, in the dictionary and accepted, but not reported, is no
      longer than any reported word. */
  lemma ReportLongest(g: Grid, dict: set<string>, valid: string -> bool)
    requires IsSquare(g)
    ensures forall q ::
              (&& ValidPath(g, q) && Word(g, q) in dict && valid(Word(g, q))
               && Word(g, q) !in Chosen(Rank(SearchResult(g, dict).keys), valid))
              ==> forall c :: c in Chosen(Rank(SearchResult(g, dict).keys), valid) ==> |c| >= |q|
  {
    var found := SearchResult(g, dict);
    RankPermutation(found.keys);
    RankSorted(found.keys);
    forall q | ValidPath(g, q) && Word(g, q) in dict && valid(Word(g, q)) &&
               Word(g, q) !in Chosen(Rank(found.keys), valid)
      ensures forall c :: c in Chosen(Rank(found.keys), valid) ==> |c| >= |q|
    {
      var w := Word(g, q);
      SearchComplete(g, dict, q);
      assert w in multiset(found.keys);
      ChosenLongest(Rank(found.keys), valid, w);
    }
  }
}

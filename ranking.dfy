/** The ranking of the found words: a stable sort by descending length.
    Words of equal length keep the order they had among the dictionary's
    keys (their order of first discovery). */
module Ranking {

  /** Longer words first. */
  predicate NonIncreasing(s: seq<string>)
  {
    forall a, b :: 0 <= a < b < |s| ==> |s[a]| >= |s[b]|
  }

  /** The words of `s` that are `n` long, in their order in `s`. */
  function WithLength(s: seq<string>, n: nat): seq<string>
  {
    if s == [] then []
    else (if |s[0]| == n then [s[0]] else []) + WithLength(s[1..], n)
  }

  /** `w` placed into the ranked `s` after every word at least as long as
      it: where a stable sort puts a word that comes after all of `s`. */
  function Insert(w: string, s: seq<string>): (r: seq<string>)
    ensures |r| == |s| + 1
    ensures multiset(r) == multiset(s) + multiset{w}
  {
    if s == [] then [w]
    else if |s[0]| < |w| then [w] + s
    else
      assert s == [s[0]] + s[1..];
      [s[0]] + Insert(w, s[1..])
  }

  /** `sorted(keys, key=len, reverse=True)`. */
  function Rank(keys: seq<string>): seq<string>
  {
    if keys == [] then []
    else Insert(keys[|keys| - 1], Rank(keys[..|keys| - 1]))
  }

  lemma {:induction false} WithLengthAppend(a: seq<string>, b: seq<string>, n: nat)
    ensures WithLength(a + b, n) == WithLength(a, n) + WithLength(b, n)
    decreases |a|
  {
    if a == [] {
      assert a + b == b;
    } else {
      assert (a + b)[0] == a[0];
      assert (a + b)[1..] == a[1..] + b;
      WithLengthAppend(a[1..], b, n);
    }
  }

  /** A word of length `n` occurs in `s` exactly when `WithLength(s, n)`
      is not empty, and the first of them is its head. */
  lemma {:induction false} WithLengthFirst(s: seq<string>, n: nat)
    ensures WithLength(s, n) != [] <==> exists k :: 0 <= k < |s| && |s[k]| == n
    ensures WithLength(s, n) != [] ==> |WithLength(s, n)[0]| == n
    decreases |s|
  {
    if s != [] {
      WithLengthFirst(s[1..], n);
      if |s[0]| != n && WithLength(s[1..], n) == [] {
        forall k | 0 <= k < |s| ensures |s[k]| != n {
          if k > 0 {
            assert s[k] == s[1..][k - 1];
          }
        }
      }
      if WithLength(s[1..], n) != [] {
        var k :| 0 <= k < |s[1..]| && |s[1..][k]| == n;
        assert |s[k + 1]| == n;
      }
    }
  }

  lemma {:induction false} InsertSorted(w: string, s: seq<string>)
    requires NonIncreasing(s)
    ensures NonIncreasing(Insert(w, s))
    decreases |s|
  {
    if s != [] && |s[0]| >= |w| {
      InsertSorted(w, s[1..]);
      var r := Insert(w, s[1..]);
      assert Insert(w, s) == [s[0]] + r;
      forall k | 0 <= k < |r| ensures |s[0]| >= |r[k]| {
        assert r[k] in multiset(r);
        assert r[k] in multiset(s[1..]) || r[k] == w;
        if r[k] != w {
          var t :| 0 <= t < |s[1..]| && s[1..][t] == r[k];
          assert s[t + 1] == r[k];
        }
      }
    }
  }

  lemma WithLengthCons(x: string, s: seq<string>, n: nat)
    ensures WithLength([x] + s, n) == (if |x| == n then [x] else []) + WithLength(s, n)
  {
    assert ([x] + s)[0] == x && ([x] + s)[1..] == s;
  }

  /** `w` goes in front of a ranked `s` of shorter words, where no word
      has its length. */
  lemma InsertFront(w: string, s: seq<string>, n: nat)
    requires s != [] && NonIncreasing(s) && |s[0]| < |w|
    ensures WithLength([w] + s, n) == WithLength(s, n) + (if |w| == n then [w] else [])
  {
    WithLengthCons(w, s, n);
    if |w| == n {
      WithLengthFirst(s, n);
      assert WithLength(s, n) == [];
    }
  }

  /** `w` goes behind the head `x` of a ranked sequence whose tail `t`
      already receives it stably. */
  lemma InsertBehind(w: string, s: seq<string>, r: seq<string>, n: nat)
    requires s != []
    requires WithLength(r, n) == WithLength(s[1..], n) + (if |w| == n then [w] else [])
    ensures WithLength([s[0]] + r, n) == WithLength(s, n) + (if |w| == n then [w] else [])
  {
    WithLengthCons(s[0], r, n);
    WithLengthCons(s[0], s[1..], n);
    assert s == [s[0]] + s[1..];
  }

  /** Inserting `w` into the ranked `s` puts it after the words of its length
      already there. */
  lemma {:induction false} InsertStable(w: string, s: seq<string>, n: nat)
    requires NonIncreasing(s)
    ensures WithLength(Insert(w, s), n) == WithLength(s, n) + (if |w| == n then [w] else [])
    decreases |s|
  {
    if s == [] {
      assert Insert(w, s) == [w] + s;
      WithLengthCons(w, s, n);
    } else if |s[0]| < |w| {
      assert Insert(w, s) == [w] + s;
      InsertFront(w, s, n);
    } else {
      var r := Insert(w, s[1..]);
      assert Insert(w, s) == [s[0]] + r;
      InsertStable(w, s[1..], n);
      InsertBehind(w, s, r, n);
    }
  }

  /** The ranking puts longer words first. */
  lemma {:induction false} RankSorted(keys: seq<string>)
    ensures NonIncreasing(Rank(keys))
    decreases |keys|
  {
    if keys != [] {
      RankSorted(keys[..|keys| - 1]);
      InsertSorted(keys[|keys| - 1], Rank(keys[..|keys| - 1]));
    }
  }

  /** The ranking is a permutation of the keys. */
  lemma {:induction false} RankPermutation(keys: seq<string>)
    ensures multiset(Rank(keys)) == multiset(keys)
    decreases |keys|
  {
    if keys != [] {
      var init, last := keys[..|keys| - 1], keys[|keys| - 1];
      RankPermutation(init);
      assert keys == init + [last];
    }
  }

  /** A word appended at the end joins the end of its length class. */
  lemma WithLengthSnoc(s: seq<string>, x: string, n: nat)
    ensures WithLength(s + [x], n) == WithLength(s, n) + (if |x| == n then [x] else [])
  {
    WithLengthAppend(s, [x], n);
    WithLengthCons(x, [], n);
    assert [x] + [] == [x];
  }

  /** Ranking one more key keeps every length class in key order. */
  lemma RankStableStep(init: seq<string>, last: string, n: nat)
    requires WithLength(Rank(init), n) == WithLength(init, n)
    ensures WithLength(Rank(init + [last]), n) == WithLength(init + [last], n)
  {
    var keys := init + [last];
    assert keys[..|keys| - 1] == init && keys[|keys| - 1] == last;
    assert Rank(keys) == Insert(last, Rank(init));
    RankSorted(init);
    InsertStable(last, Rank(init), n);
    WithLengthSnoc(init, last, n);
  }

  /** Stability: the words of each length keep their relative order. */
  lemma {:induction false} RankStable(keys: seq<string>, n: nat)
    ensures WithLength(Rank(keys), n) == WithLength(keys, n)
    decreases |keys|
  {
    if keys != [] {
      var init, last := keys[..|keys| - 1], keys[|keys| - 1];
      assert keys == init + [last];
      RankStable(init, n);
      RankStableStep(init, last, n);
    }
  }

  /** Two sorted sequences with the same length classes start with the
      same word. */
  lemma SameHead(a: seq<string>, b: seq<string>)
    requires a != [] && NonIncreasing(a) && NonIncreasing(b)
    requires forall n: nat :: WithLength(a, n) == WithLength(b, n)
    ensures b != [] && a[0] == b[0]
  {
    WithLengthFirst(a, |a[0]|);
    WithLengthFirst(b, |a[0]|);
    assert b != [];
    WithLengthFirst(a, |b[0]|);
    WithLengthFirst(b, |b[0]|);
    var n := |a[0]|;
    assert |b[0]| == n;
    assert WithLength(a, n)[0] == a[0] && WithLength(b, n)[0] == b[0];
    assert WithLength(a, n) == WithLength(b, n);
  }

  /** Dropping a common head keeps the length classes equal. */
  lemma SameTailClasses(a: seq<string>, b: seq<string>, m: nat)
    requires a != [] && b != [] && a[0] == b[0]
    requires WithLength(a, m) == WithLength(b, m)
    ensures WithLength(a[1..], m) == WithLength(b[1..], m)
  {
    var x := if |a[0]| == m then [a[0]] else [];
    assert WithLength(a, m) == x + WithLength(a[1..], m);
    assert WithLength(b, m) == x + WithLength(b[1..], m);
    assert WithLength(a[1..], m) == WithLength(a, m)[|x|..];
    assert WithLength(b[1..], m) == WithLength(b, m)[|x|..];
  }

  /** A sorted sequence is determined by its words of each length: two
      orderings by non-increasing length that agree on each length class
      are equal. With `RankSorted` and `RankStable`, the ranking is the
      only stable ordering by descending length. */
  lemma {:induction false} SortedUnique(a: seq<string>, b: seq<string>)
    requires NonIncreasing(a) && NonIncreasing(b)
    requires forall n: nat :: WithLength(a, n) == WithLength(b, n)
    ensures a == b
    decreases |a|
  {
    if a == [] {
      if b != [] {
        SameHead(b, a);
      }
    } else {
      SameHead(a, b);
      forall m: nat ensures WithLength(a[1..], m) == WithLength(b[1..], m) {
        SameTailClasses(a, b, m);
      }
      SortedUnique(a[1..], b[1..]);
      assert a == [a[0]] + a[1..] && b == [b[0]] + b[1..];
    }
  }

  /** Any ordering of the keys by non-increasing length that keeps each
      length class in key order is the ranking. */
  lemma RankUnique(keys: seq<string>, a: seq<string>)
    requires NonIncreasing(a)
    requires forall n: nat :: WithLength(a, n) == WithLength(keys, n)
    ensures a == Rank(keys)
  {
    RankSorted(keys);
    forall n: nat ensures WithLength(a, n) == WithLength(Rank(keys), n) {
      RankStable(keys, n);
    }
    SortedUnique(a, Rank(keys));
  }
}

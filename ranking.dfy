/**
 * Ranking and top-k selection of guesses. The hybrid score of a word is
 * left abstract: any function of (word, candidates, alpha) to the reals.
 * Scored words are sorted by descending (score, word), as Python sorts a
 * list of (float, str) tuples with reverse=True, and the first topk words
 * are suggested.
 */
module Ranking {

  /** The hybrid score of a guess, given the candidates and the weight alpha. */
  type Scorer = (string, seq<string>, real) -> real

  /** A (score, word) pair. */
  type Scored = (real, string)

  /** Pools of this size or more are scored by the worker pool. */
  const ParallelThreshold := 500

  // ---------------------------------------------------------------------
  // The order on (score, word) pairs
  // ---------------------------------------------------------------------

  /** Python's `<` on strings: lexicographic by code point, a proper prefix first. */
  predicate StrLess(a: string, b: string)
    decreases |a|
  {
    |b| > 0 && (|a| == 0 || a[0] < b[0] || (a[0] == b[0] && StrLess(a[1..], b[1..])))
  }

  /** Python's `<` on (float, str) tuples. */
  predicate KeyLess(x: Scored, y: Scored) {
    x.0 < y.0 || (x.0 == y.0 && StrLess(x.1, y.1))
  }

  lemma {:induction false} StrLessIrreflexive(a: string)
    ensures !StrLess(a, a)
  {
    if |a| > 0 { StrLessIrreflexive(a[1..]); }
  }

  lemma {:induction false} StrLessTransitive(a: string, b: string, c: string)
    requires StrLess(a, b) && StrLess(b, c)
    ensures StrLess(a, c)
    decreases |a|
  {
    if |a| > 0 && a[0] == b[0] && b[0] == c[0] {
      StrLessTransitive(a[1..], b[1..], c[1..]);
    }
  }

  lemma {:induction false} StrLessTotal(a: string, b: string)
    ensures a == b || StrLess(a, b) || StrLess(b, a)
    decreases |a|
  {
    if |a| > 0 && |b| > 0 && a[0] == b[0] {
      StrLessTotal(a[1..], b[1..]);
      if a[1..] == b[1..] {
        assert a == [a[0]] + a[1..] && b == [b[0]] + b[1..];
      }
    }
  }

  lemma StrLessAsymmetric(a: string, b: string)
    requires StrLess(a, b)
    ensures !StrLess(b, a)
  {
    if StrLess(b, a) {
      StrLessTransitive(a, b, a);
      StrLessIrreflexive(a);
    }
  }

  /** `KeyLess` is a strict total order. */
  lemma KeyLessOrder(x: Scored, y: Scored, z: Scored)
    ensures !KeyLess(x, x)
    ensures KeyLess(x, y) ==> !KeyLess(y, x)
    ensures KeyLess(x, y) && KeyLess(y, z) ==> KeyLess(x, z)
    ensures x == y || KeyLess(x, y) || KeyLess(y, x)
  {
    StrLessIrreflexive(x.1);
    if StrLess(x.1, y.1) { StrLessAsymmetric(x.1, y.1); }
    if StrLess(x.1, y.1) && StrLess(y.1, z.1) { StrLessTransitive(x.1, y.1, z.1); }
    StrLessTotal(x.1, y.1);
  }

  /** Not being below is transitive. */
  lemma KeyNotLessTransitive(x: Scored, y: Scored, z: Scored)
    requires !KeyLess(x, y) && !KeyLess(y, z)
    ensures !KeyLess(x, z)
  {
    KeyLessOrder(x, y, z);
    KeyLessOrder(y, z, x);
    KeyLessOrder(z, y, x);
    KeyLessOrder(x, z, y);
  }

  // ---------------------------------------------------------------------
  // Sorting in descending order
  // ---------------------------------------------------------------------

  /** No element is below a later one. */
  predicate Descending(s: seq<Scored>) {
    forall i, j :: 0 <= i < j < |s| ==> !KeyLess(s[i], s[j])
  }

  lemma HeadBoundsRest(h: Scored, x: Scored, s: seq<Scored>, rest: seq<Scored>)
    requires Descending([h] + s) && !KeyLess(h, x)
    requires multiset(rest) == multiset(s) + multiset{x}
    ensures forall j :: 0 <= j < |rest| ==> !KeyLess(h, rest[j])
  {
    forall j | 0 <= j < |rest| ensures !KeyLess(h, rest[j]) {
      assert rest[j] in multiset(rest);
      if rest[j] != x {
        assert rest[j] in multiset(s);
        var m :| 0 <= m < |s| && s[m] == rest[j];
        assert ([h] + s)[0] == h && ([h] + s)[m + 1] == s[m];
      }
    }
  }

  /** Inserts `x` into a descending list before the first element below it. */
  function InsertDesc(x: Scored, s: seq<Scored>): (r: seq<Scored>)
    requires Descending(s)
    ensures Descending(r)
    ensures multiset(r) == multiset(s) + multiset{x}
  {
    if s == [] then [x]
    else if !KeyLess(x, s[0]) then
      assert forall j :: 0 <= j < |s| ==> !KeyLess(x, s[j]) by {
        forall j | 0 <= j < |s| ensures !KeyLess(x, s[j]) {
          if j > 0 { KeyNotLessTransitive(x, s[0], s[j]); }
        }
      }
      [x] + s
    else
      assert s == [s[0]] + s[1..];
      var rest := InsertDesc(x, s[1..]);
      KeyLessOrder(x, s[0], x);
      HeadBoundsRest(s[0], x, s[1..], rest);
      [s[0]] + rest
  }

  /**
   * The model of `list.sort(reverse=True)` on (score, word) pairs: a
   * descending permutation of its input.
   */
  function SortDesc(s: seq<Scored>): (r: seq<Scored>)
    ensures Descending(r)
    ensures multiset(r) == multiset(s)
  {
    if s == [] then []
    else
      assert s == [s[0]] + s[1..];
      InsertDesc(s[0], SortDesc(s[1..]))
  }

  /** Two descending lists with the same elements start alike. */
  lemma DescendingHeads(a: seq<Scored>, b: seq<Scored>)
    requires Descending(a) && Descending(b) && multiset(a) == multiset(b) && a != []
    ensures b != [] && a[0] == b[0]
  {
    assert a[0] in multiset(b);
    var k :| 0 <= k < |b| && b[k] == a[0];
    assert b[0] in multiset(a);
    var m :| 0 <= m < |a| && a[m] == b[0];
    assert !KeyLess(b[0], a[0]) by { if k > 0 { assert !KeyLess(b[0], b[k]); } else { KeyLessOrder(a[0], a[0], a[0]); } }
    assert !KeyLess(a[0], b[0]) by { if m > 0 { assert !KeyLess(a[0], a[m]); } else { KeyLessOrder(a[0], a[0], a[0]); } }
    KeyLessOrder(a[0], b[0], a[0]);
  }

  lemma TailMultiset<T>(a: seq<T>, b: seq<T>)
    requires a != [] && b != [] && a[0] == b[0] && multiset(a) == multiset(b)
    ensures multiset(a[1..]) == multiset(b[1..])
  {
    assert a == [a[0]] + a[1..] && b == [b[0]] + b[1..];
    assert multiset(a[1..]) == multiset(a) - multiset{a[0]};
    assert multiset(b[1..]) == multiset(b) - multiset{b[0]};
  }

  /** Two descending lists with the same elements are the same list. */
  lemma {:induction false} DescendingUnique(a: seq<Scored>, b: seq<Scored>)
    requires Descending(a) && Descending(b) && multiset(a) == multiset(b)
    ensures a == b
    decreases |a|
  {
    if a == [] {
      assert |b| == |multiset(b)| == 0;
    } else {
      DescendingHeads(a, b);
      TailMultiset(a, b);
      assert Descending(a[1..]) && Descending(b[1..]);
      DescendingUnique(a[1..], b[1..]);
      assert a == [a[0]] + a[1..] && b == [b[0]] + b[1..];
    }
  }

  /**
   * The merge is order-independent: scores gathered in any order sort to
   * the same ranking.
   */
  lemma MergeOrderIndependent(a: seq<Scored>, b: seq<Scored>)
    requires multiset(a) == multiset(b)
    ensures SortDesc(a) == SortDesc(b)
  {
    DescendingUnique(SortDesc(a), SortDesc(b));
  }

  // ---------------------------------------------------------------------
  // Scoring and selection
  // ---------------------------------------------------------------------

  /** The frequency signal clamped to [1, 7] and rescaled to [0, 1]. */
  function FreqNorm(freq: real): (r: real)
    ensures 0.0 <= r <= 1.0
    ensures freq <= 1.0 ==> r == 0.0
    ensures freq >= 7.0 ==> r == 1.0
    ensures 1.0 <= freq <= 7.0 ==> r * 6.0 == freq - 1.0
  {
    var clamped := if freq > 7.0 then 7.0 else if freq < 1.0 then 1.0 else freq;
    (clamped - 1.0) / 6.0
  }

  /** The blend of an entropy value and a frequency signal with weight `alpha`. */
  function HybridScore(alpha: real, entropy: real, freq: real): (r: real)
    ensures 0.0 <= alpha <= 1.0 && 0.0 <= entropy ==> 0.0 <= r <= alpha * entropy + (1.0 - alpha)
  {
    var f := FreqNorm(freq);
    ScaleWithin(1.0 - alpha, f);
    ProductNonnegative(alpha, entropy);
    alpha * entropy + (1.0 - alpha) * f
  }

  lemma ScaleWithin(a: real, b: real)
    ensures 0.0 <= a && 0.0 <= b <= 1.0 ==> 0.0 <= a * b <= a
  {
    if 0.0 <= a && 0.0 <= b <= 1.0 {
      assert a - a * b == a * (1.0 - b);
    }
  }

  lemma ProductNonnegative(a: real, b: real)
    ensures 0.0 <= a && 0.0 <= b ==> 0.0 <= a * b
  {
  }

  /** One unit of parallel work: a word with the candidates and alpha it is scored against. */
  type WorkUnit = (string, seq<string>, real)

  /** The worker: scores one unit and pairs the score with its word. */
  function ScoreWorker(score: Scorer, arg: WorkUnit): (r: Scored)
    ensures r.1 == arg.0
  {
    (score(arg.0, arg.1, arg.2), arg.0)
  }

  /** The (score, word) pair of every pool word, in pool order. */
  function ScoreAll(score: Scorer, pool: seq<string>, candidates: seq<string>, alpha: real): (r: seq<Scored>)
    ensures |r| == |pool|
  {
    seq(|pool|, i requires 0 <= i < |pool| => (score(pool[i], candidates, alpha), pool[i]))
  }

  /** The length of Python's slice `s[:k]` of a list of length `n`. */
  function PrefixLength(n: nat, k: int): (m: nat)
    ensures m <= n
    ensures k >= 0 ==> m == if k <= n then k else n
    ensures k < 0 ==> m == if n + k >= 0 then n + k else 0
  {
    if k >= 0 then (if k <= n then k else n)
    else if n + k >= 0 then n + k else 0
  }

  /** The words of a list of (score, word) pairs. */
  function Words(s: seq<Scored>): (r: seq<string>)
    ensures |r| == |s| && forall i :: 0 <= i < |s| ==> r[i] == s[i].1
  {
    seq(|s|, i requires 0 <= i < |s| => s[i].1)
  }

  /** The guess pool: the candidates when restricted, else the whole dictionary. */
  function GuessPool(candidates: seq<string>, allWords: seq<string>, restrict: bool): seq<string> {
    if restrict then candidates else allWords
  }

  /** The suggested guesses: the first `topk` of the ranking of the pool. */
  function Suggestions(score: Scorer, candidates: seq<string>, allWords: seq<string>,
                       alpha: real, topk: int, restrict: bool): seq<string>
  {
    var ranked := SortDesc(ScoreAll(score, GuessPool(candidates, allWords, restrict), candidates, alpha));
    Words(ranked[..PrefixLength(|ranked|, topk)])
  }

  /** Every entry of the ranking is a pool word paired with its own score. */
  lemma RankedEntries(score: Scorer, pool: seq<string>, candidates: seq<string>, alpha: real)
    ensures var ranked := SortDesc(ScoreAll(score, pool, candidates, alpha));
            |ranked| == |pool| &&
            forall i :: 0 <= i < |ranked| ==>
              ranked[i].1 in pool && ranked[i] == (score(ranked[i].1, candidates, alpha), ranked[i].1)
  {
    var scores := ScoreAll(score, pool, candidates, alpha);
    var ranked := SortDesc(scores);
    assert |ranked| == |multiset(ranked)| == |multiset(scores)| == |pool|;
    forall i | 0 <= i < |ranked|
      ensures ranked[i].1 in pool && ranked[i] == (score(ranked[i].1, candidates, alpha), ranked[i].1)
    {
      assert ranked[i] in multiset(scores);
      var k :| 0 <= k < |scores| && scores[k] == ranked[i];
    }
  }

  /** As many suggestions as the slice keeps: at most `topk`, and at most the pool. */
  lemma SuggestionsLength(score: Scorer, candidates: seq<string>, allWords: seq<string>,
                          alpha: real, topk: int, restrict: bool)
    ensures var n, r := |GuessPool(candidates, allWords, restrict)|,
                        Suggestions(score, candidates, allWords, alpha, topk, restrict);
            |r| == PrefixLength(n, topk) && (topk >= 0 ==> |r| <= topk)
  {
    RankedEntries(score, GuessPool(candidates, allWords, restrict), candidates, alpha);
  }

  /** Every suggestion is a word of the guess pool. */
  lemma SuggestionsFromPool(score: Scorer, candidates: seq<string>, allWords: seq<string>,
                            alpha: real, topk: int, restrict: bool)
    ensures var pool, r := GuessPool(candidates, allWords, restrict),
                           Suggestions(score, candidates, allWords, alpha, topk, restrict);
            forall i :: 0 <= i < |r| ==> r[i] in pool
  {
    RankedEntries(score, GuessPool(candidates, allWords, restrict), candidates, alpha);
  }

  /** Suggestions come in descending (score, word) order. */
  lemma SuggestionsOrdered(score: Scorer, candidates: seq<string>, allWords: seq<string>,
                           alpha: real, topk: int, restrict: bool)
    ensures var r := Suggestions(score, candidates, allWords, alpha, topk, restrict);
            forall i, j :: 0 <= i < j < |r| ==>
              !KeyLess((score(r[i], candidates, alpha), r[i]), (score(r[j], candidates, alpha), r[j]))
  {
    var pool := GuessPool(candidates, allWords, restrict);
    var ranked := SortDesc(ScoreAll(score, pool, candidates, alpha));
    var r := Suggestions(score, candidates, allWords, alpha, topk, restrict);
    RankedEntries(score, pool, candidates, alpha);
    forall i, j | 0 <= i < j < |r|
      ensures !KeyLess((score(r[i], candidates, alpha), r[i]), (score(r[j], candidates, alpha), r[j]))
    {
      assert ranked[i] == (score(r[i], candidates, alpha), r[i]);
      assert ranked[j] == (score(r[j], candidates, alpha), r[j]);
    }
  }

  /** No pool word left out of the suggestions ranks above a suggested one. */
  lemma SuggestionsAreTop(score: Scorer, candidates: seq<string>, allWords: seq<string>,
                          alpha: real, topk: int, restrict: bool, w: string)
    requires w in GuessPool(candidates, allWords, restrict)
    requires w !in Suggestions(score, candidates, allWords, alpha, topk, restrict)
    ensures var r := Suggestions(score, candidates, allWords, alpha, topk, restrict);
            forall i :: 0 <= i < |r| ==>
              !KeyLess((score(r[i], candidates, alpha), r[i]), (score(w, candidates, alpha), w))
  {
    var pool := GuessPool(candidates, allWords, restrict);
    var scores := ScoreAll(score, pool, candidates, alpha);
    var ranked := SortDesc(scores);
    var n := PrefixLength(|ranked|, topk);
    var r := Suggestions(score, candidates, allWords, alpha, topk, restrict);
    RankedEntries(score, pool, candidates, alpha);
    var k :| 0 <= k < |pool| && pool[k] == w;
    assert scores[k] == (score(w, candidates, alpha), w);
    assert scores[k] in multiset(ranked);
    TopOfDescending(ranked, n, scores[k]);
    forall i | 0 <= i < |r|
      ensures !KeyLess((score(r[i], candidates, alpha), r[i]), (score(w, candidates, alpha), w))
    {
      assert ranked[i] == (score(r[i], candidates, alpha), r[i]);
    }
  }

  /** An entry whose word is not among the first `n` ranks below all of them. */
  lemma TopOfDescending(ranked: seq<Scored>, n: nat, x: Scored)
    requires Descending(ranked) && n <= |ranked| && x in ranked
    requires x.1 !in Words(ranked[..n])
    ensures forall i :: 0 <= i < n ==> !KeyLess(ranked[i], x)
  {
    var m :| 0 <= m < |ranked| && ranked[m] == x;
    if m < n {
      assert false;
    }
  }

  /** A pool without repeated words is ranked strictly. */
  lemma SuggestionsStrict(score: Scorer, candidates: seq<string>, allWords: seq<string>,
                          alpha: real, topk: int, restrict: bool)
    requires var pool := GuessPool(candidates, allWords, restrict);
             forall i, j :: 0 <= i < j < |pool| ==> pool[i] != pool[j]
    ensures var r := Suggestions(score, candidates, allWords, alpha, topk, restrict);
            forall i, j :: 0 <= i < j < |r| ==>
              KeyLess((score(r[j], candidates, alpha), r[j]), (score(r[i], candidates, alpha), r[i]))
  {
    var pool := GuessPool(candidates, allWords, restrict);
    var scores := ScoreAll(score, pool, candidates, alpha);
    var ranked := SortDesc(scores);
    var r := Suggestions(score, candidates, allWords, alpha, topk, restrict);
    RankedEntries(score, pool, candidates, alpha);
    forall i, j | 0 <= i < j < |r|
      ensures KeyLess((score(r[j], candidates, alpha), r[j]), (score(r[i], candidates, alpha), r[i]))
    {
      assert ranked[i] == (score(r[i], candidates, alpha), r[i]);
      assert ranked[j] == (score(r[j], candidates, alpha), r[j]);
      if ranked[i] == ranked[j] {
        RepeatCount(ranked, i, j);
        DistinctCount(scores, ranked[i]);
      }
      KeyLessOrder(ranked[i], ranked[j], ranked[i]);
    }
  }

  lemma RepeatCount<T>(s: seq<T>, i: nat, j: nat)
    requires i < j < |s| && s[i] == s[j]
    ensures multiset(s)[s[i]] >= 2
  {
    assert s == s[..j] + s[j..];
    assert s[i] in s[..j] && s[j] in s[j..];
  }

  lemma {:induction false} DistinctCount(s: seq<Scored>, x: Scored)
    requires forall i, j :: 0 <= i < j < |s| ==> s[i].1 != s[j].1
    ensures multiset(s)[x] <= 1
  {
    if s != [] {
      assert s == [s[0]] + s[1..];
      DistinctCount(s[1..], x);
    }
  }

  /**
   * Suggests the best guesses: scores every pool word (serially for a small
   * pool, by mapping the worker over work units otherwise), sorts by
   * descending (score, word) and keeps the first `topk` words.
   */
  method SuggestGuesses(score: Scorer, candidates: seq<string>, allWords: seq<string>,
                        alpha: real, topk: int, restrictGuesses: bool)
    returns (suggestions: seq<string>)
    ensures suggestions == Suggestions(score, candidates, allWords, alpha, topk, restrictGuesses)
  {
    var guessPool := if restrictGuesses then candidates else allWords;
    var scores: seq<Scored>;
    if |guessPool| < ParallelThreshold {
      scores := [];
      var i := 0;
      while i < |guessPool|
        invariant 0 <= i <= |guessPool|
        invariant |scores| == i
        invariant forall k :: 0 <= k < i ==> scores[k] == (score(guessPool[k], candidates, alpha), guessPool[k])
      {
        var s := score(guessPool[i], candidates, alpha);
        scores := scores + [(s, guessPool[i])];
        i := i + 1;
      }
    } else {
      var args: seq<WorkUnit> := seq(|guessPool|, i requires 0 <= i < |guessPool| => (guessPool[i], candidates, alpha));
      scores := seq(|args|, i requires 0 <= i < |args| => ScoreWorker(score, args[i]));
    }
    assert scores == ScoreAll(score, guessPool, candidates, alpha);
    scores := SortDesc(scores);
    var top := scores[..PrefixLength(|scores|, topk)];
    suggestions := seq(|top|, i requires 0 <= i < |top| => top[i].1);
  }
}

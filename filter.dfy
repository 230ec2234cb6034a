/**
 * Candidate filtering: keeping the words that would have produced the
 * observed feedback, and consistency of a word with a whole guess history.
 */
module Filter {
  import opened Codec

  /** One guess of the game and the feedback it received. */
  datatype GuessRecord = GuessRecord(word: string, pattern: Pattern)

  predicate AllWords(ws: seq<string>) {
    forall w :: w in ws ==> IsWord(w)
  }

  predicate ValidHistory(h: seq<GuessRecord>) {
    forall k :: 0 <= k < |h| ==> IsWord(h[k].word)
  }

  /** `a` is `b` with some elements dropped, the rest in their order. */
  ghost predicate IsSubsequence<T>(a: seq<T>, b: seq<T>)
    decreases |b|
  {
    a == [] || (b != [] && ((a[0] == b[0] && IsSubsequence(a[1..], b[1..])) || IsSubsequence(a, b[1..])))
  }

  /**
   * The candidates that would have given pattern `p` to guess `g`, in
   * their original order.
   */
  function FilterCandidates(cs: seq<string>, g: string, p: Pattern): (r: seq<string>)
    requires AllWords(cs) && IsWord(g)
    ensures |r| <= |cs|
    ensures forall w :: w in r <==> w in cs && Feedback(g, w) == p
  {
    if cs == [] then []
    else if Feedback(g, cs[0]) == p then [cs[0]] + FilterCandidates(cs[1..], g, p)
    else FilterCandidates(cs[1..], g, p)
  }

  /** The kept candidates stay in their original order. */
  lemma {:induction false} FilterKeepsOrder(cs: seq<string>, g: string, p: Pattern)
    requires AllWords(cs) && IsWord(g)
    ensures IsSubsequence(FilterCandidates(cs, g, p), cs)
  {
    if cs != [] {
      FilterKeepsOrder(cs[1..], g, p);
    }
  }

  /**
   * Every kept word keeps all its occurrences; every other word keeps none.
   * With the subsequence property this determines the filter's result.
   */
  lemma {:induction false} FilterCounts(cs: seq<string>, g: string, p: Pattern, w: string)
    requires AllWords(cs) && IsWord(g) && IsWord(w)
    ensures multiset(FilterCandidates(cs, g, p))[w] == if Feedback(g, w) == p then multiset(cs)[w] else 0
  {
    if cs != [] {
      assert cs == [cs[0]] + cs[1..];
      FilterCounts(cs[1..], g, p, w);
    }
  }

  /** Filtering again by the same guess and pattern changes nothing. */
  lemma {:induction false} FilterIdempotent(cs: seq<string>, g: string, p: Pattern)
    requires AllWords(cs) && IsWord(g)
    ensures FilterCandidates(FilterCandidates(cs, g, p), g, p) == FilterCandidates(cs, g, p)
  {
    if cs != [] {
      FilterIdempotent(cs[1..], g, p);
    }
  }

  /** Filtering a concatenation filters each part. */
  lemma {:induction false} FilterAppend(a: seq<string>, b: seq<string>, g: string, p: Pattern)
    requires AllWords(a) && AllWords(b) && IsWord(g)
    ensures FilterCandidates(a + b, g, p) == FilterCandidates(a, g, p) + FilterCandidates(b, g, p)
  {
    if a != [] {
      assert (a + b)[1..] == a[1..] + b;
      FilterAppend(a[1..], b, g, p);
    } else {
      assert a + b == b;
    }
  }

  /**
   * A pattern that some candidate contradicts removes at least one
   * candidate.
   */
  lemma {:induction false} FilterStrict(cs: seq<string>, g: string, p: Pattern, i: nat)
    requires AllWords(cs) && IsWord(g) && i < |cs| && Feedback(g, cs[i]) != p
    ensures |FilterCandidates(cs, g, p)| < |cs|
  {
    if i > 0 {
      FilterStrict(cs[1..], g, p, i - 1);
    }
  }

  /** True when `w` would have produced every recorded pattern. */
  function IsConsistent(w: string, h: seq<GuessRecord>): bool
    requires IsWord(w) && ValidHistory(h)
  {
    if h == [] then true
    else if Feedback(h[0].word, w) != h[0].pattern then false
    else IsConsistent(w, h[1..])
  }

  /** Consistency is agreement with every record of the history. */
  lemma {:induction false} ConsistentIff(w: string, h: seq<GuessRecord>)
    requires IsWord(w) && ValidHistory(h)
    ensures IsConsistent(w, h) <==> forall k :: 0 <= k < |h| ==> Feedback(h[k].word, w) == h[k].pattern
  {
    if h != [] {
      ConsistentIff(w, h[1..]);
      if IsConsistent(w, h) {
        forall k | 0 <= k < |h| ensures Feedback(h[k].word, w) == h[k].pattern {
          if k > 0 { assert h[1..][k - 1] == h[k]; }
        }
      } else if Feedback(h[0].word, w) == h[0].pattern {
        var k :| 0 <= k < |h[1..]| && Feedback(h[1..][k].word, w) != h[1..][k].pattern;
        assert h[k + 1] == h[1..][k];
      }
    }
  }

  /** The candidates left after applying every record of the history in turn. */
  function FoldFilter(cs: seq<string>, h: seq<GuessRecord>): (r: seq<string>)
    requires AllWords(cs) && ValidHistory(h)
    ensures |r| <= |cs| && AllWords(r)
    ensures forall w :: w in r <==> w in cs && IsConsistent(w, h)
    decreases |h|
  {
    if h == [] then cs
    else FoldFilter(FilterCandidates(cs, h[0].word, h[0].pattern), h[1..])
  }

  /** Applying one more record to the fold is filtering its result once more. */
  lemma {:induction false} FoldFilterAppend(cs: seq<string>, h: seq<GuessRecord>, rec: GuessRecord)
    requires AllWords(cs) && ValidHistory(h) && IsWord(rec.word)
    ensures ValidHistory(h + [rec])
    ensures FoldFilter(cs, h + [rec]) == FilterCandidates(FoldFilter(cs, h), rec.word, rec.pattern)
    decreases |h|
  {
    assert ValidHistory(h + [rec]) by {
      forall k | 0 <= k < |h + [rec]| ensures IsWord((h + [rec])[k].word) {
        if k < |h| { assert (h + [rec])[k] == h[k]; }
      }
    }
    if h != [] {
      assert (h + [rec])[1..] == h[1..] + [rec];
      FoldFilterAppend(FilterCandidates(cs, h[0].word, h[0].pattern), h[1..], rec);
    }
  }

  /**
   * A single word survives the fold over the history exactly when it is
   * consistent with it; otherwise nothing survives.
   */
  lemma {:induction false} ConsistentFold(w: string, h: seq<GuessRecord>)
    requires IsWord(w) && ValidHistory(h)
    ensures IsConsistent(w, h) <==> FoldFilter([w], h) == [w]
    ensures !IsConsistent(w, h) ==> FoldFilter([w], h) == []
  {
    if h != [] {
      var step := FilterCandidates([w], h[0].word, h[0].pattern);
      assert [w][1..] == [];
      if Feedback(h[0].word, w) == h[0].pattern {
        assert step == [w];
        ConsistentFold(w, h[1..]);
      } else {
        assert step == [];
        FoldFilterEmpty(h[1..]);
      }
    }
  }

  lemma {:induction false} FoldFilterEmpty(h: seq<GuessRecord>)
    requires ValidHistory(h)
    ensures FoldFilter([], h) == []
  {
    if h != [] {
      FoldFilterEmpty(h[1..]);
    }
  }

  /** A pattern no candidate shows filters everything out. */
  lemma {:induction false} FilterNoHit(cs: seq<string>, g: string, p: Pattern)
    requires AllWords(cs) && IsWord(g)
    requires forall i :: 0 <= i < |cs| ==> Feedback(g, cs[i]) != p
    ensures FilterCandidates(cs, g, p) == []
  {
    if cs != [] {
      FilterNoHit(cs[1..], g, p);
    }
  }

  /** A pattern exactly one position shows filters down to that word. */
  lemma {:induction false} FilterSingleHit(cs: seq<string>, g: string, p: Pattern, k: nat)
    requires AllWords(cs) && IsWord(g) && k < |cs|
    requires forall i :: 0 <= i < |cs| ==> (Feedback(g, cs[i]) == p <==> i == k)
    ensures FilterCandidates(cs, g, p) == [cs[k]]
  {
    if k == 0 {
      FilterNoHit(cs[1..], g, p);
    } else {
      FilterSingleHit(cs[1..], g, p, k - 1);
    }
  }

  /** Unfolds the filter over a list with a known first word. */
  lemma FilterCons(w: string, rest: seq<string>, g: string, p: Pattern)
    requires IsWord(w) && AllWords(rest) && IsWord(g)
    ensures AllWords([w] + rest)
    ensures FilterCandidates([w] + rest, g, p)
            == (if Feedback(g, w) == p then [w] else []) + FilterCandidates(rest, g, p)
  {
    assert ([w] + rest)[1..] == rest;
  }

  /** Of five candidates only the second shows the pattern, so it alone is kept. */
  lemma SecondOfFive(a: string, b: string, c: string, d: string, e: string, g: string, p: Pattern)
    requires AllWords([a, b, c, d, e]) && IsWord(g)
    requires Feedback(g, a) != p && Feedback(g, b) == p
    requires Feedback(g, c) != p && Feedback(g, d) != p && Feedback(g, e) != p
    ensures FilterCandidates([a, b, c, d, e], g, p) == [b]
  {
    FilterCons(e, [], g, p);
    FilterCons(d, [e], g, p);
    FilterCons(c, [d, e], g, p);
    FilterCons(b, [c, d, e], g, p);
    FilterCons(a, [b, c, d, e], g, p);
  }

  lemma CraneWords()
    ensures AllWords(["crane", "trace", "slate", "stale", "plate"])
  {
  }

  /** The guess "crane" does not show (1, 2, 2, 0, 2) against crane, slate, stale or plate. */
  lemma CraneMisses()
    ensures var p := [Present, Correct, Correct, Absent, Correct];
            && Feedback("crane", "crane") != p && Feedback("crane", "slate") != p
            && Feedback("crane", "stale") != p && Feedback("crane", "plate") != p
  {
    var p := [Present, Correct, Correct, Absent, Correct];
    GreenMismatch("crane", "crane", p, 0);
    GreenMismatch("crane", "slate", p, 1);
    GreenMismatch("crane", "stale", p, 1);
    GreenMismatch("crane", "plate", p, 1);
  }

  /**
   * The end-to-end example: among crane, trace, slate, stale and plate,
   * only trace answers the guess "crane" with (1, 2, 2, 0, 2).
   */
  lemma CraneExample()
    ensures FilterCandidates(["crane", "trace", "slate", "stale", "plate"], "crane",
                             [Present, Correct, Correct, Absent, Correct]) == ["trace"]
  {
    CraneWords();
    CraneAgainstTrace();
    CraneMisses();
    SecondOfFive("crane", "trace", "slate", "stale", "plate", "crane", [Present, Correct, Correct, Absent, Correct]);
  }
}

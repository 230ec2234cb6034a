/**
 * The counting half of the expected-entropy computation: candidates are
 * grouped by the pattern they would show a guess, and each realised
 * pattern is mapped to the size of its group.
 */
module Partition {
  import opened Codec
  import opened Filter

  /** A counter bumped once at key `q`, as `defaultdict(int)` does on `+= 1`. */
  function Bump(m: map<Pattern, nat>, q: Pattern): (r: map<Pattern, nat>)
    ensures r.Keys == m.Keys + {q}
    ensures r[q] == (if q in m then m[q] else 0) + 1
    ensures forall k :: k in m && k != q ==> r[k] == m[k]
  {
    m[q := (if q in m then m[q] else 0) + 1]
  }

  /** The partition counts of `cs` under guess `g`, counted in order. */
  function Partition(g: string, cs: seq<string>): map<Pattern, nat>
    requires IsWord(g) && AllWords(cs)
    decreases |cs|
  {
    if cs == [] then map[]
    else Bump(Partition(g, cs[..|cs| - 1]), Feedback(g, cs[|cs| - 1]))
  }

  /** The sum of the counts of a partition. */
  ghost function Total(m: map<Pattern, nat>): nat
    decreases |m|
  {
    if m == map[] then 0
    else
      var k :| k in m;
      m[k] + Total(m - {k})
  }

  /** The sum does not depend on which key is taken first. */
  lemma {:induction false} TotalRemove(m: map<Pattern, nat>, k: Pattern)
    requires k in m
    ensures Total(m) == m[k] + Total(m - {k})
    decreases |m|
  {
    var j :| j in m && Total(m) == m[j] + Total(m - {j});
    if j != k {
      TotalRemove(m - {j}, k);
      TotalRemove(m - {k}, j);
      assert m - {j} - {k} == m - {k} - {j};
    }
  }

  /** The counting loop over the candidates, with a `defaultdict(int)` counter. */
  method PartitionCounts(guess: string, candidates: seq<string>) returns (partitions: map<Pattern, nat>)
    requires IsWord(guess) && AllWords(candidates)
    ensures partitions == Partition(guess, candidates)
  {
    partitions := map[];
    var i := 0;
    while i < |candidates|
      invariant 0 <= i <= |candidates|
      invariant AllWords(candidates[..i])
      invariant partitions == Partition(guess, candidates[..i])
    {
      var p := FeedbackPattern(guess, candidates[i]);
      partitions := partitions[p := (if p in partitions then partitions[p] else 0) + 1];
      assert candidates[..i + 1][..i] == candidates[..i];
      i := i + 1;
    }
    assert candidates[..i] == candidates;
  }

  /** A pattern is realised exactly when some candidate shows it. */
  lemma {:induction false} PartitionKeys(g: string, cs: seq<string>, q: Pattern)
    requires IsWord(g) && AllWords(cs)
    ensures q in Partition(g, cs) <==> exists w :: w in cs && Feedback(g, w) == q
    decreases |cs|
  {
    if cs != [] {
      var init, w := cs[..|cs| - 1], cs[|cs| - 1];
      assert cs == init + [w];
      PartitionKeys(g, init, q);
    }
  }

  /**
   * Each realised pattern counts as many candidates as the filter by it
   * keeps; the filter by a pattern that is not realised keeps nothing.
   */
  lemma {:induction false} PartitionCount(g: string, cs: seq<string>, q: Pattern)
    requires IsWord(g) && AllWords(cs)
    ensures q in Partition(g, cs) ==> Partition(g, cs)[q] == |FilterCandidates(cs, g, q)|
    ensures q !in Partition(g, cs) ==> FilterCandidates(cs, g, q) == []
    decreases |cs|
  {
    if cs != [] {
      var init, w := cs[..|cs| - 1], cs[|cs| - 1];
      assert cs == init + [w];
      PartitionCount(g, init, q);
      FilterAppend(init, [w], g, q);
      assert [w][1..] == [];
    }
  }

  /** Every realised pattern counts at least one and at most all candidates. */
  lemma PartitionBounds(g: string, cs: seq<string>)
    requires IsWord(g) && AllWords(cs)
    ensures forall q :: q in Partition(g, cs) ==> 1 <= Partition(g, cs)[q] <= |cs|
  {
    forall q | q in Partition(g, cs) ensures 1 <= Partition(g, cs)[q] <= |cs| {
      PartitionKeys(g, cs, q);
      PartitionCount(g, cs, q);
      var w :| w in cs && Feedback(g, w) == q;
      assert w in FilterCandidates(cs, g, q);
    }
  }

  /** The counts add up to the number of candidates. */
  lemma {:induction false} PartitionTotal(g: string, cs: seq<string>)
    requires IsWord(g) && AllWords(cs)
    ensures Total(Partition(g, cs)) == |cs|
    decreases |cs|
  {
    if cs != [] {
      var init, w := cs[..|cs| - 1], cs[|cs| - 1];
      PartitionTotal(g, init);
      var m, q := Partition(g, init), Feedback(g, w);
      var m' := Partition(g, cs);
      TotalRemove(m', q);
      if q in m {
        TotalRemove(m, q);
        assert m' - {q} == m - {q};
      } else {
        assert m' - {q} == m;
      }
    }
  }

  /** No candidates, no partitions (and so the entropy sum is empty). */
  lemma PartitionEmptyIff(g: string, cs: seq<string>)
    requires IsWord(g) && AllWords(cs)
    ensures Partition(g, cs) == map[] <==> cs == []
  {
    if cs != [] {
      assert Feedback(g, cs[|cs| - 1]) in Partition(g, cs);
    }
  }

  /** Candidates that all show the guess one pattern make one partition. */
  lemma SinglePartitionIf(g: string, cs: seq<string>)
    requires IsWord(g) && AllWords(cs) && cs != []
    requires forall i :: 0 <= i < |cs| ==> Feedback(g, cs[i]) == Feedback(g, cs[0])
    ensures Partition(g, cs).Keys == {Feedback(g, cs[0])}
  {
    var q := Feedback(g, cs[0]);
    PartitionKeys(g, cs, q);
    forall r | r in Partition(g, cs) ensures r == q {
      PartitionKeys(g, cs, r);
      var w :| w in cs && Feedback(g, w) == r;
      var i :| 0 <= i < |cs| && cs[i] == w;
    }
  }

  /** Two candidates showing different patterns make at least two partitions. */
  lemma TwoPatternsTwoPartitions(g: string, cs: seq<string>, i: nat, j: nat)
    requires IsWord(g) && AllWords(cs) && i < |cs| && j < |cs|
    requires Feedback(g, cs[i]) != Feedback(g, cs[j])
    ensures |Partition(g, cs)| >= 2
  {
    PartitionKeys(g, cs, Feedback(g, cs[i]));
    PartitionKeys(g, cs, Feedback(g, cs[j]));
    SubsetCard({Feedback(g, cs[i]), Feedback(g, cs[j])}, Partition(g, cs).Keys);
  }

  /**
   * There is exactly one partition exactly when the candidates are not
   * empty and all show the guess the same pattern.
   */
  lemma SinglePartitionIff(g: string, cs: seq<string>)
    requires IsWord(g) && AllWords(cs)
    ensures |Partition(g, cs)| == 1 <==>
            cs != [] && forall i :: 0 <= i < |cs| ==> Feedback(g, cs[i]) == Feedback(g, cs[0])
  {
    if cs == [] {
      PartitionEmptyIff(g, cs);
    } else if forall i :: 0 <= i < |cs| ==> Feedback(g, cs[i]) == Feedback(g, cs[0]) {
      SinglePartitionIf(g, cs);
      assert |Partition(g, cs).Keys| == 1;
    } else {
      var i :| 0 <= i < |cs| && Feedback(g, cs[i]) != Feedback(g, cs[0]);
      TwoPatternsTwoPartitions(g, cs, i, 0);
    }
  }

  lemma SubsetCard<T>(a: set<T>, b: set<T>)
    requires a <= b
    ensures |a| <= |b|
  {
    assert b == a + (b - a);
  }
}

/**
 * The solver session: the dictionary of all words, the remaining
 * candidates and the guess history, updated in place by each guess and
 * restored by a reset.
 */
module Solver {
  import opened Wrappers
  import opened Codec
  import opened Filter
  import opened Ranking

  /** The dictionary without the words of `past`. */
  function Without(words: seq<string>, past: seq<string>): (r: seq<string>)
    ensures forall w :: w in r <==> w in words && w !in past
  {
    if words == [] then []
    else if words[0] in past then Without(words[1..], past)
    else [words[0]] + Without(words[1..], past)
  }

  /** The words left keep their dictionary order. */
  lemma {:induction false} WithoutKeepsOrder(words: seq<string>, past: seq<string>)
    ensures IsSubsequence(Without(words, past), words)
  {
    if words != [] {
      WithoutKeepsOrder(words[1..], past);
    }
  }

  /**
   * The past-answer exclusion of the dictionary builder: when the list of
   * past answers could be fetched its words are dropped; when fetching
   * failed the dictionary is used as it is.
   */
  function ExcludePastAnswers(words: seq<string>, pastAnswers: Option<seq<string>>): (r: seq<string>)
    ensures pastAnswers.None? ==> r == words
    ensures pastAnswers.Some? ==> forall w :: w in r <==> w in words && w !in pastAnswers.value
  {
    match pastAnswers
    case None => words
    case Some(past) => Without(words, past)
  }

  /**
   * One guess keeps the session invariant: the narrowed candidates are the
   * fold over the longer history, still from the dictionary and consistent
   * with every record; a pattern some candidate contradicts removes one.
   */
  lemma NarrowStep(allWords: seq<string>, start: seq<string>, h: seq<GuessRecord>, rec: GuessRecord)
    requires AllWords(start) && ValidHistory(h) && IsWord(rec.word)
    requires forall w :: w in start ==> w in allWords
    ensures ValidHistory(h + [rec])
    ensures var before, after := FoldFilter(start, h), FoldFilter(start, h + [rec]);
            && after == FilterCandidates(before, rec.word, rec.pattern)
            && (forall w :: w in after ==> w in allWords && IsConsistent(w, h + [rec]))
            && ((exists i :: 0 <= i < |before| && Feedback(rec.word, before[i]) != rec.pattern)
                ==> |after| < |before|)
  {
    FoldFilterAppend(start, h, rec);
    var before := FoldFilter(start, h);
    if exists i :: 0 <= i < |before| && Feedback(rec.word, before[i]) != rec.pattern {
      var i :| 0 <= i < |before| && Feedback(rec.word, before[i]) != rec.pattern;
      FilterStrict(before, rec.word, rec.pattern, i);
    }
  }

  class WordleSolver {
    /** The full dictionary, used as the guess pool when guesses are not restricted. */
    var allWords: seq<string>
    /** The words still consistent with the history. */
    var candidates: seq<string>
    /** The guesses made so far, oldest first. */
    var history: seq<GuessRecord>
    /** The candidate list as it was at construction or at the last reset. */
    ghost var start: seq<string>

    ghost predicate Valid()
      reads this
    {
      && AllWords(allWords) && AllWords(start) && ValidHistory(history)
      && (forall w :: w in start ==> w in allWords)
      && candidates == FoldFilter(start, history)
    }

    /**
     * A new session over `dictionary`. With `filterPastAnswers` the starting
     * candidates leave out the past answers (`pastAnswers` is the outcome of
     * fetching them; None when that failed).
     */
    constructor (dictionary: seq<string>, filterPastAnswers: bool, pastAnswers: Option<seq<string>>)
      requires AllWords(dictionary)
      ensures Valid()
      ensures allWords == dictionary && history == []
      ensures candidates == if filterPastAnswers then ExcludePastAnswers(dictionary, pastAnswers) else dictionary
    {
      allWords := dictionary;
      if filterPastAnswers {
        candidates := ExcludePastAnswers(dictionary, pastAnswers);
      } else {
        candidates := dictionary;
      }
      history := [];
      start := candidates;
    }

    /** The first suggestions, before any guess. */
    method SuggestInitialGuess(score: Scorer, alpha: real, topk: int, restrictGuesses: bool)
      returns (suggestions: seq<string>)
      requires Valid()
      ensures suggestions == Suggestions(score, candidates, allWords, alpha, topk, restrictGuesses)
    {
      suggestions := SuggestGuesses(score, candidates, allWords, alpha, topk, restrictGuesses);
    }

    /**
     * Records a guess and its feedback, narrows the candidates and returns
     * what to guess next: nothing when no candidate remains, the answer when
     * one remains, the ranked suggestions otherwise.
     */
    method Guess(word: string, pattern: Pattern, score: Scorer, alpha: real, topk: int, restrictGuesses: bool)
      returns (suggestions: seq<string>)
      requires Valid() && IsWord(word)
      modifies this
      ensures Valid()
      ensures history == old(history) + [GuessRecord(word, pattern)]
      ensures candidates == FilterCandidates(old(candidates), word, pattern)
      ensures allWords == old(allWords)
      ensures |candidates| <= |old(candidates)|
      ensures (exists i :: 0 <= i < |old(candidates)| && Feedback(word, old(candidates)[i]) != pattern)
              ==> |candidates| < |old(candidates)|
      ensures forall w :: w in candidates ==> w in allWords && IsConsistent(w, history)
      ensures |candidates| == 0 ==> suggestions == []
      ensures |candidates| == 1 ==> suggestions == candidates
      ensures |candidates| >= 2 ==>
                suggestions == Suggestions(score, candidates, allWords, alpha, topk, restrictGuesses)
    {
      NarrowStep(allWords, start, history, GuessRecord(word, pattern));
      history := history + [GuessRecord(word, pattern)];
      candidates := FilterCandidates(candidates, word, pattern);

      if |candidates| == 0 {
        suggestions := [];
      } else if |candidates| == 1 {
        suggestions := candidates;
      } else {
        suggestions := SuggestGuesses(score, candidates, allWords, alpha, topk, restrictGuesses);
      }
    }

    /**
     * Restores the whole dictionary as the candidates and empties the
     * history. The candidates become `allWords`, not the starting list of
     * the constructor: past answers left out there come back.
     */
    method Reset()
      requires Valid()
      modifies this
      ensures Valid()
      ensures allWords == old(allWords)
      ensures candidates == allWords && history == []
    {
      candidates := allWords;
      history := [];
      start := allWords;
    }
  }

  /**
   * The end-to-end session: over crane, trace, slate, stale and plate,
   * guessing "crane" with feedback (1, 2, 2, 0, 2) solves the game.
   */
  method CraneSession() returns (suggestions: seq<string>, remaining: nat)
    ensures suggestions == ["trace"] && remaining == 1
  {
    CraneWords();
    CraneExample();
    var s := new WordleSolver(["crane", "trace", "slate", "stale", "plate"], false, None);
    suggestions := s.Guess("crane", [Present, Correct, Correct, Absent, Correct], (w, cs, a) => 0.0, 0.7, 5, false);
    remaining := |s.candidates|;
  }

  /**
   * A reset brings back the past answers: with "crane" a past answer, the
   * session starts from ["trace"] but resets to the whole dictionary.
   */
  method ResetRestoresDictionary() returns (initial: seq<string>, afterReset: seq<string>)
    ensures initial == ["trace"] && afterReset == ["crane", "trace"]
  {
    var s := new WordleSolver(["crane", "trace"], true, Some(["crane"]));
    assert ["crane", "trace"][1..] == ["trace"];
    initial := s.candidates;
    s.Reset();
    afterReset := s.candidates;
  }
}

/**
 * The pattern codec: the feedback a single guess receives against a hidden
 * target word. Marks are 0 (absent), 1 (present elsewhere), 2 (correct spot).
 *
 * `Feedback` is the specification: a green pass that sets aside the matched
 * target letters, followed by a left-to-right yellow pass over the multiset
 * of target letters still available. `FeedbackPattern` is the two-loop
 * algorithm over a mutable copy of the target's letters, proved equal to it.
 */
module Codec {
  import opened Wrappers

  const WordLength := 5

  const Absent := 0
  const Present := 1
  const Correct := 2

  type Pattern = seq<int>

  /** A word of the game: exactly five characters. */
  predicate IsWord(w: string) {
    |w| == WordLength
  }

  /** A well-formed pattern: five marks, each 0, 1 or 2. */
  predicate IsPattern(p: Pattern) {
    |p| == WordLength && forall i :: 0 <= i < |p| ==> 0 <= p[i] <= 2
  }

  // ---------------------------------------------------------------------
  // Specification
  // ---------------------------------------------------------------------

  /** The target letters that the green pass does not use up. */
  function Leftover(g: string, t: string): multiset<char>
    requires |g| == |t|
  {
    if t == [] then multiset{}
    else (if g[0] == t[0] then multiset{} else multiset{t[0]}) + Leftover(g[1..], t[1..])
  }

  /**
   * The marks for the positions of `g` against `t`, given the multiset
   * `avail` of target letters that yellows may still consume.
   */
  function MarksOf(g: string, t: string, avail: multiset<char>): (m: Pattern)
    requires |g| == |t|
    ensures |m| == |g|
  {
    if g == [] then []
    else if g[0] == t[0] then [Correct] + MarksOf(g[1..], t[1..], avail)
    else if g[0] in avail then [Present] + MarksOf(g[1..], t[1..], avail - multiset{g[0]})
    else [Absent] + MarksOf(g[1..], t[1..], avail)
  }

  /** The feedback pattern of guess `g` against target `t`. */
  function Feedback(g: string, t: string): (p: Pattern)
    requires IsWord(g) && IsWord(t)
  {
    MarksOf(g, t, Leftover(g, t))
  }

  // ---------------------------------------------------------------------
  // The algorithm over a mutable copy of the target's letters
  // ---------------------------------------------------------------------

  /** The letters still present in a list of target slots (None = consumed). */
  function Remaining(slots: seq<Option<char>>): multiset<char> {
    if slots == [] then multiset{}
    else (if slots[0].Some? then multiset{slots[0].value} else multiset{}) + Remaining(slots[1..])
  }

  /** Python's `list.index`: the first position holding `x`. */
  function IndexOf<T(==)>(s: seq<T>, x: T): (k: nat)
    requires x in s
    ensures k < |s| && s[k] == x
    ensures forall j :: 0 <= j < k ==> s[j] != x
  {
    if s[0] == x then 0 else 1 + IndexOf(s[1..], x)
  }

  lemma {:induction false} RemainingHas(slots: seq<Option<char>>, ch: char)
    ensures ch in Remaining(slots) <==> Some(ch) in slots
  {
    if slots != [] {
      RemainingHas(slots[1..], ch);
      assert slots == [slots[0]] + slots[1..];
    }
  }

  lemma {:induction false} RemainingConsume(slots: seq<Option<char>>, k: nat, ch: char)
    requires k < |slots| && slots[k] == Some(ch)
    ensures Remaining(slots[k := None]) == Remaining(slots) - multiset{ch}
  {
    var s' := slots[k := None];
    if k > 0 {
      assert s'[1..] == slots[1..][k - 1 := None];
      RemainingConsume(slots[1..], k - 1, ch);
      assert ch in Remaining(slots[1..]) by { RemainingHas(slots[1..], ch); }
    } else {
      assert s'[1..] == slots[1..];
    }
  }

  /** The target slots after the green pass over the first `n` positions. */
  function SlotsAfterGreens(g: string, t: string, n: nat): (s: seq<Option<char>>)
    requires |g| == |t| && n <= |t|
    ensures |s| == |t|
  {
    seq(|t|, k requires 0 <= k < |t| => if k < n && g[k] == t[k] then None else Some(t[k]))
  }

  lemma {:induction false} RemainingAfterGreens(g: string, t: string)
    requires |g| == |t|
    ensures Remaining(SlotsAfterGreens(g, t, |t|)) == Leftover(g, t)
  {
    if t != [] {
      var s := SlotsAfterGreens(g, t, |t|);
      assert s[1..] == SlotsAfterGreens(g[1..], t[1..], |t| - 1);
      RemainingAfterGreens(g[1..], t[1..]);
    }
  }

  /** One step of the yellow pass, as `MarksOf` sees it. */
  lemma MarksStep(g: string, t: string, i: nat, avail: multiset<char>)
    requires |g| == |t| && i < |g|
    ensures MarksOf(g[i..], t[i..], avail)
            == [if g[i] == t[i] then Correct else if g[i] in avail then Present else Absent]
               + MarksOf(g[i + 1..], t[i + 1..],
                         if g[i] != t[i] && g[i] in avail then avail - multiset{g[i]} else avail)
  {
    assert g[i..][1..] == g[i + 1..] && t[i..][1..] == t[i + 1..];
  }

  lemma SuffixStep<T>(s: seq<T>, i: nat)
    requires i < |s|
    ensures s[i..] == [s[i]] + s[i + 1..]
  {
  }

  lemma ConsCancel<T>(a: T, x: seq<T>, b: T, y: seq<T>)
    requires [a] + x == [b] + y
    ensures a == b && x == y
  {
    assert ([a] + x)[0] == a && ([b] + y)[0] == b;
    assert ([a] + x)[1..] == x && ([b] + y)[1..] == y;
  }

  lemma PrefixStep<T>(a: seq<T>, b: seq<T>, i: nat)
    requires i < |a| && i < |b| && a[..i] == b[..i] && a[i] == b[i]
    ensures a[..i + 1] == b[..i + 1]
  {
    assert a[..i + 1] == a[..i] + [a[i]];
    assert b[..i + 1] == b[..i] + [b[i]];
  }

  /** Computes the feedback pattern of `guess` against `target`. */
  method FeedbackPattern(guess: string, target: string) returns (pattern: Pattern)
    requires IsWord(guess) && IsWord(target)
    ensures pattern == Feedback(guess, target)
  {
    var targetChars;
    pattern, targetChars := MarkGreens(guess, target);
    RemainingAfterGreens(guess, target);
    pattern := MarkYellows(guess, target, pattern, targetChars);
  }

  /**
   * The first pass: marks every exact match and consumes that target letter
   * in a copy of the target's letters.
   */
  method MarkGreens(guess: string, target: string) returns (pattern: Pattern, targetChars: seq<Option<char>>)
    requires IsWord(guess) && IsWord(target)
    ensures |pattern| == WordLength
    ensures forall k :: 0 <= k < |guess| ==>
              pattern[k] == if guess[k] == target[k] then Correct else Absent
    ensures targetChars == SlotsAfterGreens(guess, target, |target|)
  {
    pattern := [Absent, Absent, Absent, Absent, Absent];
    targetChars := seq(|target|, k requires 0 <= k < |target| => Some(target[k]));
    var i := 0;
    while i < |guess|
      invariant 0 <= i <= |guess|
      invariant |pattern| == WordLength
      invariant forall k :: 0 <= k < |guess| ==>
                  pattern[k] == if k < i && guess[k] == target[k] then Correct else Absent
      invariant targetChars == SlotsAfterGreens(guess, target, i)
    {
      if target[i] == guess[i] {
        pattern := pattern[i := Correct];
        targetChars := targetChars[i := None];
      }
      i := i + 1;
    }
  }

  /**
   * The second pass: left to right, every position not yet marked becomes
   * present when its letter is still among the target letters, consuming the
   * leftmost remaining occurrence.
   */
  method MarkYellows(guess: string, target: string, greens: Pattern, slots: seq<Option<char>>)
    returns (pattern: Pattern)
    requires IsWord(guess) && IsWord(target) && |greens| == WordLength
    requires forall k :: 0 <= k < |guess| ==>
               greens[k] == if guess[k] == target[k] then Correct else Absent
    requires Remaining(slots) == Leftover(guess, target)
    ensures pattern == Feedback(guess, target)
  {
    pattern := greens;
    var targetChars := slots;
    ghost var spec := Feedback(guess, target);
    var i := 0;
    while i < |guess|
      invariant 0 <= i <= |guess|
      invariant |pattern| == WordLength
      invariant forall k :: i <= k < |guess| ==>
                  pattern[k] == if guess[k] == target[k] then Correct else Absent
      invariant pattern[..i] == spec[..i]
      invariant MarksOf(guess[i..], target[i..], Remaining(targetChars)) == spec[i..]
    {
      var ch := guess[i];
      ghost var avail := Remaining(targetChars);
      ghost var mark := if ch == target[i] then Correct else if ch in avail then Present else Absent;
      ghost var next := if ch != target[i] && ch in avail then avail - multiset{ch} else avail;
      MarksStep(guess, target, i, avail);
      SuffixStep(spec, i);
      ConsCancel(mark, MarksOf(guess[i + 1..], target[i + 1..], next), spec[i], spec[i + 1..]);
      RemainingHas(targetChars, ch);
      if pattern[i] == Absent && Some(ch) in targetChars {
        var k := IndexOf(targetChars, Some(ch));
        RemainingConsume(targetChars, k, ch);
        pattern := pattern[i := Present];
        targetChars := targetChars[k := None];
      }
      assert pattern[i] == mark && Remaining(targetChars) == next;
      PrefixStep(pattern, spec, i);
      i := i + 1;
    }
    assert pattern == pattern[..i];
  }

  // ---------------------------------------------------------------------
  // Properties of the feedback pattern
  // ---------------------------------------------------------------------

  /** How many positions holding letter `c` in `g` are marked present or correct. */
  function MarkedCount(g: string, p: Pattern, c: char): nat
    requires |g| == |p|
  {
    if g == [] then 0
    else (if g[0] == c && p[0] != Absent then 1 else 0) + MarkedCount(g[1..], p[1..], c)
  }

  /** Positions where `g` and `t` both hold `c`. */
  function GreenCount(g: string, t: string, c: char): nat
    requires |g| == |t|
  {
    if g == [] then 0
    else (if g[0] == c && t[0] == c then 1 else 0) + GreenCount(g[1..], t[1..], c)
  }

  /** Positions where `g` holds `c` but `t` holds another letter. */
  function OffCount(g: string, t: string, c: char): nat
    requires |g| == |t|
  {
    if g == [] then 0
    else (if g[0] == c && t[0] != c then 1 else 0) + OffCount(g[1..], t[1..], c)
  }

  function Min(a: int, b: int): int {
    if a <= b then a else b
  }

  lemma {:induction false} MarksOfShape(g: string, t: string, avail: multiset<char>)
    requires |g| == |t|
    ensures forall i :: 0 <= i < |g| ==> 0 <= MarksOf(g, t, avail)[i] <= 2
    ensures forall i :: 0 <= i < |g| ==> (MarksOf(g, t, avail)[i] == Correct <==> g[i] == t[i])
  {
    if g != [] {
      var next := if g[0] != t[0] && g[0] in avail then avail - multiset{g[0]} else avail;
      MarksOfShape(g[1..], t[1..], next);
    }
  }

  /**
   * The pattern has five marks, each 0, 1 or 2, and a position is marked
   * correct exactly when guess and target agree there.
   */
  lemma FeedbackShape(g: string, t: string)
    requires IsWord(g) && IsWord(t)
    ensures IsPattern(Feedback(g, t))
    ensures forall i :: 0 <= i < WordLength ==> (Feedback(g, t)[i] == Correct <==> g[i] == t[i])
  {
    MarksOfShape(g, t, Leftover(g, t));
  }

  /**
   * A pattern whose correct marks disagree with where the two words agree
   * cannot be their feedback.
   */
  lemma GreenMismatch(g: string, t: string, p: Pattern, i: nat)
    requires IsWord(g) && IsWord(t) && i < WordLength && i < |p|
    requires (g[i] == t[i]) != (p[i] == Correct)
    ensures Feedback(g, t) != p
  {
    FeedbackShape(g, t);
  }

  /** A guess equal to the target is all correct. */
  lemma FeedbackSelf(w: string)
    requires IsWord(w)
    ensures Feedback(w, w) == [Correct, Correct, Correct, Correct, Correct]
  {
    FeedbackShape(w, w);
  }

  lemma {:induction false} LeftoverCount(g: string, t: string, c: char)
    requires |g| == |t|
    ensures Leftover(g, t)[c] + GreenCount(g, t, c) == multiset(t)[c]
  {
    if t != [] {
      assert t == [t[0]] + t[1..];
      LeftoverCount(g[1..], t[1..], c);
    }
  }

  lemma {:induction false} GuessCount(g: string, t: string, c: char)
    requires |g| == |t|
    ensures GreenCount(g, t, c) + OffCount(g, t, c) == multiset(g)[c]
  {
    if g != [] {
      assert g == [g[0]] + g[1..];
      GuessCount(g[1..], t[1..], c);
    }
  }

  lemma {:induction false} MarksOfCount(g: string, t: string, avail: multiset<char>, c: char)
    requires |g| == |t|
    ensures MarkedCount(g, MarksOf(g, t, avail), c)
            == GreenCount(g, t, c) + Min(OffCount(g, t, c), avail[c])
  {
    if g != [] {
      var next := if g[0] != t[0] && g[0] in avail then avail - multiset{g[0]} else avail;
      MarksOfCount(g[1..], t[1..], next, c);
    }
  }

  /**
   * Letter budget: for every letter, the positions of the guess holding it
   * that are marked present or correct number exactly the smaller of its
   * occurrences in the guess and in the target; in particular never more
   * than the target holds.
   */
  lemma LetterBudget(g: string, t: string, c: char)
    requires IsWord(g) && IsWord(t)
    ensures MarkedCount(g, Feedback(g, t), c) == Min(multiset(g)[c], multiset(t)[c])
    ensures MarkedCount(g, Feedback(g, t), c) <= multiset(t)[c]
  {
    MarksOfCount(g, t, Leftover(g, t), c);
    LeftoverCount(g, t, c);
    GuessCount(g, t, c);
  }

  lemma {:induction false} MarkedCountAt(g: string, p: Pattern, i: nat)
    requires |g| == |p| && i < |g|
    ensures MarkedCount(g, p, g[i]) <= multiset(g)[g[i]]
    ensures p[i] != Absent ==> MarkedCount(g, p, g[i]) >= 1
    ensures p[i] == Absent ==> MarkedCount(g, p, g[i]) < multiset(g)[g[i]]
  {
    assert g == [g[0]] + g[1..];
    if i > 0 {
      assert g[1..][i - 1] == g[i];
      MarkedCountAt(g[1..], p[1..], i - 1);
    } else if g[1..] != [] {
      MarkedCountBound(g[1..], p[1..], g[0]);
    }
  }

  lemma {:induction false} MarkedCountBound(g: string, p: Pattern, c: char)
    requires |g| == |p|
    ensures MarkedCount(g, p, c) <= multiset(g)[c]
  {
    if g != [] {
      assert g == [g[0]] + g[1..];
      MarkedCountBound(g[1..], p[1..], c);
    }
  }

  /** A present mark is never on a correct position and names a letter of the target. */
  lemma PresentMeansElsewhere(g: string, t: string, i: nat)
    requires IsWord(g) && IsWord(t) && i < WordLength
    requires Feedback(g, t)[i] == Present
    ensures g[i] != t[i] && g[i] in t
  {
    FeedbackShape(g, t);
    LetterBudget(g, t, g[i]);
    MarkedCountAt(g, Feedback(g, t), i);
  }

  /**
   * An absent mark means every occurrence of that letter in the target is
   * already accounted for by other positions of the guess.
   */
  lemma AbsentMeansExhausted(g: string, t: string, i: nat)
    requires IsWord(g) && IsWord(t) && i < WordLength
    requires Feedback(g, t)[i] == Absent
    ensures g[i] != t[i]
    ensures MarkedCount(g, Feedback(g, t), g[i]) == multiset(t)[g[i]]
  {
    FeedbackShape(g, t);
    LetterBudget(g, t, g[i]);
    MarkedCountAt(g, Feedback(g, t), i);
  }

  lemma {:induction false} MarksOfNoneLeft(g: string, t: string, avail: multiset<char>, c: char, j: nat)
    requires |g| == |t| && j < |g|
    requires c !in avail && g[j] == c && g[j] != t[j]
    ensures MarksOf(g, t, avail)[j] == Absent
  {
    var next := if g[0] != t[0] && g[0] in avail then avail - multiset{g[0]} else avail;
    if j > 0 {
      MarksOfNoneLeft(g[1..], t[1..], next, c, j - 1);
    }
  }

  lemma {:induction false} MarksOfLeftmost(g: string, t: string, avail: multiset<char>, i: nat, j: nat)
    requires |g| == |t| && i < j < |g|
    requires MarksOf(g, t, avail)[i] == Absent && g[j] == g[i] && g[j] != t[j]
    ensures MarksOf(g, t, avail)[j] == Absent
  {
    var next := if g[0] != t[0] && g[0] in avail then avail - multiset{g[0]} else avail;
    if i > 0 {
      MarksOfLeftmost(g[1..], t[1..], next, i - 1, j - 1);
    } else {
      MarksOfNoneLeft(g[1..], t[1..], next, g[0], j - 1);
    }
  }

  /**
   * Yellows go to the leftmost positions: once a letter is marked absent,
   * no later position holding it (other than a correct one) is marked.
   */
  lemma YellowsLeftmost(g: string, t: string, i: nat, j: nat)
    requires IsWord(g) && IsWord(t) && i < j < WordLength
    requires Feedback(g, t)[i] == Absent && g[j] == g[i] && g[j] != t[j]
    ensures Feedback(g, t)[j] == Absent
  {
    MarksOfLeftmost(g, t, Leftover(g, t), i, j);
  }

  /** The duplicate-letter example: "crane" against "trace". */
  lemma CraneAgainstTrace()
    ensures Feedback("crane", "trace") == [Present, Correct, Correct, Absent, Correct]
  {
    var g, t := "crane", "trace";
    assert Leftover(g, t) == multiset{'t', 'c'};
    assert g[1..] == "rane" && t[1..] == "race";
    assert multiset{'t', 'c'} - multiset{'c'} == multiset{'t'};
    assert MarksOf("ane", "ace", multiset{'t'}) == [Correct, Absent, Correct];
    assert MarksOf(g, t, multiset{'t', 'c'}) == [Present] + MarksOf("rane", "race", multiset{'t'});
  }
}

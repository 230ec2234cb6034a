# Wordle solver suggestion engine, modelled in Dafny

This project models the core of an entropy-guided Wordle solver. That core has five parts:

- the feedback codec, which gives each letter of a guess a mark of 0 (absent), 1 (present elsewhere) or 2 (correct spot) against a hidden target;
- candidate filtering and history consistency;
- the pattern partition that the expected-entropy score counts;
- top-k selection of guesses by descending (score, word);
- the stateful solver session, with its `guess` and `reset`.

The modules follow the source:

- `Codec` (codec.dfy) holds `feedback_pattern`. It is a two-pass method over a mutable copy of the target's letters. The method is proved equal to the specification function `Feedback`. That function is a green pass that sets aside the matched target letters, followed by a left-to-right yellow pass over the multiset of letters still available. Properties of the patterns are proved about `Feedback`.
- `Filter` (filter.dfy) holds `filter_candidates` and `is_consistent` as pure functions. It also defines `FoldFilter`, which applies a whole guess history record by record.
- `Partition` (partition.dfy) holds the counting loop of `expected_entropy`. It is a method over a `map<Pattern, nat>` counter, specified by the recursive function `Partition`.
- `Ranking` (ranking.dfy) holds `suggest_guesses`. The score is an abstract function `Scorer` from (word, candidates, alpha) to the reals. Python's `list.sort(reverse=True)` on (float, str) tuples is modelled by `SortDesc`, a descending permutation. Because such a permutation is unique, the serial and parallel branches yield the same list.
- `Solver` (solver.dfy) holds class `WordleSolver`. Its fields `allWords`, `candidates` and `history` are reassigned by `Guess` and `Reset`. A ghost field `start` records the candidate list as of construction or the last reset. The invariant `Valid()` says that `candidates` is that list folded over `history`.

Words are strings of exactly five characters. Patterns are sequences of integers. A user-supplied pattern may even hold values other than 0, 1 and 2, and then matches no candidate, as in the source. The dictionary is a parameter: the word corpus and the web page of past answers are outside the model. The outcome of fetching the past answers is an `Option`, and `None` stands for a failed fetch.

`reset` assigns a copy of `all_words` to `candidates` (wordle_solver.py:212). A session whose constructor left out the past answers (wordle_solver.py:151-152) therefore gets them back on reset. The model does what the code does. `Solver.ResetRestoresDictionary` shows the difference on a two-word dictionary.

## Model

| member | source | states |
|---|---|---|
| Codec.FeedbackPattern | wordle_solver.py:55-75 | The two-loop algorithm returns exactly the specification pattern `Feedback(guess, target)`. |
| Codec.MarkGreens | wordle_solver.py:60-67 | After the green loop, position k is 2 exactly when guess and target agree there and 0 otherwise. The target copy has exactly those slots consumed and keeps the target letter everywhere else. |
| Codec.MarkYellows | wordle_solver.py:69-75 | Starting from the green marks and a target copy whose remaining letters are the leftover multiset, the yellow loop ends with exactly `Feedback(guess, target)`. |
| Codec.IndexOf | wordle_solver.py:73 | `list.index` returns a position holding the letter, and no earlier position holds it. |
| Codec.RemainingAfterGreens | wordle_solver.py:61-67 | The letters left in the target copy after the green pass are the target letters without the green ones, as a multiset. |
| Codec.FeedbackShape | wordle_solver.py:60-75 | The pattern has five marks, each 0, 1 or 2. A mark is 2 exactly when guess and target agree at that position, so the yellow pass never overwrites a green. |
| Codec.GreenMismatch | wordle_solver.py:64-67 | A pattern whose 2s disagree with the positions where the words agree is not their feedback. |
| Codec.FeedbackSelf | wordle_solver.py:64-67 | A guess against itself is all 2s. |
| Codec.LetterBudget | wordle_solver.py:61-73 | For each letter c, the positions holding c that are marked 1 or 2 number exactly min(count of c in guess, count of c in target), so never more than the target holds. |
| Codec.PresentMeansElsewhere | wordle_solver.py:70-73 | A position marked 1 holds a letter of the target, and not at that position. |
| Codec.AbsentMeansExhausted | wordle_solver.py:70-73 | A position marked 0 is not a green. The positions of that letter marked 1 or 2 already use up every one of its occurrences in the target. |
| Codec.YellowsLeftmost | wordle_solver.py:70-73 | Yellows go left to right: once a letter is marked 0, every later non-green position holding it is 0 too. |
| Codec.CraneAgainstTrace | wordle_solver.py:55-75 | `crane` against `trace` gives (1, 2, 2, 0, 2). |
| Filter.FilterCandidates | wordle_solver.py:78-80 | A word is kept exactly when it is a candidate whose feedback to the guess equals the pattern. The result is no longer than the input. |
| Filter.FilterKeepsOrder | wordle_solver.py:78-80 | The result is a subsequence of the candidates, so their order is kept. |
| Filter.FilterCounts | wordle_solver.py:78-80 | A kept word keeps every occurrence, and any other word keeps none. |
| Filter.FilterIdempotent | wordle_solver.py:78-80 | Filtering the result again by the same guess and pattern returns it unchanged. |
| Filter.FilterAppend | wordle_solver.py:78-80 | Filtering a concatenation is the concatenation of the filtered parts. |
| Filter.FilterStrict | wordle_solver.py:78-80 | If some candidate does not show the pattern, the filter removes at least one word. |
| Filter.FilterNoHit | wordle_solver.py:78-80 | A pattern that no candidate shows leaves no candidates. |
| Filter.FilterSingleHit | wordle_solver.py:78-80 | A pattern that exactly one position shows leaves just that word. |
| Filter.ConsistentIff | wordle_solver.py:83-88 | `is_consistent` holds exactly when every (guess, pattern) record agrees with the word's feedback. (The body of `IsConsistent`, like the loop, returns false at the first mismatch.) |
| Filter.FoldFilter | wordle_solver.py:83-88 | A word survives filtering by every record in turn exactly when it was a candidate and is consistent with the history. |
| Filter.FoldFilterAppend | wordle_solver.py:188-191 | Adding one record to the history narrows the fold by exactly one more filter. |
| Filter.ConsistentFold | wordle_solver.py:83-88 | `[w]` survives the fold over the history exactly when `w` is consistent with it. Otherwise nothing survives. |
| Filter.SecondOfFive | wordle_solver.py:78-80 | Of five candidates, when only the second shows the pattern, the filter keeps exactly that word. |
| Filter.CraneMisses | wordle_solver.py:55-75 | `crane` shows (1, 2, 2, 0, 2) against none of crane, slate, stale and plate. |
| Filter.CraneExample | wordle_solver.py:78-80 | Filtering crane, trace, slate, stale and plate by guess `crane` and pattern (1, 2, 2, 0, 2) leaves exactly `trace`. |
| Partition.PartitionCounts | wordle_solver.py:95-100 | The counting loop builds exactly the counter `Partition(guess, candidates)`. The helper `Bump` defines `partitions[p] += 1` on a `defaultdict(int)`. |
| Partition.PartitionKeys | wordle_solver.py:97-100 | A pattern is a key exactly when some candidate shows it to the guess. |
| Partition.PartitionCount | wordle_solver.py:97-100 | A key's count is the number of candidates the filter by that pattern keeps. A pattern that is not a key filters out everything. |
| Partition.PartitionBounds | wordle_solver.py:97-106 | Every count is at least 1, so every probability is positive, and at most the number of candidates. |
| Partition.PartitionTotal | wordle_solver.py:97-105 | The counts sum to `len(candidates)`. |
| Partition.PartitionEmptyIff | wordle_solver.py:97-108 | There are no partitions exactly when there are no candidates, and then the entropy sum is empty. |
| Partition.SinglePartitionIf | wordle_solver.py:97-100 | Candidates that all show one pattern make exactly that one key. |
| Partition.TwoPatternsTwoPartitions | wordle_solver.py:97-100 | Two candidates that show different patterns make at least two keys. |
| Partition.SinglePartitionIff | wordle_solver.py:97-100 | There is exactly one partition exactly when the candidates are non-empty and all show the same pattern. |
| Ranking.KeyLessOrder | wordle_solver.py:247 | Tuple `<` on (score, word) is irreflexive, asymmetric, transitive and total. |
| Ranking.InsertDesc | wordle_solver.py:247 | Inserting into a descending list keeps it descending and adds exactly one element. |
| Ranking.SortDesc | wordle_solver.py:247 | `sort(reverse=True)` yields a descending permutation of its input. |
| Ranking.DescendingUnique | wordle_solver.py:247 | Two descending lists with the same elements are equal, so the sorted result is determined. |
| Ranking.MergeOrderIndependent | wordle_solver.py:257-259 | Lists with the same elements sort to the same list, whatever order the scores were produced in. |
| Ranking.FreqNorm | wordle_solver.py:122-123 | The clamped and rescaled frequency lies in [0, 1]. It is 0 at or below 1 and 1 at or above 7, and inside the clamp it is (freq - 1) / 6. |
| Ranking.HybridScore | wordle_solver.py:124 | For alpha in [0, 1] and non-negative entropy, the blend lies between 0 and alpha times entropy plus (1 - alpha). |
| Ranking.RankedEntries | wordle_solver.py:243-247 | Each entry of the sorted list is a pool word paired with its own score, and there is one entry per pool word. |
| Ranking.SuggestionsLength | wordle_solver.py:248 | There are as many suggestions as the slice keeps: at most `topk` when it is non-negative, and at most the pool size. |
| Ranking.SuggestionsFromPool | wordle_solver.py:236-239 | Every suggestion is a word of the pool: the candidates when restricted, else all words. |
| Ranking.SuggestionsOrdered | wordle_solver.py:247-248 | Suggestions come in descending (score, word) order, so equal scores fall to the greater word first. |
| Ranking.SuggestionsAreTop | wordle_solver.py:247-248 | A pool word left out of the suggestions ranks below none of them. |
| Ranking.SuggestionsStrict | wordle_solver.py:247-248 | With a duplicate-free pool, the suggestions are in strictly descending (score, word) order. |
| Ranking.SuggestGuesses | wordle_solver.py:221-260 | Both the serial loop (under 500 words) and the worker map return exactly `Suggestions`, the first `topk` words of the descending ranking of the pool. Three helpers define Python built-ins here: `ScoreWorker` is `_score_word_worker`, `PrefixLength` is the length of the slice `scores[:topk]` (including negative `topk`), and `Words` is the comprehension `[w for _, w in ...]`. |
| Solver.Without | wordle_solver.py:47 | A word is kept exactly when it is in the dictionary and not a past answer. |
| Solver.WithoutKeepsOrder | wordle_solver.py:47 | The kept words keep their dictionary order. |
| Solver.ExcludePastAnswers | wordle_solver.py:33-52 | When the fetch failed the dictionary is returned unchanged. Otherwise exactly the words that are not past answers remain. |
| Solver.NarrowStep | wordle_solver.py:187-191 | One more record narrows the fold by one filter. The survivors are dictionary words consistent with the longer history. A pattern that some candidate contradicts removes at least one candidate. |
| Solver.WordleSolver.constructor | wordle_solver.py:145-156 | The session starts valid with the whole dictionary and an empty history. Its candidates are the dictionary, or the dictionary without past answers when asked. |
| Solver.WordleSolver.SuggestInitialGuess | wordle_solver.py:158-171 | Returns the suggestions for the current candidates and dictionary. |
| Solver.WordleSolver.Guess | wordle_solver.py:173-208 | Appends exactly one record, replaces the candidates by their filtered list and leaves the dictionary alone. The candidate count never grows, and shrinks when some candidate contradicts the pattern. Every remaining candidate is a dictionary word consistent with the whole history. Returns `[]` for 0 remaining, the candidates for 1 and the suggestions otherwise. |
| Solver.WordleSolver.Reset | wordle_solver.py:210-214 | The candidates become all words and the history becomes empty, whatever was guessed before. The dictionary is unchanged. |
| Solver.CraneSession | wordle_solver.py:173-208 | Over crane, trace, slate, stale and plate, guessing `crane` with (1, 2, 2, 0, 2) leaves one candidate and returns `["trace"]`. |
| Solver.ResetRestoresDictionary | wordle_solver.py:210-214 | With `crane` as a past answer the session starts from `["trace"]`, and reset brings back `["crane", "trace"]`. |

## Left out

- `build_dictionary` (wordle_solver.py:22-52, the fetch at 33-52): the word corpus, the HTTP request, HTML parsing and the catch-all exception are left out. The dictionary is a parameter, and the fetched past answers are `Option<seq<string>>`.
- Solver.WordleSolver.constructor: the source calls `build_dictionary` twice. The model assumes both calls see the same word list.
- `expected_entropy` (wordle_solver.py:102-108) and `zipf_frequency`: the `log2` sum and the floating-point arithmetic are left out, and the score is an abstract `Scorer`. `FreqNorm` and `HybridScore` state the clamp and the blend over the reals.
- Ranking.SortDesc: floats are modelled as unbounded reals, so NaN, infinities and rounding are not modelled. The in-place sorting algorithm itself is modelled by its result, a descending permutation, and not by the algorithm's steps.
- Ranking.SuggestGuesses: `ProcessPoolExecutor`, `max_workers` and `os.cpu_count` (wordle_solver.py:251-257) are concurrency. They are modelled as an order-preserving map of the worker over the work units.
- Ranking.SuggestGuesses: the defaults of the keyword arguments (alpha 0.7, topk 5, and `restrict_guesses`, which is True in `suggest_initial_guess` and False in `guess`) are not modelled. Callers pass every argument.
- The `print` calls in `build_dictionary` and in `WordleSolver` are output only.
- Solver.WordleSolver.Guess: requires a five-letter guess. For a word of any other length the source appends to the history and then may raise inside `feedback_pattern`, which is not modelled.
- Solver.WordleSolver.Guess: Python returns the `candidates` list object itself when one candidate remains. Dafny sequences are values, so later aliasing through that list is not modelled.
- Codec.FeedbackPattern: requires five-letter guess and target words. For other lengths the source does one of three things, and none is modelled. It raises `IndexError`, for example on a guess longer than five letters or a target shorter than the guess. It leaves trailing zeros when the guess is shorter than five letters. With a five-letter guess and a longer target, the green pass reads only the first five target letters, but the yellow pass searches the whole target, so letters past the fifth can become yellows: `feedback_pattern("xxxxs", "abcdes")` is (0, 0, 0, 0, 1).
- Codec.FeedbackPattern: the Python tuple returned is modelled as a sequence of integers.
- The HTTP service of main.py (endpoints, request models, session store) is not part of this model.

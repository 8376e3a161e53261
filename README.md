# motus-solver in Dafny

This project models the solver core of `motus-solver`, a helper for Motus/Wordle-style games. The core lives in `src/main.rs`, and the model has five parts:

- **Pattern engine** (`GuessResult::compute`).
  - Given a hidden word (the target) and a guess, it replies Correct, Misplaced or Absent for every target position.
  - It works in one pass over the guess and keeps a `used` flag per target position.
- **Match test** (`GuessResult::match`).
  - A stored (word, pattern) record matches a candidate when recomputing the pattern against that candidate gives the same sequence.
- **Mask decoder** (`into_correctness`).
  - Turns a `C`/`M`/`A` string into a pattern.
- **Candidate filters.**
  - The word-size and first-letter filters of the batch reports and of the interactive player.
  - `display_match`.
  - The narrowing of the remaining candidates by each record.
- **Entropy ranker**, integer part.
  - Enumerates every pattern of the word size; the fixed-first-letter variants pin the first symbol to Correct.
  - Counts the candidates each pattern matches and keeps the nonzero counts: the bucket sizes.
  - Keeps a word as a suggestion whenever its score beats the best score so far.
- **Narrowing loop of `play`.**
  - Repeatedly ranks, reads a played word and mask, and narrows the candidates.
  - Stops when one candidate is left.

## How the engine is modelled

The engine is modelled as the program writes it, not as the usual two-pass Wordle rule. Two points differ:

- **The Correct test ignores `used`.** Target "ab" with guess "bb" gives `[Misplaced, Correct]` (`Feedback.CorrectIgnoresUsed`). The first `b` takes target position 1 as Misplaced, and position 1 is still Correct afterwards.
- **The Misplaced scan has no `break`.** One guess letter consumes every still-unused copy of that letter in the target. So target "abba" with guess "baab" gives `[Misplaced, Misplaced, Absent, Absent]` (`Feedback.ConsumesEveryCopy`). As a consequence, a letter is Misplaced at most once per pattern (`Feedback.MisplacedOncePerLetter`).

The closed form `Feedback.PatternOf` states the pass as a function:

- *consumes*: position k marks its own position when Correct, otherwise every copy of its letter.
- *used before i*: some earlier position consumed it.
- *a free copy*: an unused target position with the letter.

The imperative `Feedback.Compute` keeps both arrays of the program. It is proved to return exactly `PatternOf`.

## Modules

- `Wrappers`: the `Option` used for fallible operations.
- `Feedback`: the engine, the match test and the mask decoder.
- `Filters`: the candidate filters.
- `Ranking`:
  - the pattern enumeration and bucket counting;
  - the partition theorem: the bucket sizes add up to the number of candidates;
  - the selection rule for suggestions.
- `Solver`:
  - the batch report (`generate_data`/`generate_data2`);
  - the ranking round;
  - the interactive loop with its invariants;
  - the honest-player theorem: if every reply is the one the hidden word gives, the loop never empties the candidates, and when it converges it names the hidden word.

## Modelling choices

- **Entropy is a parameter.** The floating-point formula is `entropy: (seq<nat>, nat) -> real`, applied to the nonzero bucket sizes and the candidate count.
- **Player input is a scripted sequence.** The two stdin lines of round k are the k-th pair of a `seq<(Word, string)>`, already trimmed. Once the script is exhausted, `read_line` reads nothing, so the model reads two empty lines. The empty record then matches no candidate: the candidates empty and the program's `assert!` fires, which the model reports as `Contradiction` (`Solver.EndOfInputEmpties`).

## Model

| member | source | states |
|---|---|---|
| Feedback.UsedBeforeStep | src/main.rs:32-50 | processing position i adds exactly the target positions it consumes to the used set |
| Feedback.Compute | src/main.rs:26-54 | the single pass over the two arrays returns the guess together with exactly the closed-form pattern `PatternOf(target, guess)` |
| Feedback.SelfGuessAllCorrect | src/main.rs:34-38 | a word guessed against itself is Correct at every position |
| Feedback.CorrectIff | src/main.rs:29-38 | the pattern has the target's length, and position i is Correct iff the guess has a letter there equal to the target's, whatever was consumed earlier |
| Feedback.AbsentLetter | src/main.rs:41-50 | a guess letter absent from the target, or a position past the end of the guess, gives Absent |
| Feedback.MisplacedWitness | src/main.rs:41-50 | a Misplaced position's letter occurs in the target at another position |
| Feedback.MisplacedOncePerLetter | src/main.rs:41-50 | no two Misplaced positions carry the same letter, because the scan consumes every free copy |
| Feedback.MisplacedIff | src/main.rs:34-50 | Misplaced at i iff the letters differ at i, every earlier same-letter position was Correct, and the target has a copy of the letter not taken by an earlier Correct position |
| Feedback.AllowLlama | src/main.rs:34-50 | target "allow", guess "llama" gives Misplaced, Correct, Misplaced, Absent, Absent |
| Feedback.ConsumesEveryCopy | src/main.rs:41-50 | target "abba", guess "baab": the first two letters take every copy, leaving the last two Absent |
| Feedback.CorrectIgnoresUsed | src/main.rs:35-38 | target "ab", guess "bb": a target position already taken by a Misplaced can still be Correct |
| Feedback.Match | src/main.rs:56-60 | a matching record's pattern has the word's length, and its Correct positions are exactly those where the guess and the word agree |
| Feedback.MatchIff | src/main.rs:56-60 | a record matches iff its pattern has the word's length and agrees with the recomputed symbol at every position |
| Feedback.MatchReflexive | src/main.rs:56-60 | every target matches the record of its own reply |
| Feedback.MatchConstrains | src/main.rs:56-60 | a matching word agrees with the guess exactly at the Correct positions, and holds each Misplaced letter at another position |
| Feedback.SymbolOf | src/main.rs:66-71 | a mask letter decodes iff it is C, M or A |
| Feedback.LetterOf | src/main.rs:66-69 | the letter of a symbol decodes back to that symbol |
| Feedback.IntoCorrectness | src/main.rs:63-73 | a mask decodes iff all its letters are C, M or A; the result then has the mask's length and decodes it letter by letter |
| Feedback.DecodeMask | src/main.rs:63-73 | decoding the mask of a pattern returns the pattern |
| Feedback.EncodeDecoded | src/main.rs:63-73 | a mask that decodes is the mask of its decoding |
| Filters.Filter | src/main.rs:76-79 | a filter never lengthens its input |
| Filters.FilterFacts | src/main.rs:76-79 | the filter keeps every copy of each kept element and no copy of the others, and the result is an order-preserving subsequence |
| Filters.Candidates | src/main.rs:148-151 | every candidate has the word size and, if one is fixed, the first letter; every such dictionary word is a candidate, as many times as the dictionary repeats it; order is kept |
| Filters.DisplayMatch | src/main.rs:214-225 | a word is listed iff it is in the dictionary, eligible and matches the guess; order is kept |
| Filters.Narrow | src/main.rs:205-208 | narrowing never adds candidates |
| Filters.NarrowIff | src/main.rs:205-208 | a word survives iff it was a candidate that reproduces the record; survivors keep their order |
| Filters.NarrowAllCorrectExample | src/main.rs:205-208 | among "abce", "abde", "abcf", guess "abce" with reply CCCC keeps only "abce" |
| Filters.NarrowLastAbsentExample | src/main.rs:205-208 | among the same words, guess "abce" with reply CCCA keeps only "abcf" |
| Filters.NarrowKeepsTarget | src/main.rs:205-208 | narrowing by the hidden word's own reply keeps the hidden word |
| Ranking.Prefixed | src/main.rs:129 | prefixing a symbol to every pattern keeps their number |
| Ranking.AllPatterns | src/main.rs:86-95 | the cartesian power of the three symbols has 3^n patterns |
| Ranking.PinnedPatterns | src/main.rs:119-129 | the pinned enumeration has 3^(n-1) patterns |
| Ranking.AllPatternsStep | src/main.rs:86-95 | a pattern of length n + 1 is enumerated as often as its tail is among those of length n |
| Ranking.AllPatternsOnce | src/main.rs:86-95 | every pattern of length n is enumerated exactly once, and no other pattern is |
| Ranking.PinnedPatternsOnce | src/main.rs:119-129 | every length-n pattern starting with Correct is enumerated exactly once by the pinned variant, and no other pattern is |
| Ranking.PrefixedAllOnce | src/main.rs:163-173 | the same for the enumeration inside the interactive loop |
| Ranking.MatchCount | src/main.rs:97 | the number of matching candidates is at most the number of candidates |
| Ranking.BucketSizes | src/main.rs:96-100 | at most one bucket per pattern, each between one and the number of candidates |
| Ranking.BucketsSumHits | src/main.rs:96-100 | the bucket sizes add up to how often the candidates' own patterns are enumerated |
| Ranking.PartitionAll | src/main.rs:86-100 | over all patterns, the bucket sizes add up to the number of candidates, and there are at most that many buckets |
| Ranking.PartitionPinned | src/main.rs:119-134 | the same for the pinned enumeration, when the candidates share the guess's first letter |
| Ranking.SingleCandidateOneBucket | src/main.rs:96-102 | a single candidate gives exactly one bucket of size one |
| Ranking.SingleCandidateOnePinnedBucket | src/main.rs:130-136 | the same over the pinned enumeration, for a candidate sharing the guess's first letter |
| Ranking.CountBuckets | src/main.rs:96-100 | the counting loop collects exactly the nonzero match counts in enumeration order |
| Ranking.Bests | src/main.rs:183-187 | at most one suggestion per word |
| Ranking.BestScore | src/main.rs:183-185 | the running maximum is nonnegative, bounds every score, and is zero or one of the scores |
| Ranking.BestsStep | src/main.rs:183-187 | one more score appends the word exactly when it beats the running maximum, which it then becomes |
| Ranking.BestsBounded | src/main.rs:183-187 | every suggestion has a positive score no greater than the best one and comes from the input; there are none iff no score is positive; the last carries the best score |
| Ranking.BestsShape | src/main.rs:183-187 | the suggestions have strictly increasing positive scores, come from the input, are empty iff no score is positive, and the last one carries the best score |
| Solver.ScoreFromPartition | src/main.rs:161-182 | every score is computed from bucket sizes that partition the candidates |
| Solver.ScoreOf | src/main.rs:162-182 | the counting loop followed by the entropy gives the word's score |
| Solver.Report | src/main.rs:75-140 | the batch report pairs each eligible word with its score against all eligible words, free or with the first letter pinned |
| Solver.ScoreEach | src/main.rs:84-105 | the report's loop produces exactly those pairs |
| Solver.Rank | src/main.rs:159-188 | the ranking loop keeps exactly the words whose score beats every earlier score and zero |
| Solver.ConsistentIff | src/main.rs:153-210 | a word survives a sequence of records iff it is a candidate reproducing every one of them |
| Solver.ConsistentShrinks | src/main.rs:205-208 | each record only removes candidates, keeping their order |
| Solver.ReadFeedback | src/main.rs:193-201 | the lines read in a round are one of the scripted pairs, or two empty lines past the end of the script |
| Solver.Decoded | src/main.rs:201-203 | a round's lines give a record iff every mask letter is C, M or A; the record carries the played word, and its pattern encodes back to the mask |
| Solver.NextStep | src/main.rs:193-203 | a round's lines say continue iff the mask decodes and the word fits the word size; the record is then the decoded one; otherwise the outcome names the bad mask or the long word |
| Solver.EndOfInputEmpties | src/main.rs:193-210 | past the end of the input the record is the empty guess with the empty pattern, which leaves no candidate |
| Solver.ShownAddRound | src/main.rs:189-191 | a round shown over the current candidates extends the rounds shown |
| Solver.ShownAddRecord | src/main.rs:205-210 | applying a record keeps the rounds already shown |
| Solver.ReplaysAddRecord | src/main.rs:203 | appending the decoded record keeps the history a replay of the input |
| Solver.ConsistentWithin | src/main.rs:148-153 | consistent candidates have the word size |
| Solver.Play | src/main.rs:142-211 | a first guess longer than the word size stops at once; otherwise the run over the filtered candidates is `Narrowed` |
| Solver.Converge | src/main.rs:153-211 | the loop's records replay the input; each round lists the candidates consistent with the records so far, at least two, with their number and ranked suggestions; the outcome agrees with the final candidate set: one word (Converged), none (Contradiction), or the mask or word that stopped it |
| Solver.Advance | src/main.rs:203-210 | one applied record keeps the loop invariants, and past the end of the input leaves no candidate |
| Solver.Stopped | src/main.rs:193-203 | a bad mask or an over-long word ends the run as `Narrowed` describes |
| Solver.Settled | src/main.rs:157-158 | one candidate left ends the run Converged, and none ends it Contradiction |
| Solver.HonestKeepsTarget | src/main.rs:205-208 | with honest replies the hidden word is always a candidate |
| Solver.HonestRunFindsTarget | src/main.rs:153-211 | with honest replies the run never ends in Contradiction, and a Converged run names the hidden word |

## Left out

- Floating-point entropy: the `f64` probabilities, `log2` and their sum are the parameter `entropy`. The model does not capture rounding, NaN or the conversion of `total_words` to and from `f64`.
- Console output (`println!`) is not modelled. Each round's suggestions, count and candidates are returned as a `Round` value instead.
- Console input: blocking `read_line` and `trim` are replaced by a scripted sequence of already-trimmed pairs.
- `main`: argument parsing, reading `data/dict.txt` and lowercasing are not modelled. The dictionary, word size, first letter and first guess are parameters.
- Bytes and characters: words are sequences of characters, which assumes ASCII words. For those, `len()` and `chars().count()` agree.
- `itertools::multi_cartesian_product` is a library call. It is re-specified as `Ranking.AllPatterns`, with the single empty pattern for length zero.
- The `word_size - 1` underflow of the pinned variants cannot arise, so it is not modelled. The first-letter filter keeps no word of size zero, so the enumeration is never reached (`Filters.Candidates` proves this).
- Feedback.Compute: requires the guess to be no longer than the target. For a longer guess the program indexes past the end of its result vector. Whether that panics depends on the letters, and the model does not cover this case.
- Solver.Play: a played word longer than the word size ends the run with `GuessTooLong`. The program can panic or carry on, depending on the letters.
- Filters.DisplayMatch: requires the guess to be no longer than the word size. For a longer guess the program's match test indexes past the end of its result vector, and whether it panics or carries on depends on the letters.
- Filters.Narrow: treats a candidate shorter than the recorded guess as not matching, a case the loop never meets, because every played word fits the word size.
- Ranking.MatchCount: the same treatment applies to candidates shorter than the guess.
- `GuessResult::init` is the constructor of the `GuessResult` datatype and has no separate member.

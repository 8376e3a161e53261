/**
 * The two drivers of the engine: the batch report (one score per eligible
 * word, against all eligible words) and the interactive narrowing loop.
 *
 * The floating-point entropy formula is a parameter, `entropy`, applied to
 * the nonzero bucket sizes of a guess and the number of candidates; the
 * player's input is a scripted sequence of (played word, mask) pairs.
 */
module Solver {
  import opened Wrappers
  import opened Feedback
  import opened Filters
  import opened Ranking

  /** The patterns a variant enumerates: all of them, or those pinned to a
      Correct first symbol once a first letter is fixed. */
  function Enumerated(wordSize: nat, pinned: bool): seq<Pattern>
    requires pinned ==> wordSize >= 1
  {
    if pinned then PinnedPatterns(wordSize) else AllPatterns(wordSize)
  }

  /** The score of a guess against a candidate set. */
  function Score(guess: Word, candidates: seq<Word>, wordSize: nat, pinned: bool,
                 entropy: (seq<nat>, nat) -> real): real
    requires pinned ==> wordSize >= 1
  {
    entropy(BucketSizes(guess, candidates, Enumerated(wordSize, pinned)), |candidates|)
  }

  /** Every word of `words` scored against `candidates`. */
  function Scores(words: seq<Word>, candidates: seq<Word>, wordSize: nat, pinned: bool,
                  entropy: (seq<nat>, nat) -> real): (r: seq<real>)
    requires pinned && |words| > 0 ==> wordSize >= 1
    ensures |r| == |words|
    ensures forall i :: 0 <= i < |words| ==> r[i] == Score(words[i], candidates, wordSize, pinned, entropy)
  {
    seq(|words|, i requires 0 <= i < |words| => Score(words[i], candidates, wordSize, pinned, entropy))
  }

  /** A score is computed from a partition of the candidates: bucket sizes
      that add up to their number (in the pinned variant, because every
      candidate shares the guess's first letter). */
  lemma {:induction false} ScoreFromPartition(guess: Word, candidates: seq<Word>, wordSize: nat, pinned: bool)
    requires |guess| == wordSize
    requires forall w :: w in candidates ==> |w| == wordSize
    requires pinned ==> wordSize >= 1 && forall w :: w in candidates ==> |w| > 0 && w[0] == guess[0]
    ensures Sum(BucketSizes(guess, candidates, Enumerated(wordSize, pinned))) == |candidates|
    ensures |BucketSizes(guess, candidates, Enumerated(wordSize, pinned))| <= |candidates|
  {
    if pinned {
      PartitionPinned(guess, candidates, wordSize);
    } else {
      PartitionAll(guess, candidates, wordSize);
    }
  }

  /** The score of one guess: its bucket sizes are counted and handed to
      the entropy. */
  method ScoreOf(guess: Word, candidates: seq<Word>, wordSize: nat, pinned: bool,
                 entropy: (seq<nat>, nat) -> real)
    returns (e: real)
    requires pinned ==> wordSize >= 1
    ensures e == Score(guess, candidates, wordSize, pinned, entropy)
  {
    var counts := CountBuckets(guess, candidates, Enumerated(wordSize, pinned));
    e := entropy(counts, |candidates|);
  }

  /** The batch report: each eligible word with its score against all
      eligible words (`firstLetter` None is the free variant, Some the
      fixed-first-letter one). */
  method Report(wordsList: seq<Word>, wordSize: nat, firstLetter: Option<char>, entropy: (seq<nat>, nat) -> real)
    returns (lines: seq<(Word, real)>)
    ensures var words := Candidates(wordsList, wordSize, firstLetter);
      lines == Zip(words, Scores(words, words, wordSize, firstLetter.Some?, entropy))
  {
    var words := Candidates(wordsList, wordSize, firstLetter);
    lines := ScoreEach(words, wordSize, firstLetter.Some?, entropy);
  }

  /** The loop of the report: every word scored against the whole list. */
  method ScoreEach(words: seq<Word>, wordSize: nat, pinned: bool, entropy: (seq<nat>, nat) -> real)
    returns (lines: seq<(Word, real)>)
    requires pinned && |words| > 0 ==> wordSize >= 1
    ensures lines == Zip(words, Scores(words, words, wordSize, pinned, entropy))
  {
    ghost var scores := Scores(words, words, wordSize, pinned, entropy);
    lines := [];
    for i := 0 to |words|
      invariant |lines| == i
      invariant forall k :: 0 <= k < i ==> lines[k] == (words[k], scores[k])
    {
      var g := words[i];
      assert g in words;
      var e := ScoreOf(g, words, wordSize, pinned, entropy);
      lines := lines + [(g, e)];
    }
  }

  /** One ranking round of the interactive loop: every eligible word is
      scored against the remaining candidates, and a word is kept as a
      suggestion whenever its score beats the best so far (which starts at
      zero). */
  method Rank(words: seq<Word>, remaining: seq<Word>, wordSize: nat, entropy: (seq<nat>, nat) -> real)
    returns (bests: seq<(Word, real)>)
    requires |words| > 0 ==> wordSize >= 1
    ensures bests == Bests(words, Scores(words, remaining, wordSize, true, entropy))
  {
    ghost var scores := Scores(words, remaining, wordSize, true, entropy);
    bests := [];
    var bestEntropy := 0.0;
    for i := 0 to |words|
      invariant bests == Bests(words[..i], scores[..i])
      invariant bestEntropy == BestScore(scores[..i])
    {
      BestsStep(words, scores, i);
      var g := words[i];
      var e := ScoreOf(g, remaining, wordSize, true, entropy);
      if e > bestEntropy {
        bestEntropy := e;
        bests := bests + [(g, e)];
      }
    }
    assert words[..|words|] == words && scores[..|scores|] == scores;
  }

  // ---------------------------------------------------------------------
  // The narrowing loop
  // ---------------------------------------------------------------------

  /** How a run of the loop ends: one candidate left, none left (the
      program's failed assertion), a mask with a letter other than C, M, A
      (its `unreachable!`), or a played word longer than the word size. */
  datatype Outcome =
    | Converged(answer: Word)
    | Contradiction
    | BadMask(mask: string)
    | GuessTooLong(guess: Word)

  /** What one round shows the player: the suggestions, the number of
      remaining candidates and the candidates themselves. */
  datatype Round = Round(suggestions: seq<(Word, real)>, size: nat, remaining: seq<Word>)

  /** The two lines read in round k: the scripted pair, or two empty lines
      once the input has ended. */
  function ReadFeedback(feedback: seq<(Word, string)>, k: nat): (r: (Word, string))
    ensures k < |feedback| ==> r in feedback
    ensures k >= |feedback| ==> |r.0| == 0 && |r.1| == 0
  {
    if k < |feedback| then feedback[k] else ("", "")
  }

  /** The candidates consistent with every record of `history`. */
  function Consistent(words: seq<Word>, history: seq<GuessResult>): seq<Word>
  {
    if history == [] then words
    else Narrow(Consistent(words, history[..|history| - 1]), history[|history| - 1])
  }

  /** `w` reproduces every recorded pattern. */
  predicate FitsAll(history: seq<GuessResult>, w: Word)
  {
    forall k :: 0 <= k < |history| ==> |history[k].word| <= |w| && Match(history[k], w)
  }

  lemma {:induction false} FitsAllLast(history: seq<GuessResult>, w: Word)
    requires history != []
    ensures var n := |history| - 1;
      FitsAll(history, w) <==> FitsAll(history[..n], w) && |history[n].word| <= |w| && Match(history[n], w)
  {
    var n := |history| - 1;
    assert forall k :: 0 <= k < n ==> history[..n][k] == history[k];
  }

  /** The candidate-set invariant: a word survives exactly when it is a
      candidate that reproduces every recorded pattern. */
  lemma {:induction false} ConsistentIff(words: seq<Word>, history: seq<GuessResult>, w: Word)
    ensures w in Consistent(words, history) <==> w in words && FitsAll(history, w)
  {
    if history != [] {
      var n := |history| - 1;
      ConsistentIff(words, history[..n], w);
      FitsAllLast(history, w);
      NarrowIff(Consistent(words, history[..n]), history[n], w);
    }
  }

  /** Each record only shrinks the candidate set, keeping its order. */
  lemma {:induction false} ConsistentShrinks(words: seq<Word>, history: seq<GuessResult>, rec: GuessResult)
    ensures IsSubsequence(Consistent(words, history + [rec]), Consistent(words, history))
  {
    assert (history + [rec])[..|history|] == history;
    NarrowIff(Consistent(words, history), rec, []);
  }

  /** The record read in round k, or None when its mask does not decode. */
  function Decoded(feedback: seq<(Word, string)>, k: nat): (r: Option<GuessResult>)
    ensures r.Some? <==> forall i :: 0 <= i < |ReadFeedback(feedback, k).1| ==> ReadFeedback(feedback, k).1[i] in "CMA"
    ensures r.Some? ==> r.value.word == ReadFeedback(feedback, k).0
    ensures r.Some? ==> MaskOf(r.value.correctness) == ReadFeedback(feedback, k).1
  {
    var (guess, mask) := ReadFeedback(feedback, k);
    match IntoCorrectness(mask)
    case Some(p) => EncodeDecoded(mask); Some(GuessResult(guess, p))
    case None => None
  }

  /** What the loop does with the two lines of round k: stop (a mask that
      does not decode, or a played word longer than the word size) or
      apply the decoded record. */
  datatype Step = Stop(outcome: Outcome) | Apply(rec: GuessResult)

  function NextStep(feedback: seq<(Word, string)>, k: nat, wordSize: nat): (s: Step)
    ensures s.Apply? <==> Decoded(feedback, k).Some? && |Decoded(feedback, k).value.word| <= wordSize
    ensures s.Apply? ==> Decoded(feedback, k) == Some(s.rec)
    ensures s.Stop? ==> var (guess, mask) := ReadFeedback(feedback, k);
      s.outcome == (if IntoCorrectness(mask).None? then BadMask(mask) else GuessTooLong(guess))
  {
    var (guess, mask) := ReadFeedback(feedback, k);
    match IntoCorrectness(mask)
    case None => Stop(BadMask(mask))
    case Some(p) => if |guess| > wordSize then Stop(GuessTooLong(guess)) else Apply(GuessResult(guess, p))
  }

  /** Once the input has ended, the record read is the empty guess with
      the empty pattern, which no word of the word size reproduces: the
      next round finds no candidate left. */
  lemma {:induction false} EndOfInputEmpties(feedback: seq<(Word, string)>, k: nat, remaining: seq<Word>)
    requires k >= |feedback|
    requires forall w :: w in remaining ==> |w| >= 1
    ensures Decoded(feedback, k) == Some(GuessResult("", []))
    ensures Narrow(remaining, GuessResult("", [])) == []
  {
    assert IntoCorrectness("") == Some([]);
    var rec := GuessResult("", []);
    FilterNone(remaining, w => |rec.word| <= |w| && Match(rec, w));
  }

  /** `history` is the first guess followed by the records of the rounds
      read so far, none of them longer than the word size. */
  predicate Replays(history: seq<GuessResult>, firstGuess: GuessResult, feedback: seq<(Word, string)>, wordSize: nat)
  {
    && |history| >= 1 && history[0] == firstGuess
    && (forall k :: 0 <= k < |history| ==> |history[k].word| <= wordSize)
    && (forall k :: 1 <= k < |history| ==> Decoded(feedback, k - 1) == Some(history[k]))
  }

  /** The suggestions of `r` are the ranking of every eligible word over
      the candidates `r` shows. */
  predicate Suggested(words: seq<Word>, wordSize: nat, r: Round, entropy: (seq<nat>, nat) -> real)
    requires |words| > 0 ==> wordSize >= 1
  {
    r.suggestions == Bests(words, Scores(words, r.remaining, wordSize, true, entropy))
  }

  /** Round `r` was shown after the records `records`: it lists the
      candidates consistent with them, at least two, their number and the
      suggestions ranked over them. */
  predicate ShownAfter(words: seq<Word>, wordSize: nat, records: seq<GuessResult>, r: Round,
                       entropy: (seq<nat>, nat) -> real)
    requires |words| > 0 ==> wordSize >= 1
  {
    && r.remaining == Consistent(words, records)
    && r.size == |r.remaining| >= 2
    && Suggested(words, wordSize, r, entropy)
  }

  /** Round k was shown after the first k + 1 records. */
  predicate Shown(words: seq<Word>, wordSize: nat, history: seq<GuessResult>, rounds: seq<Round>,
                  entropy: (seq<nat>, nat) -> real)
    requires |words| > 0 ==> wordSize >= 1
  {
    && |rounds| <= |history|
    && forall k :: 0 <= k < |rounds| ==> ShownAfter(words, wordSize, history[..k + 1], rounds[k], entropy)
  }

  /** A round shown over the current candidates extends `Shown`. */
  lemma {:induction false} ShownAddRound(words: seq<Word>, wordSize: nat, history: seq<GuessResult>, rounds: seq<Round>,
                      entropy: (seq<nat>, nat) -> real, r: Round)
    requires |words| > 0 ==> wordSize >= 1
    requires Shown(words, wordSize, history, rounds, entropy) && |rounds| == |history| - 1
    requires ShownAfter(words, wordSize, history, r, entropy)
    ensures Shown(words, wordSize, history, rounds + [r], entropy)
  {
    var rs := rounds + [r];
    forall k | 0 <= k < |rs| ensures ShownAfter(words, wordSize, history[..k + 1], rs[k], entropy) {
      if k < |rounds| {
        assert rs[k] == rounds[k];
      } else {
        assert rs[k] == r && history[..k + 1] == history;
      }
    }
  }

  /** Appending a record keeps the rounds already shown. */
  lemma {:induction false} ShownAddRecord(words: seq<Word>, wordSize: nat, history: seq<GuessResult>, rounds: seq<Round>,
                       entropy: (seq<nat>, nat) -> real, rec: GuessResult)
    requires |words| > 0 ==> wordSize >= 1
    requires Shown(words, wordSize, history, rounds, entropy)
    ensures Shown(words, wordSize, history + [rec], rounds, entropy)
  {
    forall k | 0 <= k < |rounds|
      ensures ShownAfter(words, wordSize, (history + [rec])[..k + 1], rounds[k], entropy)
    {
      assert (history + [rec])[..k + 1] == history[..k + 1];
    }
  }

  /** Appending the decoded record of the next round keeps `Replays`. */
  lemma {:induction false} ReplaysAddRecord(history: seq<GuessResult>, firstGuess: GuessResult, feedback: seq<(Word, string)>,
                         wordSize: nat, rec: GuessResult)
    requires Replays(history, firstGuess, feedback, wordSize)
    requires Decoded(feedback, |history| - 1) == Some(rec) && |rec.word| <= wordSize
    ensures Replays(history + [rec], firstGuess, feedback, wordSize)
  {
  }

  /** Consistent candidates are candidates, hence of the word size. */
  lemma {:induction false} ConsistentWithin(words: seq<Word>, history: seq<GuessResult>, wordSize: nat)
    requires forall w :: w in words ==> |w| == wordSize && wordSize >= 1
    ensures forall w :: w in Consistent(words, history) ==> |w| == wordSize && wordSize >= 1
  {
    forall w | w in Consistent(words, history) ensures |w| == wordSize && wordSize >= 1 {
      ConsistentIff(words, history, w);
    }
  }

  /** The interactive solver. The dictionary is filtered by word size and
      first letter and then by the first guess; while more than one
      candidate remains, a round of suggestions is produced, the next
      played word and mask are read, and the candidates are narrowed by the
      decoded record. */
  method Play(wordsList: seq<Word>, wordSize: nat, firstLetter: char, firstGuess: GuessResult,
              feedback: seq<(Word, string)>, entropy: (seq<nat>, nat) -> real)
    returns (outcome: Outcome, history: seq<GuessResult>, rounds: seq<Round>)
    ensures |firstGuess.word| > wordSize ==> outcome == GuessTooLong(firstGuess.word) && history == [] && rounds == []
    ensures |firstGuess.word| <= wordSize ==>
              Narrowed(Candidates(wordsList, wordSize, Some(firstLetter)), wordSize, firstGuess, feedback, entropy,
                       outcome, history, rounds)
  {
    var words := Candidates(wordsList, wordSize, Some(firstLetter));
    if |firstGuess.word| > wordSize {
      return GuessTooLong(firstGuess.word), [], [];
    }
    outcome, history, rounds := Converge(words, wordSize, firstGuess, feedback, entropy);
  }

  /** What a run of the loop over `words` establishes: the records it
      applied, the rounds it showed, and a final candidate set that agrees
      with how it ended. */
  predicate Narrowed(words: seq<Word>, wordSize: nat, firstGuess: GuessResult, feedback: seq<(Word, string)>,
                     entropy: (seq<nat>, nat) -> real, outcome: Outcome, history: seq<GuessResult>, rounds: seq<Round>)
    requires |words| > 0 ==> wordSize >= 1
  {
    && Replays(history, firstGuess, feedback, wordSize)
    && Shown(words, wordSize, history, rounds, entropy)
    && (outcome.Converged? ==> Consistent(words, history) == [outcome.answer] && |rounds| == |history| - 1)
    && (outcome.Contradiction? ==> Consistent(words, history) == [] && |rounds| == |history| - 1)
    && (outcome.BadMask? ==> && |rounds| == |history|
                             && outcome.mask == ReadFeedback(feedback, |history| - 1).1
                             && IntoCorrectness(outcome.mask).None?)
    && (outcome.GuessTooLong? ==> && |rounds| == |history|
                                  && outcome.guess == ReadFeedback(feedback, |history| - 1).0
                                  && IntoCorrectness(ReadFeedback(feedback, |history| - 1).1).Some?
                                  && |outcome.guess| > wordSize)
  }

  /** The `while` loop of the solver over the eligible words. */
  method Converge(words: seq<Word>, wordSize: nat, firstGuess: GuessResult,
                  feedback: seq<(Word, string)>, entropy: (seq<nat>, nat) -> real)
    returns (outcome: Outcome, history: seq<GuessResult>, rounds: seq<Round>)
    requires forall w :: w in words ==> |w| == wordSize && wordSize >= 1
    requires |words| > 0 ==> wordSize >= 1
    requires |firstGuess.word| <= wordSize
    ensures Narrowed(words, wordSize, firstGuess, feedback, entropy, outcome, history, rounds)
  {
    rounds := [];
    history := [firstGuess];
    var remaining := Narrow(words, firstGuess);
    assert [firstGuess][..0] == [];
    var next := 0;
    while |remaining| != 1
      invariant |history| == next + 1 && |rounds| == next
      invariant Replays(history, firstGuess, feedback, wordSize)
      invariant Shown(words, wordSize, history, rounds, entropy)
      invariant remaining == Consistent(words, history)
      invariant next > |feedback| ==> remaining == []
      decreases |feedback| + 1 - next
    {
      if |remaining| == 0 {
        Settled(words, wordSize, firstGuess, feedback, entropy, history, rounds, remaining);
        return Contradiction, history, rounds;
      }
      var bests := Rank(words, remaining, wordSize, entropy);
      ShownAddRound(words, wordSize, history, rounds, entropy, Round(bests, |remaining|, remaining));
      rounds := rounds + [Round(bests, |remaining|, remaining)];

      var step := NextStep(feedback, next, wordSize);
      if step.Stop? {
        Stopped(words, wordSize, firstGuess, feedback, entropy, history, rounds);
        return step.outcome, history, rounds;
      }
      Advance(words, wordSize, firstGuess, feedback, entropy, history, rounds, step.rec);
      remaining := Narrow(remaining, step.rec);
      history := history + [step.rec];
      next := next + 1;
    }
    Settled(words, wordSize, firstGuess, feedback, entropy, history, rounds, remaining);
    outcome := Converged(remaining[0]);
  }

  /** The rounds and records of the loop carry over to one more record;
      past the end of the input that record leaves no candidate. */
  lemma {:induction false} Advance(words: seq<Word>, wordSize: nat, firstGuess: GuessResult,
                                   feedback: seq<(Word, string)>, entropy: (seq<nat>, nat) -> real,
                                   history: seq<GuessResult>, rounds: seq<Round>, rec: GuessResult)
    requires forall w :: w in words ==> |w| == wordSize && wordSize >= 1
    requires |words| > 0 ==> wordSize >= 1
    requires Replays(history, firstGuess, feedback, wordSize)
    requires Shown(words, wordSize, history, rounds, entropy)
    requires NextStep(feedback, |history| - 1, wordSize) == Apply(rec)
    ensures Replays(history + [rec], firstGuess, feedback, wordSize)
    ensures Shown(words, wordSize, history + [rec], rounds, entropy)
    ensures Consistent(words, history + [rec]) == Narrow(Consistent(words, history), rec)
    ensures |history| > |feedback| ==> Consistent(words, history + [rec]) == []
  {
    ReplaysAddRecord(history, firstGuess, feedback, wordSize, rec);
    ShownAddRecord(words, wordSize, history, rounds, entropy, rec);
    assert (history + [rec])[..|history|] == history;
    if |history| > |feedback| {
      ConsistentWithin(words, history, wordSize);
      EndOfInputEmpties(feedback, |history| - 1, Consistent(words, history));
    }
  }

  /** A round whose lines stop the loop ends it as `Narrowed` describes. */
  lemma {:induction false} Stopped(words: seq<Word>, wordSize: nat, firstGuess: GuessResult,
                                   feedback: seq<(Word, string)>, entropy: (seq<nat>, nat) -> real,
                                   history: seq<GuessResult>, rounds: seq<Round>)
    requires |words| > 0 ==> wordSize >= 1
    requires Replays(history, firstGuess, feedback, wordSize)
    requires Shown(words, wordSize, history, rounds, entropy)
    requires |rounds| == |history| && NextStep(feedback, |history| - 1, wordSize).Stop?
    ensures Narrowed(words, wordSize, firstGuess, feedback, entropy,
                     NextStep(feedback, |history| - 1, wordSize).outcome, history, rounds)
  {
  }

  /** A candidate set with at most one word ends the loop as `Narrowed`
      describes. */
  lemma {:induction false} Settled(words: seq<Word>, wordSize: nat, firstGuess: GuessResult,
                                   feedback: seq<(Word, string)>, entropy: (seq<nat>, nat) -> real,
                                   history: seq<GuessResult>, rounds: seq<Round>, remaining: seq<Word>)
    requires |words| > 0 ==> wordSize >= 1
    requires Replays(history, firstGuess, feedback, wordSize)
    requires Shown(words, wordSize, history, rounds, entropy)
    requires |rounds| == |history| - 1 && remaining == Consistent(words, history) && |remaining| <= 1
    ensures Narrowed(words, wordSize, firstGuess, feedback, entropy,
                     if remaining == [] then Contradiction else Converged(remaining[0]), history, rounds)
  {
    if remaining != [] {
      assert remaining == [remaining[0]];
    }
  }

  /** Every record of `history` is the reply the hidden word `target`
      gives to the record's word. */
  predicate Honest(history: seq<GuessResult>, target: Word)
  {
    forall k :: 0 <= k < |history| ==>
      |history[k].word| <= |target| && history[k].correctness == PatternOf(target, history[k].word)
  }

  /** Narrowing by honest replies never drops the hidden word. */
  lemma {:induction false} HonestKeepsTarget(words: seq<Word>, history: seq<GuessResult>, target: Word)
    requires target in words && Honest(history, target)
    ensures target in Consistent(words, history)
  {
    ConsistentIff(words, history, target);
  }

  /** With honest replies a run never ends without candidates, and when it
      converges it names the hidden word. */
  lemma {:induction false} HonestRunFindsTarget(words: seq<Word>, wordSize: nat, firstGuess: GuessResult,
                             feedback: seq<(Word, string)>, entropy: (seq<nat>, nat) -> real,
                             outcome: Outcome, history: seq<GuessResult>, rounds: seq<Round>, target: Word)
    requires |words| > 0 ==> wordSize >= 1
    requires Narrowed(words, wordSize, firstGuess, feedback, entropy, outcome, history, rounds)
    requires target in words && Honest(history, target)
    ensures !outcome.Contradiction?
    ensures outcome.Converged? ==> outcome.answer == target
  {
    HonestKeepsTarget(words, history, target);
    if outcome.Converged? {
      assert target in [outcome.answer];
    }
  }
}

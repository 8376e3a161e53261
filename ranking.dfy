/**
 * The integer part of the entropy ranker: the enumeration of every
 * pattern of a word size (optionally with the first symbol pinned to
 * Correct), the number of candidates each pattern matches, the nonzero
 * bucket sizes the entropy is computed from, and the rule that records a
 * guess whenever its score beats the running maximum.
 */
module Ranking {
  import opened Feedback

  function Pow3(n: nat): nat
  {
    if n == 0 then 1 else 3 * Pow3(n - 1)
  }

  /** Every pattern of `ps`, with `s` put in front. */
  function Prefixed(s: Correctness, ps: seq<Pattern>): (r: seq<Pattern>)
    ensures |r| == |ps|
  {
    if ps == [] then [] else [[s] + ps[0]] + Prefixed(s, ps[1..])
  }

  /** The cartesian power of {Correct, Misplaced, Absent}: all patterns of
      length n, the first position varying slowest. */
  function AllPatterns(n: nat): (r: seq<Pattern>)
    ensures |r| == Pow3(n)
  {
    if n == 0 then [[]]
    else
      var rest := AllPatterns(n - 1);
      Prefixed(Correct, rest) + Prefixed(Misplaced, rest) + Prefixed(Absent, rest)
  }

  /** The patterns of the fixed-first-letter variants: Correct followed by
      every pattern of length n - 1. */
  function PinnedPatterns(n: nat): (r: seq<Pattern>)
    requires n >= 1
    ensures |r| == Pow3(n - 1)
  {
    Prefixed(Correct, AllPatterns(n - 1))
  }

  /** How many times `q` occurs in `ps`. */
  function Occurrences(ps: seq<Pattern>, q: Pattern): nat
  {
    if ps == [] then 0 else (if ps[0] == q then 1 else 0) + Occurrences(ps[1..], q)
  }

  lemma {:induction false} OccurrencesConcat(a: seq<Pattern>, b: seq<Pattern>, q: Pattern)
    ensures Occurrences(a + b, q) == Occurrences(a, q) + Occurrences(b, q)
  {
    if a == [] {
      assert a + b == b;
    } else {
      assert (a + b)[1..] == a[1..] + b;
      OccurrencesConcat(a[1..], b, q);
    }
  }

  /** A pattern is `s` followed by `p` exactly when its head is `s` and its
      tail is `p`. */
  lemma {:induction false} ConsIff(s: Correctness, p: Pattern, q: Pattern)
    ensures ([s] + p == q) <==> (|q| > 0 && q[0] == s && q[1..] == p)
  {
    if |q| > 0 && q[0] == s && q[1..] == p {
      assert q == [q[0]] + q[1..];
    }
  }

  lemma {:induction false} PrefixedCount(s: Correctness, ps: seq<Pattern>, q: Pattern)
    ensures Occurrences(Prefixed(s, ps), q) == if |q| > 0 && q[0] == s then Occurrences(ps, q[1..]) else 0
  {
    if ps != [] {
      var tail := ps[1..];
      var head := [s] + ps[0];
      assert Prefixed(s, ps) == [head] + Prefixed(s, tail);
      assert ([head] + Prefixed(s, tail))[1..] == Prefixed(s, tail);
      PrefixedCount(s, tail, q);
      ConsIff(s, ps[0], q);
      if |q| > 0 && q[0] == s {
        assert Occurrences(ps, q[1..]) == (if ps[0] == q[1..] then 1 else 0) + Occurrences(tail, q[1..]);
      }
    }
  }

  /** The enumeration of length n + 1 counts a pattern once per copy of
      its tail in the enumeration of length n, provided its first symbol
      is one of the three (which it always is). */
  lemma {:induction false} AllPatternsStep(n: nat, p: Pattern)
    ensures Occurrences(AllPatterns(n + 1), p) == if |p| > 0 then Occurrences(AllPatterns(n), p[1..]) else 0
  {
    var rest := AllPatterns(n);
    var c, m, a := Prefixed(Correct, rest), Prefixed(Misplaced, rest), Prefixed(Absent, rest);
    assert AllPatterns(n + 1) == c + m + a;
    OccurrencesConcat(c + m, a, p);
    OccurrencesConcat(c, m, p);
    PrefixedCount(Correct, rest, p);
    PrefixedCount(Misplaced, rest, p);
    PrefixedCount(Absent, rest, p);
  }

  /** Every pattern of length n is enumerated exactly once, and nothing else is. */
  lemma {:induction false} AllPatternsOnce(n: nat, p: Pattern)
    ensures Occurrences(AllPatterns(n), p) == if |p| == n then 1 else 0
  {
    if n == 0 {
      assert AllPatterns(0) == [[]];
      assert AllPatterns(0)[1..] == [];
    } else {
      AllPatternsStep(n - 1, p);
      if |p| > 0 {
        AllPatternsOnce(n - 1, p[1..]);
      }
    }
  }

  /** Every pattern of length n that starts with Correct is enumerated
      exactly once by the pinned variant, and nothing else is. */
  lemma {:induction false} PinnedPatternsOnce(n: nat, p: Pattern)
    requires n >= 1
    ensures Occurrences(PinnedPatterns(n), p) == if |p| == n && p[0] == Correct then 1 else 0
  {
    PrefixedAllOnce(n - 1, p);
  }

  lemma {:induction false} PrefixedAllOnce(n: nat, p: Pattern)
    ensures Occurrences(Prefixed(Correct, AllPatterns(n)), p) == if |p| == n + 1 && p[0] == Correct then 1 else 0
  {
    PrefixedCount(Correct, AllPatterns(n), p);
    if |p| > 0 && p[0] == Correct {
      AllPatternsOnce(n, p[1..]);
    }
  }

  /** Whether candidate `w` would reply `p` to `guess` (a candidate shorter
      than the guess never does). */
  predicate Fits(guess: Word, p: Pattern, w: Word)
  {
    |guess| <= |w| && Match(GuessResult(guess, p), w)
  }

  /** How many candidates `guess` with pattern `p` matches. */
  function MatchCount(words: seq<Word>, guess: Word, p: Pattern): (c: nat)
    ensures c <= |words|
  {
    if words == [] then 0
    else (if Fits(guess, p, words[0]) then 1 else 0) + MatchCount(words[1..], guess, p)
  }

  /** The nonzero match counts of the patterns, in enumeration order: the
      bucket sizes of the partition the guess induces. */
  function BucketSizes(guess: Word, words: seq<Word>, pats: seq<Pattern>): (b: seq<nat>)
    ensures |b| <= |pats|
    ensures forall i :: 0 <= i < |b| ==> 0 < b[i] <= |words|
  {
    if pats == [] then []
    else
      var k := |pats| - 1;
      var c := MatchCount(words, guess, pats[k]);
      BucketSizes(guess, words, pats[..k]) + (if c == 0 then [] else [c])
  }

  /** The candidates' reply letters summed over `pats`: how often each
      candidate's own pattern occurs among the enumerated ones. */
  function Hits(guess: Word, words: seq<Word>, pats: seq<Pattern>): nat
  {
    if words == [] then 0
    else (if |guess| <= |words[0]| then Occurrences(pats, PatternOf(words[0], guess)) else 0)
         + Hits(guess, words[1..], pats)
  }

  function Sum(xs: seq<nat>): nat
  {
    if xs == [] then 0 else Sum(xs[..|xs| - 1]) + xs[|xs| - 1]
  }

  /** The last enumerated pattern adds its match count to the hits. */
  lemma {:induction false} HitsLast(guess: Word, words: seq<Word>, pats: seq<Pattern>)
    requires pats != []
    ensures var k := |pats| - 1;
      Hits(guess, words, pats) == Hits(guess, words, pats[..k]) + MatchCount(words, guess, pats[k])
  {
    var k := |pats| - 1;
    if words != [] {
      HitsLast(guess, words[1..], pats);
      if |guess| <= |words[0]| {
        OccurrencesConcat(pats[..k], [pats[k]], PatternOf(words[0], guess));
        assert pats[..k] + [pats[k]] == pats;
        assert [pats[k]][1..] == [];
      }
    }
  }

  lemma {:induction false} SumLast(xs: seq<nat>, x: nat)
    ensures Sum(xs + [x]) == Sum(xs) + x
  {
    assert (xs + [x])[..|xs|] == xs;
  }

  /** The bucket sizes add up to how often the candidates' own patterns are
      enumerated. */
  lemma {:induction false} BucketsSumHits(guess: Word, words: seq<Word>, pats: seq<Pattern>)
    ensures Sum(BucketSizes(guess, words, pats)) == Hits(guess, words, pats)
  {
    if pats == [] {
      HitsNone(guess, words);
    } else {
      var k := |pats| - 1;
      var c := MatchCount(words, guess, pats[k]);
      var init := BucketSizes(guess, words, pats[..k]);
      BucketsSumHits(guess, words, pats[..k]);
      HitsLast(guess, words, pats);
      if c > 0 {
        SumLast(init, c);
      } else {
        assert init + [] == init;
      }
    }
  }

  lemma {:induction false} HitsNone(guess: Word, words: seq<Word>)
    ensures Hits(guess, words, []) == 0
  {
    if words != [] {
      HitsNone(guess, words[1..]);
    }
  }

  lemma {:induction false} HitsOnce(guess: Word, words: seq<Word>, pats: seq<Pattern>)
    requires forall w :: w in words ==> |guess| <= |w|
    requires forall w :: w in words ==> Occurrences(pats, PatternOf(w, guess)) == 1
    ensures Hits(guess, words, pats) == |words|
  {
    if words != [] {
      assert words[0] in words;
      HitsOnce(guess, words[1..], pats);
    }
  }

  /** Against candidates of the word size, the buckets over all patterns
      partition the candidates: their sizes add up to the number of
      candidates, so there are at most that many. */
  lemma {:induction false} PartitionAll(guess: Word, words: seq<Word>, n: nat)
    requires |guess| <= n
    requires forall w :: w in words ==> |w| == n
    ensures Sum(BucketSizes(guess, words, AllPatterns(n))) == |words|
    ensures |BucketSizes(guess, words, AllPatterns(n))| <= |words|
  {
    forall w | w in words ensures Occurrences(AllPatterns(n), PatternOf(w, guess)) == 1 {
      AllPatternsOnce(n, PatternOf(w, guess));
    }
    HitsOnce(guess, words, AllPatterns(n));
    BucketsSumHits(guess, words, AllPatterns(n));
    PositiveSumBound(BucketSizes(guess, words, AllPatterns(n)));
  }

  /** The same with the first symbol pinned, for candidates that share the
      guess's first letter. */
  lemma {:induction false} PartitionPinned(guess: Word, words: seq<Word>, n: nat)
    requires 1 <= |guess| <= n
    requires forall w :: w in words ==> |w| == n && w[0] == guess[0]
    ensures Sum(BucketSizes(guess, words, PinnedPatterns(n))) == |words|
    ensures |BucketSizes(guess, words, PinnedPatterns(n))| <= |words|
  {
    forall w | w in words ensures Occurrences(PinnedPatterns(n), PatternOf(w, guess)) == 1 {
      PinnedPatternsOnce(n, PatternOf(w, guess));
    }
    HitsOnce(guess, words, PinnedPatterns(n));
    BucketsSumHits(guess, words, PinnedPatterns(n));
    PositiveSumBound(BucketSizes(guess, words, PinnedPatterns(n)));
  }

  lemma {:induction false} PositiveSumBound(xs: seq<nat>)
    requires forall i :: 0 <= i < |xs| ==> xs[i] > 0
    ensures |xs| <= Sum(xs)
    ensures Sum(xs) == 1 ==> xs == [1]
  {
    if xs != [] {
      PositiveSumBound(xs[..|xs| - 1]);
    }
  }

  /** A single candidate falls into a single bucket of size one (the
      entropy computed from it is zero). */
  lemma {:induction false} SingleCandidateOneBucket(guess: Word, w: Word, n: nat)
    requires |guess| <= n && |w| == n
    ensures BucketSizes(guess, [w], AllPatterns(n)) == [1]
  {
    PartitionAll(guess, [w], n);
    PositiveSumBound(BucketSizes(guess, [w], AllPatterns(n)));
  }

  /** The same for the pinned enumeration, when the candidate shares the
      guess's first letter. */
  lemma {:induction false} SingleCandidateOnePinnedBucket(guess: Word, w: Word, n: nat)
    requires 1 <= |guess| <= n && |w| == n && w[0] == guess[0]
    ensures BucketSizes(guess, [w], PinnedPatterns(n)) == [1]
  {
    PartitionPinned(guess, [w], n);
    PositiveSumBound(BucketSizes(guess, [w], PinnedPatterns(n)));
  }

  /** The counting loop of the ranker: every enumerated pattern's match
      count, the zero ones skipped. */
  method CountBuckets(guess: Word, words: seq<Word>, pats: seq<Pattern>) returns (counts: seq<nat>)
    ensures counts == BucketSizes(guess, words, pats)
  {
    counts := [];
    for i := 0 to |pats|
      invariant counts == BucketSizes(guess, words, pats[..i])
    {
      assert pats[..i + 1][..i] == pats[..i];
      var c := MatchCount(words, guess, pats[i]);
      if c == 0 {
        continue;
      }
      counts := counts + [c];
    }
    assert pats[..|pats|] == pats;
  }

  // ---------------------------------------------------------------------
  // Selection of the suggestions
  // ---------------------------------------------------------------------

  /** The running maximum of the scores, starting from zero. */
  function BestScore(scores: seq<real>): (m: real)
    ensures m >= 0.0
    ensures forall i :: 0 <= i < |scores| ==> scores[i] <= m
    ensures m == 0.0 || exists i :: 0 <= i < |scores| && scores[i] == m
  {
    if scores == [] then 0.0
    else
      var k := |scores| - 1;
      var m := BestScore(scores[..k]);
      if scores[k] > m then scores[k] else m
  }

  /** The suggestions the ranker keeps: each word whose score is strictly
      greater than every score before it and than zero, in order. */
  function Bests(words: seq<Word>, scores: seq<real>): (b: seq<(Word, real)>)
    requires |words| == |scores|
    ensures |b| <= |scores|
  {
    if scores == [] then []
    else
      var k := |scores| - 1;
      var prev := Bests(words[..k], scores[..k]);
      if scores[k] > BestScore(scores[..k]) then prev + [(words[k], scores[k])] else prev
  }

  /** One more score extends the suggestions and the running maximum as
      the ranking loop does. */
  lemma {:induction false} BestsStep(words: seq<Word>, scores: seq<real>, i: nat)
    requires |words| == |scores| && i < |scores|
    ensures var m := BestScore(scores[..i]);
      && Bests(words[..i + 1], scores[..i + 1])
         == (if scores[i] > m then Bests(words[..i], scores[..i]) + [(words[i], scores[i])]
             else Bests(words[..i], scores[..i]))
      && BestScore(scores[..i + 1]) == (if scores[i] > m then scores[i] else m)
  {
    assert words[..i + 1][..i] == words[..i] && scores[..i + 1][..i] == scores[..i];
  }

  /** Every kept suggestion has a positive score no greater than the best
      one and comes from the input; there are none exactly when no score
      is positive, and the last one carries the best score. */
  lemma {:induction false} BestsBounded(words: seq<Word>, scores: seq<real>)
    requires |words| == |scores|
    ensures var b := Bests(words, scores);
      && (forall i :: 0 <= i < |b| ==> 0.0 < b[i].1 <= BestScore(scores) && b[i] in Zip(words, scores))
      && (b == [] <==> BestScore(scores) == 0.0)
      && (b != [] ==> b[|b| - 1].1 == BestScore(scores))
  {
    if scores != [] {
      var k := |scores| - 1;
      BestsBounded(words[..k], scores[..k]);
      ZipPrefix(words, scores, k);
      var prev, m := Bests(words[..k], scores[..k]), BestScore(scores[..k]);
      assert Zip(words, scores)[k] == (words[k], scores[k]);
      if scores[k] > m {
        var b := prev + [(words[k], scores[k])];
        assert Bests(words, scores) == b;
        assert forall i :: 0 <= i < |prev| ==> b[i] == prev[i];
      }
    }
  }

  /** The kept suggestions have strictly increasing positive scores, each
      comes from the input, and the last one carries the best score. */
  lemma {:induction false} BestsShape(words: seq<Word>, scores: seq<real>)
    requires |words| == |scores|
    ensures var b := Bests(words, scores);
      && (forall i, j :: 0 <= i < j < |b| ==> b[i].1 < b[j].1)
      && (forall i :: 0 <= i < |b| ==> b[i].1 > 0.0 && b[i] in Zip(words, scores))
      && (b == [] <==> BestScore(scores) == 0.0)
      && (b != [] ==> b[|b| - 1].1 == BestScore(scores))
  {
    BestsBounded(words, scores);
    if scores != [] {
      var k := |scores| - 1;
      BestsShape(words[..k], scores[..k]);
      BestsBounded(words[..k], scores[..k]);
      var prev, m := Bests(words[..k], scores[..k]), BestScore(scores[..k]);
      if scores[k] > m {
        var b := prev + [(words[k], scores[k])];
        assert Bests(words, scores) == b;
        forall i, j | 0 <= i < j < |b| ensures b[i].1 < b[j].1 {
          assert b[i] == prev[i];
          if j < |prev| {
            assert b[j] == prev[j];
          }
        }
      }
    }
  }

  lemma {:induction false} ZipPrefix(words: seq<Word>, scores: seq<real>, k: nat)
    requires |words| == |scores| && k <= |scores|
    ensures forall e :: e in Zip(words[..k], scores[..k]) ==> e in Zip(words, scores)
  {
    forall e | e in Zip(words[..k], scores[..k]) ensures e in Zip(words, scores) {
      var i :| 0 <= i < k && Zip(words[..k], scores[..k])[i] == e;
      assert Zip(words, scores)[i] == e;
    }
  }

  /** Pairs each word with its score. */
  function Zip(words: seq<Word>, scores: seq<real>): (z: seq<(Word, real)>)
    requires |words| == |scores|
    ensures |z| == |words|
    ensures forall i :: 0 <= i < |z| ==> z[i] == (words[i], scores[i])
  {
    seq(|words|, i requires 0 <= i < |words| => (words[i], scores[i]))
  }
}

/**
 * The candidate filters: the word-size and first-letter filters applied to
 * the dictionary, the match filter of `display_match`, and the narrowing of
 * the remaining candidates by one guess record.
 */
module Filters {
  import opened Wrappers
  import opened Feedback

  /** `a` is `b` with some elements left out, order kept. */
  predicate IsSubsequence<T(==)>(a: seq<T>, b: seq<T>)
    decreases |b|
  {
    if a == [] then true
    else if b == [] then false
    else (a[0] == b[0] && IsSubsequence(a[1..], b[1..])) || IsSubsequence(a, b[1..])
  }

  /** The elements of `s` that satisfy `keep`, in their order. */
  function Filter<T(==,!new)>(s: seq<T>, keep: T -> bool): (r: seq<T>)
    ensures |r| <= |s|
  {
    if s == [] then []
    else
      var rest := Filter(s[1..], keep);
      if keep(s[0]) then [s[0]] + rest else rest
  }

  /** The filter keeps every copy of an element that satisfies `keep` and
      no copy of any other, in their order. */
  lemma {:induction false} FilterFacts<T(!new)>(s: seq<T>, keep: T -> bool)
    ensures var r := Filter(s, keep);
      && (forall x :: multiset(r)[x] == if keep(x) then multiset(s)[x] else 0)
      && (forall x :: x in r <==> x in s && keep(x))
      && IsSubsequence(r, s)
  {
    if s != [] {
      FilterFacts(s[1..], keep);
      assert s == [s[0]] + s[1..];
    }
  }

  /** A filter that keeps no element of `s` returns nothing. */
  lemma {:induction false} FilterNone<T(!new)>(s: seq<T>, keep: T -> bool)
    requires forall x :: x in s ==> !keep(x)
    ensures Filter(s, keep) == []
  {
    if s != [] {
      assert s[0] in s;
      FilterNone(s[1..], keep);
    }
  }

  /** The dictionary filter: `word_size` characters and, when one is
      configured, the given first letter (a word without a first letter
      never passes that test). */
  predicate Eligible(w: Word, wordSize: nat, firstLetter: Option<char>)
  {
    |w| == wordSize && (firstLetter.Some? ==> |w| > 0 && w[0] == firstLetter.value)
  }

  /** The candidate set a run starts from. */
  function Candidates(wordsList: seq<Word>, wordSize: nat, firstLetter: Option<char>): (r: seq<Word>)
    ensures forall w :: w in r ==> |w| == wordSize
    ensures firstLetter.Some? ==> forall w :: w in r ==> |w| > 0 && w[0] == firstLetter.value
    ensures forall w :: w in wordsList && Eligible(w, wordSize, firstLetter) ==> w in r
    ensures IsSubsequence(r, wordsList)
    ensures forall w :: multiset(r)[w] == if Eligible(w, wordSize, firstLetter) then multiset(wordsList)[w] else 0
    ensures firstLetter.Some? && r != [] ==> wordSize >= 1
  {
    FilterFacts(wordsList, w => Eligible(w, wordSize, firstLetter));
    var r := Filter(wordsList, w => Eligible(w, wordSize, firstLetter));
    assert r != [] ==> r[0] in r;
    r
  }

  /** The words of the list that are eligible and consistent with `guess`. */
  function DisplayMatch(wordsList: seq<Word>, wordSize: nat, firstLetter: char, guess: GuessResult): (r: seq<Word>)
    requires |guess.word| <= wordSize
    ensures forall w :: w in r <==> w in wordsList && Eligible(w, wordSize, Some(firstLetter)) && Match(guess, w)
    ensures IsSubsequence(r, wordsList)
  {
    FilterFacts(wordsList, w => Eligible(w, wordSize, Some(firstLetter)) && Match(guess, w));
    Filter(wordsList, w => Eligible(w, wordSize, Some(firstLetter)) && Match(guess, w))
  }

  /** Keeps the candidates that are consistent with `rec`; a word shorter
      than the recorded guess cannot be compared and is dropped. */
  function Narrow(remaining: seq<Word>, rec: GuessResult): (r: seq<Word>)
    ensures |r| <= |remaining|
  {
    Filter(remaining, w => |rec.word| <= |w| && Match(rec, w))
  }

  /** A word survives narrowing exactly when it was a candidate that can be
      compared with `rec` and reproduces its pattern; the survivors keep
      their order. */
  lemma {:induction false} NarrowIff(remaining: seq<Word>, rec: GuessResult, w: Word)
    ensures w in Narrow(remaining, rec) <==> w in remaining && |rec.word| <= |w| && Match(rec, w)
    ensures IsSubsequence(Narrow(remaining, rec), remaining)
  {
    FilterFacts(remaining, w => |rec.word| <= |w| && Match(rec, w));
  }

  /** Three candidates that differ only in the last two letters: an all
      Correct reply to "abce" keeps "abce" alone. */
  lemma {:induction false} NarrowAllCorrectExample()
    ensures Narrow(["abce", "abde", "abcf"], GuessResult("abce", [Correct, Correct, Correct, Correct])) == ["abce"]
  {
    var g := "abce";
    SelfGuessAllCorrect(g);
    assert PatternOf(g, g) == [Correct, Correct, Correct, Correct];
    CorrectIff("abde", g, 2);
    CorrectIff("abcf", g, 3);
    var ws := ["abce", "abde", "abcf"];
    assert ws[1..] == ["abde", "abcf"] && ws[1..][1..] == ["abcf"] && ws[1..][1..][1..] == [];
  }

  /** The same candidates: a reply to "abce" that is Correct but for an
      Absent last letter keeps "abcf", the word whose last letter is not
      the guess's. */
  lemma {:induction false} NarrowLastAbsentExample()
    ensures Narrow(["abce", "abde", "abcf"], GuessResult("abce", [Correct, Correct, Correct, Absent])) == ["abcf"]
  {
    var g := "abce";
    SelfGuessAllCorrect(g);
    CorrectIff("abce", g, 3);
    CorrectIff("abde", g, 2);
    CorrectIff("abcf", g, 0);
    CorrectIff("abcf", g, 1);
    CorrectIff("abcf", g, 2);
    AbsentLetter("abcf", g, 3);
    assert PatternOf("abcf", g) == [Correct, Correct, Correct, Absent];
    var ws := ["abce", "abde", "abcf"];
    assert ws[1..] == ["abde", "abcf"] && ws[1..][1..] == ["abcf"] && ws[1..][1..][1..] == [];
  }

  /** Narrowing by the reply the hidden word itself produced never drops
      the hidden word. */
  lemma {:induction false} NarrowKeepsTarget(remaining: seq<Word>, target: Word, guess: Word)
    requires target in remaining && |guess| <= |target|
    ensures target in Narrow(remaining, GuessResult(guess, PatternOf(target, guess)))
  {
    MatchReflexive(target, guess);
    NarrowIff(remaining, GuessResult(guess, PatternOf(target, guess)), target);
  }
}

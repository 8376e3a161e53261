/**
 * The pattern engine of the solver: the per-position reply to a guess
 * against a hidden target, the match test built on it, and the decoder of
 * the textual feedback mask.
 *
 * The engine is modelled as the program writes it, in a single pass over
 * the guess: a position whose letter equals the target's letter is Correct
 * whatever was consumed before, and any other position consumes EVERY
 * still unused copy of its letter in the target (the scan does not stop at
 * the first one).
 */
module Feedback {
  import opened Wrappers

  /** One symbol of the game's reply for one guess position. */
  datatype Correctness = Correct | Misplaced | Absent

  type Word = seq<char>
  type Pattern = seq<Correctness>

  /** A played (or hypothetical) word together with the reply it received. */
  datatype GuessResult = GuessResult(word: Word, correctness: Pattern)

  // ---------------------------------------------------------------------
  // Closed-form specification of the single-pass engine
  // ---------------------------------------------------------------------

  /** Processing guess position k marks target position j as used: its own
      position when k is Correct, otherwise every copy of its letter. */
  predicate Consumes(target: Word, guess: Word, k: nat, j: nat)
    requires k < |guess| <= |target| && j < |target|
  {
    if target[k] == guess[k] then j == k else target[j] == guess[k]
  }

  /** Target position j has been used by one of the guess positions before i. */
  predicate UsedBefore(target: Word, guess: Word, i: nat, j: nat)
    requires i <= |guess| <= |target| && j < |target|
  {
    exists k :: 0 <= k < i && Consumes(target, guess, k, j)
  }

  /** Target position j still holds an unused copy of the letter at guess position i. */
  predicate FreeCopy(target: Word, guess: Word, i: nat, j: nat)
    requires i < |guess| <= |target| && j < |target|
  {
    !UsedBefore(target, guess, i, j) && target[j] == guess[i]
  }

  /** The symbol the engine writes at position i (Absent where nothing is written). */
  function Symbol(target: Word, guess: Word, i: nat): Correctness
    requires |guess| <= |target| && i < |target|
  {
    if i < |guess| && guess[i] == target[i] then Correct
    else if i < |guess| && exists j :: 0 <= j < |target| && FreeCopy(target, guess, i, j) then Misplaced
    else Absent
  }

  /** The reply to `guess` when the hidden word is `target`. */
  function PatternOf(target: Word, guess: Word): Pattern
    requires |guess| <= |target|
  {
    seq(|target|, i requires 0 <= i < |target| => Symbol(target, guess, i))
  }

  lemma {:induction false} UsedBeforeStep(target: Word, guess: Word, i: nat, j: nat)
    requires i < |guess| <= |target| && j < |target|
    ensures UsedBefore(target, guess, i + 1, j) <==> UsedBefore(target, guess, i, j) || Consumes(target, guess, i, j)
  {
    if UsedBefore(target, guess, i + 1, j) {
      var k :| 0 <= k < i + 1 && Consumes(target, guess, k, j);
      if k < i {
        assert UsedBefore(target, guess, i, j);
      }
    }
    if Consumes(target, guess, i, j) {
      assert 0 <= i < i + 1 && Consumes(target, guess, i, j);
    }
    if UsedBefore(target, guess, i, j) {
      var k :| 0 <= k < i && Consumes(target, guess, k, j);
      assert 0 <= k < i + 1 && Consumes(target, guess, k, j);
    }
  }

  // ---------------------------------------------------------------------
  // The engine itself
  // ---------------------------------------------------------------------

  /** The program's engine: one pass over the guess, updating a `used`
      flag per target position and the result position by position. */
  method Compute(target: Word, guess: Word) returns (r: GuessResult)
    requires |guess| <= |target|
    ensures r.word == guess
    ensures r.correctness == PatternOf(target, guess)
  {
    var correctness := new Correctness[|target|](_ => Absent);
    var used := new bool[|target|](_ => false);
    for i := 0 to |guess|
      invariant forall j :: 0 <= j < |target| ==> used[j] == UsedBefore(target, guess, i, j)
      invariant forall k :: 0 <= k < |target| ==>
                  correctness[k] == if k < i then Symbol(target, guess, k) else Absent
    {
      var c := guess[i];
      if target[i] == c {
        used[i] := true;
        correctness[i] := Correct;
        forall j | 0 <= j < |target|
          ensures used[j] == UsedBefore(target, guess, i + 1, j)
        {
          UsedBeforeStep(target, guess, i, j);
        }
        continue;
      }
      for j := 0 to |target|
        invariant forall j' :: 0 <= j' < |target| ==>
                    used[j'] == if j' < j then UsedBefore(target, guess, i + 1, j')
                                else UsedBefore(target, guess, i, j')
        invariant correctness[i] == if exists j' :: 0 <= j' < j && FreeCopy(target, guess, i, j')
                                    then Misplaced else Absent
        invariant forall k :: 0 <= k < |target| && k != i ==>
                    correctness[k] == if k < i then Symbol(target, guess, k) else Absent
      {
        UsedBeforeStep(target, guess, i, j);
        if used[j] {
          assert !FreeCopy(target, guess, i, j);
          continue;
        }
        if target[j] == c {
          assert FreeCopy(target, guess, i, j);
          used[j] := true;
          correctness[i] := Misplaced;
        } else {
          assert !FreeCopy(target, guess, i, j);
        }
      }
    }
    r := GuessResult(guess, correctness[..]);
  }

  // ---------------------------------------------------------------------
  // Properties of the engine
  // ---------------------------------------------------------------------

  /** A word guessed against itself is Correct everywhere. */
  lemma {:induction false} SelfGuessAllCorrect(w: Word)
    ensures PatternOf(w, w) == seq(|w|, _ => Correct)
  {
  }

  /** Position i is Correct exactly when the letters agree there, whatever
      earlier positions consumed. */
  lemma {:induction false} CorrectIff(target: Word, guess: Word, i: nat)
    requires |guess| <= |target| && i < |target|
    ensures |PatternOf(target, guess)| == |target|
    ensures PatternOf(target, guess)[i] == Correct <==> i < |guess| && guess[i] == target[i]
  {
  }

  /** A letter that does not occur in the target yields Absent, and positions
      past the end of a shorter guess are Absent. */
  lemma {:induction false} AbsentLetter(target: Word, guess: Word, i: nat)
    requires |guess| <= |target| && i < |target|
    requires i < |guess| ==> guess[i] !in target
    ensures PatternOf(target, guess)[i] == Absent
  {
  }

  /** A Misplaced position has its letter elsewhere in the target. */
  lemma {:induction false} MisplacedWitness(target: Word, guess: Word, i: nat)
    requires |guess| <= |target| && i < |target|
    requires PatternOf(target, guess)[i] == Misplaced
    ensures i < |guess|
    ensures exists j :: 0 <= j < |target| && j != i && target[j] == guess[i]
  {
    var j :| 0 <= j < |target| && FreeCopy(target, guess, i, j);
    assert j != i && target[j] == guess[i];
  }

  /** Because a Misplaced hit consumes every free copy of its letter, one
      letter of the guess is Misplaced at most once. */
  lemma {:induction false} MisplacedOncePerLetter(target: Word, guess: Word, i: nat, i': nat)
    requires |guess| <= |target| && i < i' < |target|
    requires PatternOf(target, guess)[i] == Misplaced
    requires PatternOf(target, guess)[i'] == Misplaced
    ensures guess[i] != guess[i']
  {
    if guess[i] == guess[i'] {
      var j :| 0 <= j < |target| && FreeCopy(target, guess, i', j);
      assert Consumes(target, guess, i, j);
      assert UsedBefore(target, guess, i', j);
      assert false;
    }
  }

  /** Misplaced, stated letter by letter: the letters differ at i, no earlier
      position with the same letter missed its own target letter, and the
      target holds a copy of the letter that no earlier Correct position took. */
  lemma {:induction false} MisplacedIff(target: Word, guess: Word, i: nat)
    requires |guess| <= |target| && i < |guess|
    ensures PatternOf(target, guess)[i] == Misplaced <==>
              && guess[i] != target[i]
              && (forall k :: 0 <= k < i && guess[k] == guess[i] ==> target[k] == guess[k])
              && (exists j :: 0 <= j < |target| && target[j] == guess[i] && !(j < i && target[j] == guess[j]))
  {
    var p := PatternOf(target, guess);
    if p[i] == Misplaced {
      var j :| 0 <= j < |target| && FreeCopy(target, guess, i, j);
      forall k | 0 <= k < i && guess[k] == guess[i]
        ensures target[k] == guess[k]
      {
        assert !Consumes(target, guess, k, j);
      }
      if j < i && target[j] == guess[j] {
        assert Consumes(target, guess, j, j);
      }
    }
    if && guess[i] != target[i]
       && (forall k :: 0 <= k < i && guess[k] == guess[i] ==> target[k] == guess[k])
       && (exists j :: 0 <= j < |target| && target[j] == guess[i] && !(j < i && target[j] == guess[j]))
    {
      var j :| 0 <= j < |target| && target[j] == guess[i] && !(j < i && target[j] == guess[j]);
      assert FreeCopy(target, guess, i, j);
    }
  }

  /** The scan does not stop: the first B of "baab" takes both B's of
      "abba", the first A both A's, so the last two positions are Absent. */
  lemma {:induction false} ConsumesEveryCopy()
    ensures PatternOf("abba", "baab") == [Misplaced, Misplaced, Absent, Absent]
  {
    var t, g := "abba", "baab";
    assert FreeCopy(t, g, 0, 1);
    assert FreeCopy(t, g, 1, 0);
    assert Consumes(t, g, 0, 2) && Consumes(t, g, 1, 0) && Consumes(t, g, 1, 3);
    forall j | 0 <= j < 4 ensures !FreeCopy(t, g, 2, j) && !FreeCopy(t, g, 3, j) {
      assert Consumes(t, g, 0, j) || Consumes(t, g, 1, j) || (t[j] != g[2] && t[j] != g[3]);
    }
  }

  /** The Correct test ignores `used`: target "ab", guess "bb" gives
      Misplaced at 0 (taking target position 1) and still Correct at 1. */
  lemma {:induction false} CorrectIgnoresUsed()
    ensures PatternOf("ab", "bb") == [Misplaced, Correct]
  {
    assert FreeCopy("ab", "bb", 0, 1);
  }

  /** A traced round: target "allow", guess "llama". The first l takes
      both l's of the target, the second l is still Correct, the first a
      takes the only a, and the last a finds nothing left. */
  lemma {:induction false} AllowLlama()
    ensures PatternOf("allow", "llama") == [Misplaced, Correct, Misplaced, Absent, Absent]
  {
    var t, g := "allow", "llama";
    assert FreeCopy(t, g, 0, 1);
    assert FreeCopy(t, g, 2, 0) by {
      assert forall k :: 0 <= k < 2 ==> !Consumes(t, g, k, 0);
    }
    AbsentLetter(t, g, 3);
    assert Consumes(t, g, 2, 0);
    forall j | 0 <= j < 5 ensures !FreeCopy(t, g, 4, j) {
      assert t[j] != g[4] || Consumes(t, g, 2, j);
    }
  }

  // ---------------------------------------------------------------------
  // Match predicate
  // ---------------------------------------------------------------------

  /** `rec` is what the program would reply had `word` been the hidden word:
      the stored pattern equals the computed one, length included. */
  predicate Match(rec: GuessResult, word: Word): (b: bool)
    requires |rec.word| <= |word|
    ensures b ==> |rec.correctness| == |word|
    ensures b ==> forall i :: 0 <= i < |rec.word| ==> (rec.correctness[i] == Correct <==> rec.word[i] == word[i])
  {
    rec.correctness == PatternOf(word, rec.word)
  }

  /** The match test compares lengths and then every position. */
  lemma {:induction false} MatchIff(rec: GuessResult, word: Word)
    requires |rec.word| <= |word|
    ensures Match(rec, word) <==>
              && |rec.correctness| == |word|
              && forall i :: 0 <= i < |word| ==> rec.correctness[i] == Symbol(word, rec.word, i)
  {
  }

  /** Every target matches the reply it itself produces. */
  lemma {:induction false} MatchReflexive(target: Word, guess: Word)
    requires |guess| <= |target|
    ensures Match(GuessResult(guess, PatternOf(target, guess)), target)
  {
  }

  /** A matching word agrees with the guess exactly at the Correct positions,
      and holds every Misplaced letter at some other position. */
  lemma {:induction false} MatchConstrains(rec: GuessResult, word: Word, i: nat)
    requires |rec.word| <= |word| && Match(rec, word) && i < |rec.word|
    ensures rec.correctness[i] == Correct <==> rec.word[i] == word[i]
    ensures rec.correctness[i] == Misplaced ==>
              exists j :: 0 <= j < |word| && j != i && word[j] == rec.word[i]
  {
    if rec.correctness[i] == Misplaced {
      MisplacedWitness(word, rec.word, i);
    }
  }

  // ---------------------------------------------------------------------
  // Feedback masks
  // ---------------------------------------------------------------------

  /** The symbol a mask letter stands for; any other letter is rejected. */
  function SymbolOf(l: char): (r: Option<Correctness>)
    ensures r.Some? <==> l in "CMA"
  {
    match l
    case 'C' => Some(Correct)
    case 'M' => Some(Misplaced)
    case 'A' => Some(Absent)
    case _ => None
  }

  /** The mask letter of a symbol. */
  function LetterOf(c: Correctness): (l: char)
    ensures SymbolOf(l) == Some(c)
  {
    match c
    case Correct => 'C'
    case Misplaced => 'M'
    case Absent => 'A'
  }

  /** Decodes a mask; a letter outside C, M, A is the program's fatal
      `unreachable!`, here None. */
  function IntoCorrectness(mask: string): (r: Option<Pattern>)
    ensures r.Some? <==> forall i :: 0 <= i < |mask| ==> mask[i] in "CMA"
    ensures r.Some? ==> |r.value| == |mask| &&
                        forall i :: 0 <= i < |mask| ==> SymbolOf(mask[i]) == Some(r.value[i])
  {
    if mask == [] then Some([])
    else
      var head, rest := SymbolOf(mask[0]), IntoCorrectness(mask[1..]);
      if head.Some? && rest.Some? then Some([head.value] + rest.value)
      else
        assert head.None? ==> mask[0] !in "CMA";
        assert rest.None? ==> exists i :: 1 <= i < |mask| && mask[i] !in "CMA" by {
          if rest.None? {
            var i :| 0 <= i < |mask[1..]| && mask[1..][i] !in "CMA";
            assert mask[i + 1] !in "CMA";
          }
        }
        None
  }

  /** The mask of a pattern. */
  function MaskOf(p: Pattern): (s: string)
    ensures |s| == |p|
  {
    seq(|p|, i requires 0 <= i < |p| => LetterOf(p[i]))
  }

  /** Decoding the mask of a pattern gives the pattern back. */
  lemma {:induction false} DecodeMask(p: Pattern)
    ensures IntoCorrectness(MaskOf(p)) == Some(p)
  {
    var r := IntoCorrectness(MaskOf(p));
    assert r.value == p;
  }

  /** A mask that decodes is the mask of what it decodes to. */
  lemma {:induction false} EncodeDecoded(mask: string)
    requires IntoCorrectness(mask).Some?
    ensures MaskOf(IntoCorrectness(mask).value) == mask
  {
    var p := IntoCorrectness(mask).value;
    forall i | 0 <= i < |mask| ensures MaskOf(p)[i] == mask[i] {
      assert SymbolOf(mask[i]) == Some(p[i]);
    }
  }
}

/**
  Worked evaluations of single guesses. Each is read off the map-free
  reference verdicts (`Evaluator.Reference`) one position at a time, and
  carried over to the left-to-right pass by `Evaluator.EvaluateIsReference`.

  Each scenario is stated on the literal words, and proved by a lemma that
  takes the words as parameters required equal to the literals: with the
  literals written into the proof itself, the verifier unfolds the whole
  evaluation of the literal words and runs out of resources.
 */
module Scenarios {
  import opened Types
  import opened Letters
  import opened Evaluator

  /** One reference verdict, given how often the guessed letter occurs in
      the guess before position `i` (`used`) and in the target (`total`). */
  lemma Verdict(guess: string, target: string, i: nat, prefix: string, used: nat, total: nat, want: LetterState)
    requires |guess| == WORD_LENGTH && |target| == WORD_LENGTH && i < WORD_LENGTH
    requires guess[..i] == prefix
    requires Occurrences(prefix, guess[i]) == used && Occurrences(target, guess[i]) == total
    requires want == if used < total then (if target[i] == guess[i] then FullMatch else PartialMatch) else Wrong
    ensures Reference(guess, target)[i] == want
  {
  }

  /** Five verdicts agreeing position by position make equal rows. */
  lemma Listing(r: seq<LetterState>, w: seq<LetterState>)
    requires |r| == |w| == WORD_LENGTH
    requires r[0] == w[0] && r[1] == w[1] && r[2] == w[2] && r[3] == w[3] && r[4] == w[4]
    ensures r == w
  {
  }

  /** Target "happy", guess "apply": the first 'p' takes a partial match and
      the second the exact one; 'l' is not in the target. */
  lemma HappyApply()
    ensures Evaluate("apply", "happy", LetterCounts("happy")) == [PartialMatch, PartialMatch, FullMatch, Wrong, FullMatch]
  {
    HappyApplyOn("apply", "happy");
  }

  lemma HappyApplyOn(g: string, t: string)
    requires g == "apply" && t == "happy"
    ensures Evaluate(g, t, LetterCounts(t)) == [PartialMatch, PartialMatch, FullMatch, Wrong, FullMatch]
  {
    EvaluateIsReference(g, t);
    HappyApplyReference(g, t);
  }

  lemma HappyApplyReference(g: string, t: string)
    requires g == "apply" && t == "happy"
    ensures Reference(g, t) == [PartialMatch, PartialMatch, FullMatch, Wrong, FullMatch]
  {
    assert Occurrences("happy", 'a') == 1 && Occurrences("happy", 'p') == 2;
    assert Occurrences("happy", 'l') == 0 && Occurrences("happy", 'y') == 1;
    Verdict(g, t, 0, "", 0, 1, PartialMatch);
    Verdict(g, t, 1, "a", 0, 2, PartialMatch);
    Verdict(g, t, 2, "ap", 1, 2, FullMatch);
    Verdict(g, t, 3, "app", 0, 0, Wrong);
    Verdict(g, t, 4, "appl", 0, 1, FullMatch);
    Listing(Reference(g, t), [PartialMatch, PartialMatch, FullMatch, Wrong, FullMatch]);
  }

  /** Target "crane", guess "candy": 'c' in place, 'a' and 'n' elsewhere in
      the target, 'd' and 'y' absent. */
  lemma CraneCandy()
    ensures Evaluate("candy", "crane", LetterCounts("crane")) == [FullMatch, PartialMatch, PartialMatch, Wrong, Wrong]
  {
    CraneCandyOn("candy", "crane");
  }

  lemma CraneCandyOn(g: string, t: string)
    requires g == "candy" && t == "crane"
    ensures Evaluate(g, t, LetterCounts(t)) == [FullMatch, PartialMatch, PartialMatch, Wrong, Wrong]
  {
    EvaluateIsReference(g, t);
    CraneCandyReference(g, t);
  }

  lemma CraneCandyReference(g: string, t: string)
    requires g == "candy" && t == "crane"
    ensures Reference(g, t) == [FullMatch, PartialMatch, PartialMatch, Wrong, Wrong]
  {
    assert Occurrences("crane", 'c') == 1 && Occurrences("crane", 'a') == 1 && Occurrences("crane", 'n') == 1;
    assert Occurrences("crane", 'd') == 0 && Occurrences("crane", 'y') == 0;
    Verdict(g, t, 0, "", 0, 1, FullMatch);
    Verdict(g, t, 1, "c", 0, 1, PartialMatch);
    Verdict(g, t, 2, "ca", 0, 1, PartialMatch);
    Verdict(g, t, 3, "can", 0, 0, Wrong);
    Verdict(g, t, 4, "cand", 0, 0, Wrong);
    Listing(Reference(g, t), [FullMatch, PartialMatch, PartialMatch, Wrong, Wrong]);
  }

  /** Target "night", guess "tight": the leading 't' uses up the target's
      only 't' as a partial match, so the 't' in its exact position comes
      out Wrong. The single pass is order dependent by design; an
      exact-matches-first evaluation would give [Wrong, .., FullMatch]. */
  lemma NightTight()
    ensures Evaluate("tight", "night", LetterCounts("night")) == [PartialMatch, FullMatch, FullMatch, FullMatch, Wrong]
  {
    NightTightOn("tight", "night");
  }

  lemma NightTightOn(g: string, t: string)
    requires g == "tight" && t == "night"
    ensures Evaluate(g, t, LetterCounts(t)) == [PartialMatch, FullMatch, FullMatch, FullMatch, Wrong]
  {
    EvaluateIsReference(g, t);
    NightTightReference(g, t);
  }

  lemma NightTightReference(g: string, t: string)
    requires g == "tight" && t == "night"
    ensures Reference(g, t) == [PartialMatch, FullMatch, FullMatch, FullMatch, Wrong]
  {
    assert Occurrences("night", 't') == 1 && Occurrences("night", 'i') == 1;
    assert Occurrences("night", 'g') == 1 && Occurrences("night", 'h') == 1;
    assert Occurrences("tigh", 't') == 1;
    Verdict(g, t, 0, "", 0, 1, PartialMatch);
    Verdict(g, t, 1, "t", 0, 1, FullMatch);
    Verdict(g, t, 2, "ti", 0, 1, FullMatch);
    Verdict(g, t, 3, "tig", 0, 1, FullMatch);
    Verdict(g, t, 4, "tigh", 1, 1, Wrong);
    Listing(Reference(g, t), [PartialMatch, FullMatch, FullMatch, FullMatch, Wrong]);
  }
}

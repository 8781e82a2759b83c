/**
  The guess evaluator: one left-to-right pass over the positions of a guess,
  working on a private copy of the target word's letter-count map.

  At position i, with `left` the remaining count of the guessed letter:
  - the guessed letter equals the target's letter at i and `left > 0`:
    FullMatch, one occurrence used;
  - otherwise, the target contains the letter and `left > 0`:
    PartialMatch, one occurrence used;
  - otherwise Wrong.
  The pass is order dependent: an earlier PartialMatch may use up the last
  occurrence a later exact position needed (see Scenarios.NightTight).
 */
module Evaluator {
  import opened Types
  import opened Letters

  /** The states decided so far and the counts still unused. */
  datatype Pass = Pass(states: seq<LetterState>, remaining: map<char, nat>)

  /** The verdict at one position, given the remaining count `left` of the
      guessed letter. */
  function Judge(got: char, expected: char, target: string, left: nat): (r: LetterState)
    ensures IsVerdict(r)
    ensures Consumes(r) <==> left > 0 && (got == expected || got in target)
    ensures r == FullMatch <==> got == expected && left > 0
    ensures left == 0 ==> r == Wrong
  {
    if expected == got && left > 0 then FullMatch
    else if got in target && left > 0 then PartialMatch
    else Wrong
  }

  /** The fold over the first `n` positions, starting from `counts`. */
  function EvalPrefix(guess: string, target: string, counts: map<char, nat>, n: nat): (r: Pass)
    requires n <= |guess| && n <= |target|
    ensures |r.states| == n
    ensures forall i :: 0 <= i < n ==> IsVerdict(r.states[i])
    decreases n
  {
    if n == 0 then Pass([], counts)
    else
      var prev := EvalPrefix(guess, target, counts, n - 1);
      var got := guess[n - 1];
      var left := Get(prev.remaining, got);
      var s := Judge(got, target[n - 1], target, left);
      Pass(prev.states + [s], if Consumes(s) then prev.remaining[got := left - 1] else prev.remaining)
  }

  /** Unfolds one step of the fold: the earlier states are kept and one
      verdict is appended. */
  lemma EvalStep(guess: string, target: string, counts: map<char, nat>, n: nat)
    requires 0 < n <= |guess| && n <= |target|
    ensures var prev := EvalPrefix(guess, target, counts, n - 1);
            var r := EvalPrefix(guess, target, counts, n);
            && r.states[..n - 1] == prev.states
            && r.states[n - 1] == Judge(guess[n - 1], target[n - 1], target, Get(prev.remaining, guess[n - 1]))
  {
  }

  /** Unfolds one step of the fold: only the guessed letter's count moves,
      by one when its verdict uses an occurrence. */
  lemma EvalStepCounts(guess: string, target: string, counts: map<char, nat>, n: nat, c: char)
    requires 0 < n <= |guess| && n <= |target|
    ensures var prev := EvalPrefix(guess, target, counts, n - 1);
            var r := EvalPrefix(guess, target, counts, n);
            Get(r.remaining, c)
            == Get(prev.remaining, c) - (if guess[n - 1] == c && Consumes(r.states[n - 1]) then 1 else 0)
  {
  }

  /** What each verdict of the fold certifies: a full match is an exact
      position match, a partial match is a letter the target holds
      elsewhere, a letter the target lacks is Wrong, and no count grows. */
  lemma {:induction false} EvalPrefixSound(guess: string, target: string, counts: map<char, nat>, n: nat)
    requires n <= |guess| && n <= |target|
    ensures Sound(guess, target, counts, n)
    decreases n
  {
    if n > 0 {
      EvalPrefixSound(guess, target, counts, n - 1);
      SoundStep(guess, target, counts, n);
    }
  }

  /** The certificates `EvalPrefixSound` states about the first n verdicts. */
  predicate Sound(guess: string, target: string, counts: map<char, nat>, n: nat)
    requires n <= |guess| && n <= |target|
  {
    var r := EvalPrefix(guess, target, counts, n);
    && (forall i :: 0 <= i < n && r.states[i] == FullMatch ==> guess[i] == target[i])
    && (forall i :: 0 <= i < n && r.states[i] == PartialMatch ==> guess[i] != target[i] && guess[i] in target)
    && (forall i :: 0 <= i < n && guess[i] !in target ==> r.states[i] == Wrong)
    && (forall c :: Get(r.remaining, c) <= Get(counts, c))
  }

  /** The induction step of `EvalPrefixSound`. */
  lemma SoundStep(guess: string, target: string, counts: map<char, nat>, n: nat)
    requires 0 < n <= |guess| && n <= |target|
    requires Sound(guess, target, counts, n - 1)
    ensures Sound(guess, target, counts, n)
  {
    EvalStep(guess, target, counts, n);
    var prev := EvalPrefix(guess, target, counts, n - 1);
    var r := EvalPrefix(guess, target, counts, n);
    assert forall i :: 0 <= i < n - 1 ==> r.states[i] == prev.states[i];
    forall c
      ensures Get(r.remaining, c) <= Get(counts, c)
    {
      EvalStepCounts(guess, target, counts, n, c);
    }
  }

  /** Number of positions among the first |states| whose guessed letter is
      `c` and whose verdict used up an occurrence of `c`. */
  function Used(guess: string, states: seq<LetterState>, c: char): nat
    requires |states| <= |guess|
  {
    if |states| == 0 then 0
    else
      var k := |states| - 1;
      Used(guess, states[..k], c) + (if guess[k] == c && Consumes(states[k]) then 1 else 0)
  }

  /** Nothing is lost or invented: after n positions, what is left of each
      letter plus what was used of it is what the copy started with. */
  lemma {:induction false} Conservation(guess: string, target: string, counts: map<char, nat>, n: nat)
    requires n <= |guess| && n <= |target|
    ensures Conserved(guess, target, counts, n)
  {
    if n > 0 {
      Conservation(guess, target, counts, n - 1);
      ConservationStep(guess, target, counts, n);
    }
  }

  /** After n positions, remaining plus used is the starting count, for
      every letter. */
  predicate Conserved(guess: string, target: string, counts: map<char, nat>, n: nat)
    requires n <= |guess| && n <= |target|
  {
    var r := EvalPrefix(guess, target, counts, n);
    forall c :: Get(r.remaining, c) + Used(guess, r.states, c) == Get(counts, c)
  }

  /** The induction step of `Conservation`. */
  lemma ConservationStep(guess: string, target: string, counts: map<char, nat>, n: nat)
    requires 0 < n <= |guess| && n <= |target|
    requires Conserved(guess, target, counts, n - 1)
    ensures Conserved(guess, target, counts, n)
  {
    var prev := EvalPrefix(guess, target, counts, n - 1);
    var r := EvalPrefix(guess, target, counts, n);
    forall c
      ensures Get(r.remaining, c) + Used(guess, r.states, c) == Get(counts, c)
    {
      assert Get(prev.remaining, c) + Used(guess, prev.states, c) == Get(counts, c);
      EvalStepCounts(guess, target, counts, n, c);
      UsedStep(guess, target, counts, n, c);
    }
  }

  /** Unfolds `Used` at its last position. */
  lemma UsedSnoc(guess: string, states: seq<LetterState>, c: char)
    requires 0 < |states| <= |guess|
    ensures Used(guess, states, c)
            == Used(guess, states[..|states| - 1], c)
               + (if guess[|states| - 1] == c && Consumes(states[|states| - 1]) then 1 else 0)
  {
  }

  /** Deciding more positions never revises the earlier ones. */
  lemma {:induction false} PrefixStable(guess: string, target: string, counts: map<char, nat>, i: nat, n: nat)
    requires i <= n <= |guess| && n <= |target|
    ensures EvalPrefix(guess, target, counts, n).states[..i] == EvalPrefix(guess, target, counts, i).states
    decreases n
  {
    if i < n {
      PrefixStable(guess, target, counts, i, n - 1);
      EvalStep(guess, target, counts, n);
      var s := EvalPrefix(guess, target, counts, n).states;
      assert s[..i] == s[..n - 1][..i];
    }
  }

  /** Evaluates a full guess against the target, from a copy of `counts`. */
  function Evaluate(guess: string, target: string, counts: map<char, nat>): (r: seq<LetterState>)
    requires |guess| == WORD_LENGTH && |target| == WORD_LENGTH
    ensures |r| == WORD_LENGTH
    ensures forall i :: 0 <= i < |r| ==> IsVerdict(r[i])
  {
    EvalPrefix(guess, target, counts, |guess|).states
  }

  /** Evaluation never credits a letter more often than the copy of the
      counts allows, never credits a letter the target lacks, and a full
      match is always an exact position match. */
  lemma EvaluateBounds(guess: string, target: string, counts: map<char, nat>)
    requires |guess| == WORD_LENGTH && |target| == WORD_LENGTH
    ensures var r := Evaluate(guess, target, counts);
            && (forall c :: Used(guess, r, c) <= Get(counts, c))
            && (forall i :: 0 <= i < WORD_LENGTH && guess[i] !in target ==> r[i] == Wrong)
            && (forall i :: 0 <= i < WORD_LENGTH && r[i] == FullMatch ==> guess[i] == target[i])
  {
    Conservation(guess, target, counts, |guess|);
    EvalPrefixSound(guess, target, counts, |guess|);
  }

  /** The verdict at every position, stated without the fold: a position
      uses an occurrence exactly when the target holds its letter and the
      positions before it have not used all of that letter's count, and it is
      a full match exactly when, in addition, the letter sits at the same
      position of the target. */
  lemma PositionVerdict(guess: string, target: string, counts: map<char, nat>, i: nat)
    requires |guess| == WORD_LENGTH && |target| == WORD_LENGTH && i < WORD_LENGTH
    ensures var r := Evaluate(guess, target, counts);
            var before := Used(guess, r[..i], guess[i]);
            && (Consumes(r[i]) <==> guess[i] in target && before < Get(counts, guess[i]))
            && (r[i] == FullMatch <==> guess[i] == target[i] && before < Get(counts, guess[i]))
            && (r[i] == PartialMatch <==> guess[i] != target[i] && guess[i] in target && before < Get(counts, guess[i]))
  {
    var r := Evaluate(guess, target, counts);
    var prev := EvalPrefix(guess, target, counts, i);
    var next := EvalPrefix(guess, target, counts, i + 1);
    PrefixStable(guess, target, counts, i, |guess|);
    PrefixStable(guess, target, counts, i + 1, |guess|);
    Conservation(guess, target, counts, i);
    EvalStep(guess, target, counts, i + 1);
    EvalStepCounts(guess, target, counts, i + 1, guess[i]);
    assert r[i] == r[..i + 1][i] == next.states[i];
    assert Get(prev.remaining, guess[i]) == Get(counts, guess[i]) - Used(guess, r[..i], guess[i]);
  }

  /** For every letter, the number of positions that use it up is the smaller
      of its remaining count and its number of occurrences in the guess, and
      zero when the target does not contain it at all. */
  lemma {:induction false} UsedIsMin(guess: string, target: string, counts: map<char, nat>, n: nat, c: char)
    requires n <= |guess| && n <= |target|
    ensures Used(guess, EvalPrefix(guess, target, counts, n).states, c)
            == if c in target then Min(Get(counts, c), Occurrences(guess[..n], c)) else 0
  {
    if n > 0 {
      UsedIsMin(guess, target, counts, n - 1, c);
      UsedMinStep(guess, target, counts, n, c);
    }
  }

  /** The induction step of `UsedIsMin`. */
  lemma UsedMinStep(guess: string, target: string, counts: map<char, nat>, n: nat, c: char)
    requires 0 < n <= |guess| && n <= |target|
    requires Used(guess, EvalPrefix(guess, target, counts, n - 1).states, c)
             == if c in target then Min(Get(counts, c), Occurrences(guess[..n - 1], c)) else 0
    ensures Used(guess, EvalPrefix(guess, target, counts, n).states, c)
            == if c in target then Min(Get(counts, c), Occurrences(guess[..n], c)) else 0
  {
    var prev := EvalPrefix(guess, target, counts, n - 1);
    var r := EvalPrefix(guess, target, counts, n);
    var k, u, left := Get(counts, c), Used(guess, prev.states, c), Get(prev.remaining, c);
    var same, consumes := guess[n - 1] == c, Consumes(r.states[n - 1]);
    assert left + u == k by {
      Conservation(guess, target, counts, n - 1);
    }
    assert Occurrences(guess[..n], c) == Occurrences(guess[..n - 1], c) + (if same then 1 else 0) by {
      OccurrencesPrefix(guess, n - 1, c);
    }
    assert Used(guess, r.states, c) == u + (if same && consumes then 1 else 0)
        && (same ==> (consumes <==> c in target && left > 0)) by {
      UsedStep(guess, target, counts, n, c);
    }
    MinStep(k, Occurrences(guess[..n - 1], c), u, left, same, consumes, c in target);
  }

  /** One step of the fold, seen from `Used`: the count of `c` grows by one
      exactly when position n-1 holds `c` and uses an occurrence, which it
      does exactly when the target holds `c` and some of it remains. */
  lemma UsedStep(guess: string, target: string, counts: map<char, nat>, n: nat, c: char)
    requires 0 < n <= |guess| && n <= |target|
    ensures var prev := EvalPrefix(guess, target, counts, n - 1);
            var r := EvalPrefix(guess, target, counts, n);
            && Used(guess, r.states, c)
               == Used(guess, prev.states, c) + (if guess[n - 1] == c && Consumes(r.states[n - 1]) then 1 else 0)
            && (guess[n - 1] == c ==> (Consumes(r.states[n - 1]) <==> c in target && Get(prev.remaining, c) > 0))
  {
    var prev := EvalPrefix(guess, target, counts, n - 1);
    var r := EvalPrefix(guess, target, counts, n);
    EvalStep(guess, target, counts, n);
    UsedSnoc(guess, r.states, c);
    assert target[n - 1] in target;
  }

  /** The arithmetic of one step of `UsedIsMin`: with `u` positions used of
      a count `k` of which `left` remain, one more occurrence in the guess
      moves `u` to the next minimum exactly when it is consumed. */
  lemma MinStep(k: nat, o: nat, u: nat, left: nat, same: bool, consumes: bool, inTarget: bool)
    requires u == (if inTarget then Min(k, o) else 0)
    requires left + u == k
    requires same ==> (consumes <==> inTarget && left > 0)
    ensures u + (if same && consumes then 1 else 0)
            == if inTarget then Min(k, o + (if same then 1 else 0)) else 0
  {
  }

  /** Guessing the target word itself gives a full match at every position,
      because the count map built from the word leaves an occurrence for each
      exact position. */
  lemma SelfGuessAllFull(target: string)
    requires |target| == WORD_LENGTH
    ensures AllFull(Evaluate(target, target, LetterCounts(target)))
  {
    var counts := LetterCounts(target);
    var r := Evaluate(target, target, counts);
    forall i | 0 <= i < WORD_LENGTH
      ensures r[i] == FullMatch
    {
      var c := target[i];
      PositionVerdict(target, target, counts, i);
      PrefixStable(target, target, counts, i, |target|);
      UsedIsMin(target, target, counts, i, c);
      OccurrencesPrefix(target, i, c);
    }
  }

  /** No letter is credited more often than the target holds it, and a letter
      the target does not hold is always Wrong. */
  lemma NeverOverConsumed(guess: string, target: string)
    requires |guess| == WORD_LENGTH && |target| == WORD_LENGTH
    ensures forall c :: Used(guess, Evaluate(guess, target, LetterCounts(target)), c) <= Occurrences(target, c)
    ensures forall c :: c !in target ==> Used(guess, Evaluate(guess, target, LetterCounts(target)), c) == 0
  {
    var r := Evaluate(guess, target, LetterCounts(target));
    EvaluateBounds(guess, target, LetterCounts(target));
    forall c | c !in target
      ensures Used(guess, r, c) == 0
    {
      UsedIsMin(guess, target, LetterCounts(target), |guess|, c);
    }
  }

  /** A guess is all full matches exactly when it is the target word. */
  lemma WinsExactly(guess: string, target: string)
    requires |guess| == WORD_LENGTH && |target| == WORD_LENGTH
    ensures AllFull(Evaluate(guess, target, LetterCounts(target))) <==> guess == target
  {
    if guess == target {
      SelfGuessAllFull(target);
    } else {
      var r := Evaluate(guess, target, LetterCounts(target));
      EvaluateBounds(guess, target, LetterCounts(target));
      var i :| 0 <= i < WORD_LENGTH && guess[i] != target[i];
      assert r[i] != FullMatch;
    }
  }

  /** The verdict at position i without the fold and without the count
      map: the letter earns a verdict other than Wrong exactly when fewer of
      the earlier guess positions hold it than the target does; that verdict
      is FullMatch at the target's own position and PartialMatch elsewhere. */
  function Reference(guess: string, target: string): (r: seq<LetterState>)
    requires |guess| == WORD_LENGTH && |target| == WORD_LENGTH
    ensures |r| == WORD_LENGTH
  {
    seq(WORD_LENGTH, i requires 0 <= i < WORD_LENGTH =>
      if Occurrences(guess[..i], guess[i]) < Occurrences(target, guess[i]) then
        (if guess[i] == target[i] then FullMatch else PartialMatch)
      else Wrong)
  }

  /** With the count map built from the target, the left-to-right pass
      computes exactly the reference verdicts. */
  lemma EvaluateIsReference(guess: string, target: string)
    requires |guess| == WORD_LENGTH && |target| == WORD_LENGTH
    ensures Evaluate(guess, target, LetterCounts(target)) == Reference(guess, target)
  {
    forall i | 0 <= i < WORD_LENGTH
      ensures Evaluate(guess, target, LetterCounts(target))[i] == Reference(guess, target)[i]
    {
      ReferenceAt(guess, target, i);
    }
  }

  /** `EvaluateIsReference` at one position. */
  lemma ReferenceAt(guess: string, target: string, i: nat)
    requires |guess| == WORD_LENGTH && |target| == WORD_LENGTH && i < WORD_LENGTH
    ensures Evaluate(guess, target, LetterCounts(target))[i] == Reference(guess, target)[i]
  {
    var counts := LetterCounts(target);
    var r := Evaluate(guess, target, counts);
    var c := guess[i];
    PositionVerdict(guess, target, counts, i);
    PrefixStable(guess, target, counts, i, |guess|);
    UsedIsMin(guess, target, counts, i, c);
    OccurrencesPositive(target, c);
    assert IsVerdict(r[i]);
  }
}

/**
  The on-screen keyboard's memory: for each letter ever submitted, the best
  verdict it has received so far, under the explicit order
  Wrong < PartialMatch < FullMatch.
 */
module Keyboard {
  import opened Types

  type KeyStates = map<char, LetterState>

  /** The order in which verdicts improve, the declaration order of the
      verdicts: Wrong is the only lowest rank, FullMatch the only highest,
      and PartialMatch lies strictly between. */
  function Rank(s: LetterState): (r: nat)
    requires IsVerdict(s)
    ensures r == 0 <==> s == Wrong
    ensures r == 2 <==> s == FullMatch
    ensures 0 < r < 2 <==> s == PartialMatch
  {
    match s
    case Wrong => 0
    case PartialMatch => 1
    case FullMatch => 2
  }

  /** Distinct verdicts have distinct ranks. */
  lemma RankInjective(s: LetterState, t: LetterState)
    requires IsVerdict(s) && IsVerdict(t)
    ensures Rank(s) == Rank(t) <==> s == t
  {
  }

  /** No key holds `Pending`. */
  predicate Settled(kb: KeyStates) {
    forall c :: c in kb ==> IsVerdict(kb[c])
  }

  /** Records verdict `s` for letter `c`: an unset letter takes `s`; a set
      one takes it only when `s` outranks what is stored. */
  function Merge(kb: KeyStates, c: char, s: LetterState): (r: KeyStates)
    requires Settled(kb) && IsVerdict(s)
    ensures Settled(r)
    ensures c in r
    ensures c !in kb ==> r[c] == s
    ensures c in kb ==> Rank(r[c]) == Max(Rank(kb[c]), Rank(s))
    ensures forall d :: d != c ==> (d in r <==> d in kb)
    ensures forall d :: d != c && d in kb ==> r[d] == kb[d]
  {
    if c !in kb || Rank(s) > Rank(kb[c]) then kb[c := s] else kb
  }

  predicate AllVerdicts(states: seq<LetterState>) {
    forall i :: 0 <= i < |states| ==> IsVerdict(states[i])
  }

  /** Records the verdicts of one submitted guess, left to right. */
  function MergeWord(kb: KeyStates, guess: string, states: seq<LetterState>): (r: KeyStates)
    requires |states| == |guess| && Settled(kb) && AllVerdicts(states)
    ensures Settled(r)
    decreases |guess|
  {
    if guess == [] then kb
    else MergeWord(Merge(kb, guess[0], states[0]), guess[1..], states[1..])
  }

  /** After recording a guess: the keys are the old keys plus the guessed
      letters; a letter outside the guess keeps its state; no letter's rank
      goes down; every guessed letter ranks at least as high as each verdict
      it received; and every stored state is either the old one or a verdict
      that letter received, so each letter holds exactly the best of its old
      state and its new verdicts. */
  lemma {:induction false} MergeWordBest(kb: KeyStates, guess: string, states: seq<LetterState>)
    requires |states| == |guess| && Settled(kb) && AllVerdicts(states)
    ensures Raised(kb, guess, states) && Drawn(kb, guess, states)
    decreases |guess|
  {
    if guess != [] {
      MergeWordBest(Merge(kb, guess[0], states[0]), guess[1..], states[1..]);
      RaisedStep(kb, guess, states);
      DrawnStep(kb, guess, states);
    }
  }

  /** The keys after recording `guess` are the old keys plus the guessed
      letters, a letter outside the guess keeps its state, no rank goes down,
      and each guessed letter ranks at least as high as each of its verdicts. */
  predicate Raised(kb: KeyStates, guess: string, states: seq<LetterState>)
    requires |states| == |guess| && Settled(kb) && AllVerdicts(states)
  {
    var r := MergeWord(kb, guess, states);
    && (forall d :: d in r <==> d in kb || d in guess)
    && (forall d :: d !in guess && d in kb ==> r[d] == kb[d])
    && (forall d :: d in kb ==> Rank(r[d]) >= Rank(kb[d]))
    && (forall i :: 0 <= i < |guess| ==> Rank(r[guess[i]]) >= Rank(states[i]))
  }

  /** Every state stored after recording `guess` is the old one or a
      verdict the letter received in this guess. */
  predicate Drawn(kb: KeyStates, guess: string, states: seq<LetterState>)
    requires |states| == |guess| && Settled(kb) && AllVerdicts(states)
  {
    var r := MergeWord(kb, guess, states);
    forall d :: d in r ==>
      (d in kb && r[d] == kb[d]) || exists i :: 0 <= i < |guess| && guess[i] == d && states[i] == r[d]
  }

  /** The induction step of `MergeWordBest` for `Raised`. */
  lemma RaisedStep(kb: KeyStates, guess: string, states: seq<LetterState>)
    requires |states| == |guess| && Settled(kb) && AllVerdicts(states) && guess != []
    requires Raised(Merge(kb, guess[0], states[0]), guess[1..], states[1..])
    ensures Raised(kb, guess, states)
  {
    var head := Merge(kb, guess[0], states[0]);
    assert MergeWord(kb, guess, states) == MergeWord(head, guess[1..], states[1..]);
    assert forall d :: d in guess <==> d == guess[0] || d in guess[1..];
    assert forall i :: 1 <= i < |guess| ==> guess[i] == guess[1..][i - 1] && states[i] == states[1..][i - 1];
  }

  /** The induction step of `MergeWordBest` for `Drawn`. */
  lemma DrawnStep(kb: KeyStates, guess: string, states: seq<LetterState>)
    requires |states| == |guess| && Settled(kb) && AllVerdicts(states) && guess != []
    requires Drawn(Merge(kb, guess[0], states[0]), guess[1..], states[1..])
    ensures Drawn(kb, guess, states)
  {
    var head := Merge(kb, guess[0], states[0]);
    var r := MergeWord(kb, guess, states);
    assert r == MergeWord(head, guess[1..], states[1..]);
    forall d | d in r
      ensures (d in kb && r[d] == kb[d]) || exists i :: 0 <= i < |guess| && guess[i] == d && states[i] == r[d]
    {
      if !(d in head && r[d] == head[d]) {
        var i :| 0 <= i < |guess[1..]| && guess[1..][i] == d && states[1..][i] == r[d];
        assert guess[i + 1] == d && states[i + 1] == r[d];
      } else if d == guess[0] && !(d in kb && r[d] == kb[d]) {
        RankInjective(head[d], states[0]);
        assert states[0] == r[d];
      }
    }
  }
}

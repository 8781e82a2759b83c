/**
  The fixed configuration and the board entities of the word-guessing game:
  a board is NUM_TRIES tries, a try is WORD_LENGTH letters, and every letter
  carries the text the player typed and the verdict it received.
 */
module Types {

  /** Length of the target word and of every guess. */
  const WORD_LENGTH: nat := 5

  /** Number of guesses a player gets. */
  const NUM_TRIES: nat := 6

  /** The verdict on one letter. `Pending` marks a letter of a try that has
      not been submitted yet; the other three are the outcomes of a submit. */
  datatype LetterState = Wrong | PartialMatch | FullMatch | Pending

  /** True for the outcomes of a submit, false for `Pending`. */
  predicate IsVerdict(s: LetterState) {
    s != Pending
  }

  /** True for the verdicts that use up one occurrence of the letter in the
      target word. */
  predicate Consumes(s: LetterState) {
    s == FullMatch || s == PartialMatch
  }

  /** One cell of the board: `text` is "" while empty, otherwise the key the
      player typed. */
  datatype Letter = Letter(text: string, state: LetterState)

  /** One row of the board. */
  datatype Try = Try(letters: seq<Letter>)

  /** The verdicts of a row, position by position. */
  function RowStates(t: Try): (r: seq<LetterState>)
    ensures |r| == |t.letters|
    ensures forall j :: 0 <= j < |r| ==> r[j] == t.letters[j].state
  {
    seq(|t.letters|, j requires 0 <= j < |t.letters| => t.letters[j].state)
  }

  /** All verdicts are full matches: the row guessed the target word. */
  predicate AllFull(states: seq<LetterState>) {
    forall j :: 0 <= j < |states| ==> states[j] == FullMatch
  }

  function Min(a: int, b: int): int {
    if a <= b then a else b
  }

  function Max(a: int, b: int): int {
    if a >= b then a else b
  }
}

/**
  The game controller: the board, the cursor, the number of submitted tries,
  the won flag, the target word with its letter-count map, and the keyboard
  states, driven by one key at a time.

  A submit is one atomic step. Once the game is won or lost every key is a
  no-op.
 */
module Game {
  import opened Types
  import opened Letters
  import opened Evaluator
  import opened Keyboard
  import Share

  datatype Game = Game(
    tries: seq<Try>,
    curLetterIndex: nat,
    numSubmittedTries: nat,
    won: bool,
    targetWord: string,
    targetWordLetterCounts: map<char, nat>,
    curLetterStates: KeyStates)

  /** The message shown to the player after a key. */
  datatype Message = NoMessage | NotEnoughLetters | NotInWordList | Nice | Reveal(word: string)

  datatype Outcome = Outcome(game: Game, message: Message)

  predicate Editing(g: Game) {
    !g.won && g.numSubmittedTries < NUM_TRIES
  }

  predicate Lost(g: Game) {
    !g.won && g.numSubmittedTries == NUM_TRIES
  }

  /** A key whose lower-case form is one letter a-z: exactly the
      one-character keys a-z and A-Z, so never "Enter" or "Backspace". */
  function IsLetterKey(key: string): (r: bool)
    ensures r <==> |key| == 1 && (IsLower(key[0]) || IsUpper(key[0]))
    ensures r ==> key != "Enter" && key != "Backspace"
  {
    |key| == 1 && IsLower(Lower(key[0]))
  }

  /** A cell holds nothing or one letter key as typed. */
  predicate TextOk(text: string) {
    text == "" || IsLetterKey(text)
  }

  /** Position of cell (i, j) in the board read row by row. */
  function Flat(i: nat, j: nat): nat {
    i * WORD_LENGTH + j
  }

  /** The texts of a row joined left to right. */
  function Join(letters: seq<Letter>): (r: string)
    ensures (forall j :: 0 <= j < |letters| ==> |letters[j].text| == 1) ==>
              |r| == |letters| && forall j :: 0 <= j < |letters| ==> r[j] == letters[j].text[0]
    decreases |letters|
  {
    if letters == [] then ""
    else
      var r := letters[0].text + Join(letters[1..]);
      assert (forall j :: 0 <= j < |letters| ==> |letters[j].text| == 1) ==>
               forall j :: 1 <= j < |letters| ==> r[j] == Join(letters[1..])[j - 1];
      r
  }

  /** True when no cell of the row is empty. */
  predicate Filled(t: Try) {
    forall j :: 0 <= j < |t.letters| ==> t.letters[j].text != ""
  }

  /** The guess a full row spells, lower-cased as the evaluator reads it. */
  function RowGuess(t: Try): string {
    LowerWord(Join(t.letters))
  }

  /** A row that has been submitted: full, one letter per cell, all decided. */
  predicate Submitted(t: Try) {
    && |t.letters| == WORD_LENGTH
    && (forall j :: 0 <= j < WORD_LENGTH ==> IsLetterKey(t.letters[j].text))
    && (forall j :: 0 <= j < WORD_LENGTH ==> IsVerdict(t.letters[j].state))
  }

  lemma SubmittedGuess(t: Try)
    requires Submitted(t)
    ensures |RowGuess(t)| == WORD_LENGTH
    ensures forall j :: 0 <= j < WORD_LENGTH ==> RowGuess(t)[j] == Lower(t.letters[j].text[0])
  {
  }

  /** The keyboard that recording the submitted rows among the first `n`,
      in order, produces. */
  function KeyboardOf(tries: seq<Try>, n: nat): (r: KeyStates)
    requires n <= |tries|
    ensures Settled(r)
  {
    if n == 0 then map[]
    else if Submitted(tries[n - 1]) then
      SubmittedGuess(tries[n - 1]);
      MergeWord(KeyboardOf(tries, n - 1), RowGuess(tries[n - 1]), RowStates(tries[n - 1]))
    else
      KeyboardOf(tries, n - 1)
  }

  lemma {:induction false} KeyboardOfFrame(a: seq<Try>, b: seq<Try>, n: nat)
    requires n <= |a| && n <= |b|
    requires forall i :: 0 <= i < n ==> a[i] == b[i]
    ensures KeyboardOf(a, n) == KeyboardOf(b, n)
  {
    if n > 0 {
      KeyboardOfFrame(a, b, n - 1);
      assert a[n - 1] == b[n - 1];
    }
  }

  /** A submitted row holds the evaluation of the word it spells. */
  predicate Scored(t: Try, target: string, counts: map<char, nat>) {
    && Submitted(t)
    && |target| == WORD_LENGTH
    && RowStates(t) == Evaluate(RowGuess(t), target, counts)
  }

  /** The first `n` rows are scored. */
  predicate ScoredRows(tries: seq<Try>, n: nat, target: string, counts: map<char, nat>)
    requires n <= |tries|
  {
    forall i {:trigger Scored(tries[i], target, counts)} :: 0 <= i < n ==> Scored(tries[i], target, counts)
  }

  lemma ScoredRowsFrame(a: seq<Try>, b: seq<Try>, n: nat, target: string, counts: map<char, nat>)
    requires n <= |a| && n <= |b| && ScoredRows(a, n, target, counts)
    requires forall i :: 0 <= i < n ==> a[i] == b[i]
    ensures ScoredRows(b, n, target, counts)
  {
    forall i | 0 <= i < n
      ensures Scored(b[i], target, counts)
    {
      assert Scored(a[i], target, counts);
      assert a[i] == b[i];
    }
  }

  predicate Shaped(g: Game) {
    && |g.tries| == NUM_TRIES
    && forall i :: 0 <= i < NUM_TRIES ==> |g.tries[i].letters| == WORD_LENGTH
  }

  /** What every cell satisfies: its text is empty exactly from the cursor
      on, and it is pending exactly in the rows not yet submitted. */
  predicate CellOk(g: Game, i: nat, j: nat)
    requires Shaped(g) && i < NUM_TRIES && j < WORD_LENGTH
  {
    var l := g.tries[i].letters[j];
    && TextOk(l.text)
    && (l.text != "" <==> Flat(i, j) < g.curLetterIndex)
    && (l.state == Pending <==> i >= g.numSubmittedTries)
  }

  /** Every cell of the board satisfies `CellOk`. */
  predicate CellsOk(g: Game)
    requires Shaped(g)
  {
    forall i, j :: 0 <= i < NUM_TRIES && 0 <= j < WORD_LENGTH ==> CellOk(g, i, j)
  }

  /** The target is a lower-case word of WORD_LENGTH letters and `counts`
      is its letter-count map. */
  predicate TargetOk(target: string, counts: map<char, nat>) {
    && |target| == WORD_LENGTH && IsLowerWord(target)
    && counts == LetterCounts(target)
  }

  /** The cursor lies in the active row (or just past its end), and never
      past the board. */
  predicate CursorOk(n: nat, cursor: nat) {
    && n <= NUM_TRIES
    && n * WORD_LENGTH <= cursor <= (n + 1) * WORD_LENGTH
    && cursor <= NUM_TRIES * WORD_LENGTH
  }

  /** The game is won exactly when the last submitted row is all full
      matches, and no earlier row was. */
  predicate WonOk(tries: seq<Try>, n: nat, won: bool)
    requires n <= |tries|
  {
    && (won <==> 0 < n && AllFull(RowStates(tries[n - 1])))
    && (forall i :: 0 <= i < n - 1 ==> !AllFull(RowStates(tries[i])))
  }

  /** The state invariant of every reachable game. */
  predicate Valid(g: Game) {
    && Shaped(g)
    && TargetOk(g.targetWord, g.targetWordLetterCounts)
    && CursorOk(g.numSubmittedTries, g.curLetterIndex)
    && CellsOk(g)
    && ScoredRows(g.tries, g.numSubmittedTries, g.targetWord, g.targetWordLetterCounts)
    && WonOk(g.tries, g.numSubmittedTries, g.won)
    && g.curLetterStates == KeyboardOf(g.tries, g.numSubmittedTries)
  }

  /** What the invariant says about the submitted rows, in the game's own
      terms: each holds the evaluation of the word it spells against the
      target; the game is won exactly when the last submitted word is the
      target; no earlier submitted word is; and a game not won has never
      had the target submitted. */
  lemma ValidMeaning(g: Game)
    requires Valid(g)
    ensures forall i :: 0 <= i < g.numSubmittedTries ==>
              |RowGuess(g.tries[i])| == WORD_LENGTH
              && RowStates(g.tries[i]) == Evaluate(RowGuess(g.tries[i]), g.targetWord, LetterCounts(g.targetWord))
    ensures g.won <==> 0 < g.numSubmittedTries && RowGuess(g.tries[g.numSubmittedTries - 1]) == g.targetWord
    ensures forall i :: 0 <= i < g.numSubmittedTries - 1 ==> RowGuess(g.tries[i]) != g.targetWord
    ensures !g.won ==> forall i :: 0 <= i < g.numSubmittedTries ==> RowGuess(g.tries[i]) != g.targetWord
  {
    RowsMeaning(g.tries, g.numSubmittedTries, g.won, g.targetWord, g.targetWordLetterCounts);
  }

  /** `ValidMeaning` on the parts of the invariant it needs. */
  lemma RowsMeaning(tries: seq<Try>, n: nat, won: bool, target: string, counts: map<char, nat>)
    requires n <= |tries| && TargetOk(target, counts)
    requires ScoredRows(tries, n, target, counts) && WonOk(tries, n, won)
    ensures forall i :: 0 <= i < n ==>
              |RowGuess(tries[i])| == WORD_LENGTH
              && RowStates(tries[i]) == Evaluate(RowGuess(tries[i]), target, LetterCounts(target))
    ensures won <==> 0 < n && RowGuess(tries[n - 1]) == target
    ensures forall i :: 0 <= i < n - 1 ==> RowGuess(tries[i]) != target
    ensures !won ==> forall i :: 0 <= i < n ==> RowGuess(tries[i]) != target
  {
    forall i | 0 <= i < n
      ensures |RowGuess(tries[i])| == WORD_LENGTH
      ensures RowStates(tries[i]) == Evaluate(RowGuess(tries[i]), target, LetterCounts(target))
      ensures AllFull(RowStates(tries[i])) <==> RowGuess(tries[i]) == target
    {
      assert Scored(tries[i], target, counts);
      WinsExactly(RowGuess(tries[i]), target);
    }
  }

  function EmptyTry(): Try {
    Try(seq(WORD_LENGTH, _ => Letter("", Pending)))
  }

  /** A new game for a lower-case target word of WORD_LENGTH letters: an
      empty board, nothing submitted, the target's letter counts. */
  function Init(target: string): (g: Game)
    requires |target| == WORD_LENGTH && IsLowerWord(target)
    ensures Valid(g)
    ensures g.targetWord == target
    ensures forall c :: Get(g.targetWordLetterCounts, c) == Occurrences(target, c)
    ensures Editing(g) && g.curLetterIndex == 0 && g.numSubmittedTries == 0 && !g.won
    ensures g.curLetterStates == map[]
    ensures forall i, j :: 0 <= i < NUM_TRIES && 0 <= j < WORD_LENGTH ==> g.tries[i].letters[j] == Letter("", Pending)
  {
    Game(seq(NUM_TRIES, _ => EmptyTry()), 0, 0, false, target, LetterCounts(target), map[])
  }

  /** Cells (i, j) and index k of the flattened board coincide exactly when
      i and j are k's row and column. */
  lemma FlatIndex(i: nat, j: nat, k: nat)
    requires j < WORD_LENGTH
    ensures Flat(i, j) == k <==> i == k / WORD_LENGTH && j == k - (k / WORD_LENGTH) * WORD_LENGTH
  {
  }

  /** The board after writing `text` into the cell at flattened index
      `index`: that cell's text changes and nothing else does. */
  predicate OnlyCellChanged(before: seq<Try>, after: seq<Try>, index: nat, text: string) {
    && |after| == |before|
    && (forall i :: 0 <= i < |before| ==> |after[i].letters| == |before[i].letters|)
    && forall i, j :: 0 <= i < |before| && 0 <= j < |before[i].letters| ==>
         after[i].letters[j] == if Flat(i, j) == index then before[i].letters[j].(text := text)
                                else before[i].letters[j]
  }

  /** Writes `text` at flattened index `index`, locating the row by floor
      division as the source does. */
  function SetLetter(tries: seq<Try>, index: nat, text: string): (r: seq<Try>)
    requires index < |tries| * WORD_LENGTH
    requires forall i :: 0 <= i < |tries| ==> |tries[i].letters| == WORD_LENGTH
    ensures OnlyCellChanged(tries, r, index, text)
  {
    var t := index / WORD_LENGTH;
    var j := index - t * WORD_LENGTH;
    var row := tries[t].letters;
    var r := tries[t := Try(row[j := row[j].(text := text)])];
    forall i, k | 0 <= i < |tries| && 0 <= k < WORD_LENGTH
      ensures r[i].letters[k] == if Flat(i, k) == index then tries[i].letters[k].(text := text)
                                 else tries[i].letters[k]
    {
      FlatIndex(i, k, index);
    }
    r
  }

  /** Cells left of the cursor in the active row, and all earlier rows, are
      before the cursor; later cells are not. */
  lemma ActiveRowBounds(n: nat, cursor: nat, i: nat, j: nat)
    requires n * WORD_LENGTH <= cursor <= (n + 1) * WORD_LENGTH
    requires j < WORD_LENGTH
    ensures i < n ==> Flat(i, j) < cursor
    ensures i > n ==> Flat(i, j) >= cursor
    ensures Flat(i, j) == cursor && cursor < (n + 1) * WORD_LENGTH ==> i == n
  {
  }

  /** Typing a letter key: written at the cursor, cursor advanced, unless the
      active row is already full. */
  function Insert(g: Game, key: string): (r: Game)
    requires Valid(g) && Editing(g) && IsLetterKey(key)
    ensures Valid(r)
    ensures r == g.(tries := r.tries, curLetterIndex := r.curLetterIndex)
    ensures forall i :: 0 <= i < g.numSubmittedTries ==> r.tries[i] == g.tries[i]
    ensures g.curLetterIndex < (g.numSubmittedTries + 1) * WORD_LENGTH ==>
              && r.curLetterIndex == g.curLetterIndex + 1
              && OnlyCellChanged(g.tries, r.tries, g.curLetterIndex, key)
    ensures g.curLetterIndex == (g.numSubmittedTries + 1) * WORD_LENGTH ==> r == g
  {
    if g.curLetterIndex < (g.numSubmittedTries + 1) * WORD_LENGTH then
      var r := g.(tries := SetLetter(g.tries, g.curLetterIndex, key), curLetterIndex := g.curLetterIndex + 1);
      EditValid(g, r, g.curLetterIndex, key);
      r
    else
      g
  }

  /** Backspace: the cursor steps back and that cell is cleared, unless the
      cursor is at the start of the active row. */
  function Delete(g: Game): (r: Game)
    requires Valid(g) && Editing(g)
    ensures Valid(r)
    ensures r == g.(tries := r.tries, curLetterIndex := r.curLetterIndex)
    ensures forall i :: 0 <= i < g.numSubmittedTries ==> r.tries[i] == g.tries[i]
    ensures g.curLetterIndex > g.numSubmittedTries * WORD_LENGTH ==>
              && r.curLetterIndex == g.curLetterIndex - 1
              && OnlyCellChanged(g.tries, r.tries, r.curLetterIndex, "")
    ensures g.curLetterIndex == g.numSubmittedTries * WORD_LENGTH ==> r == g
  {
    if g.curLetterIndex > g.numSubmittedTries * WORD_LENGTH then
      var k := g.curLetterIndex - 1;
      var r := g.(curLetterIndex := k, tries := SetLetter(g.tries, k, ""));
      EditValid(g, r, k, "");
      r
    else
      g
  }

  /** Backspace undoes a letter key: typing a letter into a row with room
      and then deleting gives back the same game. */
  lemma InsertThenDelete(g: Game, key: string)
    requires Valid(g) && Editing(g) && IsLetterKey(key)
    requires g.curLetterIndex < (g.numSubmittedTries + 1) * WORD_LENGTH
    ensures Delete(Insert(g, key)) == g
  {
    var k := g.curLetterIndex;
    var r := Insert(g, key);
    var d := Delete(r);
    assert d.curLetterIndex == k;
    forall i | 0 <= i < NUM_TRIES
      ensures d.tries[i] == g.tries[i]
    {
      forall j | 0 <= j < WORD_LENGTH
        ensures d.tries[i].letters[j] == g.tries[i].letters[j]
      {
        assert CellOk(g, i, j);
      }
      assert d.tries[i].letters == g.tries[i].letters;
    }
    assert d.tries == g.tries;
  }

  /** A game that agrees with a valid game on everything but the cursor and
      the cells of rows not yet submitted, and whose cells and cursor still
      satisfy their constraints, is valid. */
  lemma ValidFrame(g: Game, r: Game)
    requires Valid(g) && Shaped(r)
    requires r == g.(tries := r.tries, curLetterIndex := r.curLetterIndex)
    requires g.numSubmittedTries * WORD_LENGTH <= r.curLetterIndex <= (g.numSubmittedTries + 1) * WORD_LENGTH
    requires r.curLetterIndex <= NUM_TRIES * WORD_LENGTH
    requires forall i :: 0 <= i < g.numSubmittedTries ==> r.tries[i] == g.tries[i]
    requires CellsOk(r)
    ensures Valid(r)
  {
    var n := g.numSubmittedTries;
    ScoredRowsFrame(g.tries, r.tries, n, g.targetWord, g.targetWordLetterCounts);
    KeyboardOfFrame(g.tries, r.tries, n);
    WonFrame(g.tries, r.tries, n, g.won);
  }

  lemma WonFrame(a: seq<Try>, b: seq<Try>, n: nat, won: bool)
    requires n <= |a| && n <= |b| && WonOk(a, n, won)
    requires forall i :: 0 <= i < n ==> a[i] == b[i]
    ensures WonOk(b, n, won)
  {
    if 0 < n {
      assert a[n - 1] == b[n - 1];
    }
  }

  /** An edit of one cell of the active row that keeps the filled cells
      exactly those before the new cursor preserves the invariant. */
  lemma EditValid(g: Game, r: Game, index: nat, text: string)
    requires Valid(g) && Editing(g)
    requires TextOk(text)
    requires r == g.(tries := r.tries, curLetterIndex := r.curLetterIndex)
    requires OnlyCellChanged(g.tries, r.tries, index, text)
    requires || (index == g.curLetterIndex && r.curLetterIndex == index + 1 && text != "")
             || (index == r.curLetterIndex && g.curLetterIndex == index + 1 && text == "")
    requires g.numSubmittedTries * WORD_LENGTH <= index < (g.numSubmittedTries + 1) * WORD_LENGTH
    ensures Valid(r)
    ensures forall i :: 0 <= i < g.numSubmittedTries ==> r.tries[i] == g.tries[i]
  {
    EditCells(g, r, index, text);
    ValidFrame(g, r);
  }

  /** The cell facts behind `EditValid`: every cell still satisfies
      `CellOk`, and the submitted rows are untouched. */
  lemma EditCells(g: Game, r: Game, index: nat, text: string)
    requires Shaped(g) && CellsOk(g) && CursorOk(g.numSubmittedTries, g.curLetterIndex) && Editing(g)
    requires TextOk(text)
    requires r == g.(tries := r.tries, curLetterIndex := r.curLetterIndex)
    requires OnlyCellChanged(g.tries, r.tries, index, text)
    requires || (index == g.curLetterIndex && r.curLetterIndex == index + 1 && text != "")
             || (index == r.curLetterIndex && g.curLetterIndex == index + 1 && text == "")
    requires g.numSubmittedTries * WORD_LENGTH <= index < (g.numSubmittedTries + 1) * WORD_LENGTH
    ensures Shaped(r) && CellsOk(r)
    ensures forall i :: 0 <= i < g.numSubmittedTries ==> r.tries[i] == g.tries[i]
  {
    var n := g.numSubmittedTries;
    forall i, j | 0 <= i < NUM_TRIES && 0 <= j < WORD_LENGTH
      ensures CellOk(r, i, j)
    {
      assert CellOk(g, i, j);
      ActiveRowBounds(n, index, i, j);
    }
    forall i | 0 <= i < n
      ensures r.tries[i] == g.tries[i]
    {
      forall j | 0 <= j < WORD_LENGTH
        ensures r.tries[i].letters[j] == g.tries[i].letters[j]
      {
        ActiveRowBounds(n, index, i, j);
      }
      assert r.tries[i].letters == g.tries[i].letters;
    }
  }

  /** The row the verdicts of a submit are written into: same texts, the
      given states. */
  function Decide(t: Try, states: seq<LetterState>): (r: Try)
    requires |states| == |t.letters|
    ensures |r.letters| == |t.letters|
    ensures forall j :: 0 <= j < |t.letters| ==> r.letters[j] == Letter(t.letters[j].text, states[j])
  {
    Try(seq(|t.letters|, j requires 0 <= j < |t.letters| => Letter(t.letters[j].text, states[j])))
  }

  /** Enter: rejects an incomplete row or a word outside the word list and
      changes nothing; otherwise evaluates the row against the target,
      records the verdicts on the row and the keyboard, counts the try, and
      ends the game on a win or on the last try. */
  function Submit(g: Game, words: set<string>): (r: Outcome)
    requires Valid(g) && Editing(g)
    ensures Valid(r.game)
    ensures r.message == NotEnoughLetters <==> !Filled(g.tries[g.numSubmittedTries])
    ensures r.message == NotInWordList <==>
              Filled(g.tries[g.numSubmittedTries]) && UpperWord(Join(g.tries[g.numSubmittedTries].letters)) !in words
    ensures r.message in {NotEnoughLetters, NotInWordList} ==> r.game == g
    ensures r.message !in {NotEnoughLetters, NotInWordList} ==>
              && Filled(g.tries[g.numSubmittedTries])
              && r.game == Accept(g)
              && (r.message == Nice <==> r.game.won)
              && (r.message.Reveal? <==> Lost(r.game))
              && (r.message.Reveal? ==> LowerWord(r.message.word) == g.targetWord)
  {
    var cur := g.tries[g.numSubmittedTries];
    if !Filled(cur) then
      Outcome(g, NotEnoughLetters)
    else if UpperWord(Join(cur.letters)) !in words then
      Outcome(g, NotInWordList)
    else
      var next := Accept(g);
      if next.won then
        Outcome(next, Nice)
      else if next.numSubmittedTries == NUM_TRIES then
        UpperLowerRoundTrip(g.targetWord);
        Outcome(next, Reveal(UpperWord(g.targetWord)))
      else
        Outcome(next, NoMessage)
  }

  /** An accepted submit: the active row is evaluated against the target
      from the letter-count map, its verdicts are written into the row and
      merged into the keyboard, the try is counted, and the game is won
      exactly when every verdict is a full match (see `AcceptEffect`). */
  function Accept(g: Game): (r: Game)
    requires Valid(g) && Editing(g) && Filled(g.tries[g.numSubmittedTries])
    ensures Valid(r)
    ensures r.numSubmittedTries == g.numSubmittedTries + 1
    ensures r.targetWord == g.targetWord && r.targetWordLetterCounts == g.targetWordLetterCounts
  {
    AcceptValid(g);
    Recorded(g)
  }

  /** The verdicts of the active row against the target. */
  function Verdicts(g: Game): (r: seq<LetterState>)
    requires Valid(g) && Editing(g) && Filled(g.tries[g.numSubmittedTries])
    ensures |r| == WORD_LENGTH && forall j :: 0 <= j < WORD_LENGTH ==> IsVerdict(r[j])
  {
    SubmitValidPre(g);
    Evaluate(RowGuess(g.tries[g.numSubmittedTries]), g.targetWord, g.targetWordLetterCounts)
  }

  /** The active row with its verdicts written in. */
  function DecidedRow(g: Game): (row: Try)
    requires Valid(g) && Editing(g) && Filled(g.tries[g.numSubmittedTries])
    ensures Submitted(row)
    ensures RowGuess(row) == RowGuess(g.tries[g.numSubmittedTries])
    ensures RowStates(row) == Verdicts(g)
  {
    var cur := g.tries[g.numSubmittedTries];
    SubmitValidPre(g);
    DecideRow(cur, Verdicts(g));
    Decide(cur, Verdicts(g))
  }

  /** The game with the active row's verdicts recorded. */
  function Recorded(g: Game): Game
    requires Valid(g) && Editing(g) && Filled(g.tries[g.numSubmittedTries])
  {
    var row := DecidedRow(g);
    g.(tries := g.tries[g.numSubmittedTries := row],
       curLetterStates := MergeWord(g.curLetterStates, RowGuess(row), RowStates(row)),
       numSubmittedTries := g.numSubmittedTries + 1,
       won := AllFull(RowStates(row)))
  }

  /** What an accepted submit changes: the cursor stays where it is, at the
      start of the next row; every row but the active one is unchanged; the
      active row keeps its texts and now holds the evaluation of the word
      it spells; the keyboard merges those verdicts; and the game is won
      exactly when every verdict is a full match. */
  lemma AcceptEffect(g: Game)
    requires Valid(g) && Editing(g) && Filled(g.tries[g.numSubmittedTries])
    ensures var r := Accept(g);
            var n := g.numSubmittedTries;
            && r.curLetterIndex == g.curLetterIndex == r.numSubmittedTries * WORD_LENGTH
            && (forall i :: 0 <= i < NUM_TRIES && i != n ==> r.tries[i] == g.tries[i])
            && (forall j :: 0 <= j < WORD_LENGTH ==> r.tries[n].letters[j].text == g.tries[n].letters[j].text)
            && RowGuess(r.tries[n]) == RowGuess(g.tries[n])
            && RowStates(r.tries[n]) == Evaluate(RowGuess(g.tries[n]), g.targetWord, g.targetWordLetterCounts)
            && r.curLetterStates == MergeWord(g.curLetterStates, RowGuess(g.tries[n]), RowStates(r.tries[n]))
            && (r.won <==> AllFull(RowStates(r.tries[n])))
  {
    var n := g.numSubmittedTries;
    SubmitValidPre(g);
    var row := DecidedRow(g);
    assert Accept(g).tries[n] == row;
  }

  /** A full active row is a row that can be submitted once decided, and it
      fills the active row up to the cursor. */
  lemma SubmitValidPre(g: Game)
    requires Shaped(g) && CellsOk(g) && CursorOk(g.numSubmittedTries, g.curLetterIndex)
    requires Editing(g) && Filled(g.tries[g.numSubmittedTries])
    ensures g.curLetterIndex == (g.numSubmittedTries + 1) * WORD_LENGTH
    ensures forall j :: 0 <= j < WORD_LENGTH ==> IsLetterKey(g.tries[g.numSubmittedTries].letters[j].text)
    ensures |RowGuess(g.tries[g.numSubmittedTries])| == WORD_LENGTH
  {
    var n := g.numSubmittedTries;
    assert CellOk(g, n, WORD_LENGTH - 1);
    forall j | 0 <= j < WORD_LENGTH
      ensures IsLetterKey(g.tries[n].letters[j].text)
    {
      assert CellOk(g, n, j);
    }
  }

  /** Writing a word's verdicts into a row of letter keys gives a submitted
      row that spells the same guess and holds those verdicts. */
  lemma DecideRow(cur: Try, states: seq<LetterState>)
    requires |cur.letters| == WORD_LENGTH && |states| == WORD_LENGTH
    requires forall j :: 0 <= j < WORD_LENGTH ==> IsLetterKey(cur.letters[j].text)
    requires forall j :: 0 <= j < WORD_LENGTH ==> IsVerdict(states[j])
    ensures Submitted(Decide(cur, states))
    ensures RowGuess(Decide(cur, states)) == RowGuess(cur)
    ensures RowStates(Decide(cur, states)) == states
  {
    var row := Decide(cur, states);
    JoinTexts(row.letters, cur.letters);
    assert RowStates(row) == states;
  }

  /** The game an accepted submit builds satisfies the invariant. */
  lemma AcceptValid(g: Game)
    requires Valid(g) && Editing(g) && Filled(g.tries[g.numSubmittedTries])
    ensures Valid(Recorded(g))
  {
    AcceptLayout(g);
    AcceptScores(g);
    AcceptKeys(g);
  }

  /** After an accepted submit the board keeps its shape and its cells. */
  lemma AcceptLayout(g: Game)
    requires Valid(g) && Editing(g) && Filled(g.tries[g.numSubmittedTries])
    ensures var r := Recorded(g);
            Shaped(r) && CellsOk(r) && CursorOk(r.numSubmittedTries, r.curLetterIndex)
  {
    SubmitValidPre(g);
    AcceptCells(g, Recorded(g), DecidedRow(g));
  }

  /** After an accepted submit every submitted row is scored and the won
      flag matches the last row. */
  lemma AcceptScores(g: Game)
    requires Valid(g) && Editing(g) && Filled(g.tries[g.numSubmittedTries])
    ensures var r := Recorded(g);
            && ScoredRows(r.tries, r.numSubmittedTries, r.targetWord, r.targetWordLetterCounts)
            && WonOk(r.tries, r.numSubmittedTries, r.won)
  {
    var n := g.numSubmittedTries;
    SubmitValidPre(g);
    var row := DecidedRow(g);
    AcceptRows(g.tries, n, row, g.targetWord, g.targetWordLetterCounts);
    AcceptWon(g.tries, n, row);
  }

  /** After an accepted submit the keyboard is the merge of every
      submitted row. */
  lemma AcceptKeys(g: Game)
    requires Valid(g) && Editing(g) && Filled(g.tries[g.numSubmittedTries])
    ensures var r := Recorded(g);
            r.curLetterStates == KeyboardOf(r.tries, r.numSubmittedTries)
  {
    AcceptKeyboard(g.tries, g.numSubmittedTries, DecidedRow(g));
  }

  /** After an accepted submit every cell still satisfies `CellOk`: the
      decided row is no longer pending and its texts are unchanged. */
  lemma AcceptCells(g: Game, r: Game, row: Try)
    requires Shaped(g) && CellsOk(g) && Editing(g)
    requires g.curLetterIndex == (g.numSubmittedTries + 1) * WORD_LENGTH
    requires Submitted(row)
    requires forall j :: 0 <= j < WORD_LENGTH ==> row.letters[j].text == g.tries[g.numSubmittedTries].letters[j].text
    requires r.tries == g.tries[g.numSubmittedTries := row]
    requires r.curLetterIndex == g.curLetterIndex && r.numSubmittedTries == g.numSubmittedTries + 1
    ensures Shaped(r) && CellsOk(r)
    ensures CursorOk(r.numSubmittedTries, r.curLetterIndex)
  {
    forall i, j | 0 <= i < NUM_TRIES && 0 <= j < WORD_LENGTH
      ensures CellOk(r, i, j)
    {
      assert CellOk(g, i, j);
    }
  }

  /** Appending a scored row to scored rows keeps them scored. */
  lemma AcceptRows(tries: seq<Try>, n: nat, row: Try, target: string, counts: map<char, nat>)
    requires n < |tries| && ScoredRows(tries, n, target, counts) && Scored(row, target, counts)
    ensures ScoredRows(tries[n := row], n + 1, target, counts)
  {
    var next := tries[n := row];
    forall i | 0 <= i < n + 1
      ensures Scored(next[i], target, counts)
    {
      if i < n {
        assert next[i] == tries[i];
        assert Scored(tries[i], target, counts);
      } else {
        assert next[i] == row;
      }
    }
  }

  /** A game not yet won stays consistent with its won flag when a row is
      appended: it is won exactly when the new row is all full matches. */
  lemma AcceptWon(tries: seq<Try>, n: nat, row: Try)
    requires n < |tries| && WonOk(tries, n, false)
    ensures WonOk(tries[n := row], n + 1, AllFull(RowStates(row)))
  {
    var next := tries[n := row];
    assert next[n] == row;
    forall i | 0 <= i < n
      ensures !AllFull(RowStates(next[i]))
    {
      assert next[i] == tries[i];
    }
  }

  /** Recording one more submitted row merges its verdicts into the
      keyboard of the earlier rows. */
  lemma AcceptKeyboard(tries: seq<Try>, n: nat, row: Try)
    requires n < |tries| && Submitted(row)
    ensures KeyboardOf(tries[n := row], n + 1) == MergeWord(KeyboardOf(tries, n), RowGuess(row), RowStates(row))
  {
    var next := tries[n := row];
    KeyboardOfFrame(tries, next, n);
    assert next[n] == row;
  }

  lemma {:induction false} JoinTexts(a: seq<Letter>, b: seq<Letter>)
    requires |a| == |b| && forall j :: 0 <= j < |a| ==> a[j].text == b[j].text
    ensures Join(a) == Join(b)
    decreases |a|
  {
    if a != [] {
      JoinTexts(a[1..], b[1..]);
    }
  }

  /** A submit never rewrites a submitted row and never lowers a key's
      verdict. */
  lemma SubmitKeeps(g: Game, words: set<string>)
    requires Valid(g) && Editing(g)
    ensures var r := Submit(g, words).game;
            && (forall i :: 0 <= i < g.numSubmittedTries ==> r.tries[i] == g.tries[i])
            && (forall c :: c in g.curLetterStates ==>
                  c in r.curLetterStates && Rank(r.curLetterStates[c]) >= Rank(g.curLetterStates[c]))
  {
    var r := Submit(g, words);
    if r.message !in {NotEnoughLetters, NotInWordList} {
      var n := g.numSubmittedTries;
      AcceptEffect(g);
      SubmitValidPre(g);
      MergeWordBest(g.curLetterStates, RowGuess(g.tries[n]), RowStates(r.game.tries[n]));
    }
  }

  /** One key press. A won or lost game ignores every key; otherwise a
      letter key inserts, "Backspace" deletes, "Enter" submits, and any other
      key is ignored. */
  function HandleKey(g: Game, words: set<string>, key: string): (r: Outcome)
    requires Valid(g)
    ensures Valid(r.game)
    ensures g.won || Lost(g) ==> r.game == g
    ensures g.won ==> r.game.won
    ensures g.numSubmittedTries <= r.game.numSubmittedTries <= g.numSubmittedTries + 1
    ensures r.game.numSubmittedTries <= NUM_TRIES
    ensures r.game.targetWord == g.targetWord && r.game.targetWordLetterCounts == g.targetWordLetterCounts
    ensures forall i :: 0 <= i < g.numSubmittedTries ==> r.game.tries[i] == g.tries[i]
    ensures forall c :: c in g.curLetterStates ==>
              c in r.game.curLetterStates && Rank(r.game.curLetterStates[c]) >= Rank(g.curLetterStates[c])
  {
    if g.won || Lost(g) then
      Outcome(g, NoMessage)
    else if IsLetterKey(key) then
      Outcome(Insert(g, key), NoMessage)
    else if key == "Backspace" then
      Outcome(Delete(g), NoMessage)
    else if key == "Enter" then
      SubmitKeeps(g, words);
      Submit(g, words)
    else
      Outcome(g, NoMessage)
  }

  /** An accepted guess wins exactly when it spells the target; a wrong
      guess on the last try loses the game and reveals the target
      upper-cased. */
  lemma SubmitOutcome(g: Game, words: set<string>)
    requires Valid(g) && Editing(g)
    requires Filled(g.tries[g.numSubmittedTries])
    requires UpperWord(Join(g.tries[g.numSubmittedTries].letters)) in words
    ensures var r := Submit(g, words);
            var guess := RowGuess(g.tries[g.numSubmittedTries]);
            && (r.message == Nice <==> guess == g.targetWord)
            && (r.game.won <==> guess == g.targetWord)
            && (guess != g.targetWord && g.numSubmittedTries + 1 == NUM_TRIES ==>
                  Lost(r.game) && r.message == Reveal(UpperWord(g.targetWord)))
  {
    SubmitValidPre(g);
    AcceptEffect(g);
    WinsExactly(RowGuess(g.tries[g.numSubmittedTries]), g.targetWord);
  }

  /** The result of a key press as the source's handler runs it: a new
      outcome; `Thrown`, the TypeError `setLetter` throws out of the handler
      itself when it writes into a row past the end of the board; or
      `Rejected`, when Enter starts the asynchronous check, which the
      handler does not await: the handler returns normally, the check's
      read of a row past the end rejects its promise with a TypeError, and
      the game is left as it was. */
  datatype KeyResult = Done(outcome: Outcome) | Thrown | Rejected

  /** The key handler with the source's guards as written: only a won game
      is refused. A letter is written while the cursor is short of the end
      of row `numSubmittedTries`, into the row the cursor divided by
      WORD_LENGTH names; Enter reads row `numSubmittedTries`. Outside a lost
      game this is `HandleKey`; in a lost game both reads fall one row past
      the board, a letter throwing out of the handler and Enter rejecting
      the check's promise. */
  function SourceHandleKey(g: Game, words: set<string>, key: string): (r: KeyResult)
    requires Valid(g)
    ensures !Lost(g) ==> r == Done(HandleKey(g, words, key))
    ensures Lost(g) && IsLetterKey(key) ==> r == Thrown
    ensures Lost(g) && key == "Enter" ==> r == Rejected
    ensures Lost(g) && !IsLetterKey(key) && key != "Enter" ==> r == Done(Outcome(g, NoMessage))
  {
    var n := g.numSubmittedTries;
    if g.won then Done(Outcome(g, NoMessage))
    else if IsLetterKey(key) then
      if g.curLetterIndex < (n + 1) * WORD_LENGTH then
        if g.curLetterIndex / WORD_LENGTH < |g.tries| then Done(Outcome(Insert(g, key), NoMessage))
        else Thrown
      else Done(Outcome(g, NoMessage))
    else if key == "Backspace" then
      if g.curLetterIndex > n * WORD_LENGTH then Done(Outcome(Delete(g), NoMessage))
      else Done(Outcome(g, NoMessage))
    else if key == "Enter" then
      if n < |g.tries| then Done(Submit(g, words)) else Rejected
    else Done(Outcome(g, NoMessage))
  }

  /** The share string of a valid game: one block of WORD_LENGTH squares and
      a line break per submitted try, where the square in row i, column j is
      the glyph of that cell's verdict (which `Valid` ties to the evaluation
      of the word row i spells). */
  lemma GameShare(g: Game)
    requires Valid(g)
    ensures var n := g.numSubmittedTries;
            var s := Share.ShareString(g.tries, n);
            && |s| == n * (WORD_LENGTH + 1)
            && Occurrences(s, '\n') == n
            && (forall i, j :: 0 <= i < n && 0 <= j < WORD_LENGTH ==>
                  IsVerdict(g.tries[i].letters[j].state)
                  && s[Share.Pos(i, j)] == Share.GlyphOf(g.tries[i].letters[j].state))
            && (forall i :: 0 <= i < n ==> s[Share.Pos(i, WORD_LENGTH)] == '\n')
  {
    var n := g.numSubmittedTries;
    forall i | 0 <= i < n
      ensures Submitted(g.tries[i])
    {
      assert Scored(g.tries[i], g.targetWord, g.targetWordLetterCounts);
    }
  }

  /** A sequence of key presses, one after another. Every game reached from
      a valid game is valid; it keeps its target, never loses a submitted
      row or a key verdict, and never leaves a finished game. */
  function Play(g: Game, words: set<string>, keys: seq<string>): (r: Game)
    requires Valid(g)
    ensures Valid(r)
    ensures r.targetWord == g.targetWord && r.targetWordLetterCounts == g.targetWordLetterCounts
    ensures g.numSubmittedTries <= r.numSubmittedTries <= NUM_TRIES
    ensures r.numSubmittedTries <= g.numSubmittedTries + |keys|
    ensures g.won || Lost(g) ==> r == g
    ensures forall i :: 0 <= i < g.numSubmittedTries ==> r.tries[i] == g.tries[i]
    ensures forall c :: c in g.curLetterStates ==>
              c in r.curLetterStates && Rank(r.curLetterStates[c]) >= Rank(g.curLetterStates[c])
    decreases |keys|
  {
    if keys == [] then g
    else Play(HandleKey(g, words, keys[0]).game, words, keys[1..])
  }
}

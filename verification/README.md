# Wordle game engine in Dafny

This project models the game engine of the `Wordle` Angular component
(`create-a-wordle-like-game/src/app/wordle.component.ts`). The player has
`NUM_TRIES = 6` tries to guess a hidden lower-case word of
`WORD_LENGTH = 5` letters. The engine covers:

- **Board and keys.** A 6 x 5 board of letters with a cursor
  (`curLetterIndex`). Letter keys, Backspace and Enter drive it through
  `handleClickKey`.
- **Count map.** A letter-count map (`targetWordLetterCounts`) is built
  from the target word once, in the constructor.
- **Guess evaluator.** It clones the count map and makes one left-to-right
  pass over the five positions. Each position gets FULL_MATCH,
  PARTIAL_MATCH or WRONG, and a FULL or PARTIAL verdict uses up one count
  of its letter. An earlier PARTIAL can therefore use up the count that a
  later exact match needed.
- **Keyboard.** Each letter keeps the best verdict it has received, under
  the order WRONG < PARTIAL_MATCH < FULL_MATCH.
- **Win and loss.** A try with five FULL_MATCH verdicts wins. A sixth try
  that does not win reveals the target word, upper-cased.
- **Share string.** One row of coloured squares per submitted try, each
  row ended by a line break.

Modules:

- `Types`: constants and the `LetterState`, `Letter` and `Try` records.
- `Letters`: ASCII case, occurrence counts and the letter-count map.
- `Evaluator`: the single-pass fold, its properties, and a map-free
  reference definition that the fold is proved to equal.
- `Keyboard`: the verdict rank and the merge into the keyboard.
- `Share`: the share string.
- `Game`: the game state and its invariant `Game.Valid`, plus insert,
  delete, submit, the key handler and runs of many keys.
- `Scenarios`: worked evaluations of single guesses.

`Game.Valid` ties the parts together:

- the cursor lies in the active row;
- a cell is non-empty exactly when it lies before the cursor;
- a cell is pending exactly when its row is not yet submitted;
- every submitted row holds the evaluation of the word it spells;
- `won` holds exactly when the last submitted row is all FULL_MATCH;
- the keyboard is the merge of the submitted rows, in order.

Every operation preserves `Game.Valid`.

Modelling choices:

- **Words as parameters.** The target word and the word list are
  parameters. The target is any lower-case word of five letters. The word
  list is a set of strings.
- **Word-list check.** As in the code, it upper-cases the joined row and
  looks it up in the word list.
- **Cell text as typed.** A cell holds the key exactly as typed, which may
  be upper-case: the on-screen keyboard sends `'Q'`. The evaluator and the
  keyboard read the lower-cased text; the code never lower-cases the
  stored text itself.
- **Atomic submit.** A submit is one step. The source spreads it over
  awaited animation frames.
- **Loss is terminal.** Once the game is lost, every key is a no-op. The
  source checks only `won`; see Findings.

## Model

| member | source | states |
|---|---|---|
| Letters.LetterCounts | create-a-wordle-like-game/src/app/wordle.component.ts:120-127 | Each letter of the target maps to the number of times it occurs. No other letter is a key, and every count is positive. |
| Letters.AddLetters | create-a-wordle-like-game/src/app/wordle.component.ts:121-127 | Folding a word into a map adds its occurrences to each letter's count, creating missing entries at 0 first. The keys become the old keys plus the word's letters. |
| Letters.UpperLowerRoundTrip | create-a-wordle-like-game/src/app/wordle.component.ts:332-336 | The upper-cased target revealed after a loss consists of upper-case letters. Lower-casing it gives back the target. |
| Evaluator.Judge | create-a-wordle-like-game/src/app/wordle.component.ts:252-266 | The verdict at one position is never PENDING. It uses an occurrence iff some count of the letter is left and the letter is the expected one or occurs in the target. It is FULL_MATCH iff the letter is the expected one and count is left. With no count left it is WRONG. |
| Evaluator.EvalPrefix | create-a-wordle-like-game/src/app/wordle.component.ts:246-268 | The pass over the first n positions decides exactly n verdicts, none of them PENDING. |
| Evaluator.EvalPrefixSound | create-a-wordle-like-game/src/app/wordle.component.ts:259-266 | A FULL_MATCH is an exact position match. A PARTIAL_MATCH is a letter the target holds at another position. A letter the target lacks is WRONG. No remaining count ever exceeds its starting count. |
| Evaluator.Conservation | create-a-wordle-like-game/src/app/wordle.component.ts:246-266 | For every letter, the count left on the cloned map plus the number of positions that used that letter equals the starting count. |
| Evaluator.PrefixStable | create-a-wordle-like-game/src/app/wordle.component.ts:247-268 | Deciding later positions never revises an earlier verdict. |
| Evaluator.Evaluate | create-a-wordle-like-game/src/app/wordle.component.ts:246-268 | A full guess gets exactly WORD_LENGTH verdicts, none of them PENDING. |
| Evaluator.EvaluateBounds | create-a-wordle-like-game/src/app/wordle.component.ts:259-266 | No letter is credited more often than its count allows. A letter absent from the target is WRONG. A FULL_MATCH is an exact position match. |
| Evaluator.PositionVerdict | create-a-wordle-like-game/src/app/wordle.component.ts:259-266 | A position uses an occurrence iff the target holds its letter and earlier positions left some count. It is FULL_MATCH iff, in addition, the letter sits at that position of the target. It is PARTIAL_MATCH iff the target holds the letter elsewhere and count is left. |
| Evaluator.UsedIsMin | create-a-wordle-like-game/src/app/wordle.component.ts:259-266 | The number of positions that use up letter c is the smaller of c's count and c's occurrences in the guess. It is 0 when the target lacks c. |
| Evaluator.SelfGuessAllFull | create-a-wordle-like-game/src/app/wordle.component.ts:121-127 | Guessing the target itself, against the count map built from it, gives FULL_MATCH at every position. |
| Evaluator.NeverOverConsumed | create-a-wordle-like-game/src/app/wordle.component.ts:259-266 | With the target's count map, the positions credited with letter c never outnumber c's occurrences in the target. They number 0 for a letter the target lacks. |
| Evaluator.WinsExactly | create-a-wordle-like-game/src/app/wordle.component.ts:316 | A guess evaluates to all FULL_MATCH iff it is the target word. |
| Evaluator.EvaluateIsReference | create-a-wordle-like-game/src/app/wordle.component.ts:246-268 | The single pass equals a reference definition without the map. Position i is WRONG unless fewer earlier guess positions hold its letter than the target does; otherwise it is FULL_MATCH at the target's own position and PARTIAL_MATCH elsewhere. |
| Keyboard.Rank | create-a-wordle-like-game/src/app/wordle.component.ts:32-38 | The explicit order that replaces the enum comparison at line 308: WRONG is the only lowest rank, FULL_MATCH the only highest, and PARTIAL_MATCH lies strictly between. |
| Keyboard.RankInjective | create-a-wordle-like-game/src/app/wordle.component.ts:32-38 | The explicit rank WRONG < PARTIAL_MATCH < FULL_MATCH tells the three verdicts apart, replacing the enum's integer order. |
| Keyboard.Merge | create-a-wordle-like-game/src/app/wordle.component.ts:301-310 | An unset letter takes the new verdict. A set letter ends with the higher rank of old and new. Every other key is unchanged. |
| Keyboard.MergeWord | create-a-wordle-like-game/src/app/wordle.component.ts:298-311 | Merging a guess's verdicts left to right leaves only verdicts on the keyboard. |
| Keyboard.MergeWordBest | create-a-wordle-like-game/src/app/wordle.component.ts:298-311 | After the merge, the keys are the old keys plus the guessed letters, and a letter outside the guess keeps its state. No rank goes down, and each guessed letter ranks at least as high as each verdict it got. Every stored state is its old one or one of its new verdicts. |
| Share.GlyphOf | create-a-wordle-like-game/src/app/wordle.component.ts:187-199 | FULL_MATCH gives the green square, PARTIAL_MATCH the yellow one and WRONG the white one, each iff. No square is a line break. |
| Share.ShareString | create-a-wordle-like-game/src/app/wordle.component.ts:183-202 | The share string of the first n tries holds exactly n line breaks. When those rows are decided it has n * 6 code points. Position 6i + j holds the square of row i, column j, and position 6i + 5 holds the line break that ends row i. |
| Share.BlockStep | create-a-wordle-like-game/src/app/wordle.component.ts:184-201 | Appending a decided row's five squares and a line break to the blocks of the earlier rows lays out one more block, as each pass of the outer loop does. |
| Share.RowLayout | create-a-wordle-like-game/src/app/wordle.component.ts:185-200 | A decided row yields one square per letter, in order. |
| Game.Init | create-a-wordle-like-game/src/app/wordle.component.ts:96-127 | A new game is valid and still being edited. It stores the given target, and each letter's count equals its occurrences in that target. Every cell is empty and pending, the cursor is 0, nothing is submitted or won, and the keyboard is empty. |
| Game.ValidMeaning | create-a-wordle-like-game/src/app/wordle.component.ts:246-336 | What the invariant `Game.Valid` says about a game. Every submitted row holds the evaluation of the word it spells against the target. The game is won iff the last submitted word is the target, and no earlier submitted word is. A game not won has never had the target submitted. |
| Game.IsLetterKey | create-a-wordle-like-game/src/app/wordle.component.ts:12-19 | The letter test at line 158 accepts exactly the one-character keys a-z and A-Z, so never "Enter" or "Backspace". |
| Game.Join | create-a-wordle-like-game/src/app/wordle.component.ts:225-226 | Joining a row of one-letter cells gives a word of the same length whose j-th character is cell j's text. |
| Game.SubmittedGuess | create-a-wordle-like-game/src/app/wordle.component.ts:250-251 | The word a submitted row spells, as the evaluator reads it (the lower-cased texts, `Game.RowGuess`), has five letters, and its j-th letter is cell j's text lower-cased. |
| Game.SetLetter | create-a-wordle-like-game/src/app/wordle.component.ts:210-214 | Writing at a flat index changes the text of exactly the cell in row index / 5, column index - 5 * (index / 5), and nothing else. |
| Game.FlatIndex | create-a-wordle-like-game/src/app/wordle.component.ts:211-212 | Cell (i, j) is at flat index k iff i and j are the floor-division row and the column of k. |
| Game.Insert | create-a-wordle-like-game/src/app/wordle.component.ts:158-165 | With room in the active row, a letter is written at the cursor and the cursor advances by one, changing only that cell. With the row full, nothing changes. Submitted rows, counts, keyboard and flags are kept, and the game stays valid. |
| Game.Delete | create-a-wordle-like-game/src/app/wordle.component.ts:167-173 | Unless the cursor is at the start of the active row, it steps back and only that cell is cleared. Otherwise nothing changes. Submitted rows are kept and the game stays valid. |
| Game.InsertThenDelete | create-a-wordle-like-game/src/app/wordle.component.ts:158-173 | Backspace after a letter typed into a row with room gives back exactly the game before. |
| Game.Submit | create-a-wordle-like-game/src/app/wordle.component.ts:216-238 | "Not enough letters" iff the active row has an empty cell. "Not in word list" iff the row is full and its upper-cased word is not listed. Both rejections leave the game unchanged. Otherwise the result is the accepted game, with "NICE!" iff won and the reveal iff lost. The revealed word lower-cases to the target. |
| Game.Accept | create-a-wordle-like-game/src/app/wordle.component.ts:246-313 | An accepted submit keeps the game valid, counts exactly one more try and keeps the target and its count map. |
| Game.Decide | create-a-wordle-like-game/src/app/wordle.component.ts:288 | Writing verdicts into a row keeps every cell's text and sets cell j's state to verdict j. |
| Game.AcceptEffect | create-a-wordle-like-game/src/app/wordle.component.ts:246-318 | An accepted submit leaves the cursor at the start of the next row and every other row unchanged. The active row keeps its texts and holds the evaluation of its lower-cased word. The keyboard is the old keyboard merged with those verdicts. The game is won iff all verdicts are FULL_MATCH. |
| Game.SubmitOutcome | create-a-wordle-like-game/src/app/wordle.component.ts:313-336 | A listed guess wins, with "NICE!", iff it spells the target. A wrong guess on the sixth try loses and reveals the upper-cased target. |
| Game.SubmitKeeps | create-a-wordle-like-game/src/app/wordle.component.ts:298-313 | A submit never rewrites a submitted row and never lowers a key's verdict. |
| Game.HandleKey | create-a-wordle-like-game/src/app/wordle.component.ts:151-178 | One key keeps the game valid. A won or lost game ignores every key, and a won game stays won. At most one try is counted, never more than six. The target is kept, submitted rows are never changed and keyboard ranks never go down. |
| Game.SourceHandleKey | create-a-wordle-like-game/src/app/wordle.component.ts:151-178 | The key handler as written. Outside a lost game it is `HandleKey`. In a lost game a letter key reads a row past the board in `setLetter` and throws out of the handler. Enter reads it inside the un-awaited asynchronous check: the handler returns and the check's promise rejects. Any other key changes nothing. |
| Game.GameShare | create-a-wordle-like-game/src/app/wordle.component.ts:184-202 | The share string of any valid game has one line break and five squares per submitted try. The square for row i, column j is the glyph of that cell's verdict. |
| Game.Play | create-a-wordle-like-game/src/app/wordle.component.ts:151-178 | Any run of keys from a valid game keeps it valid and keeps its target. It never counts more tries than keys or more than six, and never leaves a won or lost game. Submitted rows are never changed and keyboard ranks never go down. |
| Scenarios.HappyApply | create-a-wordle-like-game/src/app/wordle.component.ts:256-268 | Target "happy", guess "apply" evaluates to PARTIAL, PARTIAL, FULL, WRONG, FULL. |
| Scenarios.CraneCandy | create-a-wordle-like-game/src/app/wordle.component.ts:246-268 | Target "crane", guess "candy" evaluates to FULL, PARTIAL, PARTIAL, WRONG, WRONG. |
| Scenarios.NightTight | create-a-wordle-like-game/src/app/wordle.component.ts:246-268 | Target "night", guess "tight" evaluates to PARTIAL, FULL, FULL, FULL, WRONG. The leading 't' uses up the only 't' before the exact match is reached. |

## Left out

- Animation, timers and `await`: the fold and bounce animations, the row shake and the message fade-out (lines 229-236, 275-292, 319-325, 339-372). In the source, `checkCurrentTry` is asynchronous. A second Enter pressed during the fold animation starts a second check of the same row before `numSubmittedTries` moves. Backspace during that animation is worse. The cursor is then at (n+1)*5, so the guard at line 169 passes and cell 4 of the row being checked is cleared. Lines 299-300 then merge `""` into the keyboard. After `numSubmittedTries++` at line 313 the cursor sits one cell before the new active row, so the next letter (lines 161-163) overwrites a cell of a row already submitted. The model makes a submit one atomic step and does not model that re-entrancy.
- Clipboard, console output and the info and share dialog flags (lines 68-75, 203-207): these are I/O and presentation.
- Choosing the target (lines 106-116): the source picks it with `Math.random` in an unbounded loop. The target is a parameter instead: any lower-case word of five letters.
- The contents of `WORDS` (line 3): the list comes from a file that is not part of this model. The word list is a parameter.
- `getKeyClass`, `keyboardRows` and the keydown listener (lines 59-63, 131-149): they map states to CSS classes and lay out keys. `Game.Play` takes the keys as a sequence.
- Strings are sequences of Unicode code points. JavaScript's `length` counts UTF-16 units, and the green and yellow squares (U+1F7E9, U+1F7E8) take two units each while the white square (U+2B1C) takes one. So the share string's JavaScript length is not n * 6; the model states lengths in code points.
- Case conversion beyond ASCII: `toLowerCase` and `toUpperCase` are modelled on a-z and A-Z only.
- Property names inherited by the plain `LETTERS` object: a key such as `constructor` is truthy in the source's lookup. The model accepts only one-character letter keys.
- Keyboard.MergeWord: its own contract states only that no key is left pending. The content of the merge is stated by `Keyboard.MergeWordBest`.
- Evaluator.EvalPrefix: its own contract states only the number of verdicts and that none is pending. What each verdict certifies is stated by `Evaluator.EvalPrefixSound`, `Evaluator.PositionVerdict` and `Evaluator.EvaluateIsReference`.
- Evaluator.Evaluate: its own contract states only length and that no verdict is pending. The meaning of the verdicts is in the lemmas about it.

## Findings

| source | as written | input that shows it | evidently intended | confidence | as-written member | corrected member |
|---|---|---|---|---|---|---|
| create-a-wordle-like-game/src/app/wordle.component.ts:151-164, 210-218 | `handleClickKey` refuses keys only when `won`. After a lost game the cursor is 30 and `numSubmittedTries` is 6, so a letter passes the guard `30 < 35`. `setLetter` then writes into `tries[6]`, and Enter reads `tries[6].letters`. Both are past the six rows. The letter's TypeError is thrown out of `handleClickKey` itself. Enter's is raised inside the asynchronous `checkCurrentTry`, which line 176 does not await, so the handler returns and the error surfaces as a rejected promise. | Six listed guesses that are not the target, then any letter key or Enter. | Once the game is lost, every key is a no-op, as it already is once the game is won. | not executed | Game.SourceHandleKey | Game.HandleKey |

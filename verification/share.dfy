/**
  The shareable result: one row per submitted try, one coloured square per
  letter, each row ended by a line break.
 */
module Share {
  import opened Types
  import Letters

  const GreenSquare: char := '\U{1F7E9}'
  const YellowSquare: char := '\U{1F7E8}'
  const WhiteSquare: char := '\U{2B1C}'

  /** The square for a verdict: green for a full match, yellow for a
      partial match, white for a wrong letter. Distinct verdicts get
      distinct squares, and no square is a line break. */
  function GlyphOf(s: LetterState): (r: char)
    requires IsVerdict(s)
    ensures r == GreenSquare <==> s == FullMatch
    ensures r == YellowSquare <==> s == PartialMatch
    ensures r == WhiteSquare <==> s == Wrong
    ensures r != '\n'
  {
    match s
    case FullMatch => GreenSquare
    case PartialMatch => YellowSquare
    case Wrong => WhiteSquare
  }

  /** What one letter adds to the string: its square, or nothing while it is
      still pending. */
  function Glyph(s: LetterState): string {
    if IsVerdict(s) then [GlyphOf(s)] else []
  }

  /** The squares of one row, left to right. */
  function RowGlyphs(letters: seq<Letter>): (r: string)
    ensures |r| <= |letters|
    ensures '\n' !in r
    decreases |letters|
  {
    if letters == [] then [] else Glyph(letters[0].state) + RowGlyphs(letters[1..])
  }

  /** A row whose letters are all decided has one square per letter, in
      order. */
  lemma {:induction false} RowLayout(letters: seq<Letter>)
    requires forall j :: 0 <= j < |letters| ==> IsVerdict(letters[j].state)
    ensures |RowGlyphs(letters)| == |letters|
    ensures forall j :: 0 <= j < |letters| ==> RowGlyphs(letters)[j] == GlyphOf(letters[j].state)
    decreases |letters|
  {
    if letters != [] {
      RowLayout(letters[1..]);
    }
  }

  /** Index in the share string of column j of row i; column WORD_LENGTH is
      the row's line break. */
  function Pos(i: nat, j: nat): nat {
    i * (WORD_LENGTH + 1) + j
  }

  predicate SubmittedRows(tries: seq<Try>, n: nat) {
    && n <= |tries|
    && (forall i :: 0 <= i < n ==> |tries[i].letters| == WORD_LENGTH)
    && (forall i, j :: 0 <= i < n && 0 <= j < WORD_LENGTH ==> IsVerdict(tries[i].letters[j].state))
  }

  /** The shareable string of the first `n` tries. It holds exactly one
      line break per try: rows are never merged or split, and the last row
      is followed by a trailing line break. When the n rows are fully
      decided it is n blocks of WORD_LENGTH + 1 characters: block i holds
      row i's squares in column order and then the line break. */
  function ShareString(tries: seq<Try>, n: nat): (r: string)
    requires n <= |tries|
    ensures Letters.Occurrences(r, '\n') == n
    ensures SubmittedRows(tries, n) ==> |r| == n * (WORD_LENGTH + 1)
    ensures SubmittedRows(tries, n) ==>
              forall i, j :: 0 <= i < n && 0 <= j < WORD_LENGTH ==>
                r[Pos(i, j)] == GlyphOf(tries[i].letters[j].state)
    ensures SubmittedRows(tries, n) ==>
              forall i :: 0 <= i < n ==> r[Pos(i, WORD_LENGTH)] == '\n'
  {
    if n == 0 then []
    else
      var prefix := ShareString(tries, n - 1);
      var row := RowGlyphs(tries[n - 1].letters);
      Letters.OccurrencesPositive(row, '\n');
      Letters.OccurrencesConcat(prefix, row, '\n');
      Letters.OccurrencesConcat(prefix + row, "\n", '\n');
      var s := prefix + row + "\n";
      if SubmittedRows(tries, n) then BlockStep(tries, n, prefix); s else s
  }

  /** Appending row n - 1's squares and a line break to the laid-out blocks
      of the first n - 1 decided rows lays out n blocks. */
  lemma BlockStep(tries: seq<Try>, n: nat, prefix: string)
    requires 0 < n && SubmittedRows(tries, n)
    requires |prefix| == (n - 1) * (WORD_LENGTH + 1)
    requires forall i, j :: 0 <= i < n - 1 && 0 <= j < WORD_LENGTH ==>
               prefix[Pos(i, j)] == GlyphOf(tries[i].letters[j].state)
    requires forall i :: 0 <= i < n - 1 ==> prefix[Pos(i, WORD_LENGTH)] == '\n'
    ensures var s := prefix + RowGlyphs(tries[n - 1].letters) + "\n";
            && |s| == n * (WORD_LENGTH + 1)
            && (forall i, j :: 0 <= i < n && 0 <= j < WORD_LENGTH ==>
                  s[Pos(i, j)] == GlyphOf(tries[i].letters[j].state))
            && (forall i :: 0 <= i < n ==> s[Pos(i, WORD_LENGTH)] == '\n')
  {
    RowLayout(tries[n - 1].letters);
    var s := prefix + RowGlyphs(tries[n - 1].letters) + "\n";
    forall i, j | 0 <= i < n && 0 <= j < WORD_LENGTH
      ensures s[Pos(i, j)] == GlyphOf(tries[i].letters[j].state)
    {
      if i < n - 1 {
        assert Pos(i, j) < |prefix|;
      } else {
        assert Pos(i, j) == |prefix| + j;
      }
    }
    forall i | 0 <= i < n
      ensures s[Pos(i, WORD_LENGTH)] == '\n'
    {
      if i < n - 1 {
        assert Pos(i, WORD_LENGTH) < |prefix|;
      } else {
        assert Pos(i, WORD_LENGTH) == |s| - 1;
      }
    }
  }
}

/**
  Characters of the game: the a-z alphabet, ASCII case conversion, letter
  occurrence counts and the letter-count map built from the target word.
 */
module Letters {

  predicate IsLower(c: char) {
    'a' <= c <= 'z'
  }

  predicate IsUpper(c: char) {
    'A' <= c <= 'Z'
  }

  /** `toLowerCase` on one character, restricted to ASCII. */
  function Lower(c: char): char {
    if IsUpper(c) then (c as int + 32) as char else c
  }

  /** `toUpperCase` on one character, restricted to ASCII. */
  function Upper(c: char): char {
    if IsLower(c) then (c as int - 32) as char else c
  }

  function LowerWord(s: string): (r: string)
    ensures |r| == |s|
    ensures forall i :: 0 <= i < |s| ==> r[i] == Lower(s[i])
  {
    seq(|s|, i requires 0 <= i < |s| => Lower(s[i]))
  }

  function UpperWord(s: string): (r: string)
    ensures |r| == |s|
    ensures forall i :: 0 <= i < |s| ==> r[i] == Upper(s[i])
  {
    seq(|s|, i requires 0 <= i < |s| => Upper(s[i]))
  }

  predicate IsLowerWord(s: string) {
    forall i :: 0 <= i < |s| ==> IsLower(s[i])
  }

  /** Upper-casing a lower-case word loses nothing: lower-casing the result
      gives the word back, so the upper-cased word revealed after a loss
      names the target. */
  lemma UpperLowerRoundTrip(w: string)
    requires IsLowerWord(w)
    ensures IsLowerWord(LowerWord(w))
    ensures LowerWord(UpperWord(w)) == w
    ensures forall i :: 0 <= i < |w| ==> IsUpper(UpperWord(w)[i])
  {
    assert forall i :: 0 <= i < |w| ==> LowerWord(UpperWord(w))[i] == w[i];
  }

  /** Number of positions of `s` holding `c`. */
  function Occurrences(s: seq<char>, c: char): nat {
    if s == [] then 0 else (if s[0] == c then 1 else 0) + Occurrences(s[1..], c)
  }

  lemma {:induction false} OccurrencesAppend(s: seq<char>, x: char, c: char)
    ensures Occurrences(s + [x], c) == Occurrences(s, c) + (if x == c then 1 else 0)
  {
    if s != [] {
      assert (s + [x])[1..] == s[1..] + [x];
      OccurrencesAppend(s[1..], x, c);
    }
  }

  lemma {:induction false} OccurrencesConcat(a: seq<char>, b: seq<char>, c: char)
    ensures Occurrences(a + b, c) == Occurrences(a, c) + Occurrences(b, c)
  {
    if a != [] {
      assert (a + b)[0] == a[0];
      assert (a + b)[1..] == a[1..] + b;
      OccurrencesConcat(a[1..], b, c);
    } else {
      assert a + b == b;
    }
  }

  lemma {:induction false} OccurrencesPositive(s: seq<char>, c: char)
    ensures Occurrences(s, c) > 0 <==> c in s
  {
    if s != [] {
      OccurrencesPositive(s[1..], c);
      assert c in s <==> s[0] == c || c in s[1..];
    }
  }

  /** A prefix never holds more occurrences than the whole sequence, and
      extending the prefix by one position counts that position. */
  lemma {:induction false} OccurrencesPrefix(s: seq<char>, k: nat, c: char)
    requires k < |s|
    ensures Occurrences(s[..k + 1], c) == Occurrences(s[..k], c) + (if s[k] == c then 1 else 0)
    ensures Occurrences(s[..k + 1], c) <= Occurrences(s, c)
    decreases |s| - k
  {
    assert s[..k + 1] == s[..k] + [s[k]];
    OccurrencesAppend(s[..k], s[k], c);
    if k + 1 < |s| {
      OccurrencesPrefix(s, k + 1, c);
    } else {
      assert s[..k + 1] == s;
    }
  }

  /** Remaining count of `c` in a letter-count map; a letter with no entry
      has nothing left (the source's `undefined > 0` is false). */
  function Get(m: map<char, nat>, c: char): nat {
    if c in m then m[c] else 0
  }

  /** Adds one to the count of `c`, creating the entry at 0 first. */
  function Increment(m: map<char, nat>, c: char): map<char, nat> {
    m[c := Get(m, c) + 1]
  }

  /** Folds `word` left to right into `m`, one increment per letter. */
  function AddLetters(m: map<char, nat>, word: string): (r: map<char, nat>)
    ensures forall c :: Get(r, c) == Get(m, c) + Occurrences(word, c)
    ensures forall c :: c in r <==> c in m || c in word
    decreases |word|
  {
    if word == [] then m
    else
      var r := AddLetters(Increment(m, word[0]), word[1..]);
      assert forall c :: c in word <==> c == word[0] || c in word[1..];
      r
  }

  /** The letter-count map of a word: every letter of the word is a key,
      mapped to the number of times it occurs, and nothing else is a key. */
  function LetterCounts(word: string): (r: map<char, nat>)
    ensures forall c :: Get(r, c) == Occurrences(word, c)
    ensures forall c :: c in r <==> c in word
    ensures forall c :: c in r ==> r[c] > 0
  {
    var r := AddLetters(map[], word);
    forall c | c in r
      ensures r[c] > 0
    {
      OccurrencesPositive(word, c);
    }
    r
  }
}

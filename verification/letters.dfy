/** The weighted filler alphabet and the draw of one filler letter. */
module Letters {

  /** The filler alphabet as (letter, repetitions) pairs, in the order the
      letters appear in the weighted string. A letter's chance of being drawn is
      its repetition count over the total. */
  const Weights: seq<(char, nat)> := [
    ('e', 90), ('t', 86), ('a', 81), ('o', 75), ('i', 70), ('n', 68),
    ('s', 63), ('r', 59), ('h', 54), ('l', 40), ('d', 34), ('c', 28),
    ('u', 26), ('m', 24), ('f', 22), ('p', 18), ('g', 17), ('y', 15),
    ('w', 13), ('b', 12), ('v', 10), ('k', 8), ('x', 4), ('j', 3),
    ('q', 2), ('z', 2)
  ]

  /** `n` copies of `c`. */
  function Repeat(c: char, n: nat): (s: string)
    ensures |s| == n
    ensures forall i :: 0 <= i < n ==> s[i] == c
  {
    seq(n, _ => c)
  }

  /** The weighted string spelled out by a table of (letter, count) pairs. */
  function Expand(ws: seq<(char, nat)>): string
  {
    if ws == [] then [] else Repeat(ws[0].0, ws[0].1) + Expand(ws[1..])
  }

  /** The weighted string the filler letters are drawn from. */
  const LETTERS: string := Expand(Weights)

  predicate IsLowerAscii(c: char)
  {
    'a' <= c <= 'z'
  }

  /** `c` has a positive weight in the table, i.e. it can be drawn as filler.
      LettersAreTheAlphabet shows this is exactly membership in LETTERS; proofs
      about the grid use this form, which does not spell the string out. */
  predicate InAlphabet(c: char)
  {
    exists j :: 0 <= j < |Weights| && Weights[j].0 == c && Weights[j].1 > 0
  }

  /** Every character of an expanded table comes from a row with a positive count. */
  lemma {:induction false} ExpandDrawsFromTable(ws: seq<(char, nat)>, i: nat)
    requires i < |Expand(ws)|
    ensures exists j :: 0 <= j < |ws| && Expand(ws)[i] == ws[j].0 && ws[j].1 > 0
  {
    var head := Repeat(ws[0].0, ws[0].1);
    if i < |head| {
      assert Expand(ws)[i] == ws[0].0;
    } else {
      ExpandDrawsFromTable(ws[1..], i - |head|);
      var j :| 0 <= j < |ws[1..]| && Expand(ws[1..])[i - |head|] == ws[1..][j].0 && ws[1..][j].1 > 0;
      assert Expand(ws)[i] == ws[j + 1].0;
    }
  }

  /** A letter with a positive count in the table occurs in the expanded string. */
  lemma {:induction false} ExpandCoversTable(ws: seq<(char, nat)>, j: nat)
    requires j < |ws| && ws[j].1 > 0
    ensures ws[j].0 in Expand(ws)
  {
    var head := Repeat(ws[0].0, ws[0].1);
    if j == 0 {
      assert Expand(ws)[0] == ws[0].0;
    } else {
      ExpandCoversTable(ws[1..], j - 1);
      var k :| 0 <= k < |Expand(ws[1..])| && Expand(ws[1..])[k] == ws[j].0;
      assert Expand(ws)[|head| + k] == ws[j].0;
    }
  }

  /** The characters of LETTERS are exactly the letters with a positive weight. */
  lemma LettersAreTheAlphabet(c: char)
    ensures c in LETTERS <==> InAlphabet(c)
  {
    if c in LETTERS {
      var i :| 0 <= i < |LETTERS| && LETTERS[i] == c;
      ExpandDrawsFromTable(Weights, i);
    }
    if InAlphabet(c) {
      var j :| 0 <= j < |Weights| && Weights[j].0 == c && Weights[j].1 > 0;
      ExpandCoversTable(Weights, j);
    }
  }

  /** The alphabet is exactly the 26 lower-case ASCII letters: each has a
      positive weight and nothing else does. */
  lemma AlphabetIsLowercase(c: char)
    ensures InAlphabet(c) <==> IsLowerAscii(c)
  {
    assert forall j :: 0 <= j < |Weights| ==> IsLowerAscii(Weights[j].0);
    if IsLowerAscii(c) {
      var j := Rank(c);
    }
  }

  /** The row of the weight table that holds the letter `c`. */
  function Rank(c: char): (j: nat)
    requires IsLowerAscii(c)
    ensures j < |Weights| && Weights[j].0 == c && Weights[j].1 > 0
  {
    if c == 'e' then 0 else if c == 't' then 1 else if c == 'a' then 2
    else if c == 'o' then 3 else if c == 'i' then 4 else if c == 'n' then 5
    else if c == 's' then 6 else if c == 'r' then 7 else if c == 'h' then 8
    else if c == 'l' then 9 else if c == 'd' then 10 else if c == 'c' then 11
    else if c == 'u' then 12 else if c == 'm' then 13 else if c == 'f' then 14
    else if c == 'p' then 15 else if c == 'g' then 16 else if c == 'y' then 17
    else if c == 'w' then 18 else if c == 'b' then 19 else if c == 'v' then 20
    else if c == 'k' then 21 else if c == 'x' then 22 else if c == 'j' then 23
    else if c == 'q' then 24 else 25
  }

  /** A letter of the alphabet is a character of LETTERS and lower-case ASCII. */
  lemma DrawnFromLetters(c: char)
    requires InAlphabet(c)
    ensures c in LETTERS && IsLowerAscii(c)
  {
    LettersAreTheAlphabet(c);
    AlphabetIsLowercase(c);
  }

  /** `random.choice(LETTERS)`: the character at an index the random source picks. */
  method GetRandomChar() returns (c: char)
    ensures InAlphabet(c)
    ensures IsLowerAscii(c)
  {
    LettersAreTheAlphabet('e');
    assert InAlphabet('e') by { assert Weights[0].0 == 'e'; }
    var i :| 0 <= i < |LETTERS|;
    c := LETTERS[i];
    LettersAreTheAlphabet(c);
    AlphabetIsLowercase(c);
  }
}

/**
 The guess scorer of `src/lib.rs`. The trimmed guess is zipped with the solution;
 each pair becomes Green on an exact match, Yellow when the guess letter occurs
 anywhere in the solution, Gray otherwise. Occurrences in the solution are never
 consumed, so a repeated guess letter is marked Yellow (or Green) at every
 position however few copies the solution holds; comparison is case-sensitive
 and the solution itself is not trimmed.
 */
module Scoring {
  import opened Text

  datatype Color = Green | Yellow | Gray

  /* The closure applied to each zipped pair: guess letter `g`, solution letter `s`. */
  function Judge(g: char, s: char, word: string): (r: Color)
    ensures r == Green <==> g == s
    ensures r == Yellow <==> g != s && g in word
    ensures r == Gray <==> g != s && g !in word
  {
    if g == s then Green else if g in word then Yellow else Gray
  }

  /* The colour at each position is fixed by the two letters there and by
     whether the guess letter occurs anywhere in `word`. */
  ghost predicate Characterises(guess: string, sol: string, word: string, r: seq<Color>) {
    && |r| == Min(|guess|, |sol|)
    && (forall k :: 0 <= k < |r| ==> (r[k] == Green <==> guess[k] == sol[k]))
    && (forall k :: 0 <= k < |r| ==> (r[k] == Yellow <==> guess[k] != sol[k] && guess[k] in word))
    && (forall k :: 0 <= k < |r| ==> (r[k] == Gray <==> guess[k] !in word))
  }

  /* `guess.chars().zip(sol.chars()).map(..)`, with membership always tested
     against the whole solution `word`, of which `sol` is the part still to be zipped. */
  function ZipScore(guess: string, sol: string, word: string): (r: seq<Color>)
    requires |sol| <= |word| && sol == word[|word| - |sol|..]
    ensures |r| == Min(|guess|, |sol|)
    ensures forall k :: 0 <= k < |r| ==> (r[k] == Green <==> guess[k] == sol[k])
    ensures forall k :: 0 <= k < |r| ==> (r[k] == Yellow <==> guess[k] != sol[k] && guess[k] in word)
    ensures forall k :: 0 <= k < |r| ==> (r[k] == Gray <==> guess[k] !in word)
    decreases |sol|
  {
    if |guess| == 0 || |sol| == 0 then []
    else
      assert sol[0] == word[|word| - |sol|];
      [Judge(guess[0], sol[0], word)] + ZipScore(guess[1..], sol[1..], word)
  }

  /* `check_word(input, word)`: one colour per position of the shorter of the
     trimmed input and the (untrimmed) solution. */
  function CheckWord(input: string, word: string): (r: seq<Color>)
    ensures |r| == Min(|Trim(input)|, |word|)
    ensures forall k :: 0 <= k < |r| ==> (r[k] == Green <==> Trim(input)[k] == word[k])
    ensures forall k :: 0 <= k < |r| ==> (r[k] == Yellow <==> Trim(input)[k] != word[k] && Trim(input)[k] in word)
    ensures forall k :: 0 <= k < |r| ==> (r[k] == Gray <==> Trim(input)[k] !in word)
  {
    ZipScore(Trim(input), word, word)
  }

  /* The contract of CheckWord determines its result: any colouring that obeys
     the per-position rule is the one `check_word` returns. */
  lemma CheckWordUnique(input: string, word: string, r: seq<Color>)
    requires Characterises(Trim(input), word, word, r)
    ensures r == CheckWord(input, word)
  {
    var c := CheckWord(input, word);
    forall k | 0 <= k < |r|
      ensures r[k] == c[k]
    {
      if r[k] == Green {
      } else if r[k] == Yellow {
      } else {
        assert r[k] == Gray;
      }
    }
  }

  /* Gray never sits where the letters match: a matching letter occurs in the solution. */
  lemma GrayNeverAtMatch(input: string, word: string, k: nat)
    requires k < |CheckWord(input, word)|
    requires Trim(input)[k] == word[k]
    ensures CheckWord(input, word)[k] == Green
  {
  }

  /* Every position whose guess letter occurs in the solution is coloured, however
     many times the letter is repeated in the guess. */
  lemma NoOccurrenceIsConsumed(input: string, word: string, c: char)
    requires c in word
    ensures forall k :: 0 <= k < |CheckWord(input, word)| && Trim(input)[k] == c ==> CheckWord(input, word)[k] != Gray
  {
  }

  /* Number of copies of `c` in `s`. */
  function Count(s: string, c: char): nat {
    if |s| == 0 then 0 else Count(s[..|s| - 1], c) + (if s[|s| - 1] == c then 1 else 0)
  }

  /* Number of positions of `r` where the guess `g` holds `c` and the verdict is not Gray. */
  function ColouredCount(g: string, r: seq<Color>, c: char): nat
    requires |r| <= |g|
  {
    if |r| == 0 then 0
    else ColouredCount(g, r[..|r| - 1], c) + (if g[|r| - 1] == c && r[|r| - 1] != Gray then 1 else 0)
  }

  /* Under a colouring whose Gray positions are exactly the letters absent from
     `word`, a letter of `word` is coloured at every copy, and any other letter at none. */
  lemma {:induction false} ColouredCopies(g: string, word: string, r: seq<Color>, c: char)
    requires |r| <= |g|
    requires forall k :: 0 <= k < |r| ==> (r[k] == Gray <==> g[k] !in word)
    ensures ColouredCount(g, r, c) == if c in word then Count(g[..|r|], c) else 0
    decreases |r|
  {
    if |r| > 0 {
      var n := |r| - 1;
      ColouredCopies(g, word, r[..n], c);
      assert g[..|r|][..n] == g[..n];
    }
  }

  /* `check_word` colours every copy of a solution letter in the scored part of the
     trimmed guess, however few copies the solution holds, and no copy of any other
     letter: no occurrence in the solution is ever used up. */
  lemma EveryCopyColoured(input: string, word: string, c: char)
    ensures var r := CheckWord(input, word);
            ColouredCount(Trim(input), r, c) == if c in word then Count(Trim(input)[..|r|], c) else 0
  {
    ColouredCopies(Trim(input), word, CheckWord(input, word), c);
  }

  /* A word without surrounding whitespace scored against itself is all Green,
     one verdict per letter. */
  lemma {:induction false} SelfScoreAllGreen(s: string)
    requires s == [] || (!IsWhitespace(s[0]) && !IsWhitespace(s[|s| - 1]))
    ensures CheckWord(s, s) == seq(|s|, _ => Green)
  {
    TrimUntrimmed(s);
    var r := CheckWord(s, s);
    assert |r| == |s|;
    forall k | 0 <= k < |s|
      ensures r[k] == Green
    {
      assert Trim(s)[k] == s[k];
    }
  }

  /* All verdicts are Green exactly when the trimmed input and the solution
     agree on the scored prefix. */
  lemma AllGreenIffPrefixesAgree(input: string, word: string)
    ensures var r := CheckWord(input, word);
            (forall k :: 0 <= k < |r| ==> r[k] == Green) <==> Trim(input)[..|r|] == word[..|r|]
  {
    var r := CheckWord(input, word);
    if Trim(input)[..|r|] == word[..|r|] {
      forall k | 0 <= k < |r|
        ensures r[k] == Green
      {
        assert Trim(input)[..|r|][k] == word[..|r|][k];
      }
    }
  }

  /* A five-letter guess equal to the solution scores five Greens; the converse:
     five Greens against a five-letter solution means the trimmed guess starts with it. */
  lemma {:induction false} FiveGreensIsWin(input: string, word: string)
    requires |word| == 5
    ensures CheckWord(input, word) == [Green, Green, Green, Green, Green] <==> word <= Trim(input)
  {
    AllGreenIffPrefixesAgree(input, word);
    var r := CheckWord(input, word);
    if word <= Trim(input) {
      assert |r| == 5;
      assert Trim(input)[..5] == word[..5];
      assert r == [Green, Green, Green, Green, Green];
    }
    if r == [Green, Green, Green, Green, Green] {
      assert Trim(input)[..5] == word[..5];
    }
  }

  /* Duplicates are not consumed: against a solution shaped like "LEVEL", a guess
     shaped like "ELLEL" colours all three of its L's although the solution holds
     only two. */
  lemma DuplicateLettersNotConsumed(e: char, l: char, v: char)
    requires e != l && e != v && l != v
    requires !IsWhitespace(e) && !IsWhitespace(l)
    ensures CheckWord([e, l, l, e, l], [l, e, v, e, l]) == [Yellow, Yellow, Yellow, Green, Green]
  {
    var g, w := [e, l, l, e, l], [l, e, v, e, l];
    TrimUntrimmed(g);
    var expected := [Yellow, Yellow, Yellow, Green, Green];
    assert e in w && l in w;
    assert Characterises(g, w, w, expected);
    CheckWordUnique(g, w, expected);
  }

  /* Comparison is case-sensitive: 'A' is not 'a', and does not occur in "a". */
  lemma CaseSensitive()
    ensures CheckWord("A", "a") == [Gray]
  {
    TrimUntrimmed("A");
  }

  /* Only the guess is trimmed: " a " becomes "a", which meets the solution's
     leading space at position 0 and so is only Yellow. */
  lemma SolutionNotTrimmed()
    ensures CheckWord(" a ", " a") == [Yellow]
  {
    assert LeadingWhitespace(" a ") == 1;
    assert Trim(" a ") == "a";
  }
}

/** The word-list filters the game's constructor applies to its lexicon.

    The game narrows its lexicon with three in-place filters of an external
    word-list library whose code is not part of this model.  Their behaviour
    is ASSUMED here from their names and from how the game uses them: each one
    keeps the words that pass one test, in their original order, and drops
    the rest.  The contracts below prove which words each definition keeps
    and that a kept word occurs as often as in the input; the order is kept
    by construction and is not stated.  Nothing here is proved about the
    library itself.
 */
module Lexicon {

  /** A word whose every character is one of `letters`. */
  predicate UsesOnly(word: string, letters: set<char>)
  {
    forall c :: c in word ==> c in letters
  }

  /** Assumed behaviour of `only_using_letters`: keep the words built only
      from `letters`. */
  function OnlyUsingLetters(lex: seq<string>, letters: set<char>): (r: seq<string>)
    ensures |r| <= |lex|
    ensures forall w :: w in r <==> w in lex && UsesOnly(w, letters)
    ensures forall w :: multiset(r)[w] == if UsesOnly(w, letters) then multiset(lex)[w] else 0
  {
    if lex == [] then []
    else
      assert lex == [lex[0]] + lex[1..];
      var rest := OnlyUsingLetters(lex[1..], letters);
      if UsesOnly(lex[0], letters) then [lex[0]] + rest else rest
  }

  /** Assumed behaviour of `with_letter`: keep the words that contain `letter`
      at least once. */
  function WithLetter(lex: seq<string>, letter: char): (r: seq<string>)
    ensures |r| <= |lex|
    ensures forall w :: w in r <==> w in lex && letter in w
    ensures forall w :: multiset(r)[w] == if letter in w then multiset(lex)[w] else 0
  {
    if lex == [] then []
    else
      assert lex == [lex[0]] + lex[1..];
      var rest := WithLetter(lex[1..], letter);
      if letter in lex[0] then [lex[0]] + rest else rest
  }

  /** Assumed behaviour of `with_more_length`: keep the words strictly longer
      than `n` characters. */
  function WithMoreLength(lex: seq<string>, n: nat): (r: seq<string>)
    ensures |r| <= |lex|
    ensures forall w :: w in r <==> w in lex && n < |w|
    ensures forall w :: multiset(r)[w] == if n < |w| then multiset(lex)[w] else 0
  {
    if lex == [] then []
    else
      assert lex == [lex[0]] + lex[1..];
      var rest := WithMoreLength(lex[1..], n);
      if n < |lex[0]| then [lex[0]] + rest else rest
  }
}

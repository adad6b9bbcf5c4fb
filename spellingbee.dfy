/** The rules engine of a Spelling-Bee-style word game: a fixed set of
    letters (one required, the others optional), a frozen answer set, and a
    session that accepts words one at a time and keeps a running score.

    Words are strings of lowercase ASCII letters, so a word's length in bytes
    is its number of characters, `|w|`.
 */
module SpellingBee {
  import opened Lexicon

  /** The minimum length of a play. */
  const MIN_LENGTH: nat := 4
  /** The bonus for playing a pangram. */
  const PANGRAM_BONUS: nat := 7

  /** The possible outcomes of playing a word.  The first constructor keeps
      its name from the game, so inside the class, where `Valid()` is the
      object invariant, it is written `PlayResult.Valid`. */
  datatype PlayResult =
    | Valid           // new answer: recorded and scored
    | AlreadyPlayed   // an answer that was played before
    | InvalidWord     // well-formed, but not in the answer set
    | InvalidLength   // shorter than MIN_LENGTH
    | InvalidLetters  // lacks the required letter or uses a letter not offered

  /** Some element of a non-empty set; the sum below does not depend on which. */
  ghost function Pick(s: set<string>): (w: string)
    requires s != {}
    ensures w in s
  {
    var w :| w in s; w
  }

  class SpellingBeeGame {
    /** The letters that may, but need not, be used. */
    const optionalLetters: set<char>
    /** The letter every answer contains. */
    const requiredLetter: char
    /** The current score. */
    var score: nat
    /** The words accepted so far. */
    var playedSoFar: set<string>
    /** The answer set, fixed when the game is created. */
    const words: set<string>

    /** The object invariant: every answer is long enough and uses the right
        letters, only answers have been played, and the score is the sum of
        the played words' scores. */
    ghost predicate Valid()
      reads this
    {
      AnswersWellFormed() && playedSoFar <= words && score == SumScores(playedSoFar)
    }

    /** What the constructor's filters guarantee about every answer. */
    ghost predicate AnswersWellFormed()
    {
      forall w :: w in words ==> MIN_LENGTH <= |w| && HasValidLetters(w)
    }

    /** Builds a game from the optional letters, the required letter and the
        words of an already parsed lexicon. */
    constructor (optionalLetters: string, requiredLetter: char, mainWords: seq<string>)
      ensures this.optionalLetters == set c | c in optionalLetters
      ensures this.requiredLetter == requiredLetter
      ensures forall w ::
                w in words <==> w in mainWords && MIN_LENGTH <= |w| && HasValidLetters(w)
      ensures playedSoFar == {} && score == 0
      ensures Valid()
    {
      var optional := set c | c in optionalLetters;
      var lex := OnlyUsingLetters(mainWords, {requiredLetter} + optional);
      lex := WithLetter(lex, requiredLetter);
      lex := WithMoreLength(lex, MIN_LENGTH - 1);
      this.optionalLetters := optional;
      this.requiredLetter := requiredLetter;
      score := 0;
      playedSoFar := {};
      words := set w | w in lex;
      new;
      assert SumScores({}) == 0;
    }

    /** Returns the current score: the sum of the scores of the words played. */
    function Score(): (s: nat)
      reads this
      requires Valid()
      ensures s == SumScores(playedSoFar)
    {
      score
    }

    /** The score never exceeds the maximum score. */
    lemma ScoreAtMostMax()
      requires Valid()
      ensures Score() <= MaxScore()
    {
      SumScoresMonotone(playedSoFar, words);
    }

    /** The result of playing `word` in the current state: the checks run in
        a fixed order and the first that fails decides the result. */
    function Outcome(word: string): (r: PlayResult)
      reads this
      ensures r == InvalidLength <==> |word| < MIN_LENGTH
      ensures r == InvalidLetters <==> MIN_LENGTH <= |word| && !HasValidLetters(word)
      ensures r == InvalidWord <==> MIN_LENGTH <= |word| && HasValidLetters(word) && word !in words
      ensures r == AlreadyPlayed ==> word in words && word in playedSoFar
      ensures r == PlayResult.Valid ==> word in words && word !in playedSoFar
    {
      if |word| < MIN_LENGTH then InvalidLength
      else if !HasValidLetters(word) then InvalidLetters
      else if !IsValidWord(word) then InvalidWord
      else if word in playedSoFar then AlreadyPlayed
      else PlayResult.Valid
    }

    /** Plays a word; only a new answer changes the state, by recording the
        word and adding its score. */
    method Play(word: string) returns (result: PlayResult)
      requires Valid()
      modifies this
      ensures Valid()
      ensures result == old(Outcome(word))
      ensures playedSoFar == if result == PlayResult.Valid then old(playedSoFar) + {word} else old(playedSoFar)
      ensures score == if result == PlayResult.Valid then old(score) + ScoreWord(word) else old(score)
      ensures old(score) <= score
    {
      result := Outcome(word);
      if result == PlayResult.Valid {
        SumScoresInsert(playedSoFar, word);
        playedSoFar := playedSoFar + {word};
        score := score + ScoreWord(word);
      }
    }

    /** A word shorter than MIN_LENGTH is rejected for its length, whatever
        its letters. */
    lemma ShortWordIsInvalidLength(word: string)
      requires |word| < MIN_LENGTH
      ensures Outcome(word) == InvalidLength
    {
    }

    /** A long enough word that lacks the required letter, or uses a letter
        not offered, is rejected for its letters, in the dictionary or not. */
    lemma BadLettersAreInvalidLetters(word: string)
      requires MIN_LENGTH <= |word|
      requires requiredLetter !in word || exists i :: 0 <= i < |word| && !IsAllowed(word[i])
      ensures Outcome(word) == InvalidLetters
    {
    }

    /** A well-lettered word of the right length that is not an answer is
        rejected as not a word. */
    lemma NonAnswerIsInvalidWord(word: string)
      requires MIN_LENGTH <= |word| && HasValidLetters(word)
      requires word !in words
      ensures Outcome(word) == InvalidWord
    {
    }

    /** In a valid game, exactly the answers not yet played are accepted and
        exactly the played words are reported as already played. */
    lemma AcceptedExactlyNewAnswers(word: string)
      requires Valid()
      ensures Outcome(word) == PlayResult.Valid <==> word in words && word !in playedSoFar
      ensures Outcome(word) == AlreadyPlayed <==> word in playedSoFar
    {
    }

    /** A letter the game offers. */
    predicate IsAllowed(c: char)
    {
      c in optionalLetters || c == requiredLetter
    }

    /** Input typed so far is acceptable when every character is offered;
        length and the dictionary play no part. */
    predicate IsValidPartialInput(word: string): (b: bool)
      ensures b <==> forall i :: 0 <= i < |word| ==> IsAllowed(word[i])
    {
      word == [] || (IsAllowed(word[0]) && IsValidPartialInput(word[1..]))
    }

    /** A word contains the required letter and uses only offered letters. */
    predicate HasValidLetters(word: string): (b: bool)
      ensures b <==> requiredLetter in word && forall c :: c in word ==> IsAllowed(c)
    {
      requiredLetter in word && IsValidPartialInput(word)
    }

    /** A word is in the answer set. */
    predicate IsValidWord(word: string): (b: bool)
      ensures b <==> word in words
      ensures b && AnswersWellFormed() ==> MIN_LENGTH <= |word| && HasValidLetters(word)
    {
      word in words
    }

    /** The points a word earns: one for four letters, one per letter when
        longer, nothing when shorter, and a bonus for a pangram. */
    function ScoreWord(word: string): (r: nat)
      ensures |word| < MIN_LENGTH ==> r == if IsPangram(word) then PANGRAM_BONUS else 0
      ensures |word| == MIN_LENGTH ==> r == if IsPangram(word) then 1 + PANGRAM_BONUS else 1
      ensures MIN_LENGTH < |word| ==> r == if IsPangram(word) then |word| + PANGRAM_BONUS else |word|
      ensures MIN_LENGTH <= |word| ==> 1 <= r
    {
      var base := if |word| < MIN_LENGTH then 0
                  else if |word| == MIN_LENGTH then 1
                  else |word|;
      if IsPangram(word) then base + PANGRAM_BONUS else base
    }

    /** An answer that contains the required letter and every optional letter,
        that is, an answer that uses every offered letter. */
    predicate IsPangram(word: string): (b: bool)
      ensures b <==> word in words && forall c :: IsAllowed(c) ==> c in word
    {
      IsValidWord(word) && requiredLetter in word &&
      forall c :: c in optionalLetters ==> c in word
    }

    /** Returns the required letter, which every answer contains. */
    function RequiredLetter(): (r: char)
      ensures AnswersWellFormed() ==> forall w :: w in words ==> r in w
    {
      requiredLetter
    }

    /** The sum of the scores of a set of words. */
    ghost function SumScores(s: set<string>): (r: nat)
      ensures s == {} ==> r == 0
      ensures forall w :: w in s ==> ScoreWord(w) <= r
      decreases s
    {
      if s == {} then 0
      else
        var w := Pick(s);
        ScoreWord(w) + SumScores(s - {w})
    }

    /** The score of playing every answer: at least one point per answer. */
    ghost function MaxScore(): (m: nat)
      ensures AnswersWellFormed() ==> |words| <= m
      ensures words == {} ==> m == 0
    {
      if AnswersWellFormed() then SumScoresAtLeastCount(words); SumScores(words)
      else SumScores(words)
    }

    /** Computes the maximum score by adding up the score of every answer. */
    method ComputeMaxScore() returns (m: nat)
      ensures m == MaxScore()
    {
      m := 0;
      var rest := words;
      while rest != {}
        invariant rest <= words
        invariant m + SumScores(rest) == SumScores(words)
        decreases rest
      {
        var w :| w in rest;
        SumScoresRemove(rest, w);
        m := m + ScoreWord(w);
        rest := rest - {w};
      }
    }

    /** In a valid game the score reaches the maximum exactly when every
        answer has been played. */
    lemma ScoreReachesMax()
      requires Valid()
      ensures Score() == MaxScore() <==> playedSoFar == words
    {
      if playedSoFar != words {
        assert playedSoFar <= words;
        assert words - playedSoFar != {} by {
          if words - playedSoFar == {} {
            forall x | x in words
              ensures x in playedSoFar
            {
              assert x !in words - playedSoFar;
            }
            assert false;
          }
        }
        var w :| w in words - playedSoFar;
        SumScoresRemove(words, w);
        SumScoresMonotone(playedSoFar, words - {w});
      }
    }

    /** The sum may take out any member first, not only the one it picks. */
    lemma {:induction false} SumScoresRemove(s: set<string>, w: string)
      requires w in s
      ensures SumScores(s) == ScoreWord(w) + SumScores(s - {w})
      decreases s
    {
      var v := Pick(s);
      if v != w {
        calc {
          SumScores(s);
          ScoreWord(v) + SumScores(s - {v});
          { SumScoresRemove(s - {v}, w); }
          ScoreWord(v) + ScoreWord(w) + SumScores(s - {v} - {w});
          { assert s - {v} - {w} == s - {w} - {v};
            SumScoresRemove(s - {w}, v); }
          ScoreWord(w) + SumScores(s - {w});
        }
      }
    }

    /** Adding a new word adds exactly its score. */
    lemma SumScoresInsert(s: set<string>, w: string)
      requires w !in s
      ensures SumScores(s + {w}) == SumScores(s) + ScoreWord(w)
    {
      SumScoresRemove(s + {w}, w);
      assert s + {w} - {w} == s;
    }

    /** A subset never sums to more. */
    lemma {:induction false} SumScoresMonotone(a: set<string>, b: set<string>)
      requires a <= b
      ensures SumScores(a) <= SumScores(b)
      decreases a
    {
      if a != {} {
        var w := Pick(a);
        SumScoresRemove(b, w);
        SumScoresMonotone(a - {w}, b - {w});
      }
    }

    /** Answers score at least a point each. */
    lemma {:induction false} SumScoresAtLeastCount(s: set<string>)
      requires AnswersWellFormed()
      requires s <= words
      ensures |s| <= SumScores(s)
      decreases s
    {
      if s != {} {
        var w := Pick(s);
        SumScoresAtLeastCount(s - {w});
      }
    }

    /** Acceptable input stays acceptable when cut short: the empty input and
        every prefix of acceptable input are acceptable. */
    lemma PartialInputPrefixClosed(word: string, k: nat)
      requires IsValidPartialInput(word)
      requires k <= |word|
      ensures IsValidPartialInput([])
      ensures IsValidPartialInput(word[..k])
    {
    }

    /** A pangram is at least as long as the number of distinct letters offered. */
    lemma PangramLength(word: string)
      requires IsPangram(word)
      ensures |{requiredLetter} + optionalLetters| <= |word|
    {
      var used := set c | c in word;
      assert {requiredLetter} + optionalLetters <= used;
      SubsetCardinality({requiredLetter} + optionalLetters, used);
      DistinctCharsBound(word);
    }

    /** Of two words of equal length, a pangram scores exactly the bonus more
        than a word that is not one. */
    lemma PangramBonusExact(pangram: string, other: string)
      requires IsPangram(pangram) && !IsPangram(other)
      requires |pangram| == |other|
      ensures ScoreWord(pangram) == ScoreWord(other) + PANGRAM_BONUS
    {
    }
  }

  /** A string has no more distinct characters than characters. */
  lemma {:induction false} DistinctCharsBound(word: string)
    ensures |set c | c in word| <= |word|
  {
    if word != [] {
      DistinctCharsBound(word[1..]);
      assert (set c | c in word) == {word[0]} + set c | c in word[1..];
    }
  }

  /** A subset is no larger than its superset. */
  lemma {:induction false} SubsetCardinality(a: set<char>, b: set<char>)
    requires a <= b
    ensures |a| <= |b|
    decreases a
  {
    if a != {} {
      var c :| c in a;
      SubsetCardinality(a - {c}, b - {c});
    }
  }
}

/** Clients of the game that check the behaviour its unit test pins down. */
module SpellingBeeTests {
  import opened SpellingBee

  /** The scoring scenario: optional letters "clwgro", required letter 'i',
      over a small dictionary that holds "will" and "cowgirl" but not
      "clwgi".  Returns the result of each play and the score before the
      first play and after each one. */
  method ScoreScenario() returns (results: seq<PlayResult>, scores: seq<nat>)
    ensures results == [PlayResult.Valid, PlayResult.Valid, InvalidLetters, InvalidLetters,
                        InvalidWord, InvalidLength, AlreadyPlayed]
    ensures scores == [0, 1, 15, 15, 15, 15, 15, 15]
  {
    var game := NewScenarioGame();
    var s0 := game.Score();
    var r1 := game.Play("will");
    var s1 := game.Score();
    var r2 := game.Play("cowgirl");
    var s2 := game.Score();
    var r3 := game.Play("rail");
    var s3 := game.Score();
    var r4 := game.Play("roll");
    var s4 := game.Score();
    var r5 := game.Play("clwgi");
    var s5 := game.Score();
    var r6 := game.Play("oil");
    var s6 := game.Score();
    var r7 := game.Play("cowgirl");
    var s7 := game.Score();
    results := [r1, r2, r3, r4, r5, r6, r7];
    scores := [s0, s1, s2, s3, s4, s5, s6, s7];
  }

  /** The game of the scenario, over a dictionary that holds "will" and
      "cowgirl", words the letter check rejects, and not "clwgi". */
  method NewScenarioGame() returns (game: SpellingBeeGame)
    ensures fresh(game) && game.Valid()
    ensures game.playedSoFar == {} && game.score == 0
    ensures ScenarioFacts(game)
  {
    var dictionary := ["will", "cowgirl", "rail", "roll", "oil", "glow"];
    assert "clwgi" !in dictionary by {
      assert forall w :: w in dictionary ==> |w| != 5;
    }
    game := new SpellingBeeGame("clwgro", 'i', dictionary);
    ScenarioGoodLetters(game);
    ScenarioBadLetters(game);
    assert "will" in game.words && "cowgirl" in game.words;
    ScenarioWordScores(game);
  }

  /** What decides each play of the scenario. */
  predicate ScenarioFacts(game: SpellingBeeGame)
  {
    && "will" in game.words && "cowgirl" in game.words && "clwgi" !in game.words
    && game.HasValidLetters("clwgi")
    && !game.HasValidLetters("rail") && !game.HasValidLetters("roll")
    && game.ScoreWord("will") == 1 && game.ScoreWord("cowgirl") == 14
  }

  /** The scenario's letters: optional "clwgro", required 'i'. */
  predicate ScenarioLetters(game: SpellingBeeGame)
  {
    game.optionalLetters == (set c | c in "clwgro") && game.requiredLetter == 'i'
  }

  /** "will", "cowgirl" and "clwgi" use the scenario's letters correctly. */
  lemma ScenarioGoodLetters(game: SpellingBeeGame)
    requires ScenarioLetters(game)
    ensures game.HasValidLetters("will") && game.HasValidLetters("cowgirl")
    ensures game.HasValidLetters("clwgi")
  {
  }

  /** "rail" uses a letter not offered and "roll" lacks the required letter. */
  lemma ScenarioBadLetters(game: SpellingBeeGame)
    requires ScenarioLetters(game)
    ensures !game.HasValidLetters("rail") && !game.HasValidLetters("roll")
  {
  }

  /** "will" scores one point; "cowgirl" is a pangram and scores 7 + 7. */
  lemma ScenarioWordScores(game: SpellingBeeGame)
    requires ScenarioLetters(game)
    requires "will" in game.words && "cowgirl" in game.words
    ensures game.ScoreWord("will") == 1 && game.ScoreWord("cowgirl") == 14
  {
    assert game.optionalLetters == {'c', 'l', 'w', 'g', 'r', 'o'};
    assert !game.IsPangram("will") by {
      assert 'c' !in "will";
    }
    assert game.IsPangram("cowgirl");
  }

  /** Playing the same word twice in a row: the second play is never Valid;
      after a Valid first play it is AlreadyPlayed and scores nothing. */
  method PlayTwice(game: SpellingBeeGame, word: string) returns (first: PlayResult, second: PlayResult)
    requires game.Valid()
    modifies game
    ensures game.Valid()
    ensures second != PlayResult.Valid
    ensures first == PlayResult.Valid ==> second == AlreadyPlayed
    ensures game.playedSoFar == old(game.playedSoFar) + (if first == PlayResult.Valid then {word} else {})
    ensures game.score == old(game.score) + (if first == PlayResult.Valid then game.ScoreWord(word) else 0)
  {
    first := game.Play(word);
    var between := game.score;
    second := game.Play(word);
    assert game.score == between;
  }
}

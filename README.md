# Spelling Bee rules engine in Dafny

This project models `SpellingBeeGame`, the rules engine of an NYT-Spelling-Bee-style word game
(`src/spellingbee.rs`). A game has a fixed letter configuration: a set of optional letters and one
required letter. It also has a frozen answer set, filtered from a lexicon when the game is created.
Words are played one at a time. Each play runs an ordered chain of checks:

1. length;
2. letters;
3. dictionary;
4. already played;
5. accept.

Only an accepted play changes the state. It records the word and adds the word's score.

Files:

- `lexicon.dfy`, module `Lexicon`: the three word-list filters that the constructor applies
  (`only_using_letters`, `with_letter`, `with_more_length`). They belong to the external `lexi`
  crate, whose code is not part of this model. Their behaviour is an ASSUMPTION taken from their
  names: each keeps the words that pass one test, in their original order. The contracts prove
  which words each Dafny definition keeps, and that a kept word occurs as often as in the input.
  The order is kept by construction and is not stated in a contract. Nothing is proved about the
  crate.
- `spellingbee.dfy`, module `SpellingBee`:
  - `MIN_LENGTH` (4), `PANGRAM_BONUS` (7) and the closed `PlayResult` enumeration.
  - The class `SpellingBeeGame`. The letter configuration and the answer set are `const` fields.
    `playedSoFar` and `score` are mutable fields that `Play` updates in place.
  - The object invariant `Valid()`: every answer is at least `MIN_LENGTH` long and has valid
    letters; `playedSoFar <= words`; and `score == SumScores(playedSoFar)`.
  - `Outcome(word)` is the specification function for `Play`'s result: the first check that fails
    decides it. `IsValidWord` is membership in the answer set.
  - `SumScores` is the sum of `ScoreWord` over a set. `MaxScore` is that sum over the answer set,
    and the compiled method `ComputeMaxScore` computes it with a loop over the answers.
- `tests.dfy`, module `SpellingBeeTests`: the unit test `test_score` restated as a verified client method,
  plus a client that plays the same word twice.

Words are modelled as `string` (`seq<char>`) over lowercase ASCII letters. Under that assumption,
Rust's byte length `word.len()` equals `|word|`.

`score_word`'s doc comment says that it returns 0 for invalid words. The code does this only for
words shorter than four letters. A longer word that is not an answer still gets its length points
(`ScoreWord`'s contract gives `|word|` points to any word longer than four letters). This cannot be observed, because
`score_word` is private and is only called on answers. The model follows the code.

The unit test calls `new` with two arguments, but the function takes four. The scenario therefore
builds its game over an explicit dictionary: "will", "cowgirl", "rail", "roll", "oil", "glow". It
holds "will" and "cowgirl" and does not hold "clwgi".

## Model

| member | source | states |
|---|---|---|
| `SpellingBee.SpellingBeeGame.constructor` | src/spellingbee.rs:72-94 | the optional letters are the set of characters of the input string and the required letter is kept; the answer set is exactly the lexicon words that are at least 4 long, contain the required letter and use only offered letters; nothing is played, the score is 0, and the invariant holds |
| `Lexicon.OnlyUsingLetters` | src/spellingbee.rs:79-81 | (assumed library behaviour) a word is kept iff it is in the lexicon and every character is one of the allowed letters, i.e. the required letter followed by the optional ones; a kept word occurs as often as in the lexicon |
| `Lexicon.WithLetter` | src/spellingbee.rs:82 | (assumed library behaviour) a word is kept iff it is in the lexicon and contains the given letter; a kept word occurs as often as in the lexicon |
| `Lexicon.WithMoreLength` | src/spellingbee.rs:83 | (assumed library behaviour) a word is kept iff it is in the lexicon and is longer than `n`; called with `MIN_LENGTH - 1`, so it keeps words of length at least 4; a kept word occurs as often as in the lexicon |
| `SpellingBee.SpellingBeeGame.Score` | src/spellingbee.rs:102-104 | the score is the sum of `score_word` over the words played so far |
| `SpellingBee.SpellingBeeGame.ScoreAtMostMax` | src/spellingbee.rs:176-178 | in a valid game the score never exceeds the maximum score |
| `SpellingBee.SpellingBeeGame.Outcome` | src/spellingbee.rs:109-121 | the checks run in order: `InvalidLength` iff the word is shorter than 4; `InvalidLetters` iff it is long enough but its letters are wrong; `InvalidWord` iff it passes both but is not an answer; `AlreadyPlayed` only for a played answer and `Valid` only for an answer not yet played |
| `SpellingBee.SpellingBeeGame.Play` | src/spellingbee.rs:108-122 | the result is the first failing check of the chain (`Outcome`) in the state before the play; on `Valid` the played set gains exactly the word and the score grows by exactly `ScoreWord(word)`; on any other result both stay unchanged; the invariant (played ⊆ answers, score = sum over played) is preserved and the score never decreases |
| `SpellingBee.SpellingBeeGame.ShortWordIsInvalidLength` | src/spellingbee.rs:109-110 | every word shorter than 4 gets `InvalidLength`, whatever its letters |
| `SpellingBee.SpellingBeeGame.BadLettersAreInvalidLetters` | src/spellingbee.rs:111-112 | a word of length at least 4 gets `InvalidLetters` when it lacks the required letter or has a character that is not offered, whether or not it is in the dictionary |
| `SpellingBee.SpellingBeeGame.NonAnswerIsInvalidWord` | src/spellingbee.rs:113-114 | a word of length at least 4 with valid letters that is not an answer gets `InvalidWord` |
| `SpellingBee.SpellingBeeGame.AcceptedExactlyNewAnswers` | src/spellingbee.rs:113-121 | in a valid game the result is `Valid` iff the word is an answer not yet played, and `AlreadyPlayed` iff the word has been played |
| `SpellingBee.SpellingBeeGame.IsValidPartialInput` | src/spellingbee.rs:126-129 | holds iff every character of the input is an optional letter or the required letter |
| `SpellingBee.SpellingBeeGame.PartialInputPrefixClosed` | src/spellingbee.rs:126-129 | the empty input is acceptable, and so is every prefix of acceptable input |
| `SpellingBee.SpellingBeeGame.HasValidLetters` | src/spellingbee.rs:133-137 | holds iff the word contains the required letter and every character is offered |
| `SpellingBee.SpellingBeeGame.IsValidWord` | src/spellingbee.rs:140-142 | holds iff the word is in the answer set; in a valid game such a word is at least 4 long and has valid letters |
| `SpellingBee.SpellingBeeGame.ScoreWord` | src/spellingbee.rs:146-160 | a word shorter than 4 earns 0, a word of exactly 4 earns 1, a longer word earns its length; a pangram earns `PANGRAM_BONUS` (7) on top; so every word of at least 4 letters earns at least one point |
| `SpellingBee.SpellingBeeGame.PangramBonusExact` | src/spellingbee.rs:155-159 | between two words of equal length, a pangram scores exactly `PANGRAM_BONUS` (7) more than a non-pangram, so the bonus is added exactly when `is_pangram` holds |
| `SpellingBee.SpellingBeeGame.IsPangram` | src/spellingbee.rs:164-168 | holds iff the word is an answer and contains every offered letter, the required one included |
| `SpellingBee.SpellingBeeGame.PangramLength` | src/spellingbee.rs:164-168 | a pangram is at least as long as the number of distinct offered letters |
| `SpellingBee.SpellingBeeGame.RequiredLetter` | src/spellingbee.rs:171-173 | the required letter occurs in every answer |
| `SpellingBee.SpellingBeeGame.SumScores` | src/spellingbee.rs:177 | the sum over the empty set is 0, and the sum over a set is at least the score of each member |
| `SpellingBee.SpellingBeeGame.MaxScore` | src/spellingbee.rs:176-178 | the maximum score is at least one point per answer, and 0 for an empty answer set |
| `SpellingBee.SpellingBeeGame.ComputeMaxScore` | src/spellingbee.rs:176-178 | the loop over the answers returns exactly the sum of `score_word` over all answers |
| `SpellingBee.SpellingBeeGame.ScoreReachesMax` | src/spellingbee.rs:175-178 | in a valid game the score equals the maximum score iff every answer has been played |
| `SpellingBee.SpellingBeeGame.SumScoresRemove` | src/spellingbee.rs:176-178 | the sum over a set may take out any member first, so the sum does not depend on the iteration order |
| `SpellingBee.SpellingBeeGame.SumScoresInsert` | src/spellingbee.rs:118-119 | adding a new word to a set adds exactly that word's score to the sum, which is why `+=` keeps the score equal to the sum over played words |
| `SpellingBee.SpellingBeeGame.SumScoresMonotone` | src/spellingbee.rs:176-178 | a subset of words never sums to more than its superset |
| `SpellingBee.SpellingBeeGame.SumScoresAtLeastCount` | src/spellingbee.rs:176-178 | a set of answers sums to at least its size |
| `SpellingBeeTests.ScoreScenario` | src/spellingbee.rs:186-204 | with optional letters "clwgro" and required letter 'i', the plays "will", "cowgirl", "rail", "roll", "clwgi", "oil", "cowgirl" give Valid, Valid, InvalidLetters, InvalidLetters, InvalidWord, InvalidLength, AlreadyPlayed, and the scores are 0, 1, 15, 15, 15, 15, 15, 15 |
| `SpellingBeeTests.NewScenarioGame` | src/spellingbee.rs:188-189 | the scenario's game starts valid, with nothing played and score 0, and "will" and "cowgirl" are answers while "clwgi" is not |
| `SpellingBeeTests.ScenarioGoodLetters` | src/spellingbee.rs:190-198 | "will", "cowgirl" and "clwgi" pass the letter check |
| `SpellingBeeTests.ScenarioBadLetters` | src/spellingbee.rs:194-197 | "rail" (uses 'a') and "roll" (no 'i') fail the letter check |
| `SpellingBeeTests.ScenarioWordScores` | src/spellingbee.rs:190-193 | "will" scores 1 and the pangram "cowgirl" scores 7 + 7 |
| `SpellingBeeTests.PlayTwice` | src/spellingbee.rs:115-116 | playing a word twice in a row never gives `Valid` the second time; after a `Valid` first play the second play is `AlreadyPlayed` and the score is unchanged by it |

## Left out

- Parsing the raw word lists and excluding swear words (`wordlist::parse_strings`, lines 76-77). This happens in the external `lexi` crate, so the constructor takes an already parsed `seq<string>` of words.
- The exact behaviour of `lexi`'s `only_using_letters`, `with_letter` and `with_more_length` (lines 81-83). The `Lexicon` module states an assumed behaviour. It does not verify the crate. `lexi` may also lowercase words or compare them in other ways; that is not modelled.
- `set_panic_hook`, the `log!` macro and console output (lines 12-16, 75, 85). These are diagnostics and host plumbing.
- The `wasm_bindgen` attributes and the derived `Debug`/`Clone`/`PartialEq`/`Hash` traits. They are binding glue.
- The difference between Unicode and byte length. Words are assumed to be lowercase ASCII, so `len()` equals `|word|`.
- The `BTreeSet` ordering of the optional letters, the played words and the answers. Dafny sets are unordered, and nothing in the core depends on the order.
- `usize` overflow of `score` and of the `max_score` sum. Integers are unbounded here. Real scores are small.

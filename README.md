# Hangman game model

A Dafny model of the `HangmanGame` class of a small Java hangman game. A game
is set up with a secret phrase: words of ASCII letters separated by spaces. The
player then guesses one letter at a time. A guessed letter is revealed,
case-insensitively, at every position of every word where it occurs. A valid
letter that occurs nowhere counts as a wrong guess. The game is WON once every
position is revealed and LOST on the ninth wrong guess (more than
`ALLOWED_WRONG_GUESSES = 8`). `knownLetters()` shows the phrase with `_` for each
unknown position. Observers are told about each accepted guess and about `start()`; a guess refused
because the game is over or the character is not a letter sends no notification.

Layout:

- `GameState.dfy`: module `GameStates`, the three states `ONGOING`, `WIN` and `LOSE`.
- `JavaStrings.dfy`: module `JavaStrings`, the JDK string operations the class relies on,
  with their JDK semantics: `String.split` with a one-character separator (trailing
  empty strings dropped, leading and inner ones kept), `String.trim` (every character
  up to U+0020 is white space) and ASCII `toLowerCase`.
- `Rules.dfy`: module `Rules`, the game as values. A `Game` is a snapshot of the fields:
  the words, the per-word masks (the `BitSet`s of `foundLetters`), the wrong-guess counter,
  the state and the notifications sent so far. `Initial` is the state after the constructor.
  `Turn` is one call of `guess`. `Run` is a sequence of calls. `DeriveState` is
  `updateCurrentState` and `Masked` is `knownLetters()`. The lemmas about the game are here.
- `HangmanGame.dfy`: module `Hangman`, the class itself. Its fields, constructor,
  `guess`, `updateCurrentState` and the input validation loops are imperative code. Each
  is proved against the functions of `Rules`: after `Guess`,
  `(Model(), correctGuess) == Turn(old(Model()), guessLetter)`.
- `Scenarios.dfy`: module `Scenarios`, the unit tests of the class stated as lemmas,
  and the observer tests as methods that drive the class.

The constructor throws `IllegalArgumentException` for a bad phrase. This is modelled by
`HangmanGame.New`, which returns a `Result` naming the error: an empty phrase, or the
first illegal letter and its word. The Dafny constructor is the part after validation
(lines 79-87). It receives the words that `split` produced.

The code and the class documentation differ in one place. `GameState.java` says a game is
running (ONGOING) as soon as it is created. A phrase made only of spaces passes the
constructor's checks, though: it is not empty, and `split(" ")` turns it into no words at
all. `updateCurrentState` then finds every (zero) word known, so the game starts as WIN.
The model follows the code (`Rules.BlankPhraseStartsWon`). Likewise, a phrase with a
leading or doubled space keeps empty words, exactly as `split` produces them. An empty
word has an empty mask and counts as known.

## Model

| member | source | states |
|---|---|---|
| JavaStrings.ToLower | src/main/java/HangmanGame.java:131 | `Character.toLowerCase` on the game's characters: an upper-case ASCII letter becomes the lower-case letter at the same place in the alphabet, every other character is kept, and the result is never an upper-case ASCII letter |
| JavaStrings.LowerString | src/main/java/HangmanGame.java:123 | `toLowerCase` keeps the length and lowers every character on its own |
| JavaStrings.Pieces | src/main/java/HangmanGame.java:59 | the pieces between separators contain no separator, and joined with it they give back the input; all pieces are empty exactly when the input is only separators |
| JavaStrings.DropTrailingEmpty | src/main/java/HangmanGame.java:59 | the result is a prefix of the list, everything dropped is empty, and the result does not end with an empty string |
| JavaStrings.Split | src/main/java/HangmanGame.java:59 | `split(" ")`: no word contains a space; no words at all exactly when the phrase is non-empty and all spaces; the last word is non-empty unless the phrase is empty; the words joined by spaces are a prefix of the phrase, followed only by spaces |
| JavaStrings.SplitTwoWords | src/main/java/HangmanGame.java:59 | two words without a space, the second non-empty, joined by one space split into exactly those two words |
| JavaStrings.JoinDropsTrailing | src/main/java/HangmanGame.java:59 | dropping the trailing empty pieces removes only separators from the end of the joined string |
| JavaStrings.Trim | src/main/java/HangmanGame.java:201 | `trim()` returns a slice of its input with only white space (characters up to U+0020) before and after it; the result is empty exactly when the input is all white space, and otherwise neither starts nor ends with white space |
| JavaStrings.TrimStart | src/main/java/HangmanGame.java:201 | the result is a suffix of the input, only white space was removed, and it does not start with white space |
| JavaStrings.TrimEnd | src/main/java/HangmanGame.java:201 | the result is a prefix of the input, only white space was removed, and it does not end with white space |
| JavaStrings.TrimKeepsCharacters | src/main/java/HangmanGame.java:201 | every character of `trim()`'s result is a character of its input |
| JavaStrings.TrimNothingToStrip | src/main/java/HangmanGame.java:201 | `trim()` leaves a string unchanged when neither end is white space |
| JavaStrings.TrimIgnoresTrailingBlank | src/main/java/HangmanGame.java:196-201 | a white-space character appended at the end makes no difference to `trim()` |
| Rules.ValidateInput | src/main/java/HangmanGame.java:164-167 | a character passes `matches("[a-zA-Z]")` exactly when, lowered by the ASCII mapping `ToLower`, it is one of 'a' to 'z'; such a letter is never the word separator or the `_` placeholder |
| Rules.SameLetter | src/main/java/HangmanGame.java:131 | two characters are equal after `Character.toLowerCase` exactly when they are the same character or the upper- and lower-case forms of one ASCII letter |
| Rules.Contains | src/main/java/HangmanGame.java:123 | the word-level test `word.toLowerCase().contains(...)` holds exactly when some single position matches case-insensitively, so the word test and the per-position test of line 131 agree |
| Rules.SameLetterIsLetter | src/main/java/HangmanGame.java:131 | a character that matches an ASCII letter case-insensitively is itself an ASCII letter |
| Rules.Blank | src/main/java/HangmanGame.java:84 | a new `BitSet` for a word has the word's length and no bit set |
| Rules.Cardinality | src/main/java/HangmanGame.java:215 | `cardinality()` never exceeds the number of bits |
| Rules.CardinalityFull | src/main/java/HangmanGame.java:214-215 | the cardinality equals the word length exactly when every bit is set |
| Rules.DeriveState | src/main/java/HangmanGame.java:208-235 | when every word has a mask of its length, the state is WIN exactly when each mask's cardinality equals its word's length; it is LOSE exactly when not WIN and the counter exceeds 8; ONGOING otherwise |
| Rules.RevealMask | src/main/java/HangmanGame.java:129-135 | revealing in one word keeps the mask's length |
| Rules.Reveal | src/main/java/HangmanGame.java:122-141 | revealing keeps the set of words that have a mask |
| Rules.RevealMaskIdempotent | src/main/java/HangmanGame.java:129-135 | revealing the same letter twice is the same as revealing it once |
| Rules.RevealMaskNoMatch | src/main/java/HangmanGame.java:123-140 | a word that does not contain the letter keeps its mask |
| Rules.Initial | src/main/java/HangmanGame.java:79-87 | after construction the game is consistent, with no wrong guess and no notification; every mask is blank; the state is WIN exactly when every word is empty, else ONGOING |
| Rules.Turn | src/main/java/HangmanGame.java:101-156 | a finished game or a non-letter is refused with `false` and no change; otherwise the result is true exactly when the letter occurs somewhere, every matching position and nothing else is revealed, a miss adds exactly one wrong guess, the state is re-derived and one notification carrying the result is sent; consistency is preserved |
| Rules.Run | src/main/java/HangmanGame.java:101-156 | any sequence of guesses keeps the words and the shape of the masks |
| Rules.RunKeepsConsistent | src/main/java/HangmanGame.java:208-237 | the state always agrees with the masks and the counter, and the counter never passes 9, whatever is guessed |
| Rules.ReachableBounded | src/main/java/HangmanGame.java:101-156 | in every game reachable from a valid phrase the counter stays between 0 and 9, and the game is LOST exactly when it is 9 |
| Rules.TerminalAbsorbing | src/main/java/HangmanGame.java:104-108 | once WIN or LOSE, no further guess changes anything |
| Rules.CounterNeverDecreases | src/main/java/HangmanGame.java:143-154 | the counter never goes down and grows by at most one per guess; notifications are only appended, at most one per guess |
| Rules.RepeatedMiss | src/main/java/HangmanGame.java:143-147 | guessing an absent letter n times reveals nothing; the counter reaches min(start + n, 9); the game is ONGOING while the counter stays within 8, LOST after that |
| Rules.Misses | src/main/java/HangmanGame.java:143-147 | the number of wrong guesses among the guesses is at most the number of guesses |
| Rules.GuessingEveryLetterWins | src/main/java/HangmanGame.java:208-225 | guesses that match every position of every word, with few enough misses that the counter stays within 8, win the game, in any order |
| Rules.RunReveals | src/main/java/HangmanGame.java:120-141 | while the misses stay within the allowance the game is never lost, and a position once matched stays revealed |
| Rules.RunKeepsBits | src/main/java/HangmanGame.java:129-135 | no sequence of guesses clears a bit: a revealed position stays revealed |
| Rules.RepeatedGuessChangesNothing | src/main/java/HangmanGame.java:120-147 | guessing a letter again, after any number of other guesses in between, reveals nothing new and leaves the display as it was; if the first guess of it was correct, the repeat costs no wrong guess and is reported correct again when the game is still ONGOING |
| Rules.RenderWord | src/main/java/HangmanGame.java:183-195 | each position shows the word's own character when its bit is set and `_` otherwise |
| Rules.Render | src/main/java/HangmanGame.java:177-198 | the buffer is empty for no words, and otherwise the rendered words joined by one space, plus one space after the last word |
| Rules.Masked | src/main/java/HangmanGame.java:175-202 | `knownLetters()` is empty for no words; otherwise it is the rendered words joined by single spaces and trimmed; with no empty word nothing is trimmed |
| Rules.MaskedCharacters | src/main/java/HangmanGame.java:175-202 | `knownLetters()` contains only `_`, spaces and characters of revealed positions |
| Rules.MissedLetterHidden | src/main/java/HangmanGame.java:175-202 | a letter that occurs in no word never appears in `knownLetters()`, in either case |
| Rules.PhraseAcceptance | src/main/java/HangmanGame.java:52-77 | the constructor accepts a phrase exactly when it is non-empty and made only of ASCII letters and spaces |
| Rules.PiecesAreLetterWords | src/main/java/HangmanGame.java:59-77 | every piece between spaces is letters only exactly when the whole string is letters and spaces |
| Rules.BlankPhraseStartsWon | src/main/java/HangmanGame.java:52-87 | a phrase of spaces only is accepted, splits into no word, and its game starts as WIN |
| Hangman.HangmanGame.New | src/main/java/HangmanGame.java:52-88 | the phrase is accepted exactly when it is valid; an empty phrase fails with the empty-phrase error; another rejected phrase fails naming the first illegal letter and its word, in phrase order; on success the new game is `Initial(split(phrase))` |
| Hangman.FindIllegalLetter | src/main/java/HangmanGame.java:60-77 | the validation loops find nothing exactly when every word is letters only; otherwise they report the first offending letter, in word order and then position order, with its word |
| Hangman.HangmanGame.constructor | src/main/java/HangmanGame.java:79-87 | the new game is valid and equals `Initial` of its words |
| Hangman.HangmanGame.UpdateCurrentState | src/main/java/HangmanGame.java:208-237 | the state becomes WIN when every word is fully known, else LOSE when the counter exceeds 8, else ONGOING |
| Hangman.HangmanGame.Guess | src/main/java/HangmanGame.java:101-156 | the new fields and the result are exactly `Turn` of the old fields; a finished game or a non-letter leaves the object untouched and returns false |
| Hangman.HangmanGame.RevealLetter | src/main/java/HangmanGame.java:120-141 | the loop over the words returns true exactly when some word contains the letter, and leaves the masks equal to `Reveal` of the old masks |
| Hangman.HangmanGame.RevealIfContained | src/main/java/HangmanGame.java:123-140 | one word's step: returns whether it contains the letter and reveals the matching positions of its mask |
| Hangman.HangmanGame.RevealInWord | src/main/java/HangmanGame.java:129-135 | the inner loop sets exactly the bits of the positions that match the letter and touches no other word |
| Hangman.HangmanGame.KnownLetters | src/main/java/HangmanGame.java:175-202 | the result holds only `_`, spaces and revealed characters; it is empty for no words, otherwise the rendered words joined by single spaces and trimmed; with no empty word nothing is trimmed |
| Hangman.HangmanGame.GetState | src/main/java/HangmanGame.java:244-247 | WIN exactly when every word is known; LOSE exactly when not and the counter exceeds 8; ONGOING only within the allowance |
| Hangman.HangmanGame.GetWrongGuesses | src/main/java/HangmanGame.java:255-258 | the counter is between 0 and 9, and 9 exactly when the game is LOST |
| Hangman.HangmanGame.Start | src/main/java/HangmanGame.java:264-268 | one notification without a guess is sent, and nothing else changes |
| Scenarios.WinningGuesses | src/main/java/HangmanGame.java:208-225 | on a fresh game of any accepted phrase, at most eight guesses containing every character of the phrase win (a phrase of spaces only is won from the start) |
| Scenarios.WorldIsWon | src/test/java/HangmanGameTest.java:26-44 | "world" is accepted as one word, and guessing w, o, a, r, l, d wins |
| Scenarios.WorldLostOnNinthMiss | src/test/java/HangmanGameTest.java:49-84 | on "world", eight wrong guesses leave the game ONGOING and nine lose it |
| Scenarios.TwoWordsOngoingAfterEightMisses | src/test/java/HangmanGameTest.java:133-149 | on "two words", eight misses count eight, not sixteen, and the game is ONGOING |
| Scenarios.TwoPiesIsWon | src/test/java/HangmanGameTest.java:89-108 | "two pies" splits into two words, and guessing p, i, e, s, t, w, o wins |
| Scenarios.PiePieIsWon | src/test/java/HangmanGameTest.java:113-127 | "pie pie" splits into two equal words, and guessing i, p, e wins |
| Scenarios.RepeatedWordSharesMask | src/main/java/HangmanGame.java:81-85 | a word occurring twice in the phrase has a single mask |
| Scenarios.CorrectGuess | src/test/java/HangmanGameTest.java:154-165 | "included" is one word, and guessing 'u' returns true |
| Scenarios.WrongGuess | src/test/java/HangmanGameTest.java:170-181 | "not" is one word, and guessing 'a' returns false, counts one wrong guess and leaves the game ONGOING |
| Scenarios.SpecialCharactersRefused | src/test/java/HangmanGameTest.java:188-212 | for any phrase, guessing ' ', 'ä', '%' or '$' returns false and changes nothing |
| Scenarios.Uncover | src/main/java/HangmanGame.java:183-195 | a word shown with exactly the positions matching one letter revealed |
| Scenarios.FirstGuessDisplay | src/main/java/HangmanGame.java:175-202 | after the first guess on a one-word game, the display shows the word's character exactly where it matches the guess |
| Scenarios.KnownShowsGuessedLetter | src/test/java/HangmanGameTest.java:257-269 | "known" is one word, and after guessing 'o' `knownLetters()` is "__o__", so 'o' appears once |
| Scenarios.DoubleLetterShownTwice | src/test/java/HangmanGameTest.java:274-286 | "Dubble" is one word, and after guessing 'b' `knownLetters()` is "__bb__", so 'b' appears twice |
| Scenarios.MissLeavesNoTrace | src/main/java/HangmanGame.java:175-202 | after a first guess that is a miss, the guessed letter does not appear in the display |
| Scenarios.MissedLetterNotDisplayed | src/test/java/HangmanGameTest.java:291-303 | "incorrect" is one word of letters without an 'a', and after guessing 'a' `knownLetters()` contains no 'a' |

The observer tests (src/test/java/HangmanGameTest.java lines 217-252 and 309-326) are the
methods `Scenarios.StartNotifiesOnce`, `Scenarios.CorrectGuessNotifiesTrue` and
`Scenarios.WrongGuessNotifiesFalse`. Each creates a game through `HangmanGame.New("observer")`
and calls `Start` or `Guess`. Each then asserts that exactly one notification was sent, with the
expected payload. These methods have no contract of their own.

## Left out

- Logging through log4j: it has no effect on the game.
- `java.util.Observable`: registering observers, `setChanged` and the dispatch to each
  `Observer` are not modelled. The class keeps a ghost list of the notifications it would
  send: `NoGuessYet` for `start()` (the `null` argument) and `GuessResult(b)` for a guess.
- `null` arguments: a `null` phrase is rejected with the empty-phrase error (line 54), and a
  `null` `Character` makes `guess` throw a NullPointerException. Neither can be written in
  Dafny, whose strings and characters are never null.
- `validateInput` uses the regular expression `[a-zA-Z]`. The model states its meaning,
  an ASCII letter, and does not model the regular-expression engine.
- `String.toLowerCase()` depends on the default locale; in the Turkish and Azerbaijani
  locales 'I' lowers to a dotless i. The model uses the ASCII mapping, which is what the
  game's letters (a-z, A-Z) get outside the Turkish and Azerbaijani locales. Case mapping outside ASCII is not needed because only ASCII
  letters are ever compared.
- Characters are Dafny `char`s (Unicode scalar values), not UTF-16 code units. The phrases
  the game accepts are ASCII, so accepted games are unaffected. A rejected phrase with a
  character outside the Basic Multilingual Plane differs: Java's `charAt` loop names the
  first UTF-16 unit of that character (a high surrogate) in the exception, while
  `HangmanGame.New` reports the full code point. For "a😀" Java names U+D83D and the model
  returns `IllegalLetter('😀', "a😀")`.
- `HashMap` and `BitSet` are modelled by their contents (a map from word to a sequence of
  booleans), not their implementation.
- `ConsoleView.java`, `GameController.java` and `GameStarter.java` (console input and output
  and the game loop) are not part of this model.
- Player input: in the lemmas about several guesses, the guesses are a sequence given in
  advance, standing in for what the player types.

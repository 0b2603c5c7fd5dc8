/**
 * The game's unit-test scenarios. Each lemma fixes the phrase (and the guesses)
 * of one scenario through its parameters and proves the outcome the scenario
 * expects; the observer scenario drives the class itself.
 */
module Scenarios {
  import opened GameStates
  import opened JavaStrings
  import opened Rules
  import opened Hangman

  /** Guesses that contain every character of every word cover the phrase. */
  lemma CoversWhenContained(words: seq<string>, guesses: seq<char>)
    requires forall k, i :: 0 <= k < |words| && 0 <= i < |words[k]| ==> words[k][i] in guesses
    ensures Covers(words, guesses)
  {
    forall k, i | 0 <= k < |words| && 0 <= i < |words[k]|
      ensures Guessed(words[k], i, guesses)
    {
      var c := words[k][i];
      var j :| 0 <= j < |guesses| && guesses[j] == c;
      assert SameLetter(words[k][i], guesses[j]);
    }
  }

  /** A fresh game is won by at most eight guesses containing all the characters of its words. */
  lemma WinningGuesses(words: seq<string>, guesses: string)
    requires AllLetterWords(words)
    requires forall k, i :: 0 <= k < |words| && 0 <= i < |words[k]| ==> words[k][i] in guesses
    requires |guesses| <= ALLOWED_WRONG_GUESSES
    ensures Run(Initial(words), guesses).state == Win
  {
    var g := Initial(words);
    if g.state == Ongoing {
      assert Misses(words, guesses) <= ALLOWED_WRONG_GUESSES;
      CoversWhenContained(words, guesses);
      GuessingEveryLetterWins(g, guesses);
    } else {
      // every word is empty: the game starts won and stays so
      TerminalAbsorbing(g, guesses);
    }
  }

  /** "world", guessing w, o, a (a miss), r, l, d: the game is won. */
  lemma WorldIsWon(phrase: string, guesses: string)
    requires phrase == "world" && guesses == "woarld"
    ensures IsValidPhrase(phrase) && Split(phrase, WORD_SEPARATOR) == [phrase]
    ensures Run(Initial([phrase]), guesses).state == Win
  {
    assert WORD_SEPARATOR !in phrase;
    WinningGuesses([phrase], guesses);
  }

  /** "world", guessing 'a' eight times: still ONGOING; a ninth time: LOSE. */
  lemma WorldLostOnNinthMiss(phrase: string, c: char)
    requires phrase == "world" && c == 'a'
    ensures Run(Initial([phrase]), Repeat(c, ALLOWED_WRONG_GUESSES)).state == Ongoing
    ensures Run(Initial([phrase]), Repeat(c, ALLOWED_WRONG_GUESSES + 1)).state == Lose
  {
    var g := Initial([phrase]);
    assert !Occurs([phrase], c);
    RepeatedMiss(g, c, ALLOWED_WRONG_GUESSES);
    RepeatedMiss(g, c, ALLOWED_WRONG_GUESSES + 1);
  }

  /** "two words", guessing 'a' eight times: one count per guess, not per word, so still ONGOING. */
  lemma TwoWordsOngoingAfterEightMisses(a: string, b: string, c: char)
    requires a == "two" && b == "words" && c == 'a'
    ensures Split(a + [WORD_SEPARATOR] + b, WORD_SEPARATOR) == [a, b]
    ensures var r := Run(Initial([a, b]), Repeat(c, ALLOWED_WRONG_GUESSES));
      r.state == Ongoing && r.wrongGuesses == ALLOWED_WRONG_GUESSES
  {
    SplitTwoWords(a, b, WORD_SEPARATOR);
    assert !Occurs([a, b], c);
    RepeatedMiss(Initial([a, b]), c, ALLOWED_WRONG_GUESSES);
  }

  /** "two pies", guessing p, i, e, s, t, w, o: WIN. */
  lemma TwoPiesIsWon(a: string, b: string, guesses: string)
    requires a == "two" && b == "pies" && guesses == "piestwo"
    ensures Split(a + [WORD_SEPARATOR] + b, WORD_SEPARATOR) == [a, b]
    ensures Run(Initial([a, b]), guesses).state == Win
  {
    SplitTwoWords(a, b, WORD_SEPARATOR);
    WinningGuesses([a, b], guesses);
  }

  /** A word that occurs twice in the phrase has one mask, shared by both occurrences. */
  lemma RepeatedWordSharesMask(a: string)
    requires IsLetterWord(a)
    ensures Initial([a, a]).found.Keys == {a}
  {
  }

  /** "pie pie", guessing i, p, e: WIN. */
  lemma PiePieIsWon(a: string, guesses: string)
    requires a == "pie" && guesses == "ipe"
    ensures Split(a + [WORD_SEPARATOR] + a, WORD_SEPARATOR) == [a, a]
    ensures Run(Initial([a, a]), guesses).state == Win
  {
    SplitTwoWords(a, a, WORD_SEPARATOR);
    WinningGuesses([a, a], guesses);
  }

  /** "included", guessing 'u': correct. */
  lemma CorrectGuess(w: string, c: char)
    requires w == "included" && c == 'u'
    ensures Split(w, WORD_SEPARATOR) == [w]
    ensures Turn(Initial([w]), c).1
  {
    assert WORD_SEPARATOR !in w;
    assert SameLetter([w][0][4], c);
  }

  /** "not", guessing 'a': wrong, counted once, still ONGOING. */
  lemma WrongGuess(w: string, c: char)
    requires w == "not" && c == 'a'
    ensures Split(w, WORD_SEPARATOR) == [w]
    ensures var (g, correct) := Turn(Initial([w]), c);
      !correct && g.wrongGuesses == 1 && g.state == Ongoing
  {
    assert WORD_SEPARATOR !in w;
    assert !Occurs([w], c);
    assert !Full(Initial([w]).found[w]);
  }

  /** Whatever the phrase, ' ', 'ä', '%' and '$' are refused, with no change and no notification. */
  lemma SpecialCharactersRefused(words: seq<string>, c: char)
    requires AllLetterWords(words) && c in [' ', 'ä', '%', '$']
    ensures Turn(Initial(words), c) == (Initial(words), false)
  {
    assert !ValidateInput(c);
  }

  /** A word as displayed when exactly the positions matching c are known. */
  function Uncover(w: string, c: char): (r: string)
    ensures |r| == |w|
    ensures forall i :: 0 <= i < |w| ==> r[i] == if SameLetter(w[i], c) then w[i] else UNKNOWN_LETTER_REPLACEMENT
  {
    if w == [] then [] else [if SameLetter(w[0], c) then w[0] else UNKNOWN_LETTER_REPLACEMENT] + Uncover(w[1..], c)
  }

  /**
   * The first guess on a fresh one-word game: the display shows the word's own
   * character exactly where it matches the guess, the placeholder elsewhere.
   */
  lemma FirstGuessDisplay(w: string, c: char)
    requires w != [] && IsLetterWord(w) && ValidateInput(c)
    ensures var g := Turn(Initial([w]), c).0; Masked(g.words, g.found) == Uncover(w, c)
  {
    var g0 := Initial([w]);
    assert w in g0.found && g0.found[w] == Blank(|w|);
    var g := Turn(g0, c).0;
    var mask := g.found[w];
    assert forall i :: 0 <= i < |w| ==> mask[i] == SameLetter(w[i], c);
    OneWordDisplay(w, g.found);
    RenderMatches(w, mask, c);
  }

  /** Rendering with the bits set exactly where the word matches c is Uncover. */
  lemma RenderMatches(w: string, mask: seq<bool>, c: char)
    requires |mask| == |w| && forall i :: 0 <= i < |w| ==> mask[i] == SameLetter(w[i], c)
    ensures RenderWord(w, mask) == Uncover(w, c)
  {
  }

  /** A phrase of one non-empty word is displayed as that word's rendering. */
  lemma OneWordDisplay(w: string, found: Masks)
    requires w != [] && IsLetterWord(w) && w in found && |found[w]| == |w|
    ensures Masked([w], found) == RenderWord(w, found[w])
  {
    var shown := RenderWord(w, found[w]);
    assert [w][1..] == [];
    assert Render([w], found) == shown + [WORD_SEPARATOR];
    TrimIgnoresTrailingBlank(shown, WORD_SEPARATOR);
    RenderWordEnds(w, found[w]);
    TrimNothingToStrip(shown);
  }

  /** "known", guessing 'o': the display is "__o__". */
  lemma KnownShowsGuessedLetter(w: string, c: char)
    requires w == "known" && c == 'o'
    ensures Split(w, WORD_SEPARATOR) == [w]
    ensures var g := Turn(Initial([w]), c).0; Masked(g.words, g.found) == "__o__"
  {
    assert WORD_SEPARATOR !in w;
    assert Uncover(w, c) == "__o__" by {
      var m := Uncover(w, c);
      assert m[0] == '_' && m[1] == '_' && m[2] == 'o' && m[3] == '_' && m[4] == '_';
    }
    FirstGuessDisplay(w, c);
  }

  /** "Dubble", guessing 'b': the display is "__bb__", the letter shown at both places. */
  lemma DoubleLetterShownTwice(w: string, c: char)
    requires w == "Dubble" && c == 'b'
    ensures Split(w, WORD_SEPARATOR) == [w]
    ensures var g := Turn(Initial([w]), c).0; Masked(g.words, g.found) == "__bb__"
  {
    assert WORD_SEPARATOR !in w;
    assert Uncover(w, c) == "__bb__" by {
      var m := Uncover(w, c);
      assert m[0] == '_' && m[1] == '_' && m[2] == 'b' && m[3] == 'b' && m[4] == '_' && m[5] == '_';
    }
    FirstGuessDisplay(w, c);
  }

  /** After a first guess that is a miss, that letter is not displayed in either case. */
  lemma MissLeavesNoTrace(words: seq<string>, c: char)
    requires AllLetterWords(words) && ValidateInput(c) && !Occurs(words, c)
    ensures var g := Turn(Initial(words), c).0; c !in Masked(g.words, g.found)
  {
    var g := Turn(Initial(words), c).0;
    MissedLetterHidden(g.words, g.found, c);
    assert SameLetter(c, c);
  }

  /** "incorrect", guessing 'a': a miss, and no 'a' is displayed. */
  lemma MissedLetterNotDisplayed(w: string, c: char)
    requires w == "incorrect" && c == 'a'
    ensures Split(w, WORD_SEPARATOR) == [w] && IsLetterWord(w) && !Occurs([w], c)
    ensures var g := Turn(Initial([w]), c).0; c !in Masked(g.words, g.found)
  {
    assert WORD_SEPARATOR !in w;
    assert IsLetterWord(w);
    assert !Occurs([w], c) by {
      forall i | 0 <= i < |w| ensures !SameLetter(w[i], c) {
      }
    }
    MissLeavesNoTrace([w], c);
  }

  /** "observer" is a valid phrase of one word. */
  lemma ObserverPhrase(phrase: string)
    requires phrase == "observer"
    ensures Split(phrase, WORD_SEPARATOR) == [phrase] && IsValidPhrase(phrase)
    ensures SameLetter(phrase[0], 'o') && !Occurs([phrase], 'a')
  {
    assert WORD_SEPARATOR !in phrase;
    assert !Occurs([phrase], 'a') by {
      forall i | 0 <= i < |phrase| ensures !SameLetter(phrase[i], 'a') {
      }
    }
  }

  /** "observer": start() notifies exactly once, with no guess yet. */
  method StartNotifiesOnce()
  {
    var phrase := "observer";
    ObserverPhrase(phrase);
    var r := HangmanGame.New(phrase);
    var game := r.value;
    game.Start();
    assert game.notifications == [NoGuessYet];
  }

  /** "observer", guessing 'o': exactly one notification, carrying true. */
  method CorrectGuessNotifiesTrue()
  {
    var phrase := "observer";
    ObserverPhrase(phrase);
    var r := HangmanGame.New(phrase);
    var game := r.value;
    var hit := game.Guess('o');
    assert hit && game.notifications == [GuessResult(true)];
  }

  /** "observer", guessing 'a': exactly one notification, carrying false. */
  method WrongGuessNotifiesFalse()
  {
    var phrase := "observer";
    ObserverPhrase(phrase);
    var r := HangmanGame.New(phrase);
    var game := r.value;
    var miss := game.Guess('a');
    assert !miss && game.notifications == [GuessResult(false)];
    assert game.GetWrongGuesses() == 1 && game.GetState() == Ongoing;
  }
}

/**
 * The game object: one secret phrase, a reveal mask per word text, a counter of
 * wrong guesses and the current state. Its methods change these fields in place,
 * as the original class does, and each is proved to do exactly what the matching
 * definition in module Rules says.
 */
module Hangman {
  import opened GameStates
  import opened JavaStrings
  import opened Rules

  /** Why a phrase is refused (the IllegalArgumentException of the constructor). */
  datatype PhraseError = EmptyPhrase | IllegalLetter(letter: char, word: string)

  datatype Option<T> = None | Some(value: T)

  datatype Result<T> = Success(value: T) | Failure(error: PhraseError)

  /**
   * Position i of word k is the first character, scanning the words in order and
   * each word from the left, that is not an ASCII letter.
   */
  ghost predicate IsFirstIllegal(words: seq<string>, k: int, i: int)
  {
    && 0 <= k < |words| && 0 <= i < |words[k]|
    && !ValidateInput(words[k][i])
    && (forall j :: 0 <= j < k ==> IsLetterWord(words[j]))
    && (forall p :: 0 <= p < i ==> ValidateInput(words[k][p]))
  }

  /**
   * The validation loop of the constructor: no error when every character of every
   * word is a letter; otherwise the first offending character and its word.
   */
  method FindIllegalLetter(words: seq<string>) returns (r: Option<PhraseError>)
    ensures r.None? <==> AllLetterWords(words)
    ensures r.Some? ==> exists k, i :: IsFirstIllegal(words, k, i) && r.value == IllegalLetter(words[k][i], words[k])
  {
    for k := 0 to |words|
      invariant forall j :: 0 <= j < k ==> IsLetterWord(words[j])
    {
      var word := words[k];
      for i := 0 to |word|
        invariant forall p :: 0 <= p < i ==> ValidateInput(word[p])
      {
        var letter := word[i];
        if !ValidateInput(letter) {
          assert IsFirstIllegal(words, k, i);
          return Some(IllegalLetter(letter, word));
        }
      }
    }
    return None;
  }

  /** The masks once the words of ws, and only those, have been processed for the letter c. */
  ghost function RevealSome(found: Masks, ws: seq<string>, c: char): (r: Masks)
    ensures r.Keys == found.Keys
    ensures forall w :: w in r ==> |r[w]| == |found[w]|
  {
    map w | w in found :: if w in ws then RevealMask(w, found[w], c) else found[w]
  }

  /** Processing one more word x updates x's mask from its current value. */
  lemma RevealSomeStep(found: Masks, ws: seq<string>, x: string, c: char)
    requires x in found
    ensures var now := RevealSome(found, ws, c);
      RevealSome(found, ws + [x], c) == now[x := RevealMask(x, now[x], c)]
  {
    RevealMaskIdempotent(x, found[x], c);
  }

  /** Once every word is processed, every mask is revealed. */
  lemma RevealSomeAll(found: Masks, words: seq<string>, c: char)
    requires forall w :: w in found ==> w in words
    ensures RevealSome(found, words, c) == Reveal(found, c)
  {
  }

  class HangmanGame {
    /** The phrase split at single spaces (secretWords). */
    const words: seq<string>
    /** foundLetters: one mask per distinct word text, so repeated words share one. */
    var found: Masks
    var wrongGuesses: int
    /** currentState */
    var state: GameState
    /** Every payload sent to the observers so far, in order. */
    ghost var notifications: seq<Payload>

    /** The object as a value of the rules. */
    ghost function Model(): Game
      reads this
    {
      Game(words, found, wrongGuesses, state, notifications)
    }

    ghost predicate Valid()
      reads this
    {
      Consistent(Model()) && MasksFit(words, found)
    }

    /**
     * The public constructor: refuses an empty phrase, splits it at single spaces,
     * refuses it if a word holds anything but ASCII letters, and otherwise creates
     * the game in its initial state.
     */
    static method New(secretPhrase: string) returns (r: Result<HangmanGame>)
      ensures r.Success? <==> IsValidPhrase(secretPhrase)
      ensures secretPhrase == [] ==> r == Failure(EmptyPhrase)
      ensures r.Failure? && secretPhrase != [] ==>
        var secretWords := Split(secretPhrase, WORD_SEPARATOR);
        exists k, i :: IsFirstIllegal(secretWords, k, i) && r.error == IllegalLetter(secretWords[k][i], secretWords[k])
      ensures r.Success? ==>
        fresh(r.value) && r.value.Valid() && r.value.Model() == Initial(Split(secretPhrase, WORD_SEPARATOR))
    {
      if secretPhrase == [] {
        return Failure(EmptyPhrase);
      }
      var secretWords := Split(secretPhrase, WORD_SEPARATOR);
      var illegal := FindIllegalLetter(secretWords);
      if illegal.Some? {
        return Failure(illegal.value);
      }
      var game := new HangmanGame(secretWords);
      return Success(game);
    }

    /** The rest of construction, once the words are known to be valid: clear masks, derived state. */
    constructor (secretWords: seq<string>)
      requires AllLetterWords(secretWords)
      ensures Valid() && Model() == Initial(secretWords)
    {
      words := secretWords;
      var masks: Masks := map[];
      for k := 0 to |secretWords|
        invariant forall w :: w in masks <==> w in secretWords[..k]
        invariant forall w :: w in masks ==> masks[w] == Blank(|w|)
      {
        assert secretWords[..k + 1] == secretWords[..k] + [secretWords[k]];
        masks := masks[secretWords[k] := Blank(|secretWords[k]|)];
      }
      assert secretWords[..|secretWords|] == secretWords;
      assert masks == Initial(secretWords).found;
      found := masks;
      wrongGuesses := 0;
      state := Ongoing;
      notifications := [];
      new;
      UpdateCurrentState();
      assert Model() == Initial(secretWords);
      WellFormedFits(Model());
    }

    /**
     * updateCurrentState: a word is known when its mask's cardinality equals its
     * length; WIN when all are known, else LOSE past the allowance, else ONGOING.
     */
    method UpdateCurrentState()
      requires WellFormed(Model())
      modifies this`state
      ensures state == DeriveState(words, found, wrongGuesses)
    {
      assert forall j :: 0 <= j < |words| ==> words[j] in words;
      var allWordsKnown := true;
      for k := 0 to |words|
        invariant allWordsKnown <==> forall j :: 0 <= j < k ==> Cardinality(found[words[j]]) == |words[j]|
      {
        var wordIsKnown := Cardinality(found[words[k]]) == |words[k]|;
        allWordsKnown := allWordsKnown && wordIsKnown;
      }
      forall j | 0 <= j < |words| ensures Cardinality(found[words[j]]) == |words[j]| <==> Full(found[words[j]]) {
        CardinalityFull(found[words[j]]);
      }
      if allWordsKnown {
        state := Win;
      } else if wrongGuesses > ALLOWED_WRONG_GUESSES {
        state := Lose;
      } else {
        state := Ongoing;
      }
    }

    /**
     * guess: refused without any effect once the game is over or when the character
     * is not an ASCII letter; otherwise reveals every matching position of every
     * word, counts one wrong guess if nothing matched, derives the state anew and
     * notifies the observers with the result.
     */
    method Guess(guessLetter: char) returns (correctGuess: bool)
      requires Valid()
      modifies this
      ensures Valid()
      ensures (Model(), correctGuess) == Turn(old(Model()), guessLetter)
      ensures old(state) != Ongoing || !ValidateInput(guessLetter) ==> !correctGuess && unchanged(this)
    {
      if state != Ongoing {
        return false;
      }
      if !ValidateInput(guessLetter) {
        return false;
      }
      ghost var next := Turn(Model(), guessLetter);
      correctGuess := RevealLetter(guessLetter);
      if !correctGuess {
        wrongGuesses := wrongGuesses + 1;
      }
      UpdateCurrentState();
      notifications := notifications + [GuessResult(correctGuess)];
      assert Model() == next.0;
      WellFormedFits(Model());
    }

    /**
     * The loop of guess over the words: every word that contains the letter, ignoring
     * case, has its matching positions set; the result says whether any word did.
     */
    method RevealLetter(guessLetter: char) returns (correctGuess: bool)
      requires WellFormed(Model())
      modifies this`found
      ensures correctGuess <==> exists j :: 0 <= j < |words| && Contains(words[j], guessLetter)
      ensures found == Reveal(old(found), guessLetter)
    {
      correctGuess := false;
      for k := 0 to |words|
        invariant found == RevealSome(old(found), words[..k], guessLetter)
        invariant correctGuess <==> exists j :: 0 <= j < k && Contains(words[j], guessLetter)
      {
        var word := words[k];
        assert words[..k + 1] == words[..k] + [word];
        assert word in words;
        RevealSomeStep(old(found), words[..k], word, guessLetter);
        var hit := RevealIfContained(word, guessLetter);
        correctGuess := correctGuess || hit;
        assert (exists j :: 0 <= j < k + 1 && Contains(words[j], guessLetter))
          <==> (exists j :: 0 <= j < k && Contains(words[j], guessLetter)) || Contains(word, guessLetter);
      }
      assert words[..|words|] == words;
      RevealSomeAll(old(found), words, guessLetter);
    }

    /**
     * The body of that loop for one word: if the word contains the letter, ignoring
     * case, its matching positions are set; otherwise no position matches anyway.
     */
    method RevealIfContained(word: string, guessLetter: char) returns (hit: bool)
      requires word in found && |found[word]| == |word|
      modifies this`found
      ensures hit == Contains(word, guessLetter)
      ensures found == old(found)[word := RevealMask(word, old(found)[word], guessLetter)]
    {
      hit := Contains(word, guessLetter);
      if hit {
        RevealInWord(word, guessLetter);
      } else {
        RevealMaskNoMatch(word, found[word], guessLetter);
      }
    }

    /** The inner loop of guess: sets the bits of one word whose character equals the letter, ignoring case. */
    method RevealInWord(word: string, guessLetter: char)
      requires word in found && |found[word]| == |word|
      modifies this`found
      ensures found == old(found)[word := RevealMask(word, old(found)[word], guessLetter)]
    {
      for i := 0 to |word|
        invariant word in found && found == old(found)[word := found[word]]
        invariant |found[word]| == |word|
        invariant forall p :: 0 <= p < |word| ==>
          found[word][p] == (old(found)[word][p] || (p < i && SameLetter(word[p], guessLetter)))
      {
        if ToLower(word[i]) == ToLower(guessLetter) {
          found := found[word := found[word][i := true]];
        }
      }
      assert found[word] == RevealMask(word, old(found)[word], guessLetter);
    }

    /**
     * knownLetters: the phrase with every unrevealed position replaced by '_'. It holds
     * nothing but placeholders, separators and revealed characters. It is empty for no
     * words, otherwise the rendered words joined by single spaces and trimmed; when no
     * word is empty nothing is trimmed away.
     */
    function KnownLetters(): (r: string)
      reads this
      requires Valid()
      ensures forall ch :: ch in r ==>
        ch == UNKNOWN_LETTER_REPLACEMENT || ch == WORD_SEPARATOR || Shown(words, found, ch)
      ensures words == [] ==> r == []
      ensures words != [] ==> r == Trim(Join(RenderAll(words, found), WORD_SEPARATOR))
      ensures words != [] && (forall k :: 0 <= k < |words| ==> words[k] != []) ==>
        r == Join(RenderAll(words, found), WORD_SEPARATOR)
    {
      MaskedCharacters(words, found);
      Masked(words, found)
    }

    /** getState: WIN exactly when every word is revealed, LOSE when not and past the allowance. */
    function GetState(): (s: GameState)
      reads this
      requires Valid()
      ensures s == Win <==> AllKnown(words, found)
      ensures s == Lose <==> !AllKnown(words, found) && wrongGuesses > ALLOWED_WRONG_GUESSES
      ensures s == Ongoing ==> wrongGuesses <= ALLOWED_WRONG_GUESSES
    {
      state
    }

    /** getWrongGuesses: never more than one past the allowance, and at that bound only in a lost game. */
    function GetWrongGuesses(): (n: int)
      reads this
      requires Valid()
      ensures 0 <= n <= ALLOWED_WRONG_GUESSES + 1
      ensures n == ALLOWED_WRONG_GUESSES + 1 <==> state == Lose
    {
      wrongGuesses
    }

    /** start: one "no guess yet" notification and no other change. */
    method Start()
      requires Valid()
      modifies this`notifications
      ensures Valid()
      ensures notifications == old(notifications) + [NoGuessYet]
    {
      notifications := notifications + [NoGuessYet];
    }
  }
}

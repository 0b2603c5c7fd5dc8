/**
 * The rules of the game as values: what a game holds, what one guess does to it,
 * how the state is derived and how the known letters are displayed. The class
 * HangmanGame (module Hangman) is proved to follow these definitions step by step.
 */
module Rules {
  import opened GameStates
  import opened JavaStrings

  /** How many wrong guesses are tolerated; one more loses the game. */
  const ALLOWED_WRONG_GUESSES: int := 8
  /** Shown in place of a letter that is not revealed yet. */
  const UNKNOWN_LETTER_REPLACEMENT: char := '_'
  /** Separates the words of the phrase, both in the input and in the display. */
  const WORD_SEPARATOR: char := ' '

  // ---------------------------------------------------------------------------
  // Letters and words

  /**
   * validateInput: the character, as a one-character string, matches [a-zA-Z], that is,
   * lowered by the ASCII mapping ToLower it is one of 'a'..'z'. Such a letter is never
   * the separator or the placeholder.
   */
  function ValidateInput(c: char): (b: bool)
    ensures b <==> 'a' <= ToLower(c) <= 'z'
    ensures b ==> c != WORD_SEPARATOR && c != UNKNOWN_LETTER_REPLACEMENT
  {
    'a' <= c <= 'z' || 'A' <= c <= 'Z'
  }

  /** Every character of the word passes validateInput. */
  predicate IsLetterWord(w: string)
  {
    forall i :: 0 <= i < |w| ==> ValidateInput(w[i])
  }

  predicate AllLetterWords(words: seq<string>)
  {
    forall k :: 0 <= k < |words| ==> IsLetterWord(words[k])
  }

  /** A phrase the constructor accepts: not empty, and every word of its split is letters only. */
  predicate IsValidPhrase(phrase: string)
  {
    phrase != [] && AllLetterWords(Split(phrase, WORD_SEPARATOR))
  }

  /**
   * The two characters are equal after Character.toLowerCase: they are the same
   * character, or the upper- and lower-case forms of one ASCII letter.
   */
  function SameLetter(a: char, b: char): (r: bool)
    ensures r <==> (a == b
      || ('A' <= a <= 'Z' && b as int - 'a' as int == a as int - 'A' as int)
      || ('A' <= b <= 'Z' && a as int - 'a' as int == b as int - 'A' as int))
  {
    ToLower(a) == ToLower(b)
  }

  /**
   * word.toLowerCase().contains(letter.toLowerCase()): the test on the whole lowered
   * word holds exactly when some single position matches the letter case-insensitively.
   */
  function Contains(w: string, c: char): (r: bool)
    ensures r <==> exists i :: 0 <= i < |w| && SameLetter(w[i], c)
  {
    ContainsAt(w, c);
    ToLower(c) in LowerString(w)
  }

  /** The letter occurs, case-insensitively, at some position of some word. */
  predicate Occurs(words: seq<string>, c: char)
  {
    exists k, i :: 0 <= k < |words| && 0 <= i < |words[k]| && SameLetter(words[k][i], c)
  }

  /** Helper of Contains: the lowered word holds the lowered letter where a position matches. */
  lemma ContainsAt(w: string, c: char)
    ensures ToLower(c) in LowerString(w) <==> exists i :: 0 <= i < |w| && SameLetter(w[i], c)
  {
    var lw := LowerString(w);
    if ToLower(c) in lw {
      var i :| 0 <= i < |lw| && lw[i] == ToLower(c);
      assert SameLetter(w[i], c);
    }
  }

  /** Only a letter can match a letter case-insensitively. */
  lemma SameLetterIsLetter(a: char, b: char)
    requires ValidateInput(a) && SameLetter(a, b)
    ensures ValidateInput(b)
  {
  }

  // ---------------------------------------------------------------------------
  // Reveal masks

  /** One mask per distinct word text, one bit per character position. */
  type Masks = map<string, seq<bool>>

  /** A fresh BitSet: n bits, all clear. */
  function Blank(n: nat): (m: seq<bool>)
    ensures |m| == n && forall i :: 0 <= i < n ==> !m[i]
  {
    seq(n, _ => false)
  }

  /** BitSet.cardinality: the number of set bits. */
  function Cardinality(m: seq<bool>): (r: nat)
    ensures r <= |m|
  {
    if m == [] then 0 else (if m[0] then 1 else 0) + Cardinality(m[1..])
  }

  predicate Full(m: seq<bool>)
  {
    forall i :: 0 <= i < |m| ==> m[i]
  }

  /** The test of updateCurrentState, cardinality equal to the length, means every bit is set. */
  lemma {:induction false} CardinalityFull(m: seq<bool>)
    ensures Cardinality(m) == |m| <==> Full(m)
  {
    if m != [] {
      CardinalityFull(m[1..]);
      if !m[0] {
        assert Cardinality(m) < |m|;
      }
    }
  }

  /** Every word's mask is present and fully set. */
  predicate AllKnown(words: seq<string>, found: Masks)
  {
    forall k :: 0 <= k < |words| ==> words[k] in found && Full(found[words[k]])
  }

  /**
   * updateCurrentState: WIN when every word's mask has as many set bits as the word
   * has characters; otherwise LOSE past the allowance; otherwise ONGOING.
   */
  function DeriveState(words: seq<string>, found: Masks, wrongGuesses: int): (s: GameState)
    ensures MasksFit(words, found) ==>
      (s == Win <==> forall k :: 0 <= k < |words| ==> Cardinality(found[words[k]]) == |words[k]|)
    ensures s == Lose <==> s != Win && wrongGuesses > ALLOWED_WRONG_GUESSES
  {
    AllKnownByCardinality(words, found);
    if AllKnown(words, found) then Win
    else if wrongGuesses > ALLOWED_WRONG_GUESSES then Lose
    else Ongoing
  }

  /** Helper of DeriveState: a word is known when its mask's cardinality is its length. */
  lemma AllKnownByCardinality(words: seq<string>, found: Masks)
    ensures MasksFit(words, found) ==>
      (AllKnown(words, found) <==> forall k :: 0 <= k < |words| ==> Cardinality(found[words[k]]) == |words[k]|)
  {
    forall k | 0 <= k < |words| && words[k] in found && |found[words[k]]| == |words[k]|
      ensures Cardinality(found[words[k]]) == |words[k]| <==> Full(found[words[k]])
    {
      CardinalityFull(found[words[k]]);
    }
  }

  /** The bits of one mask after a guess: a bit is set if it was, or if its character matches. */
  function RevealMask(w: string, m: seq<bool>, c: char): (r: seq<bool>)
    ensures |r| == |m|
  {
    seq(|m|, i requires 0 <= i < |m| => m[i] || (i < |w| && SameLetter(w[i], c)))
  }

  /** Every mask after a guess of c. */
  function Reveal(found: Masks, c: char): (r: Masks)
    ensures r.Keys == found.Keys
  {
    map w | w in found :: RevealMask(w, found[w], c)
  }

  /** Revealing the same letter twice sets no further bit. */
  lemma RevealMaskIdempotent(w: string, m: seq<bool>, c: char)
    ensures RevealMask(w, RevealMask(w, m, c), c) == RevealMask(w, m, c)
  {
  }

  /** A word that does not contain the letter keeps its mask. */
  lemma RevealMaskNoMatch(w: string, m: seq<bool>, c: char)
    requires !Contains(w, c)
    ensures RevealMask(w, m, c) == m
  {
  }

  // ---------------------------------------------------------------------------
  // The game as a value

  /** What observers receive: nothing yet (start), or the outcome of a guess. */
  datatype Payload = NoGuessYet | GuessResult(correct: bool)

  /** Everything a game holds, including the notifications it has sent so far. */
  datatype Game = Game(
    words: seq<string>,
    found: Masks,
    wrongGuesses: int,
    state: GameState,
    notifications: seq<Payload>)

  /** The shape every game has: letter-only words, and one mask of the right length per word text. */
  ghost predicate WellFormed(g: Game)
  {
    && AllLetterWords(g.words)
    && (forall w :: w in g.found <==> w in g.words)
    && (forall w :: w in g.found ==> |g.found[w]| == |w|)
    && g.wrongGuesses >= 0
  }

  /**
   * The invariant of every reachable game: the state is the one derived from the
   * masks and the counter, the counter is at most one past the allowance, and it
   * only gets there in a game that is lost.
   */
  ghost predicate Consistent(g: Game)
  {
    && WellFormed(g)
    && g.state == DeriveState(g.words, g.found, g.wrongGuesses)
    && g.wrongGuesses <= ALLOWED_WRONG_GUESSES + 1
    && (g.wrongGuesses > ALLOWED_WRONG_GUESSES ==> !AllKnown(g.words, g.found))
  }

  /**
   * The game right after construction from the split words: all masks clear, no
   * wrong guess, no notification. It is ONGOING unless every word is empty,
   * which is the case of a phrase made only of spaces: that game is already won.
   */
  function Initial(words: seq<string>): (g: Game)
    requires AllLetterWords(words)
    ensures Consistent(g) && g.words == words && g.wrongGuesses == 0 && g.notifications == []
    ensures forall w :: w in g.found ==> g.found[w] == Blank(|w|) && (!Full(g.found[w]) || w == [])
    ensures g.state == if forall k :: 0 <= k < |words| ==> words[k] == [] then Win else Ongoing
  {
    var found := map w | w in words :: Blank(|w|);
    assert forall k :: 0 <= k < |words| ==> words[k] in found;
    assert forall w :: w in found && w != [] ==> !found[w][0];
    Game(words, found, 0, DeriveState(words, found, 0), [])
  }

  /**
   * One call of guess(c): the new game and the returned boolean. A finished game
   * or a character that is not an ASCII letter is refused without any change.
   * Otherwise the guess is correct iff the letter occurs in the phrase; exactly the
   * matching positions are revealed; a wrong guess counts once; the state is
   * derived anew; one notification carries the result.
   */
  function Turn(g: Game, c: char): (r: (Game, bool))
    requires WellFormed(g)
    ensures WellFormed(r.0) && r.0.words == g.words
    ensures Consistent(g) ==> Consistent(r.0)
    ensures g.state != Ongoing || !ValidateInput(c) ==> r == (g, false)
    ensures g.state == Ongoing && ValidateInput(c) ==>
      && (r.1 <==> Occurs(g.words, c))
      && (forall w, i :: w in g.found && 0 <= i < |w| ==>
            r.0.found[w][i] == (g.found[w][i] || SameLetter(w[i], c)))
      && (!r.1 ==> r.0.found == g.found)
      && r.0.wrongGuesses == (if r.1 then g.wrongGuesses else g.wrongGuesses + 1)
      && r.0.state == DeriveState(g.words, r.0.found, r.0.wrongGuesses)
      && r.0.notifications == g.notifications + [GuessResult(r.1)]
  {
    if g.state != Ongoing || !ValidateInput(c) then (g, false)
    else
      var correct := exists k :: 0 <= k < |g.words| && Contains(g.words[k], c);
      var found := Reveal(g.found, c);
      var wrong := if correct then g.wrongGuesses else g.wrongGuesses + 1;
      TurnFacts(g, c, correct, found);
      (Game(g.words, found, wrong, DeriveState(g.words, found, wrong),
            g.notifications + [GuessResult(correct)]), correct)
  }

  /** Helper of Turn: what the containment test and Reveal amount to. */
  lemma TurnFacts(g: Game, c: char, correct: bool, found: Masks)
    requires WellFormed(g)
    requires correct == exists k :: 0 <= k < |g.words| && Contains(g.words[k], c)
    requires found == Reveal(g.found, c)
    ensures correct <==> Occurs(g.words, c)
    ensures !correct ==> found == g.found
  {
    if !correct {
      forall w | w in g.found ensures found[w] == g.found[w] {
        var k :| 0 <= k < |g.words| && g.words[k] == w;
        assert !Contains(g.words[k], c);
      }
    }
  }

  /** A sequence of guesses, one after another. */
  function Run(g: Game, guesses: seq<char>): (r: Game)
    requires WellFormed(g)
    ensures WellFormed(r) && r.words == g.words
    decreases |guesses|
  {
    if guesses == [] then g else Run(Turn(g, guesses[0]).0, guesses[1..])
  }

  // ---------------------------------------------------------------------------
  // Properties of playing

  /** Consistency holds after any sequence of guesses. */
  lemma {:induction false} RunKeepsConsistent(g: Game, guesses: seq<char>)
    requires Consistent(g)
    ensures Consistent(Run(g, guesses))
    decreases |guesses|
  {
    if guesses != [] {
      RunKeepsConsistent(Turn(g, guesses[0]).0, guesses[1..]);
    }
  }

  /**
   * In every game reachable from a valid phrase the counter lies between 0 and
   * ALLOWED_WRONG_GUESSES + 1, and it reaches the upper bound exactly when the game is lost.
   */
  lemma ReachableBounded(phrase: string, guesses: seq<char>)
    requires IsValidPhrase(phrase)
    ensures var g := Run(Initial(Split(phrase, WORD_SEPARATOR)), guesses);
      && 0 <= g.wrongGuesses <= ALLOWED_WRONG_GUESSES + 1
      && (g.state == Lose <==> g.wrongGuesses == ALLOWED_WRONG_GUESSES + 1)
  {
    RunKeepsConsistent(Initial(Split(phrase, WORD_SEPARATOR)), guesses);
  }

  /** WIN and LOSE are final: no sequence of guesses changes anything, not even the notifications. */
  lemma {:induction false} TerminalAbsorbing(g: Game, guesses: seq<char>)
    requires WellFormed(g) && g.state != Ongoing
    ensures Run(g, guesses) == g
  {
    if guesses != [] {
      TerminalAbsorbing(g, guesses[1..]);
    }
  }

  /** The counter never decreases, and each guess adds at most one to it and at most one notification. */
  lemma {:induction false} CounterNeverDecreases(g: Game, guesses: seq<char>)
    requires WellFormed(g)
    ensures g.wrongGuesses <= Run(g, guesses).wrongGuesses <= g.wrongGuesses + |guesses|
    ensures |g.notifications| <= |Run(g, guesses).notifications| <= |g.notifications| + |guesses|
    ensures Run(g, guesses).notifications[..|g.notifications|] == g.notifications
    decreases |guesses|
  {
    if guesses != [] {
      var g1 := Turn(g, guesses[0]).0;
      CounterNeverDecreases(g1, guesses[1..]);
      var n := Run(g, guesses).notifications;
      assert n[..|g1.notifications|][..|g.notifications|] == n[..|g.notifications|];
    }
  }

  /** Guessing a letter that is in no word, over and over: ONGOING up to the allowance, LOSE one past it. */
  lemma {:induction false} RepeatedMiss(g: Game, c: char, n: nat)
    requires Consistent(g) && g.state == Ongoing
    requires ValidateInput(c) && !Occurs(g.words, c)
    ensures var r := Run(g, Repeat(c, n));
      && r.found == g.found
      && r.wrongGuesses == (if g.wrongGuesses + n <= ALLOWED_WRONG_GUESSES + 1 then g.wrongGuesses + n
                            else ALLOWED_WRONG_GUESSES + 1)
      && r.state == (if g.wrongGuesses + n <= ALLOWED_WRONG_GUESSES then Ongoing else Lose)
    decreases n
  {
    if n > 0 {
      var g1 := Turn(g, c).0;
      assert Repeat(c, n)[0] == c && Repeat(c, n)[1..] == Repeat(c, n - 1);
      if g1.state == Ongoing {
        RepeatedMiss(g1, c, n - 1);
      } else {
        TerminalAbsorbing(g1, Repeat(c, n - 1));
      }
    }
  }

  /** A guess that is a letter absent from the phrase. */
  predicate IsMiss(words: seq<string>, c: char)
  {
    ValidateInput(c) && !Occurs(words, c)
  }

  /** How many of the guesses are misses. */
  function Misses(words: seq<string>, guesses: seq<char>): (r: nat)
    ensures r <= |guesses|
  {
    if guesses == [] then 0
    else (if IsMiss(words, guesses[0]) then 1 else 0) + Misses(words, guesses[1..])
  }

  /** Position i of word w is matched by one of the guesses. */
  predicate Guessed(w: string, i: int, guesses: seq<char>)
    requires 0 <= i < |w|
  {
    exists j :: 0 <= j < |guesses| && SameLetter(w[i], guesses[j])
  }

  /** Every character of every word is matched, case-insensitively, by one of the guesses. */
  predicate Covers(words: seq<string>, guesses: seq<char>)
  {
    forall k, i :: 0 <= k < |words| && 0 <= i < |words[k]| ==> Guessed(words[k], i, guesses)
  }

  /**
   * Guessing every letter of the phrase, in any order and mixed with few enough
   * misses that the allowance is never exceeded, wins the game.
   */
  lemma GuessingEveryLetterWins(g: Game, guesses: seq<char>)
    requires Consistent(g) && g.state == Ongoing
    requires Covers(g.words, guesses)
    requires g.wrongGuesses + Misses(g.words, guesses) <= ALLOWED_WRONG_GUESSES
    ensures Run(g, guesses).state == Win
  {
    RunReveals(g, guesses);
    var r := Run(g, guesses);
    RunKeepsConsistent(g, guesses);
    if r.state == Ongoing {
      forall k | 0 <= k < |g.words| ensures g.words[k] in r.found && Full(r.found[g.words[k]]) {
        var w := g.words[k];
        forall i | 0 <= i < |r.found[w]| ensures r.found[w][i] {
          assert Guessed(w, i, guesses);
        }
      }
    }
  }

  /**
   * Helper of GuessingEveryLetterWins: while the misses stay within the allowance,
   * the game never loses, and as long as it is not won every position matched by
   * a guess is revealed.
   */
  lemma {:induction false} RunReveals(g: Game, guesses: seq<char>)
    requires Consistent(g) && g.state == Ongoing
    requires g.wrongGuesses + Misses(g.words, guesses) <= ALLOWED_WRONG_GUESSES
    ensures var r := Run(g, guesses);
      && (r.state == Win || r.state == Ongoing)
      && (r.state == Ongoing ==>
            forall w, i :: w in g.found && 0 <= i < |w| && (g.found[w][i] || Guessed(w, i, guesses)) ==>
              r.found[w][i])
    decreases |guesses|
  {
    if guesses != [] {
      var c, rest := guesses[0], guesses[1..];
      var g1 := Turn(g, c).0;
      assert g1.wrongGuesses + Misses(g.words, rest) <= ALLOWED_WRONG_GUESSES;
      if g1.state == Ongoing {
        RunReveals(g1, rest);
        var r := Run(g1, rest);
        if r.state == Ongoing {
          forall w, i | w in g.found && 0 <= i < |w| && (g.found[w][i] || Guessed(w, i, guesses))
            ensures g1.found[w][i] || Guessed(w, i, rest)
          {
            if g.found[w][i] || SameLetter(w[i], c) {
              TurnRevealsGuessed(g, c, w, i);
            } else {
              GuessedLater(w, i, guesses);
            }
          }
        }
      } else {
        TerminalAbsorbing(g1, rest);
      }
    }
  }

  /** Helper of RunReveals: one guess keeps every set bit and, in a running game, sets the bits it matches. */
  lemma TurnRevealsGuessed(g: Game, c: char, w: string, i: int)
    requires WellFormed(g) && g.state == Ongoing
    requires w in g.found && 0 <= i < |w|
    requires g.found[w][i] || SameLetter(w[i], c)
    ensures Turn(g, c).0.found[w][i]
  {
    if !ValidateInput(c) && SameLetter(w[i], c) {
      assert ValidateInput(w[i]);
      SameLetterIsLetter(w[i], c);
    }
  }

  /** Helper of RunReveals: a position matched by some guess but not by the first is matched by a later one. */
  lemma GuessedLater(w: string, i: int, guesses: seq<char>)
    requires guesses != [] && 0 <= i < |w|
    requires Guessed(w, i, guesses) && !SameLetter(w[i], guesses[0])
    ensures Guessed(w, i, guesses[1..])
  {
    var j :| 0 <= j < |guesses| && SameLetter(w[i], guesses[j]);
    assert guesses[1..][j - 1] == guesses[j];
  }

  /** No guess ever clears a bit: whatever was revealed stays revealed. */
  lemma {:induction false} RunKeepsBits(g: Game, guesses: seq<char>)
    requires WellFormed(g)
    ensures var r := Run(g, guesses);
      forall w, i :: w in g.found && 0 <= i < |w| && g.found[w][i] ==> w in r.found && r.found[w][i]
    decreases |guesses|
  {
    if guesses != [] {
      var g1 := Turn(g, guesses[0]).0;
      RunKeepsBits(g1, guesses[1..]);
    }
  }

  /**
   * Guessing a letter again, however many other guesses came in between, reveals
   * nothing new and does not change the display; if the first guess of it was
   * correct, the repeat costs no wrong guess and is reported correct again while
   * the game is still ONGOING.
   */
  lemma RepeatedGuessChangesNothing(g: Game, c: char, between: seq<char>)
    requires Consistent(g)
    ensures var (g1, correct) := Turn(g, c);
      var h := Run(g1, between);
      var (h2, again) := Turn(h, c);
      && h2.found == h.found
      && Masked(h2.words, h2.found) == Masked(h.words, h.found)
      && (correct ==> h2.wrongGuesses == h.wrongGuesses && again == (h.state == Ongoing))
  {
    var (g1, correct) := Turn(g, c);
    var h := Run(g1, between);
    if correct {
      assert forall w, i :: w in g1.found && 0 <= i < |w| && SameLetter(w[i], c) ==> g1.found[w][i];
      RunKeepsBits(g1, between);
      RevealedLetterRevealsNothing(h, c);
      if h.state == Ongoing {
        assert Occurs(h.words, c);
      }
    } else if g.state == Ongoing && ValidateInput(c) {
      assert !Occurs(h.words, c);
    } else if g.state != Ongoing {
      TerminalAbsorbing(g, between);
    }
  }

  /** Helper of RepeatedGuessChangesNothing: a letter whose every position is already revealed reveals nothing. */
  lemma RevealedLetterRevealsNothing(g: Game, c: char)
    requires WellFormed(g)
    requires forall w, i :: w in g.found && 0 <= i < |w| && SameLetter(w[i], c) ==> g.found[w][i]
    ensures Turn(g, c).0.found == g.found
  {
    var g1 := Turn(g, c).0;
    if g.state == Ongoing && ValidateInput(c) {
      forall w | w in g.found ensures g1.found[w] == g.found[w] {
        assert |g1.found[w]| == |g.found[w]|;
      }
    }
  }

  // ---------------------------------------------------------------------------
  // knownLetters

  /** Every word of the list has a mask of its own length. */
  predicate MasksFit(words: seq<string>, found: Masks)
  {
    forall k :: 0 <= k < |words| ==> words[k] in found && |found[words[k]]| == |words[k]|
  }

  /** A well-formed game has a mask of the right length for each of its words. */
  lemma WellFormedFits(g: Game)
    requires WellFormed(g)
    ensures MasksFit(g.words, g.found)
  {
    assert forall k :: 0 <= k < |g.words| ==> g.words[k] in g.words;
  }

  /** One word as displayed: its own character where the bit is set, the placeholder elsewhere. */
  function RenderWord(w: string, m: seq<bool>): (r: string)
    requires |m| == |w|
    ensures |r| == |w|
    ensures forall i :: 0 <= i < |w| ==> r[i] == if m[i] then w[i] else UNKNOWN_LETTER_REPLACEMENT
  {
    if w == [] then []
    else [if m[0] then w[0] else UNKNOWN_LETTER_REPLACEMENT] + RenderWord(w[1..], m[1..])
  }

  /**
   * The buffer knownLetters builds: each word rendered and followed by one separator,
   * so the rendered words joined by one separator, plus one after the last word.
   */
  function Render(words: seq<string>, found: Masks): (r: string)
    requires MasksFit(words, found)
    ensures words == [] ==> r == []
    ensures words != [] ==> r == Join(RenderAll(words, found), WORD_SEPARATOR) + [WORD_SEPARATOR]
  {
    if words == [] then []
    else
      var rest := Render(words[1..], found);
      assert |words| > 1 ==> RenderAll(words[1..], found) == RenderAll(words, found)[1..];
      RenderWord(words[0], found[words[0]]) + [WORD_SEPARATOR] + rest
  }

  /**
   * knownLetters(): that buffer, trimmed. It is empty for no words; otherwise it is the
   * rendered words in phrase order joined by one space and trimmed, and when no word
   * is empty nothing is trimmed away.
   */
  function Masked(words: seq<string>, found: Masks): (r: string)
    requires MasksFit(words, found)
    ensures words == [] ==> r == []
    ensures words != [] ==> r == Trim(Join(RenderAll(words, found), WORD_SEPARATOR))
    ensures words != [] && AllLetterWords(words) && (forall k :: 0 <= k < |words| ==> words[k] != []) ==>
      r == Join(RenderAll(words, found), WORD_SEPARATOR)
  {
    if words == [] then Trim(Render(words, found))
    else
      TrimIgnoresTrailingBlank(Join(RenderAll(words, found), WORD_SEPARATOR), WORD_SEPARATOR);
      if AllLetterWords(words) && forall k :: 0 <= k < |words| ==> words[k] != [] then
        JoinedWithoutBlankEnds(words, found);
        Trim(Render(words, found))
      else
        Trim(Render(words, found))
  }

  /** The rendered words, in phrase order. */
  function RenderAll(words: seq<string>, found: Masks): seq<string>
    requires MasksFit(words, found)
  {
    seq(|words|, k requires 0 <= k < |words| => RenderWord(words[k], found[words[k]]))
  }

  /** Helper of Masked: with no empty word, the joined words have no white space to trim. */
  lemma JoinedWithoutBlankEnds(words: seq<string>, found: Masks)
    requires MasksFit(words, found) && AllLetterWords(words) && words != []
    requires forall k :: 0 <= k < |words| ==> words[k] != []
    ensures var joined := Join(RenderAll(words, found), WORD_SEPARATOR); Trim(joined) == joined
  {
    var parts := RenderAll(words, found);
    var first, last := words[0], words[|words| - 1];
    assert parts[0] == RenderWord(first, found[first]);
    assert parts[|parts| - 1] == RenderWord(last, found[last]);
    RenderWordEnds(first, found[first]);
    RenderWordEnds(last, found[last]);
    JoinEnds(parts, WORD_SEPARATOR);
    TrimNothingToStrip(Join(parts, WORD_SEPARATOR));
  }

  /** A non-empty word of letters is rendered without white space at either end. */
  lemma RenderWordEnds(w: string, m: seq<bool>)
    requires |m| == |w| && w != [] && IsLetterWord(w)
    ensures var r := RenderWord(w, m); !IsTrimmed(r[0]) && !IsTrimmed(r[|r| - 1])
  {
    assert ValidateInput(w[0]) && ValidateInput(w[|w| - 1]);
  }

  /** With non-empty first and last parts, the join starts and ends with them. */
  lemma {:induction false} JoinEnds(parts: seq<string>, sep: char)
    requires parts != [] && parts[0] != [] && parts[|parts| - 1] != []
    ensures var j := Join(parts, sep);
      j != [] && j[0] == parts[0][0] && j[|j| - 1] == parts[|parts| - 1][|parts[|parts| - 1]| - 1]
  {
    if |parts| > 1 {
      JoinEnds2(parts[1..], sep);
    }
  }

  /** Helper of JoinEnds: a join ending with a non-empty part ends with that part's last character. */
  lemma {:induction false} JoinEnds2(parts: seq<string>, sep: char)
    requires parts != [] && parts[|parts| - 1] != []
    ensures var j := Join(parts, sep);
      j != [] && j[|j| - 1] == parts[|parts| - 1][|parts[|parts| - 1]| - 1]
  {
    if |parts| > 1 {
      JoinEnds2(parts[1..], sep);
    }
  }

  /** The character is shown at a revealed position of some word. */
  predicate Shown(words: seq<string>, found: Masks, ch: char)
    requires MasksFit(words, found)
  {
    exists k, i :: 0 <= k < |words| && 0 <= i < |words[k]| && found[words[k]][i] && words[k][i] == ch
  }

  /** knownLetters consists of placeholders, separators and revealed characters, nothing else. */
  lemma MaskedCharacters(words: seq<string>, found: Masks)
    requires MasksFit(words, found)
    ensures forall ch :: ch in Masked(words, found) ==>
      ch == UNKNOWN_LETTER_REPLACEMENT || ch == WORD_SEPARATOR || Shown(words, found, ch)
  {
    RenderCharacters(words, found);
    TrimKeepsCharacters(Render(words, found));
  }

  /** Helper of MaskedCharacters, on the untrimmed buffer. */
  lemma {:induction false} RenderCharacters(words: seq<string>, found: Masks)
    requires MasksFit(words, found)
    ensures forall ch :: ch in Render(words, found) ==>
      ch == UNKNOWN_LETTER_REPLACEMENT || ch == WORD_SEPARATOR || Shown(words, found, ch)
  {
    if words != [] {
      RenderCharacters(words[1..], found);
      var head := RenderWord(words[0], found[words[0]]);
      forall ch | ch in Render(words, found)
        ensures ch == UNKNOWN_LETTER_REPLACEMENT || ch == WORD_SEPARATOR || Shown(words, found, ch)
      {
        if ch in head {
          var i :| 0 <= i < |head| && head[i] == ch;
          if found[words[0]][i] {
            assert words[0][i] == ch;
          }
        } else if ch in Render(words[1..], found) && ch != UNKNOWN_LETTER_REPLACEMENT && ch != WORD_SEPARATOR {
          assert Shown(words[1..], found, ch);
          var k, i :| 0 <= k < |words[1..]| && 0 <= i < |words[1..][k]| && found[words[1..][k]][i] && words[1..][k][i] == ch;
          assert words[k + 1][i] == ch;
        }
      }
    }
  }

  /** A letter that is in no word never appears in knownLetters, in either case. */
  lemma MissedLetterHidden(words: seq<string>, found: Masks, c: char)
    requires MasksFit(words, found)
    requires ValidateInput(c) && !Occurs(words, c)
    ensures forall ch :: ch in Masked(words, found) ==> !SameLetter(ch, c)
  {
    MaskedCharacters(words, found);
    forall ch | ch in Masked(words, found) ensures !SameLetter(ch, c) {
      if Shown(words, found, ch) {
        var k, i :| 0 <= k < |words| && 0 <= i < |words[k]| && found[words[k]][i] && words[k][i] == ch;
        assert !SameLetter(words[k][i], c);
      }
    }
  }

  // ---------------------------------------------------------------------------
  // Construction

  /** The constructor accepts exactly the non-empty phrases made of ASCII letters and spaces. */
  lemma PhraseAcceptance(phrase: string)
    ensures IsValidPhrase(phrase) <==>
      phrase != [] && forall i :: 0 <= i < |phrase| ==> ValidateInput(phrase[i]) || phrase[i] == WORD_SEPARATOR
  {
    if WORD_SEPARATOR in phrase {
      var ps := Pieces(phrase, WORD_SEPARATOR);
      PiecesAreLetterWords(phrase);
      var r := DropTrailingEmpty(ps);
      assert AllLetterWords(r) <==> AllLetterWords(ps) by {
        if AllLetterWords(r) {
          forall k | 0 <= k < |ps| ensures IsLetterWord(ps[k]) {
            if k < |r| {
              assert ps[k] == r[k];
            }
          }
        }
      }
    }
  }

  /** Helper of PhraseAcceptance: on the raw pieces. */
  lemma {:induction false} PiecesAreLetterWords(s: string)
    ensures AllLetterWords(Pieces(s, WORD_SEPARATOR)) <==>
      forall i :: 0 <= i < |s| ==> ValidateInput(s[i]) || s[i] == WORD_SEPARATOR
  {
    if s != [] {
      PiecesAreLetterWords(s[1..]);
      var rest := Pieces(s[1..], WORD_SEPARATOR);
      var ps := Pieces(s, WORD_SEPARATOR);
      if s[0] == WORD_SEPARATOR {
        assert ps == [[]] + rest;
        LetterWordsCons([], rest);
      } else {
        assert ps == [[s[0]] + rest[0]] + rest[1..];
        LetterWordsCons([s[0]] + rest[0], rest[1..]);
        LetterWordCons(s[0], rest[0]);
        assert rest == [rest[0]] + rest[1..];
        LetterWordsCons(rest[0], rest[1..]);
      }
      assert forall i :: 1 <= i < |s| ==> s[i] == s[1..][i - 1];
    }
  }

  /** Helper of PiecesAreLetterWords: a list of words, first word apart. */
  lemma LetterWordsCons(w: string, rest: seq<string>)
    ensures AllLetterWords([w] + rest) <==> IsLetterWord(w) && AllLetterWords(rest)
  {
    var ws := [w] + rest;
    assert ws[0] == w;
    assert forall k :: 0 <= k < |rest| ==> ws[k + 1] == rest[k];
    if IsLetterWord(w) && AllLetterWords(rest) {
      forall k | 0 <= k < |ws| ensures IsLetterWord(ws[k]) {
        if k > 0 {
          assert ws[k] == rest[k - 1];
        }
      }
    }
  }

  /** Helper of PiecesAreLetterWords: a word, first character apart. */
  lemma LetterWordCons(c: char, w: string)
    ensures IsLetterWord([c] + w) <==> ValidateInput(c) && IsLetterWord(w)
  {
    var cw := [c] + w;
    assert cw[0] == c;
    assert forall i :: 0 <= i < |w| ==> cw[i + 1] == w[i];
    assert forall i :: 1 <= i < |cw| ==> cw[i] == w[i - 1];
  }

  /** A phrase of spaces only is accepted, splits into no word at all, and its game starts already won. */
  lemma BlankPhraseStartsWon(phrase: string)
    requires phrase != [] && forall i :: 0 <= i < |phrase| ==> phrase[i] == WORD_SEPARATOR
    ensures IsValidPhrase(phrase) && Split(phrase, WORD_SEPARATOR) == []
    ensures Initial(Split(phrase, WORD_SEPARATOR)).state == Win
  {
  }
}

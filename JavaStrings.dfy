/**
 * The few pieces of java.lang.String and java.lang.Character that the game
 * relies on, with the semantics they have in the JDK:
 *  - String.split with a one-character literal separator,
 *  - String.trim,
 *  - Character.toLowerCase / String.toLowerCase on ASCII letters.
 */
module JavaStrings {

  /**
   * Character.toLowerCase restricted to what the game feeds it: an upper-case ASCII
   * letter becomes the lower-case letter at the same place in the alphabet, every
   * other character is kept, and no upper-case ASCII letter is left.
   */
  function ToLower(c: char): (r: char)
    ensures 'A' <= c <= 'Z' ==> 'a' <= r <= 'z' && r as int - 'a' as int == c as int - 'A' as int
    ensures !('A' <= c <= 'Z') ==> r == c
    ensures !('A' <= r <= 'Z')
  {
    if 'A' <= c <= 'Z' then (c as int + 32) as char else c
  }

  /** String.toLowerCase, character by character. */
  function LowerString(s: string): (r: string)
    ensures |r| == |s|
    ensures forall i :: 0 <= i < |s| ==> r[i] == ToLower(s[i])
  {
    if s == [] then [] else [ToLower(s[0])] + LowerString(s[1..])
  }

  /** The parts glued back together with one separator between neighbours. */
  function Join(parts: seq<string>, sep: char): string
  {
    if parts == [] then []
    else if |parts| == 1 then parts[0]
    else parts[0] + [sep] + Join(parts[1..], sep)
  }

  /**
   * The string cut at EVERY occurrence of sep, empty pieces included:
   * the raw list that String.split computes before it drops trailing empty strings.
   */
  function Pieces(s: string, sep: char): (r: seq<string>)
    ensures |r| >= 1
    ensures forall k :: 0 <= k < |r| ==> sep !in r[k]
    ensures Join(r, sep) == s
    ensures (forall i :: 0 <= i < |s| ==> s[i] == sep) <==> (forall k :: 0 <= k < |r| ==> r[k] == [])
  {
    if s == [] then [[]]
    else
      var rest := Pieces(s[1..], sep);
      if s[0] == sep then
        assert ([[]] + rest)[1..] == rest;
        [[]] + rest
      else
        var r := [[s[0]] + rest[0]] + rest[1..];
        assert r[1..] == rest[1..];
        assert |rest| > 1 ==> rest == [rest[0]] + rest[1..] && Join(rest, sep) == rest[0] + [sep] + Join(rest[1..], sep);
        assert s == [s[0]] + s[1..];
        r
  }

  /** Removes every empty string at the end of the list. */
  function DropTrailingEmpty(ws: seq<string>): (r: seq<string>)
    ensures |r| <= |ws| && r == ws[..|r|]
    ensures forall k :: |r| <= k < |ws| ==> ws[k] == []
    ensures r == [] || r[|r| - 1] != []
  {
    if ws != [] && ws[|ws| - 1] == [] then DropTrailingEmpty(ws[..|ws| - 1]) else ws
  }

  /**
   * String.split(String.valueOf(sep)): when sep does not occur the whole string is
   * the only piece (so "" gives [""]); otherwise the pieces between separators,
   * leading and inner empty pieces kept, trailing empty pieces dropped.
   */
  function Split(s: string, sep: char): (r: seq<string>)
    ensures forall k :: 0 <= k < |r| ==> sep !in r[k]
    ensures r == [] <==> s != [] && forall i :: 0 <= i < |s| ==> s[i] == sep
    ensures r != [] ==> r[|r| - 1] != [] || s == []
    ensures r != [] ==> |Join(r, sep)| <= |s| && s[..|Join(r, sep)|] == Join(r, sep)
    ensures r != [] ==> forall i :: |Join(r, sep)| <= i < |s| ==> s[i] == sep
  {
    if sep !in s then
      assert s != [] ==> s[0] in s;
      [s]
    else
      var ps := Pieces(s, sep);
      var r := DropTrailingEmpty(ps);
      if r == [] then r
      else
        JoinDropsTrailing(ps, |r|, sep);
        r
  }

  /** Two words around one separator split into exactly those two words. */
  lemma SplitTwoWords(a: string, b: string, sep: char)
    requires sep !in a && sep !in b && b != []
    ensures Split(a + [sep] + b, sep) == [a, b]
  {
    PiecesCut(a, b, sep);
    PiecesWord(b, sep);
    assert sep in a + [sep] + b by { assert (a + [sep] + b)[|a|] == sep; }
  }

  /** Helper of SplitTwoWords: cutting at the first separator. */
  lemma {:induction false} PiecesCut(a: string, rest: string, sep: char)
    requires sep !in a
    ensures Pieces(a + [sep] + rest, sep) == [a] + Pieces(rest, sep)
  {
    var s := a + [sep] + rest;
    if a == [] {
      assert s[1..] == rest;
    } else {
      assert s[1..] == a[1..] + [sep] + rest;
      PiecesCut(a[1..], rest, sep);
      assert [a[0]] + a[1..] == a;
    }
  }

  /** Helper of SplitTwoWords: a string without the separator is one piece. */
  lemma {:induction false} PiecesWord(s: string, sep: char)
    requires sep !in s
    ensures Pieces(s, sep) == [s]
  {
    if s != [] {
      PiecesWord(s[1..], sep);
      assert [s[0]] + s[1..] == s;
    }
  }

  /** n copies of the separator. */
  function Repeat(c: char, n: nat): (r: string)
    ensures |r| == n && forall i :: 0 <= i < n ==> r[i] == c
  {
    if n == 0 then [] else [c] + Repeat(c, n - 1)
  }

  /** Joining only empty pieces leaves just the separators. */
  lemma {:induction false} JoinEmpty(ws: seq<string>, sep: char)
    requires ws != []
    requires forall k :: 0 <= k < |ws| ==> ws[k] == []
    ensures Join(ws, sep) == Repeat(sep, |ws| - 1)
  {
    if |ws| > 1 {
      JoinEmpty(ws[1..], sep);
    }
  }

  /** Dropping empty pieces at the end shortens the joined string by their separators only. */
  lemma {:induction false} JoinDropsTrailing(ws: seq<string>, m: nat, sep: char)
    requires 1 <= m <= |ws|
    requires forall k :: m <= k < |ws| ==> ws[k] == []
    ensures Join(ws, sep) == Join(ws[..m], sep) + Repeat(sep, |ws| - m)
  {
    if m == |ws| {
      assert ws[..m] == ws;
    } else if m == 1 {
      JoinEmpty(ws[1..], sep);
      assert ws[..1] == [ws[0]];
    } else {
      JoinDropsTrailing(ws[1..], m - 1, sep);
      assert ws[..m][1..] == ws[1..][..m - 1];
    }
  }

  /** String.trim() counts every character up to U+0020 as white space. */
  predicate IsTrimmed(c: char)
  {
    c <= ' '
  }

  /** Strips leading white space. */
  function TrimStart(s: string): (r: string)
    ensures |r| <= |s| && r == s[|s| - |r|..]
    ensures forall i :: 0 <= i < |s| - |r| ==> IsTrimmed(s[i])
    ensures r == [] || !IsTrimmed(r[0])
  {
    if s != [] && IsTrimmed(s[0]) then TrimStart(s[1..]) else s
  }

  /** Strips trailing white space. */
  function TrimEnd(s: string): (r: string)
    ensures |r| <= |s| && r == s[..|r|]
    ensures forall i :: |r| <= i < |s| ==> IsTrimmed(s[i])
    ensures r == [] || !IsTrimmed(r[|r| - 1])
  {
    if s != [] && IsTrimmed(s[|s| - 1]) then TrimEnd(s[..|s| - 1]) else s
  }

  /** r is the slice of s starting at a, and everything of s around it is white space. */
  predicate BlankAround(s: string, r: string, a: int)
  {
    && 0 <= a && a + |r| <= |s| && r == s[a..a + |r|]
    && (forall i :: 0 <= i < a ==> IsTrimmed(s[i]))
    && (forall i :: a + |r| <= i < |s| ==> IsTrimmed(s[i]))
  }

  /**
   * String.trim(): the slice of the string left after removing the white space at
   * both ends. It is empty exactly when the string is all white space, and otherwise
   * starts and ends with a character that is not white space.
   */
  function Trim(s: string): (r: string)
    ensures exists a :: BlankAround(s, r, a)
    ensures r == [] <==> forall i :: 0 <= i < |s| ==> IsTrimmed(s[i])
    ensures r != [] ==> !IsTrimmed(r[0]) && !IsTrimmed(r[|r| - 1])
  {
    TrimSlice(s);
    TrimEnds(s);
    TrimEnd(TrimStart(s))
  }

  /** Helper of Trim: where the trimmed slice sits, and when it is empty. */
  lemma TrimSlice(s: string)
    ensures BlankAround(s, TrimEnd(TrimStart(s)), |s| - |TrimStart(s)|)
    ensures TrimEnd(TrimStart(s)) == [] <==> forall i :: 0 <= i < |s| ==> IsTrimmed(s[i])
  {
    var t := TrimStart(s);
    var r := TrimEnd(t);
    var a := |s| - |t|;
    assert t == s[a..];
    assert r == s[a..a + |r|];
    forall i | a + |r| <= i < |s| ensures IsTrimmed(s[i]) {
      assert s[i] == t[i - a];
    }
    assert BlankAround(s, r, a);
    if r != [] {
      assert !IsTrimmed(s[a]);
    }
  }

  /** Helper of Trim: a non-empty result has no white space at either end. */
  lemma TrimEnds(s: string)
    ensures var r := TrimEnd(TrimStart(s)); r != [] ==> !IsTrimmed(r[0]) && !IsTrimmed(r[|r| - 1])
  {
    var t := TrimStart(s);
    var r := TrimEnd(t);
    if r != [] {
      assert r[0] == t[0];
    }
  }

  /** Every character trim() keeps is a character of its argument. */
  lemma TrimKeepsCharacters(s: string)
    ensures forall ch :: ch in Trim(s) ==> ch in s
  {
    var t := TrimStart(s);
    var u := TrimEnd(t);
    forall ch | ch in u ensures ch in s {
      var i :| 0 <= i < |u| && u[i] == ch;
      assert t[i] == ch;
      assert s[|s| - |t| + i] == ch;
    }
  }

  /** trim() leaves a string alone when neither end is white space. */
  lemma TrimNothingToStrip(s: string)
    requires s == [] || (!IsTrimmed(s[0]) && !IsTrimmed(s[|s| - 1]))
    ensures Trim(s) == s
  {
  }

  /** A white-space character appended at the end makes no difference to trim(). */
  lemma TrimIgnoresTrailingBlank(s: string, c: char)
    requires IsTrimmed(c)
    ensures Trim(s + [c]) == Trim(s)
  {
    TrimStartAppend(s, c);
    if TrimStart(s) != [] {
      var t := TrimStart(s);
      assert (t + [c])[..|t + [c]| - 1] == t;
    }
  }

  /** Helper of TrimIgnoresTrailingBlank: what TrimStart does to an appended character. */
  lemma {:induction false} TrimStartAppend(s: string, c: char)
    requires IsTrimmed(c)
    ensures TrimStart(s) == [] ==> TrimStart(s + [c]) == []
    ensures TrimStart(s) != [] ==> TrimStart(s + [c]) == TrimStart(s) + [c]
  {
    if s == [] {
      assert TrimStart([c]) == TrimStart([]);
    } else {
      assert (s + [c])[1..] == s[1..] + [c];
      if IsTrimmed(s[0]) {
        TrimStartAppend(s[1..], c);
      }
    }
  }
}

/**
 * The metric shorthand derivation of `fetch_initials` (metric_utils.py).
 * The shorthand is the suffix of the key of every rating field of a metric,
 * so two metrics with the same shorthand would share their input fields.
 */
module Initials {
  import opened Base

  /** `li[0]` raises `IndexError` on an empty word (a leading, trailing or doubled space). */
  datatype InitialsError = EmptyWord

  /** One character of the three chained `replace` calls: `&` to `a`, `/` and `-` to a space. */
  function Rewrite(c: char): char {
    if c == '&' then 'a' else if c == '/' || c == '-' then ' ' else c
  }

  /** The text after the three `replace` calls. */
  function Normalize(s: string): string
  {
    seq(|s|, i requires 0 <= i < |s| => Rewrite(s[i]))
  }

  /** Python's `s.split(' ')`: the pieces between single spaces, empty pieces included. */
  function Split(s: string): (ws: seq<string>)
    ensures |ws| >= 1
  {
    if |s| == 0 then [""]
    else
      var rest := Split(s[1..]);
      if s[0] == ' ' then [""] + rest
      else [[s[0]] + rest[0]] + rest[1..]
  }

  /** Python's `' '.join(ws)`. */
  function Join(ws: seq<string>): string
    requires |ws| >= 1
  {
    if |ws| == 1 then ws[0] else ws[0] + " " + Join(ws[1..])
  }

  /** A word that `Split` can return: it holds no space. */
  predicate SpaceFree(w: string) {
    forall k :: 0 <= k < |w| ==> w[k] != ' '
  }

  /** The code point of a word's first character after the upper-case shift of 65..91. */
  function ShiftedCode(c: char): int {
    var code := c as int;
    if 64 < code < 92 then code + 32 else code
  }

  /** What one word contributes: its shifted first character, kept only when in 97..123. */
  function Initial(c: char): (r: Option<char>)
    ensures r.Some? <==> 96 < ShiftedCode(c) < 124
    ensures r.Some? ==> 'a' <= r.value <= '{'
  {
    var code := ShiftedCode(c);
    if 96 < code < 124 then Some(code as char) else None
  }

  /** Prepends a word's contribution to the initials of the words after it. */
  function Cons(init: Option<char>, rest: Option<string>): Option<string> {
    match rest
    case None => None
    case Some(r) => if init.Some? then Some([init.value] + r) else Some(r)
  }

  /** A shorthand character: `a` to `z`, or `{` (the image of `[`). */
  predicate ShorthandChar(c: char) {
    'a' <= c <= '{'
  }

  /** Some word of the list is empty. */
  predicate HasEmptyWord(ws: seq<string>) {
    exists i :: 0 <= i < |ws| && |ws[i]| == 0
  }

  /** The initials of a list of words, or `None` when some word is empty. */
  function InitialsOf(ws: seq<string>): (r: Option<string>)
    ensures r.None? <==> HasEmptyWord(ws)
    ensures r.Some? ==> |r.value| <= |ws|
    ensures r.Some? ==> forall k :: 0 <= k < |r.value| ==> ShorthandChar(r.value[k])
  {
    if |ws| == 0 then Some("")
    else if |ws[0]| == 0 then None
    else
      var rest := InitialsOf(ws[1..]);
      assert rest.None? ==> HasEmptyWord(ws) by {
        if rest.None? {
          var i :| 0 <= i < |ws[1..]| && |ws[1..][i]| == 0;
          assert |ws[i + 1]| == 0;
        }
      }
      assert HasEmptyWord(ws) ==> rest.None? by {
        if HasEmptyWord(ws) {
          var i :| 0 <= i < |ws| && |ws[i]| == 0;
          assert ws[1..][i - 1] == ws[i];
        }
      }
      Cons(Initial(ws[0][0]), rest)
  }

  /**
   * `fetch_initials(text)`: at most one shorthand character per space-separated
   * word, and an error exactly when some word is empty.
   */
  function FetchInitials(text: string): (r: Result<string, InitialsError>)
    ensures r.Err? <==> HasEmptyWord(Split(Normalize(text)))
    ensures r.Ok? ==> |r.value| <= |Split(Normalize(text))|
    ensures r.Ok? ==> forall k :: 0 <= k < |r.value| ==> ShorthandChar(r.value[k])
  {
    var ws := Split(Normalize(text));
    match InitialsOf(ws)
    case None => Err(EmptyWord)
    case Some(r) => Ok(r)
  }

  // ---------------------------------------------------------------------------
  // Splitting and joining

  /** Splitting at a space splits each side independently. */
  lemma {:induction false} SplitConcat(x: string, y: string)
    ensures Split(x + " " + y) == Split(x) + Split(y)
  {
    if |x| == 0 {
      assert x + " " + y == " " + y;
      assert (" " + y)[1..] == y;
    } else {
      var s := x + " " + y;
      assert s[0] == x[0];
      assert s[1..] == x[1..] + " " + y;
      SplitConcat(x[1..], y);
    }
  }

  /** A space-free word splits to itself. */
  lemma {:induction false} SplitWord(w: string)
    requires SpaceFree(w)
    ensures Split(w) == [w]
  {
    if |w| > 0 {
      SplitWord(w[1..]);
      assert [w[0]] + w[1..] == w;
    }
  }

  /** Every piece that `Split` returns is free of spaces, and joining them gives the text back. */
  lemma {:induction false} JoinSplit(s: string)
    ensures Join(Split(s)) == s
    ensures forall k :: 0 <= k < |Split(s)| ==> SpaceFree(Split(s)[k])
  {
    if |s| > 0 {
      var rest := Split(s[1..]);
      JoinSplit(s[1..]);
      if s[0] == ' ' {
        assert Split(s)[1..] == rest;
        assert s == " " + s[1..];
      } else {
        var ws := Split(s);
        assert ws[0] == [s[0]] + rest[0];
        assert ws[1..] == rest[1..];
        if |rest| == 1 {
          assert s == [s[0]] + rest[0];
        } else {
          assert Join(rest) == rest[0] + " " + Join(rest[1..]);
          assert s == [s[0]] + s[1..];
        }
        assert SpaceFree(ws[0]) by {
          assert SpaceFree(rest[0]);
        }
        assert forall k :: 1 <= k < |ws| ==> ws[k] == rest[k];
      }
    }
  }

  /** Splitting a join of space-free words gives the words back. */
  lemma {:induction false} SplitJoin(ws: seq<string>)
    requires |ws| >= 1
    requires forall k :: 0 <= k < |ws| ==> SpaceFree(ws[k])
    ensures Split(Join(ws)) == ws
  {
    SplitWord(ws[0]);
    if |ws| > 1 {
      SplitJoin(ws[1..]);
      SplitConcat(ws[0], Join(ws[1..]));
      assert ws == [ws[0]] + ws[1..];
    }
  }

  /** Rewriting commutes with concatenation. */
  lemma NormalizeConcat(x: string, y: string)
    ensures Normalize(x + y) == Normalize(x) + Normalize(y)
  {
  }

  // ---------------------------------------------------------------------------
  // Properties of the derivation

  /** The initials of a list whose first word is non-empty. */
  lemma InitialsCons(w: string, ws: seq<string>)
    requires |w| > 0
    ensures InitialsOf([w] + ws) == Cons(Initial(w[0]), InitialsOf(ws))
  {
    assert ([w] + ws)[1..] == ws;
  }

  /** A text whose rewritten form is the given words, joined by single spaces, has their initials. */
  lemma FetchFromWords(text: string, ws: seq<string>, r: string)
    requires |ws| >= 1 && forall k :: 0 <= k < |ws| ==> SpaceFree(ws[k])
    requires Normalize(text) == Join(ws)
    requires InitialsOf(ws) == Some(r)
    ensures FetchInitials(text) == Ok(r)
  {
    SplitJoin(ws);
  }

  /** Words that hold no space and each start with an ASCII letter. */
  predicate LetterWords(ws: seq<string>) {
    forall k :: 0 <= k < |ws| ==>
      |ws[k]| > 0 && SpaceFree(ws[k]) && ('A' <= ws[k][0] <= 'Z' || 'a' <= ws[k][0] <= 'z')
  }

  /** The lower-cased first letter of every word. */
  function FirstLetters(ws: seq<string>): (r: string)
    requires LetterWords(ws)
  {
    seq(|ws|, k requires 0 <= k < |ws| => LowerChar(ws[k][0]))
  }

  /** Words that start with letters each contribute their first letter, lower-cased. */
  lemma {:induction false} LetterWordsInitials(ws: seq<string>)
    requires LetterWords(ws)
    ensures InitialsOf(ws) == Some(FirstLetters(ws))
  {
    if |ws| == 0 {
      assert FirstLetters(ws) == "";
    } else {
      LetterWordsInitials(ws[1..]);
      InitialsCons(ws[0], ws[1..]);
      assert ws == [ws[0]] + ws[1..];
      assert Initial(ws[0][0]) == Some(LowerChar(ws[0][0]));
      assert FirstLetters(ws) == [LowerChar(ws[0][0])] + FirstLetters(ws[1..]);
    }
  }

  /**
   * A title whose rewritten text is letter words joined by single spaces has
   * their lower-cased first letters as shorthand, with or without a leading
   * bullet.
   */
  lemma TitleShorthand(title: string, ws: seq<string>)
    requires |ws| >= 1 && LetterWords(ws) && Normalize(title) == Join(ws)
    ensures FetchInitials(title) == Ok(FirstLetters(ws))
    ensures FetchInitials("• " + title) == Ok(FirstLetters(ws))
  {
    LetterWordsInitials(ws);
    FetchFromWords(title, ws, FirstLetters(ws));
    BulletIgnored(title);
  }

  /** A word joined in front contributes its initial, or nothing when its first character is not a letter. */
  lemma InitialsStep(w: string, rest: string)
    requires |w| > 0 && SpaceFree(w)
    ensures InitialsOf(Split(w + " " + rest)) == Cons(Initial(w[0]), InitialsOf(Split(rest)))
  {
    SplitConcat(w, rest);
    SplitWord(w);
    assert ([w] + Split(rest))[1..] == Split(rest);
  }

  /** The last word contributes its initial, or nothing. */
  lemma InitialsLast(w: string)
    requires |w| > 0 && SpaceFree(w)
    ensures InitialsOf(Split(w)) == Cons(Initial(w[0]), Some(""))
  {
    SplitWord(w);
    assert [w][1..] == [];
  }

  /**
   * A leading word whose first character is not a letter, such as the `•`
   * bullet of every shipped metric title, contributes nothing.
   */
  lemma {:induction false} NonLetterWordIgnored(w: string, t: string)
    requires |w| > 0 && SpaceFree(Normalize(w)) && Initial(Rewrite(w[0])).None?
    ensures FetchInitials(w + " " + t) == FetchInitials(t)
  {
    NormalizeConcat(w + " ", t);
    NormalizeConcat(w, " ");
    assert Normalize(" ") == " ";
    SplitConcat(Normalize(w), Normalize(t));
    SplitWord(Normalize(w));
    InitialsCons(Normalize(w), Split(Normalize(t)));
  }

  /** The bullet in front of a metric title changes nothing. */
  lemma BulletIgnored(t: string)
    ensures FetchInitials("• " + t) == FetchInitials(t)
  {
    assert "• " + t == "•" + " " + t;
    assert Normalize("•") == "•";
    NonLetterWordIgnored("•", t);
  }

  /** A leading space or two spaces in a row make an empty word, so the derivation fails. */
  lemma {:induction false} DoubledSpaceFails(x: string, y: string)
    ensures FetchInitials(x + "  " + y) == Err(EmptyWord)
  {
    var t := x + "  " + y;
    assert t == x + " " + ("" + " " + y);
    NormalizeConcat(x, " " + ("" + " " + y));
    NormalizeConcat(" ", "" + " " + y);
    NormalizeConcat(" ", y);
    assert Normalize(" ") == " ";
    assert Normalize(t) == Normalize(x) + " " + ("" + " " + Normalize(y));
    SplitConcat(Normalize(x), "" + " " + Normalize(y));
    SplitConcat("", Normalize(y));
    assert Split("") == [""];
    var ws := Split(Normalize(t));
    assert ws == Split(Normalize(x)) + ([""] + Split(Normalize(y)));
    assert ws[|Split(Normalize(x))|] == "";
  }

  /** ASCII upper-case letters mapped to lower case; everything else unchanged. */
  function LowerChar(c: char): char {
    if 'A' <= c <= 'Z' then (c as int + 32) as char else c
  }

  function Lower(s: string): string {
    seq(|s|, i requires 0 <= i < |s| => LowerChar(s[i]))
  }

  function LowerAll(ws: seq<string>): seq<string> {
    seq(|ws|, i requires 0 <= i < |ws| => Lower(ws[i]))
  }

  lemma LowerAllCons(w: string, ws: seq<string>)
    ensures LowerAll([w] + ws) == [Lower(w)] + LowerAll(ws)
  {
  }

  lemma {:induction false} SplitLower(s: string)
    ensures Split(Lower(s)) == LowerAll(Split(s))
  {
    if |s| > 0 {
      var t := Lower(s);
      assert t[1..] == Lower(s[1..]);
      SplitLower(s[1..]);
      var rest := Split(s[1..]);
      assert LowerAll(rest)[0] == Lower(rest[0]);
      assert LowerAll(rest)[1..] == LowerAll(rest[1..]);
      if s[0] == ' ' {
        assert t[0] == ' ';
        assert Lower("") == "";
        LowerAllCons("", rest);
      } else {
        assert Lower([s[0]] + rest[0]) == [t[0]] + Lower(rest[0]);
        LowerAllCons([s[0]] + rest[0], rest[1..]);
      }
    }
  }

  lemma {:induction false} InitialsOfLower(ws: seq<string>)
    ensures InitialsOf(LowerAll(ws)) == InitialsOf(ws)
  {
    if |ws| > 0 && |ws[0]| > 0 {
      InitialsOfLower(ws[1..]);
      assert LowerAll(ws)[1..] == LowerAll(ws[1..]);
      assert LowerAll(ws)[0][0] == LowerChar(ws[0][0]);
    }
  }

  /**
   * Lower-casing the text changes no shorthand: an upper-case first letter is
   * shifted to its lower-case form anyway.
   */
  lemma LowerCaseInvariant(text: string)
    ensures FetchInitials(Lower(text)) == FetchInitials(text)
  {
    assert Normalize(Lower(text)) == Lower(Normalize(text));
    SplitLower(Normalize(text));
    InitialsOfLower(Split(Normalize(text)));
  }
}

/** Word tokens of a text: maximal runs of ASCII letters, apostrophes and
    hyphens. The source's pattern is written `\\b[a-zA-Z'-]+\\b` in a raw
    string; the doubled backslash is read here as the intended word
    boundary `\b`, and the boundary itself is approximated by maximality
    of the run (Python's finer `\b` rules are not modelled). */
module Tokenizer {

  predicate IsWordChar(c: char) {
    ('a' <= c <= 'z') || ('A' <= c <= 'Z') || c == '\'' || c == '-'
  }

  predicate IsUpper(c: char) {
    'A' <= c <= 'Z'
  }

  /** ASCII case folding (non-ASCII characters are left unchanged). */
  function LowerChar(c: char): (d: char)
    ensures !IsUpper(d)
    ensures IsWordChar(d) <==> IsWordChar(c)
    ensures !IsUpper(c) ==> d == c
    ensures IsUpper(c) ==> 'a' <= d <= 'z' && d as int - 'a' as int == c as int - 'A' as int
  {
    if IsUpper(c) then (c as int + 32) as char else c
  }

  /** `s.lower()`, restricted to ASCII letters. */
  function Lower(s: string): (t: string)
    ensures |t| == |s|
    ensures forall i :: 0 <= i < |s| ==> t[i] == LowerChar(s[i])
  {
    seq(|s|, i requires 0 <= i < |s| => LowerChar(s[i]))
  }

  ghost predicate AllWordChars(s: string) {
    forall i :: 0 <= i < |s| ==> IsWordChar(s[i])
  }

  /** Length of the longest prefix of s made of word characters. */
  function WordRun(s: string): (n: nat)
    ensures n <= |s|
    ensures AllWordChars(s[..n])
    ensures n < |s| ==> !IsWordChar(s[n])
  {
    if s == [] || !IsWordChar(s[0]) then 0 else 1 + WordRun(s[1..])
  }

  /** The tokens `re.findall` returns, left to right. */
  function Tokens(s: string): (r: seq<string>)
    ensures forall i :: 0 <= i < |r| ==> r[i] != [] && AllWordChars(r[i])
    decreases |s|
  {
    if s == [] then []
    else if !IsWordChar(s[0]) then Tokens(s[1..])
    else
      var n := WordRun(s);
      [s[..n]] + Tokens(s[n..])
  }

  /** Every character of a token is a character of the text. */
  lemma {:induction false} TokenChars(s: string)
    ensures forall i, j :: 0 <= i < |Tokens(s)| && 0 <= j < |Tokens(s)[i]| ==> Tokens(s)[i][j] in s
    decreases |s|
  {
    if s != [] {
      if !IsWordChar(s[0]) {
        TokenChars(s[1..]);
        assert forall x :: x in s[1..] ==> x in s;
      } else {
        var n := WordRun(s);
        TokenChars(s[n..]);
        assert forall x :: x in s[n..] ==> x in s;
        assert forall x :: x in s[..n] ==> x in s;
      }
    }
  }

  /** The words of the analysed text: tokens of the lowercased text, which
      are the tokens of the text itself, lowercased. */
  function Words(text: string): (r: seq<string>)
    ensures |r| == |Tokens(text)|
    ensures forall i :: 0 <= i < |r| ==> r[i] == Lower(Tokens(text)[i])
  {
    TokensOfLower(text);
    Tokens(Lower(text))
  }

  /** Every word is non-empty, lowercase and made only of ASCII letters,
      apostrophes and hyphens. */
  lemma WordShape(text: string)
    ensures forall i :: 0 <= i < |Words(text)| ==>
      Words(text)[i] != [] && AllWordChars(Words(text)[i])
    ensures forall i, j :: 0 <= i < |Words(text)| && 0 <= j < |Words(text)[i]| ==>
      !IsUpper(Words(text)[i][j])
  {
    var t := Lower(text);
    TokenChars(t);
    forall i, j | 0 <= i < |Tokens(t)| && 0 <= j < |Tokens(t)[i]|
      ensures !IsUpper(Tokens(t)[i][j])
    {
      var c := Tokens(t)[i][j];
      assert c in t;
      var k :| 0 <= k < |t| && t[k] == c;
    }
  }

  // ---- structural facts about Tokens ----

  /** A leading non-word character is a separator and is dropped. */
  lemma TokensSkip(c: char, x: string)
    requires !IsWordChar(c)
    ensures Tokens([c] + x) == Tokens(x)
  {
    assert ([c] + x)[1..] == x;
  }

  /** Prepending a word character either extends the first token (when x
      starts with a word character) or starts a new one. */
  lemma {:induction false} TokensConsCount(c: char, x: string)
    requires IsWordChar(c)
    ensures |Tokens([c] + x)| ==
      |Tokens(x)| + (if x != [] && IsWordChar(x[0]) then 0 else 1)
  {
    var s := [c] + x;
    assert s[1..] == x;
    var n := WordRun(s);
    assert n == 1 + WordRun(x);
    assert s[n..] == x[WordRun(x)..];
    if x != [] && IsWordChar(x[0]) {
      assert Tokens(x) == [x[..WordRun(x)]] + Tokens(x[WordRun(x)..]);
    } else {
      assert WordRun(x) == 0;
      assert x[0..] == x;
    }
  }

  /** A word of word characters, then a separator, then anything: the word
      is the first token. */
  lemma {:induction false} WordRunOfWord(w: string, c: char, rest: string)
    requires AllWordChars(w) && !IsWordChar(c)
    ensures WordRun(w + [c] + rest) == |w|
    decreases |w|
  {
    var s := w + [c] + rest;
    if w == [] {
      assert s[0] == c;
    } else {
      assert s[1..] == w[1..] + [c] + rest;
      WordRunOfWord(w[1..], c, rest);
    }
  }

  /** Words joined by single spaces. */
  function JoinWords(ws: seq<string>): string {
    if ws == [] then [] else if |ws| == 1 then ws[0] else ws[0] + [' '] + JoinWords(ws[1..])
  }

  /** Round trip: tokenizing space-separated well-formed tokens gives them back. */
  lemma {:induction false} TokensOfJoin(ws: seq<string>)
    requires forall i :: 0 <= i < |ws| ==> ws[i] != [] && AllWordChars(ws[i])
    ensures Tokens(JoinWords(ws)) == ws
  {
    if ws == [] {
    } else if |ws| == 1 {
      TokensOfWord(ws[0]);
    } else {
      TokensOfWordThen(ws[0], ' ', JoinWords(ws[1..]));
      TokensOfJoin(ws[1..]);
    }
  }

  /** A single word is its own only token. */
  lemma TokensOfWord(w: string)
    requires w != [] && AllWordChars(w)
    ensures Tokens(w) == [w]
  {
    WholeWordRun(w);
    assert w[..|w|] == w && w[|w|..] == [];
  }

  /** A word followed by a separator is the first token. */
  lemma TokensOfWordThen(w: string, c: char, rest: string)
    requires w != [] && AllWordChars(w) && !IsWordChar(c)
    ensures Tokens(w + [c] + rest) == [w] + Tokens(rest)
  {
    var s := w + [c] + rest;
    WordRunOfWord(w, c, rest);
    assert s[..|w|] == w;
    assert s[|w|..] == [c] + rest;
    TokensSkip(c, rest);
  }

  lemma {:induction false} WholeWordRun(s: string)
    requires AllWordChars(s)
    ensures WordRun(s) == |s|
    decreases |s|
  {
    if s != [] {
      WholeWordRun(s[1..]);
    }
  }

  /** A text with no word character has no tokens (e.g. a blank fragment). */
  lemma {:induction false} NoWordCharsNoTokens(s: string)
    requires forall i :: 0 <= i < |s| ==> !IsWordChar(s[i])
    ensures Tokens(s) == []
    decreases |s|
  {
    if s != [] {
      NoWordCharsNoTokens(s[1..]);
    }
  }

  /** ASCII lowercasing does not move token boundaries: the tokens of the
      lowercased text are the lowercased tokens of the text. */
  lemma {:induction false} TokensOfLower(s: string)
    ensures |Tokens(Lower(s))| == |Tokens(s)|
    ensures forall i :: 0 <= i < |Tokens(s)| ==> Tokens(Lower(s))[i] == Lower(Tokens(s)[i])
    decreases |s|
  {
    var t := Lower(s);
    if s != [] {
      if !IsWordChar(s[0]) {
        assert t[1..] == Lower(s[1..]);
        TokensOfLower(s[1..]);
      } else {
        var n := WordRun(s);
        WordRunOfLower(s);
        assert t[..n] == Lower(s[..n]);
        assert t[n..] == Lower(s[n..]);
        TokensOfLower(s[n..]);
      }
    }
  }

  lemma {:induction false} WordRunOfLower(s: string)
    ensures WordRun(Lower(s)) == WordRun(s)
    decreases |s|
  {
    if s != [] {
      assert Lower(s)[1..] == Lower(s[1..]);
      WordRunOfLower(s[1..]);
    }
  }
}

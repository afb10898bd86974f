/** Sentence segmentation (`re.split(r"[.!?]+", text)`), the per-sentence
    word counts of the non-blank fragments, and their average. */
module Sentences {
  import opened Tokenizer

  predicate IsDelimiter(c: char) {
    c == '.' || c == '!' || c == '?'
  }

  /** `str.isspace()` on the ASCII range: tab, line feed, vertical tab,
      form feed, carriage return, the four separators 0x1C-0x1F, space. */
  predicate IsSpace(c: char) {
    (9 <= c as int <= 13) || (28 <= c as int <= 32)
  }

  /** `not s.strip()`: the fragment is empty or whitespace only. A blank
      fragment holds no token. */
  function IsBlank(s: string): (b: bool)
    ensures b <==> forall i :: 0 <= i < |s| ==> IsSpace(s[i])
    ensures b ==> Tokens(s) == []
  {
    var b := forall i :: 0 <= i < |s| ==> IsSpace(s[i]);
    if b then
      assert forall i :: 0 <= i < |s| ==> !IsWordChar(s[i]);
      NoWordCharsNoTokens(s);
      b
    else b
  }

  ghost predicate NoDelimiter(s: string) {
    forall i :: 0 <= i < |s| ==> !IsDelimiter(s[i])
  }

  /** The fragments between maximal runs of delimiters, as `re.split`
      returns them: a leading or trailing run yields an empty fragment. */
  function Fragments(s: string): (r: seq<string>)
    ensures r != []
    ensures forall i, j :: 0 <= i < |r| && 0 <= j < |r[i]| ==> !IsDelimiter(r[i][j])
    // the first fragment is the text up to its first delimiter
    ensures r[0] <= s && (|r[0]| < |s| ==> IsDelimiter(s[|r[0]|]))
    decreases |s|
  {
    if s == [] then [[]]
    else if IsDelimiter(s[0]) then
      if |s| > 1 && IsDelimiter(s[1]) then Fragments(s[1..]) else [[]] + Fragments(s[1..])
    else
      var rest := Fragments(s[1..]);
      [[s[0]] + rest[0]] + rest[1..]
  }

  /** Fragments glued back with one delimiter between neighbours. */
  function Join(fs: seq<string>, d: char): string
    requires fs != []
  {
    if |fs| == 1 then fs[0] else fs[0] + [d] + Join(fs[1..], d)
  }

  /** A text without delimiters is a single fragment: the whole text. */
  lemma {:induction false} NoDelimiterOneFragment(s: string)
    requires NoDelimiter(s)
    ensures Fragments(s) == [s]
    decreases |s|
  {
    if s != [] {
      NoDelimiterOneFragment(s[1..]);
      assert [s[0]] + s[1..] == s;
    }
  }

  /** A delimiter-free prefix is glued onto the first fragment of the rest. */
  lemma {:induction false} FragmentsOfPrefix(w: string, t: string)
    requires NoDelimiter(w)
    ensures Fragments(w + t) == [w + Fragments(t)[0]] + Fragments(t)[1..]
    decreases |w|
  {
    if w != [] {
      var s, r := w + t, Fragments(t);
      assert s[1..] == w[1..] + t;
      FragmentsOfPrefix(w[1..], t);
      var rest := Fragments(s[1..]);
      assert rest[0] == w[1..] + r[0] && rest[1..] == r[1..];
      assert Fragments(s) == [[s[0]] + rest[0]] + rest[1..];
      assert [w[0]] + (w[1..] + r[0]) == w + r[0];
    } else {
      var r := Fragments(t);
      assert w + t == t && w + r[0] == r[0];
      assert [r[0]] + r[1..] == r;
    }
  }

  /** A single delimiter not followed by another one ends an empty fragment. */
  lemma LoneDelimiter(d: char, t: string)
    requires IsDelimiter(d) && (t == [] || !IsDelimiter(t[0]))
    ensures Fragments([d] + t) == [[]] + Fragments(t)
  {
    assert ([d] + t)[1..] == t;
  }

  /** A delimiter-free fragment, one delimiter, then a text that does not
      start with a delimiter: the fragment comes first. */
  lemma SplitFirst(w: string, d: char, t: string)
    requires NoDelimiter(w) && IsDelimiter(d) && (t == [] || !IsDelimiter(t[0]))
    ensures Fragments(w + [d] + t) == [w] + Fragments(t)
  {
    var u := [d] + t;
    LoneDelimiter(d, t);
    assert w + [d] + t == w + u;
    FragmentsOfPrefix(w, u);
    assert w + [] == w;
  }

  ghost predicate AllDelimiters(r: string) {
    forall i :: 0 <= i < |r| ==> IsDelimiter(r[i])
  }

  /** A whole run of delimiters, however long, ends one empty fragment:
      `[.!?]+` matches the run once. */
  lemma {:induction false} DelimiterRun(r: string, t: string)
    requires r != [] && AllDelimiters(r) && (t == [] || !IsDelimiter(t[0]))
    ensures Fragments(r + t) == [[]] + Fragments(t)
    decreases |r|
  {
    if |r| == 1 {
      assert r + t == [r[0]] + t;
      LoneDelimiter(r[0], t);
    } else {
      var u := r + t;
      assert u[1..] == r[1..] + t;
      assert u[1] == r[1];
      DelimiterRun(r[1..], t);
    }
  }

  /** A delimiter-free fragment followed by a run of delimiters and a text
      that does not start with a delimiter: the fragment is split off once,
      with no empty fragment for the inner delimiters of the run. */
  lemma SplitRun(w: string, r: string, t: string)
    requires NoDelimiter(w) && r != [] && AllDelimiters(r) && (t == [] || !IsDelimiter(t[0]))
    ensures Fragments(w + r + t) == [w] + Fragments(t)
  {
    DelimiterRun(r, t);
    assert w + r + t == w + (r + t);
    FragmentsOfPrefix(w, r + t);
    assert w + [] == w;
  }

  /** Joined fragments start with the first character of the first fragment. */
  lemma JoinStart(fs: seq<string>, d: char)
    requires fs != [] && fs[0] != []
    ensures Join(fs, d) != [] && Join(fs, d)[0] == fs[0][0]
  {
    if |fs| > 1 {
      assert Join(fs, d) == fs[0] + ([d] + Join(fs[1..], d));
    }
  }

  /** Round trip: splitting delimiter-free fragments joined by any delimiter
      gives them back, as long as no inner fragment is empty (an empty
      inner fragment would merge two delimiters into one run). */
  lemma {:induction false} FragmentsOfJoin(fs: seq<string>, d: char)
    requires fs != [] && IsDelimiter(d)
    requires forall i :: 0 <= i < |fs| ==> NoDelimiter(fs[i])
    requires forall i :: 0 < i < |fs| - 1 ==> fs[i] != []
    ensures Fragments(Join(fs, d)) == fs
    decreases |fs|
  {
    if |fs| == 1 {
      NoDelimiterOneFragment(fs[0]);
    } else {
      var u := Join(fs[1..], d);
      FragmentsOfJoin(fs[1..], d);
      if fs[1] != [] {
        JoinStart(fs[1..], d);
        assert !IsDelimiter(fs[1][0]);
      } else {
        assert |fs| == 2 && u == [];
      }
      SplitFirst(fs[0], d, u);
      assert [fs[0]] + fs[1..] == fs;
    }
  }

  /** The fragments kept by `if s.strip()`, in order: every kept fragment
      is non-blank, and each non-blank fragment is kept as often as it occurs. */
  function Retained(fs: seq<string>): (r: seq<string>)
    ensures |r| <= |fs|
    ensures forall i :: 0 <= i < |r| ==> !IsBlank(r[i])
  {
    if fs == [] then []
    else (if IsBlank(fs[0]) then [] else [fs[0]]) + Retained(fs[1..])
  }

  /** Each non-blank fragment is retained exactly as often as it occurs,
      and no blank one is. */
  lemma {:induction false} RetainedMultiset(fs: seq<string>)
    ensures forall f :: multiset(Retained(fs))[f] == if IsBlank(f) then 0 else multiset(fs)[f]
  {
    if fs != [] {
      RetainedMultiset(fs[1..]);
      assert fs == [fs[0]] + fs[1..];
    }
  }

  /** Word counts of the retained (non-blank) fragments, in order: one
      count per retained fragment, its number of tokens. */
  function Lengths(fs: seq<string>): (r: seq<nat>)
    ensures |r| <= |fs|
    ensures |r| == |Retained(fs)|
    ensures forall i :: 0 <= i < |r| ==> r[i] == |Tokens(Retained(fs)[i])|
  {
    if fs == [] then []
    else
      var rest := Lengths(fs[1..]);
      if IsBlank(fs[0]) then rest
      else
        var r := [|Tokens(fs[0])|] + rest;
        assert Retained(fs) == [fs[0]] + Retained(fs[1..]);
        r
  }

  /** One more fragment adds its token count at the end, unless it is blank. */
  lemma {:induction false} LengthsSnoc(fs: seq<string>, f: string)
    ensures Lengths(fs + [f]) == Lengths(fs) + (if IsBlank(f) then [] else [|Tokens(f)|])
  {
    if fs == [] {
      assert [] + [f] == [f];
      assert [f][1..] == [];
    } else {
      var g := fs + [f];
      var h: seq<nat> := if IsBlank(fs[0]) then [] else [|Tokens(fs[0])|];
      var e: seq<nat> := if IsBlank(f) then [] else [|Tokens(f)|];
      assert g[0] == fs[0] && g[1..] == fs[1..] + [f];
      assert Lengths(g) == h + Lengths(fs[1..] + [f]);
      assert Lengths(fs) == h + Lengths(fs[1..]);
      LengthsSnoc(fs[1..], f);
      assert h + (Lengths(fs[1..]) + e) == (h + Lengths(fs[1..])) + e;
    }
  }

  function Sum(xs: seq<nat>): nat {
    if xs == [] then 0 else xs[0] + Sum(xs[1..])
  }

  /** `sentence_lengths`: word counts of the non-blank fragments of the raw text. */
  function SentenceLengths(text: string): (r: seq<nat>)
    ensures |r| == |Retained(Fragments(text))|
    ensures forall i :: 0 <= i < |r| ==> r[i] == |Tokens(Retained(Fragments(text))[i])|
  {
    Lengths(Fragments(text))
  }

  /** The exact average `sum(sentence_lengths) / len(sentence_lengths)`,
      kept as numerator and denominator; (0, 0) stands for the 0 returned
      when no fragment is retained. */
  datatype Ratio = Ratio(wordSum: nat, sentences: nat)

  /** `avg_sentence_length` before rounding. Since delimiters are never word
      characters, the numerator is exactly the number of words of the text. */
  function AverageSentenceLength(text: string): (r: Ratio)
    ensures r.sentences == |SentenceLengths(text)|
    ensures r.sentences == |Retained(Fragments(text))|
    ensures r.sentences <= |Fragments(text)|
    ensures r.wordSum == |Words(text)|
    ensures r.sentences == 0 ==> r.wordSum == 0
  {
    var lengths := SentenceLengths(text);
    SumOfSentenceLengths(text);
    Ratio(Sum(lengths), |lengths|)
  }

  /** Sum of the token counts of all fragments, blank or not. */
  function TokenSum(fs: seq<string>): nat {
    if fs == [] then 0 else |Tokens(fs[0])| + TokenSum(fs[1..])
  }

  /** Dropping blank fragments loses no words. */
  lemma {:induction false} LengthsSum(fs: seq<string>)
    ensures Sum(Lengths(fs)) == TokenSum(fs)
  {
    if fs != [] {
      LengthsSum(fs[1..]);
      var head := if IsBlank(fs[0]) then [] else [|Tokens(fs[0])|];
      SumAppend(head, Lengths(fs[1..]));
      if IsBlank(fs[0]) {
        forall i | 0 <= i < |fs[0]| ensures !IsWordChar(fs[0][i]) {
          assert IsSpace(fs[0][i]);
        }
        NoWordCharsNoTokens(fs[0]);
      }
    }
  }

  lemma {:induction false} SumAppend(a: seq<nat>, b: seq<nat>)
    ensures Sum(a + b) == Sum(a) + Sum(b)
  {
    if a != [] {
      assert (a + b)[1..] == a[1..] + b;
      SumAppend(a[1..], b);
    } else {
      assert a + b == b;
    }
  }

  /** Splitting on delimiters neither creates nor loses tokens. */
  lemma {:induction false} FragmentTokens(s: string)
    ensures TokenSum(Fragments(s)) == |Tokens(s)|
    decreases |s|
  {
    if s != [] {
      FragmentTokens(s[1..]);
      if IsDelimiter(s[0]) {
        DelimiterTokens(s);
      } else {
        NonDelimiterTokens(s);
      }
    }
  }

  /** Inductive step of FragmentTokens for a leading delimiter. */
  lemma DelimiterTokens(s: string)
    requires s != [] && IsDelimiter(s[0])
    requires TokenSum(Fragments(s[1..])) == |Tokens(s[1..])|
    ensures TokenSum(Fragments(s)) == |Tokens(s)|
  {
    assert [s[0]] + s[1..] == s;
    TokensSkip(s[0], s[1..]);
    if !(|s| > 1 && IsDelimiter(s[1])) {
      var fs := [[]] + Fragments(s[1..]);
      assert fs[1..] == Fragments(s[1..]);
      assert Tokens([]) == [];
    }
  }

  /** Inductive step of FragmentTokens for a leading non-delimiter, which
      joins the first fragment. */
  lemma NonDelimiterTokens(s: string)
    requires s != [] && !IsDelimiter(s[0])
    requires TokenSum(Fragments(s[1..])) == |Tokens(s[1..])|
    ensures TokenSum(Fragments(s)) == |Tokens(s)|
  {
    var c, t := s[0], s[1..];
    var rest := Fragments(t);
    JoinedFirstFragment(s);
    TokenSumCons([c] + rest[0], rest[1..]);
    TokenSumCons(rest[0], rest[1..]);
    assert [rest[0]] + rest[1..] == rest;
    FirstFragmentGain(s);
  }

  /** A leading non-delimiter is glued onto the first fragment of the rest. */
  lemma JoinedFirstFragment(s: string)
    requires s != [] && !IsDelimiter(s[0])
    ensures Fragments(s) == [[s[0]] + Fragments(s[1..])[0]] + Fragments(s[1..])[1..]
  {
  }

  lemma TokenSumCons(f: string, fs: seq<string>)
    ensures TokenSum([f] + fs) == |Tokens(f)| + TokenSum(fs)
  {
    assert ([f] + fs)[1..] == fs;
  }

  /** Gluing s[0] onto the first fragment gains as many tokens as gluing it
      onto the whole rest of the text. */
  lemma FirstFragmentGain(s: string)
    requires s != []
    ensures |Tokens([s[0]] + Fragments(s[1..])[0])| - |Tokens(Fragments(s[1..])[0])| ==
            |Tokens(s)| - |Tokens(s[1..])|
  {
    var c, t := s[0], s[1..];
    var f := Fragments(t)[0];
    assert [c] + t == s;
    if f != [] {
      assert f[0] == t[0];
    }
    SameTokenGain(c, f, t);
  }

  /** Prepending c changes the token count of f and of t alike when f and
      t agree on whether they start with a word character. */
  lemma SameTokenGain(c: char, f: string, t: string)
    requires (f != [] && IsWordChar(f[0])) <==> (t != [] && IsWordChar(t[0]))
    ensures |Tokens([c] + f)| - |Tokens(f)| == |Tokens([c] + t)| - |Tokens(t)|
  {
    if IsWordChar(c) {
      TokensConsCount(c, f);
      TokensConsCount(c, t);
    } else {
      TokensSkip(c, f);
      TokensSkip(c, t);
    }
  }

  /** The word counts of the retained sentences add up to the total word count. */
  lemma SumOfSentenceLengths(text: string)
    ensures Sum(SentenceLengths(text)) == |Words(text)|
  {
    LengthsSum(Fragments(text));
    FragmentTokens(text);
    TokensOfLower(text);
  }
}

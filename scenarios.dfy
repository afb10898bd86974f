/** Concrete analyses: the behaviour of the handler on three sample texts. */
module Scenarios {
  import opened Levels
  import opened Tokenizer
  import opened Sentences
  import opened Vocabulary
  import opened Dominance
  import opened Phrases
  import opened Analysis

  /** A phrase whose first two characters never occur side by side in s
      does not occur in s. */
  lemma {:induction false} NoOccurrence(s: string, p: string)
    requires |p| >= 2
    requires forall i :: 0 <= i < |s| - 1 ==> !(s[i] == p[0] && s[i + 1] == p[1])
    ensures !Contains(s, p)
  {
    if Contains(s, p) {
      var i :| OccursAt(s, p, i);
      OccursAtStart(s, p, i);
    }
  }

  lemma OccursAtStart(s: string, p: string, i: int)
    requires |p| >= 2 && OccursAt(s, p, i)
    ensures s[i] == p[0] && s[i + 1] == p[1]
  {
    assert s[i..i + |p|][0] == s[i] && s[i..i + |p|][1] == s[i + 1];
  }

  /** Phrase matching is case-insensitive: "look after" is found in
      "I need to look after my dog", and no other listed phrase is. */
  lemma {:induction false} LookAfterIsFound(text: string)
    requires text == "I need to look after my dog"
    ensures FoundPhrases(PhrasalVerbs, text) == ["look after"]
  {
    var t := Lower(text);
    assert t == "i need to look after my dog";
    OnlyLookAfter(t);
  }

  lemma {:induction false} OnlyLookAfter(t: string)
    requires t == "i need to look after my dog"
    ensures Matching(PhrasalVerbs, t) == ["look after"]
  {
    var p := "look after";
    assert t[10..20] == p;
    assert OccursAt(t, p, 10);
    OthersAbsent(t);
    ListedOnce();
    OnlyOneMatch(PhrasalVerbs, t, p);
  }

  lemma ListedOnce()
    ensures multiset(PhrasalVerbs)["look after"] == 1
  {
    var ps := PhrasalVerbs;
    assert multiset(ps) == multiset{"give up", "put off", "take off", "come across"} + multiset{"look after"};
  }

  lemma OthersAbsent(t: string)
    requires t == "i need to look after my dog"
    ensures forall q :: q in PhrasalVerbs && q != "look after" ==> !Contains(t, q)
  {
    forall q | q in PhrasalVerbs && q != "look after" ensures !Contains(t, q) {
      Absent(t, q);
    }
  }

  /** The other four phrases do not occur: their first two characters are
      never adjacent in the sample. */
  lemma {:induction false} Absent(t: string, p: string)
    requires t == "i need to look after my dog"
    requires p in ["give up", "put off", "take off", "come across"]
    ensures !Contains(t, p)
  {
    if p == "give up" {
      NoOccurrence(t, "give up");
    } else if p == "put off" {
      NoOccurrence(t, "put off");
    } else if p == "take off" {
      NoOccurrence(t, "take off");
    } else {
      NoOccurrence(t, "come across");
    }
  }

  /** When exactly one listed phrase, listed once, occurs, it alone is found. */
  lemma {:induction false} OnlyOneMatch(ps: seq<string>, t: string, p: string)
    requires multiset(ps)[p] == 1 && Contains(t, p)
    requires forall q :: q in ps && q != p ==> !Contains(t, q)
    ensures Matching(ps, t) == [p]
  {
    var r := Matching(ps, t);
    assert multiset(r) == multiset{p} by {
      forall q ensures multiset(r)[q] == multiset{p}[q] {
        if q !in ps {
          assert multiset(ps)[q] == 0;
        }
      }
    }
    assert |r| == |multiset(r)| == 1;
    assert r[0] in multiset(r);
  }

  /** Three sentences of two words each, the last closed by a delimiter:
      the split also yields an empty last fragment, which is not counted,
      and the average is 6 / 3. */
  lemma {:induction false} TwoWordSentences(text: string, f1: string, f2: string, f3: string,
                                            a1: string, b1: string, a2: string, b2: string,
                                            a3: string, b3: string, d1: char, d2: char, d3: char)
    requires Word(a1) && Word(b1) && Word(a2) && Word(b2) && Word(a3) && Word(b3)
    requires IsDelimiter(d1) && IsDelimiter(d2) && IsDelimiter(d3)
    requires f1 == a1 + [' '] + b1 && f2 == [' '] + a2 + [' '] + b2 && f3 == [' '] + a3 + [' '] + b3
    requires text == f1 + [d1] + f2 + [d2] + f3 + [d3]
    ensures Fragments(text) == [f1, f2, f3, []]
    ensures AverageSentenceLength(text) == Ratio(6, 3)
  {
    ThreeFragments(f1, f2, f3, d1, d2, d3, a1, a2, b1, b2, a3, b3);
    TwoWordFragment(f1, a1, b1, []);
    TwoWordFragment(f2, a2, b2, [' ']);
    TwoWordFragment(f3, a3, b3, [' ']);
    AverageOfThree(text);
  }

  lemma {:induction false} AverageOfThree(text: string)
    requires |Fragments(text)| == 4 && IsBlank(Fragments(text)[3])
    requires forall i :: 0 <= i < 3 ==> !IsBlank(Fragments(text)[i]) && |Tokens(Fragments(text)[i])| == 2
    ensures AverageSentenceLength(text) == Ratio(6, 3)
  {
    ThreeCountedOneBlank(Fragments(text));
    assert SentenceLengths(text) == [2, 2, 2];
    assert Sum([2, 2, 2]) == 6;
  }

  lemma {:induction false} ThreeFragments(f1: string, f2: string, f3: string, d1: char, d2: char, d3: char,
                                          a1: string, a2: string, b1: string, b2: string, a3: string, b3: string)
    requires Word(a1) && Word(b1) && Word(a2) && Word(b2) && Word(a3) && Word(b3)
    requires IsDelimiter(d1) && IsDelimiter(d2) && IsDelimiter(d3)
    requires f1 == a1 + [' '] + b1 && f2 == [' '] + a2 + [' '] + b2 && f3 == [' '] + a3 + [' '] + b3
    ensures Fragments(f1 + [d1] + f2 + [d2] + f3 + [d3]) == [f1, f2, f3, []]
  {
    var e: string := [];
    WordsWithoutDelimiter(a1, b1, []);
    WordsWithoutDelimiter(a2, b2, [' ']);
    WordsWithoutDelimiter(a3, b3, [' ']);
    assert [] + a1 + [' '] + b1 == f1;
    var t3 := f3 + [d3] + e;
    var t2 := f2 + [d2] + t3;
    var text := f1 + [d1] + t2;
    assert text == f1 + [d1] + f2 + [d2] + f3 + [d3];
    SplitFirst(f3, d3, e);
    assert Fragments(e) == [e];
    SplitFirst(f2, d2, t3);
    SplitFirst(f1, d1, t2);
  }

  /** The sample "Cats run. Dogs jump! Birds fly?": three sentences,
      average 6 / 3 = 2. */
  lemma {:induction false} CatsRunDogsJump(text: string)
    requires text == "Cats run. Dogs jump! Birds fly?"
    ensures |SentenceLengths(text)| == 3
    ensures AverageSentenceLength(text) == Ratio(6, 3)
  {
    var a1, b1, a2, b2, a3, b3 := "Cats", "run", "Dogs", "jump", "Birds", "fly";
    assert Word(a1) && Word(b1) && Word(a2) && Word(b2) && Word(a3) && Word(b3);
    var f1, f2, f3 := a1 + [' '] + b1, [' '] + a2 + [' '] + b2, [' '] + a3 + [' '] + b3;
    SampleSentences(text, f1, f2, f3);
    TwoWordSentences(text, f1, f2, f3, a1, b1, a2, b2, a3, b3, '.', '!', '?');
  }

  lemma SampleSentences(text: string, f1: string, f2: string, f3: string)
    requires text == "Cats run. Dogs jump! Birds fly?"
    requires f1 == "Cats" + [' '] + "run" && f2 == [' '] + "Dogs" + [' '] + "jump"
    requires f3 == [' '] + "Birds" + [' '] + "fly"
    ensures text == f1 + ['.'] + f2 + ['!'] + f3 + ['?']
  {
    var whole := f1 + ['.'] + f2 + ['!'] + f3 + ['?'];
    assert |whole| == |text|;
    assert forall i :: 0 <= i < |text| ==> whole[i] == text[i];
  }

  ghost predicate Word(w: string) {
    w != [] && AllWordChars(w)
  }

  lemma {:induction false} WordsWithoutDelimiter(a: string, b: string, lead: string)
    requires Word(a) && Word(b) && (lead == [] || lead == [' '])
    ensures NoDelimiter(lead + a + [' '] + b)
  {
    var f := lead + a + [' '] + b;
    forall i | 0 <= i < |f| ensures !IsDelimiter(f[i]) {
      if i < |lead| {
      } else if i < |lead| + |a| {
        assert f[i] == a[i - |lead|];
      } else if i > |lead| + |a| {
        assert f[i] == b[i - |lead| - |a| - 1];
      }
    }
  }

  /** Optional leading space, then two words: two tokens, not blank. */
  lemma {:induction false} TwoWordFragment(f: string, a: string, b: string, lead: string)
    requires Word(a) && Word(b) && (lead == [] || lead == [' '])
    requires f == lead + a + [' '] + b
    ensures |Tokens(f)| == 2 && !IsBlank(f)
  {
    var g := a + [' '] + b;
    TokensOfWordThen(a, ' ', b);
    TokensOfWord(b);
    if lead != [] {
      assert f == [' '] + g;
      TokensSkip(' ', g);
    } else {
      assert f == g;
    }
    assert f[|lead|] == a[0] && !IsSpace(a[0]);
  }

  lemma {:induction false} ThreeCountedOneBlank(fs: seq<string>)
    requires |fs| == 4 && IsBlank(fs[3])
    requires forall i :: 0 <= i < 3 ==> !IsBlank(fs[i]) && |Tokens(fs[i])| == 2
    ensures Lengths(fs) == [2, 2, 2]
  {
    var g2, g3, g4 := fs[1..], fs[2..], fs[3..];
    assert g2[1..] == g3 && g3[1..] == g4 && g4[1..] == [];
    assert g4[0] == fs[3] && g3[0] == fs[2] && g2[0] == fs[1];
    assert Lengths(g4) == [];
    assert Lengths(g3) == [2];
    assert Lengths(g2) == [2, 2];
  }

  /** With "cat" and "dog" listed at A1 only, "the cat and the dog" counts
      two A1 words (the other three words are in no list) and is rated A1. */
  lemma {:induction false} CatAndDog(vocab: Vocab, text: string)
    requires vocab == map[A1 := {"cat", "dog"}]
    requires text == "the cat and the dog"
    ensures ReportOf(vocab, text).vocabLevels == map[A1 := 2, A2 := 0, B1 := 0, B2 := 0, C1 := 0, C2 := 0]
    ensures ReportOf(vocab, text).cefrLevel == Dominant(A1)
  {
    var ws := ["the", "cat", "and", "the", "dog"];
    SampleWords(text, ws);
    SampleTally(vocab, ws);
    EarliestMaximumIsChosen(Tally(vocab, ws), |ws|, A1);
  }

  lemma {:induction false} SampleWords(text: string, ws: seq<string>)
    requires text == "the cat and the dog"
    requires ws == ["the", "cat", "and", "the", "dog"]
    ensures Words(text) == ws
  {
    assert forall i :: 0 <= i < |text| ==> !IsUpper(text[i]);
    assert Lower(text) == text;
    var w1, w2, w3, w4, w5 := "the", "cat", "and", "the", "dog";
    assert Word(w1) && Word(w2) && Word(w3) && Word(w5);
    var whole := w1 + [' '] + (w2 + [' '] + (w3 + [' '] + (w4 + [' '] + w5)));
    assert |whole| == |text|;
    assert forall i :: 0 <= i < |text| ==> whole[i] == text[i];
    assert whole == text;
    FiveWords(w1, w2, w3, w4, w5);
  }

  /** Five words separated by single spaces are the five tokens. */
  lemma {:induction false} FiveWords(w1: string, w2: string, w3: string, w4: string, w5: string)
    requires Word(w1) && Word(w2) && Word(w3) && Word(w4) && Word(w5)
    ensures Tokens(w1 + [' '] + (w2 + [' '] + (w3 + [' '] + (w4 + [' '] + w5)))) == [w1, w2, w3, w4, w5]
  {
    TokensOfWord(w5);
    ConsToken(w4, w5, [w5]);
    ConsToken(w3, w4 + [' '] + w5, [w4, w5]);
    ConsToken(w2, w3 + [' '] + (w4 + [' '] + w5), [w3, w4, w5]);
    ConsToken(w1, w2 + [' '] + (w3 + [' '] + (w4 + [' '] + w5)), [w2, w3, w4, w5]);
  }

  lemma ConsToken(w: string, rest: string, t: seq<string>)
    requires Word(w) && Tokens(rest) == t
    ensures Tokens(w + [' '] + rest) == [w] + t
  {
    TokensOfWordThen(w, ' ', rest);
  }

  lemma {:induction false} SampleTally(vocab: Vocab, ws: seq<string>)
    requires vocab == map[A1 := {"cat", "dog"}]
    requires ws == ["the", "cat", "and", "the", "dog"]
    ensures Tally(vocab, ws) == map[A1 := 2, A2 := 0, B1 := 0, B2 := 0, C1 := 0, C2 := 0]
  {
    SampleClassify(vocab);
    var zero := map[A1 := 0, A2 := 0, B1 := 0, B2 := 0, C1 := 0, C2 := 0];
    var one := zero[A1 := 1];
    assert Tally(vocab, ws[..1]) == zero by {
      assert Tally(vocab, []) == zero;
      TallyStep(vocab, [], "the");
      assert [] + ["the"] == ws[..1];
    }
    assert Tally(vocab, ws[..2]) == one by {
      TallyStep(vocab, ws[..1], "cat");
      assert ws[..1] + ["cat"] == ws[..2];
    }
    assert Tally(vocab, ws[..4]) == one by {
      TallyStep(vocab, ws[..2], "and");
      assert ws[..2] + ["and"] == ws[..3];
      TallyStep(vocab, ws[..3], "the");
      assert ws[..3] + ["the"] == ws[..4];
    }
    TallyStep(vocab, ws[..4], "dog");
    assert ws[..4] + ["dog"] == ws;
  }

  /** "cat" and "dog" are A1 words, "the" and "and" are in no list. */
  lemma SampleClassify(vocab: Vocab)
    requires vocab == map[A1 := {"cat", "dog"}]
    ensures Classify(vocab, "the") == None && Classify(vocab, "and") == None
    ensures Classify(vocab, "cat") == Some(A1) && Classify(vocab, "dog") == Some(A1)
  {
    ClassifyIsFirstMatch(vocab, "the", A1);
    ClassifyIsFirstMatch(vocab, "and", A1);
    ClassifyIsFirstMatch(vocab, "cat", A1);
    ClassifyIsFirstMatch(vocab, "dog", A1);
  }
}

/** The `analyze` request handler: the whole analysis of one text against
    a fixed vocabulary table, without the HTTP layer and without the two
    Flesch readability scores. */
module Analysis {
  import opened Levels
  import opened Tokenizer
  import opened Sentences
  import opened Vocabulary
  import opened Dominance
  import opened Phrases

  /** The analysis result (the JSON response minus the Flesch scores). */
  datatype Report = Report(
    cefrLevel: Estimate,
    vocabLevels: map<Level, nat>,
    avgSentenceLength: Ratio,
    difficultPhrases: seq<string>)

  /** What the analysis of `text` is, stage by stage. */
  function ReportOf(vocab: Vocab, text: string): (r: Report)
    ensures r.vocabLevels.Keys == AllLevels && forall l :: l in r.vocabLevels
    ensures Total(r.vocabLevels) <= |Words(text)|
    ensures r.avgSentenceLength.wordSum == |Words(text)|
    ensures r.cefrLevel.Unknown? <==> |Words(text)| == 0
    ensures forall p :: p in r.difficultPhrases <==>
      p in PhrasalVerbs && exists i :: OccursAt(Lower(text), p, i)
  {
    TallyTotal(vocab, Words(text));
    var counts := Tally(vocab, Words(text));
    Report(
      DominantLevel(counts, |Words(text)|),
      counts,
      AverageSentenceLength(text),
      FoundPhrases(PhrasalVerbs, text))
  }

  method Analyze(vocab: Vocab, text: string) returns (r: Report)
    ensures r == ReportOf(vocab, text)
    ensures r.vocabLevels.Keys == AllLevels
    ensures Total(r.vocabLevels) <= |Words(text)|
    ensures r.avgSentenceLength.wordSum == |Words(text)|
    ensures r.cefrLevel.Unknown? <==> |Words(text)| == 0
  {
    var words := Words(text);
    var totalWords := |words|;
    var avg := AverageSentenceLength(text);
    var counts := CountLevels(vocab, words);
    var level := DominantLevel(counts, totalWords);
    var found := FoundPhrases(PhrasalVerbs, text);
    r := Report(level, counts, avg, found);
    TallyTotal(vocab, words);
  }

  /** An empty text: level "Unknown", every count 0, average 0, no phrase. */
  lemma EmptyTextReport(vocab: Vocab)
    ensures ReportOf(vocab, "") ==
      Report(Unknown, map l | l in AllLevels :: 0, Ratio(0, 0), [])
  {
    var counts := Tally(vocab, Words(""));
    assert Words("") == [];
    assert counts == map l | l in AllLevels :: 0;
    assert FoundPhrases(PhrasalVerbs, "") == [] by {
      var t := Lower("");
      assert t == [];
      assert forall p :: p in PhrasalVerbs ==> !Contains(t, p);
      assert Matching(PhrasalVerbs, t) == [] by {
        NothingMatches(PhrasalVerbs, t);
      }
    }
  }

  /** A text with words none of which is listed at any level is rated A1:
      all six counts tie at 0 and A1 comes first. */
  lemma UnlistedWordsGiveA1(vocab: Vocab, text: string)
    requires Words(text) != []
    requires forall i :: 0 <= i < |Words(text)| ==> forall m :: Words(text)[i] !in WordsAt(vocab, m)
    ensures ReportOf(vocab, text).cefrLevel == Dominant(A1)
  {
    var ws := Words(text);
    AllUnmatched(vocab, ws);
    TallyTotal(vocab, ws);
    var counts := Tally(vocab, ws);
    forall m ensures counts[m] == 0 {
      assert m.A1? || m.A2? || m.B1? || m.B2? || m.C1? || m.C2?;
    }
    NoMatchIsA1(counts, |ws|);
  }

  /** A list none of whose phrases occurs yields no phrase. */
  lemma {:induction false} NothingMatches(ps: seq<string>, t: string)
    requires forall p :: p in ps ==> !Contains(t, p)
    ensures Matching(ps, t) == []
  {
    if ps != [] {
      assert ps[0] in ps;
      NothingMatches(ps[1..], t);
    }
  }
}

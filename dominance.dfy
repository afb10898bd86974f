/** The dominant level (`dominant_level`): "Unknown" for a text without
    words, otherwise the first level in A1..C2 order with the largest count. */
module Dominance {
  import opened Levels

  datatype Estimate = Unknown | Dominant(level: Level)

  /** The `cefr_level` string of the result. */
  function Label(e: Estimate): (s: string)
    ensures s == "Unknown" <==> e.Unknown?
    ensures e.Dominant? ==> s == Names[Rank(e.level)]
  {
    match e
    case Unknown => "Unknown"
    case Dominant(l) => Name(l)
  }

  /** The label determines the estimate: different estimates are reported
      under different strings. */
  lemma LabelInjective(e1: Estimate, e2: Estimate)
    ensures Label(e1) == Label(e2) ==> e1 == e2
  {
    if e1.Dominant? && e2.Dominant? {
      NameInjective(e1.level, e2.level);
    }
  }

  /** The counts listed in level order, as `level_counts.items()` yields them. */
  function InOrder(counts: map<Level, nat>): (xs: seq<nat>)
    requires forall l :: l in counts
    ensures |xs| == |Order|
    ensures forall k :: 0 <= k < |Order| ==> xs[k] == counts[Order[k]]
  {
    [counts[A1], counts[A2], counts[B1], counts[B2], counts[C1], counts[C2]]
  }

  /** Python's `max` with a key: the scan moves to a later item only when
      its key is strictly greater, so the first maximal item is returned. */
  function FirstMaxIndex(xs: seq<nat>): (k: nat)
    requires xs != []
    ensures k < |xs|
    ensures forall j :: 0 <= j < |xs| ==> xs[j] <= xs[k]
    ensures forall j :: 0 <= j < k ==> xs[j] < xs[k]
  {
    if |xs| == 1 then 0
    else
      var best := FirstMaxIndex(xs[..|xs| - 1]);
      if xs[|xs| - 1] > xs[best] then |xs| - 1 else best
  }

  /** `max(level_counts.items(), key=...)[0] if total_words else "Unknown"`. */
  function DominantLevel(counts: map<Level, nat>, totalWords: nat): (e: Estimate)
    requires forall l :: l in counts
    ensures e.Unknown? <==> totalWords == 0
    ensures e.Dominant? ==> forall m :: counts[m] <= counts[e.level]
    ensures e.Dominant? ==> forall m :: Rank(m) < Rank(e.level) ==> counts[m] < counts[e.level]
  {
    if totalWords == 0 then Unknown
    else
      var k := FirstMaxIndex(InOrder(counts));
      OrderIsPermutation();
      assert forall m :: counts[m] == InOrder(counts)[Rank(m)];
      Dominant(Order[k])
  }

  /** The converse: the earliest level with a maximal count is the one chosen. */
  lemma EarliestMaximumIsChosen(counts: map<Level, nat>, totalWords: nat, l: Level)
    requires (forall m :: m in counts) && totalWords > 0
    requires forall m :: counts[m] <= counts[l]
    requires forall m :: Rank(m) < Rank(l) ==> counts[m] < counts[l]
    ensures DominantLevel(counts, totalWords) == Dominant(l)
  {
    OrderIsPermutation();
  }

  /** A text with words none of which is listed at any level is rated A1:
      all six counts tie at 0 and A1 comes first. */
  lemma NoMatchIsA1(counts: map<Level, nat>, totalWords: nat)
    requires (forall m :: m in counts) && totalWords > 0
    requires forall m :: counts[m] == 0
    ensures DominantLevel(counts, totalWords) == Dominant(A1)
  {
    EarliestMaximumIsChosen(counts, totalWords, A1);
  }
}

/** Classification of words by the per-level word sets, and the per-level
    counts (`level_counts`). */
module Vocabulary {
  import opened Levels

  datatype Option<T> = None | Some(value: T)

  /** The word set of each level. A level whose word list could not be
      loaded has an empty set; a level absent from the map is treated the
      same way. */
  type Vocab = map<Level, set<string>>

  function WordsAt(vocab: Vocab, l: Level): set<string> {
    if l in vocab then vocab[l] else {}
  }

  /** Index of the first level of `order` whose set contains w, or |order|. */
  function FirstMatch(vocab: Vocab, w: string, order: seq<Level>): (k: nat)
    ensures k <= |order|
    ensures forall j :: 0 <= j < k ==> w !in WordsAt(vocab, order[j])
    ensures k < |order| ==> w in WordsAt(vocab, order[k])
  {
    if order == [] then 0
    else if w in WordsAt(vocab, order[0]) then 0
    else 1 + FirstMatch(vocab, w, order[1..])
  }

  /** The level a word is counted for: the first level in A1..C2 order whose
      set contains it, or none. */
  function Classify(vocab: Vocab, w: string): (r: Option<Level>)
    ensures r.Some? ==> (w in WordsAt(vocab, r.value) &&
                         forall m :: Rank(m) < Rank(r.value) ==> w !in WordsAt(vocab, m))
    ensures r.None? <==> forall m :: w !in WordsAt(vocab, m)
  {
    var k := FirstMatch(vocab, w, Order);
    OrderIsPermutation();
    if k < |Order| then Some(Order[k])
    else
      InNoLevel(vocab, w);
      None
  }

  /** A word that no level in Order matches is in no level's set. */
  lemma InNoLevel(vocab: Vocab, w: string)
    requires FirstMatch(vocab, w, Order) == |Order|
    ensures forall m :: w !in WordsAt(vocab, m)
  {
    forall m ensures w !in WordsAt(vocab, m) {
      assert Order[Rank(m)] == m;
      assert Rank(m) < FirstMatch(vocab, w, Order);
    }
  }

  /** First match wins: a word is counted for l exactly when l's set holds
      it and no earlier level's set does; it is counted for no level exactly
      when no set holds it. */
  lemma ClassifyIsFirstMatch(vocab: Vocab, w: string, l: Level)
    ensures Classify(vocab, w) == Some(l) <==>
      w in WordsAt(vocab, l) && forall m :: Rank(m) < Rank(l) ==> w !in WordsAt(vocab, m)
    ensures Classify(vocab, w) == None <==> forall m :: w !in WordsAt(vocab, m)
  {
    OrderIsPermutation();
    var k := FirstMatch(vocab, w, Order);
    if w in WordsAt(vocab, l) && forall m :: Rank(m) < Rank(l) ==> w !in WordsAt(vocab, m) {
      FirstMatchAt(vocab, w, Order, Rank(l));
    }
    if forall m :: w !in WordsAt(vocab, m) {
    } else {
      var m :| w in WordsAt(vocab, m);
      assert Order[Rank(m)] == m;
    }
  }

  /** Number of words of ws counted for level l. */
  function CountOf(vocab: Vocab, ws: seq<string>, l: Level): nat {
    if ws == [] then 0
    else CountOf(vocab, ws[..|ws| - 1], l) + (if Classify(vocab, ws[|ws| - 1]) == Some(l) then 1 else 0)
  }

  /** Number of words of ws counted for no level. */
  function Unmatched(vocab: Vocab, ws: seq<string>): nat {
    if ws == [] then 0
    else Unmatched(vocab, ws[..|ws| - 1]) + (if Classify(vocab, ws[|ws| - 1]) == None then 1 else 0)
  }

  /** The per-level counts of a word sequence, one entry per level. */
  function Tally(vocab: Vocab, ws: seq<string>): (r: map<Level, nat>)
    ensures r.Keys == AllLevels && forall l :: l in r
  {
    OrderIsPermutation();
    map l | l in AllLevels :: CountOf(vocab, ws, l)
  }

  /** Sum of the six counts. */
  function Total(counts: map<Level, nat>): nat
    requires forall l :: l in counts
  {
    counts[A1] + counts[A2] + counts[B1] + counts[B2] + counts[C1] + counts[C2]
  }

  /** `level_counts`: the nested loop of the source, the inner loop leaving
      at the first level whose set contains the word. */
  method CountLevels(vocab: Vocab, words: seq<string>) returns (counts: map<Level, nat>)
    ensures counts.Keys == AllLevels
    ensures counts == Tally(vocab, words)
  {
    counts := map l | l in AllLevels :: 0;
    for i := 0 to |words|
      invariant counts == Tally(vocab, words[..i])
    {
      var word := words[i];
      assert words[..i + 1][..i] == words[..i];
      var j := 0;
      while j < |Order|
        invariant 0 <= j <= |Order|
        invariant forall k :: 0 <= k < j ==> word !in WordsAt(vocab, Order[k])
        invariant counts == Tally(vocab, words[..i])
      {
        var level := Order[j];
        if word in WordsAt(vocab, level) {
          assert FirstMatch(vocab, word, Order) == j by {
            FirstMatchAt(vocab, word, Order, j);
          }
          TallyStep(vocab, words[..i], word);
          assert words[..i] + [word] == words[..i + 1];
          counts := counts[level := counts[level] + 1];
          break;
        }
        j := j + 1;
      }
      if j == |Order| {
        assert FirstMatch(vocab, word, Order) == |Order| by {
          FirstMatchAt(vocab, word, Order, j);
        }
        TallyStep(vocab, words[..i], word);
        assert words[..i] + [word] == words[..i + 1];
      }
    }
    assert words[..|words|] == words;
  }

  /** FirstMatch is pinned down by its contract. */
  lemma {:induction false} FirstMatchAt(vocab: Vocab, w: string, order: seq<Level>, j: nat)
    requires j <= |order|
    requires forall k :: 0 <= k < j ==> w !in WordsAt(vocab, order[k])
    requires j < |order| ==> w in WordsAt(vocab, order[j])
    ensures FirstMatch(vocab, w, order) == j
  {
  }

  /** One more word adds 1 to the count of its level, and to no other;
      a word in no set changes no count. */
  lemma TallyStep(vocab: Vocab, ws: seq<string>, w: string)
    ensures Classify(vocab, w).None? ==> Tally(vocab, ws + [w]) == Tally(vocab, ws)
    ensures Classify(vocab, w).Some? ==>
      var l := Classify(vocab, w).value;
      Tally(vocab, ws + [w]) == Tally(vocab, ws)[l := Tally(vocab, ws)[l] + 1]
  {
    var ws' := ws + [w];
    assert ws'[..|ws'| - 1] == ws;
  }

  /** Every word is counted at most once: the six counts and the unmatched
      words together account for all words. Hence the counts never add up
      to more than `total_words`. */
  lemma {:induction false} TallyTotal(vocab: Vocab, ws: seq<string>)
    ensures Total(Tally(vocab, ws)) + Unmatched(vocab, ws) == |ws|
    ensures Total(Tally(vocab, ws)) <= |ws|
  {
    if ws != [] {
      var init := ws[..|ws| - 1];
      var w := ws[|ws| - 1];
      assert init + [w] == ws;
      TallyTotal(vocab, init);
      TallyStep(vocab, init, w);
    }
  }

  /** Words that are in no set are all unmatched. */
  lemma {:induction false} AllUnmatched(vocab: Vocab, ws: seq<string>)
    requires forall i :: 0 <= i < |ws| ==> forall m :: ws[i] !in WordsAt(vocab, m)
    ensures Unmatched(vocab, ws) == |ws|
  {
    if ws != [] {
      var init := ws[..|ws| - 1];
      assert forall i :: 0 <= i < |init| ==> init[i] == ws[i];
      AllUnmatched(vocab, init);
      assert forall m :: ws[|ws| - 1] !in WordsAt(vocab, m);
    }
  }

  /** Counting is additive over concatenation. */
  lemma {:induction false} CountOfAppend(vocab: Vocab, a: seq<string>, b: seq<string>, l: Level)
    ensures CountOf(vocab, a + b, l) == CountOf(vocab, a, l) + CountOf(vocab, b, l)
    decreases |b|
  {
    if b == [] {
      assert a + b == a;
    } else {
      var b' := b[..|b| - 1];
      assert (a + b)[..|a + b| - 1] == a + b';
      CountOfAppend(vocab, a, b', l);
    }
  }

  /** Order independence: the counts depend only on the multiset of words. */
  lemma {:induction false} TallyPermutation(vocab: Vocab, a: seq<string>, b: seq<string>)
    requires multiset(a) == multiset(b)
    ensures Tally(vocab, a) == Tally(vocab, b)
  {
    forall l | l in AllLevels ensures CountOf(vocab, a, l) == CountOf(vocab, b, l) {
      CountPermutation(vocab, a, b, l);
    }
  }

  lemma {:induction false} CountPermutation(vocab: Vocab, a: seq<string>, b: seq<string>, l: Level)
    requires multiset(a) == multiset(b)
    ensures CountOf(vocab, a, l) == CountOf(vocab, b, l)
    decreases |a|
  {
    if a == [] {
      assert |b| == |multiset(b)| == 0;
    } else {
      var a' := a[..|a| - 1];
      var x := a[|a| - 1];
      assert a == a' + [x];
      assert x in multiset(b);
      var i :| 0 <= i < |b| && b[i] == x;
      var b1, b2 := b[..i], b[i + 1..];
      assert b == b1 + [x] + b2;
      RemoveOne(a', x, b1, b2);
      CountPermutation(vocab, a', b1 + b2, l);
      CountOfInsert(vocab, b1, x, b2, l);
      CountOfAppend(vocab, a', [x], l);
    }
  }

  /** Removing one occurrence of x from both sides keeps them equal as multisets. */
  lemma RemoveOne(a': seq<string>, x: string, b1: seq<string>, b2: seq<string>)
    requires multiset(a' + [x]) == multiset(b1 + [x] + b2)
    ensures multiset(a') == multiset(b1 + b2)
  {
    assert multiset(a' + [x]) == multiset(a') + multiset{x};
    assert multiset(a') == multiset(a' + [x]) - multiset{x};
    assert multiset(b1 + [x] + b2) == multiset(b1) + multiset{x} + multiset(b2);
    assert multiset(b1 + b2) == multiset(b1) + multiset(b2);
    assert multiset(b1 + b2) == multiset(b1 + [x] + b2) - multiset{x};
  }

  /** A word inserted anywhere adds its own contribution to a count. */
  lemma CountOfInsert(vocab: Vocab, b1: seq<string>, x: string, b2: seq<string>, l: Level)
    ensures CountOf(vocab, b1 + [x] + b2, l) == CountOf(vocab, b1 + b2, l) + CountOf(vocab, [x], l)
  {
    CountOfAppend(vocab, b1, b2, l);
    CountOfAppend(vocab, b1 + [x], b2, l);
    CountOfAppend(vocab, b1, [x], l);
  }
}

/** The phrase filter (`found_phrases`): the listed phrases that occur
    anywhere in the lowercased text, as plain substrings. */
module Phrases {
  import opened Tokenizer

  /** The fixed list of idioms and phrasal verbs, in its original order. */
  const PhrasalVerbs: seq<string> := ["give up", "look after", "put off", "take off", "come across"]

  ghost predicate OccursAt(s: string, p: string, i: int) {
    0 <= i && i + |p| <= |s| && s[i..i + |p|] == p
  }

  /** Python's `p in s` on strings: plain substring containment, no
      word-boundary check. It holds exactly when p occurs at some position. */
  function Contains(s: string, p: string): (b: bool)
    ensures b <==> exists i :: OccursAt(s, p, i)
    decreases |s|
  {
    if |p| > |s| then false
    else if s[..|p|] == p then
      assert OccursAt(s, p, 0);
      true
    else
      var b := Contains(s[1..], p);
      ShiftOccurrence(s, p);
      b
  }

  /** When p does not occur at the start of s, its occurrences in s are
      those in s[1..], shifted by one. */
  lemma ShiftOccurrence(s: string, p: string)
    requires |p| <= |s| && s[..|p|] != p
    ensures (exists i :: OccursAt(s, p, i)) <==> (exists i :: OccursAt(s[1..], p, i))
  {
    if exists i :: OccursAt(s[1..], p, i) {
      var i :| OccursAt(s[1..], p, i);
      assert s[i + 1..i + 1 + |p|] == s[1..][i..i + |p|];
      assert OccursAt(s, p, i + 1);
    }
    if exists i :: OccursAt(s, p, i) {
      var i :| OccursAt(s, p, i);
      assert i != 0;
      assert s[1..][i - 1..i - 1 + |p|] == s[i..i + |p|];
      assert OccursAt(s[1..], p, i - 1);
    }
  }

  /** Every listed phrase is in lower case and nonempty, so it can match the lowercased
      text, and no phrase is listed twice. */
  lemma PhraseListWellFormed()
    ensures forall i :: 0 <= i < |PhrasalVerbs| ==> PhrasalVerbs[i] != []
    ensures forall i, j :: 0 <= i < |PhrasalVerbs| && 0 <= j < |PhrasalVerbs[i]| ==> !IsUpper(PhrasalVerbs[i][j])
    ensures forall i, j :: 0 <= i < j < |PhrasalVerbs| ==> PhrasalVerbs[i] != PhrasalVerbs[j]
  {
  }

  ghost predicate IsSubsequence<T>(a: seq<T>, b: seq<T>)
    decreases |b|
  {
    if a == [] then true
    else if b == [] then false
    else (a[0] == b[0] && IsSubsequence(a[1..], b[1..])) || IsSubsequence(a, b[1..])
  }

  /** The phrases of ps contained in t, keeping their order. The result is a
      subsequence of ps holding every contained phrase as often as ps does
      and no other phrase: that determines it. */
  function Matching(ps: seq<string>, t: string): (r: seq<string>)
    ensures IsSubsequence(r, ps)
    ensures forall p :: multiset(r)[p] == if Contains(t, p) then multiset(ps)[p] else 0
    ensures forall i :: 0 <= i < |r| ==> Contains(t, r[i])
  {
    if ps == [] then []
    else
      var rest := Matching(ps[1..], t);
      assert ps == [ps[0]] + ps[1..];
      if Contains(t, ps[0]) then
        var r := [ps[0]] + rest;
        assert r[1..] == rest;
        r
      else
        SubsequenceOfTail(rest, ps);
        rest
  }

  lemma SubsequenceOfTail<T>(a: seq<T>, b: seq<T>)
    requires b != [] && IsSubsequence(a, b[1..])
    ensures IsSubsequence(a, b)
  {
  }

  /** `found_phrases`: the phrases of the list found in `text.lower()`, in
      list order. A phrase is reported exactly when it is listed and occurs
      somewhere in the lowercased text. */
  function FoundPhrases(phrases: seq<string>, text: string): (r: seq<string>)
    ensures IsSubsequence(r, phrases)
    ensures forall p :: p in r <==> p in phrases && exists i :: OccursAt(Lower(text), p, i)
  {
    var r := Matching(phrases, Lower(text));
    assert forall p :: p in r <==> multiset(r)[p] > 0;
    assert forall p :: p in phrases <==> multiset(phrases)[p] > 0;
    r
  }
}

/** The six CEFR levels and their fixed precedence order A1 < A2 < ... < C2. */
module Levels {

  datatype Level = A1 | A2 | B1 | B2 | C1 | C2

  /** The canonical order of the levels: the classification and the
      tie-break of the dominant level both scan the levels in this order. */
  const Order: seq<Level> := [A1, A2, B1, B2, C1, C2]

  const AllLevels: set<Level> := {A1, A2, B1, B2, C1, C2}

  /** Position of a level in Order. */
  function Rank(l: Level): (k: nat)
    ensures k < |Order| && Order[k] == l
  {
    match l
    case A1 => 0
    case A2 => 1
    case B1 => 2
    case B2 => 3
    case C1 => 4
    case C2 => 5
  }

  /** The level names, in the order they are listed. */
  const Names: seq<string> := ["A1", "A2", "B1", "B2", "C1", "C2"]

  /** The label the level carries in the analysis result: the name listed
      at the level's position. */
  function Name(l: Level): (s: string)
    ensures s == Names[Rank(l)]
    ensures |s| == 2 && (s[0] == 'A' || s[0] == 'B' || s[0] == 'C')
    ensures s[1] == '1' || s[1] == '2'
  {
    match l
    case A1 => "A1"
    case A2 => "A2"
    case B1 => "B1"
    case B2 => "B2"
    case C1 => "C1"
    case C2 => "C2"
  }

  /** Order lists every level exactly once, so Rank is its inverse. */
  lemma OrderIsPermutation()
    ensures forall l :: l in AllLevels
    ensures forall k :: 0 <= k < |Order| ==> Rank(Order[k]) == k
    ensures forall l, m :: Rank(l) == Rank(m) ==> l == m
  {
    forall l ensures l in AllLevels {
      assert l.A1? || l.A2? || l.B1? || l.B2? || l.C1? || l.C2?;
    }
  }

  /** Distinct levels carry distinct names. */
  lemma NameInjective(l: Level, m: Level)
    ensures Name(l) == Name(m) ==> l == m
  {
    if Name(l) == Name(m) {
      NamesDistinct(Rank(l), Rank(m));
      OrderIsPermutation();
    }
  }

  lemma NamesDistinct(i: nat, j: nat)
    requires i < |Names| && j < |Names| && Names[i] == Names[j]
    ensures i == j
  {
    assert Names[i][0] == Names[j][0] && Names[i][1] == Names[j][1];
  }
}

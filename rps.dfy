/**
 * The rock-paper-scissors rule table shared by both servers
 * (`RPS_RULES = {0: [2], 1: [0], 2: [1]}`), with 0 = Rock, 1 = Paper, 2 = Scissors.
 */
module Rps {

  const Rock := 0
  const Paper := 1
  const Scissors := 2

  /** The choices the table knows about. */
  predicate IsRank(a: int) {
    0 <= a < 3
  }

  /** `RPS_RULES.get(a, [])`: the ranks that `a` beats, empty for an unknown value. */
  function Beaten(a: int): (r: seq<int>)
    ensures IsRank(a) ==> |r| == 1 && IsRank(r[0]) && r[0] != a
    ensures !IsRank(a) ==> r == []
  {
    if a == Rock then [Scissors]
    else if a == Paper then [Rock]
    else if a == Scissors then [Paper]
    else []
  }

  /**
   * The textbook relation, written independently of the table:
   * Rock beats Scissors, Paper beats Rock, Scissors beats Paper.
   */
  predicate Defeats(a: int, b: int) {
    (a == Rock && b == Scissors) || (a == Paper && b == Rock) || (a == Scissors && b == Paper)
  }

  /** The table says exactly what the textbook relation says. */
  lemma BeatenIsDefeats(a: int, b: int)
    ensures b in Beaten(a) <==> Defeats(a, b)
  {
  }

  /** No rank beats itself, and of two distinct ranks exactly one beats the other. */
  lemma DefeatsIsTournament(a: int, b: int)
    requires IsRank(a) && IsRank(b)
    ensures !Defeats(a, a)
    ensures a != b ==> (Defeats(a, b) <==> !Defeats(b, a))
  {
  }

  /** Each rank beats exactly one other rank and is beaten by exactly one. */
  lemma EachRankBeatsExactlyOne(a: int)
    requires IsRank(a)
    ensures |set b | 0 <= b < 3 && Defeats(a, b)| == 1
    ensures |set b | 0 <= b < 3 && Defeats(b, a)| == 1
  {
    if a == Rock {
      assert (set b | 0 <= b < 3 && Defeats(a, b)) == {Scissors};
      assert (set b | 0 <= b < 3 && Defeats(b, a)) == {Paper};
    } else if a == Paper {
      assert (set b | 0 <= b < 3 && Defeats(a, b)) == {Rock};
      assert (set b | 0 <= b < 3 && Defeats(b, a)) == {Scissors};
    } else {
      assert (set b | 0 <= b < 3 && Defeats(a, b)) == {Paper};
      assert (set b | 0 <= b < 3 && Defeats(b, a)) == {Rock};
    }
  }
}

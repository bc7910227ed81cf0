/** Fairness of a 5-vs-5 split. The bot scores a split by how far the
    logistic win probability of team 1 (base 10, scale 400, on the difference
    of the rating sums) lies from one half. That distance grows strictly with
    |sum1 - sum2| alone, so the model keeps the exact integer key
    |sum1 - sum2|: it orders splits the same way and is 0 exactly when the
    probability is one half. */
module Evaluation {
  import opened Players
  import opened Subsets

  /** Two teams and the unfairness of pairing them (0 is perfectly even). */
  datatype TeamCombination = TeamCombination(team1: seq<Player>, team2: seq<Player>, evaluation: nat)

  /** Unfairness key of `team1` against `team2`. */
  function Evaluate(team1: seq<Player>, team2: seq<Player>): (e: nat)
    ensures e == 0 <==> RankSum(team1) == RankSum(team2)
    ensures e >= RankSum(team1) - RankSum(team2) && e >= RankSum(team2) - RankSum(team1)
    ensures e == RankSum(team1) - RankSum(team2) || e == RankSum(team2) - RankSum(team1)
  {
    var d := RankSum(team1) - RankSum(team2);
    if d < 0 then -d else d
  }

  /** Swapping the two teams does not change the score. */
  lemma EvaluateSymmetric(a: seq<Player>, b: seq<Player>)
    ensures Evaluate(a, b) == Evaluate(b, a)
  {
  }

  /** A larger gap between the rating sums never scores as fairer. */
  lemma EvaluateMonotone(a: seq<Player>, b: seq<Player>, c: seq<Player>, d: seq<Player>)
    requires var g1 := RankSum(a) - RankSum(b); var g2 := RankSum(c) - RankSum(d);
      (if g1 < 0 then -g1 else g1) <= (if g2 < 0 then -g2 else g2)
    ensures Evaluate(a, b) <= Evaluate(c, d)
  {
  }

  /** A chosen group and its complement share out the pool's total rating. */
  lemma {:induction false} SplitRankSum(s: seq<Player>, c: seq<Player>)
    requires Distinct(s) && IsSubsequence(c, s)
    ensures RankSum(c) + RankSum(Complement(s, c)) == RankSum(s)
    decreases |s|
  {
    if |s| == 0 {
    } else if |c| > 0 && c[0] == s[0] && IsSubsequence(c[1..], s[1..]) {
      HeadNotInTail(s);
      assert c == [c[0]] + c[1..];
      assert forall x :: x in s[1..] ==> (x in c <==> x in c[1..]);
      ComplementCongruent(s[1..], c, c[1..]);
      assert Complement(s, c) == Complement(s[1..], c[1..]);
      SplitRankSum(s[1..], c[1..]);
    } else {
      assert IsSubsequence(c, s[1..]);
      HeadNotInTail(s);
      SubsequenceMembers(c, s[1..]);
      assert s[0] !in c;
      assert Complement(s, c) == [s[0]] + Complement(s[1..], c);
      SplitRankSum(s[1..], c);
    }
  }

  /** For a split of a fixed pool the score depends only on the first team's
      rating sum: it is the distance of twice that sum from the pool total. */
  lemma SplitEvaluation(s: seq<Player>, c: seq<Player>)
    requires Distinct(s) && IsSubsequence(c, s)
    ensures var d := 2 * RankSum(c) - RankSum(s);
      Evaluate(c, Complement(s, c)) == if d < 0 then -d else d
  {
    SplitRankSum(s, c);
  }
}

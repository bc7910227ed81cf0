/** The team search of `maketeams`: every 5-subset of the ten players paired
    with its complement and scored, sorted stably by score, cut to the first
    twenty, and shuffled for presentation. */
module Search {
  import opened Players
  import opened Subsets
  import opened Evaluation
  import opened Ranking

  /** Players per team. */
  const TEAM_SIZE: nat := 5

  /** Number of candidates retained after sorting. */
  const KEEP: nat := 20

  /** Every split, in enumeration order: each 5-subset as team 1, the rest as team 2. */
  function Candidates(pool: seq<Player>): (r: seq<TeamCombination>)
    ensures |r| == |Combinations(pool, TEAM_SIZE)|
  {
    var combos := Combinations(pool, TEAM_SIZE);
    seq(|combos|, i requires 0 <= i < |combos| =>
      var team2 := Complement(pool, combos[i]);
      TeamCombination(combos[i], team2, Evaluate(combos[i], team2)))
  }

  /** The sort keys of a candidate list, position by position. */
  function Keys(cs: seq<TeamCombination>): (r: seq<nat>)
    ensures |r| == |cs|
  {
    seq(|cs|, i requires 0 <= i < |cs| => cs[i].evaluation)
  }

  /** Enumeration positions of `cs` in stable order of their scores. */
  function Order(cs: seq<TeamCombination>): (r: seq<nat>)
    ensures |r| == |cs|
    ensures forall i :: 0 <= i < |r| ==> r[i] < |cs|
  {
    StableOrder(Keys(cs), |cs|)
  }

  /** The candidate list after the stable sort. */
  function Sorted(cs: seq<TeamCombination>): (r: seq<TeamCombination>)
    ensures |r| == |cs|
  {
    var order := Order(cs);
    seq(|cs|, i requires 0 <= i < |cs| => cs[order[i]])
  }

  /** Enumeration positions of the candidates the slice `[:KEEP]` retains. */
  function Kept(cs: seq<TeamCombination>): (r: seq<nat>)
    requires |cs| >= KEEP
    ensures |r| == KEEP
  {
    Order(cs)[..KEEP]
  }

  /** Sort, keep the first KEEP, shuffle by `shuffle`. */
  function Present(cs: seq<TeamCombination>, shuffle: seq<nat>): (r: seq<TeamCombination>)
    requires |cs| >= KEEP && IsPermutation(shuffle, KEEP)
    ensures |r| == KEEP
  {
    Permute(Sorted(cs)[..KEEP], shuffle)
  }

  /** Enumeration positions of the presented candidates, in presentation order. */
  function PresentedPositions(cs: seq<TeamCombination>, shuffle: seq<nat>): (r: seq<nat>)
    requires |cs| >= KEEP && IsPermutation(shuffle, KEEP)
    ensures |r| == KEEP
  {
    Permute(Kept(cs), shuffle)
  }

  /** Presented entry i is the candidate at enumeration position PresentedPositions[i]. */
  lemma PresentAt(cs: seq<TeamCombination>, shuffle: seq<nat>, i: nat)
    requires |cs| >= KEEP && IsPermutation(shuffle, KEEP) && i < KEEP
    ensures PresentedPositions(cs, shuffle)[i] < |cs|
    ensures Present(cs, shuffle)[i] == cs[PresentedPositions(cs, shuffle)[i]]
  {
    assert Present(cs, shuffle)[i] == Sorted(cs)[shuffle[i]];
    assert PresentedPositions(cs, shuffle)[i] == Kept(cs)[shuffle[i]] == Order(cs)[shuffle[i]];
  }

  /** The presented positions are exactly the retained ones, each presented once. */
  lemma PresentedAreKept(cs: seq<TeamCombination>, shuffle: seq<nat>)
    requires |cs| >= KEEP && IsPermutation(shuffle, KEEP)
    ensures forall p :: p in PresentedPositions(cs, shuffle) <==> p in Kept(cs)
    ensures Distinct(PresentedPositions(cs, shuffle))
  {
    var kept := Kept(cs);
    var keys := Keys(cs);
    var order := Order(cs);
    assert Ordered(keys, order);
    forall i, j | 0 <= i < j < |kept| ensures kept[i] != kept[j] {
      assert kept[i] == order[i] && kept[j] == order[j];
      assert Before(keys, order[i], order[j]);
    }
    PermuteSameElements(kept, shuffle);
    forall p | p in kept ensures p in PresentedPositions(cs, shuffle) {
      var m :| 0 <= m < |kept| && kept[m] == p;
    }
  }

  /** Top-k selection over any candidate list: every presented candidate scores
      at most every discarded one, and a discarded one with an equal score
      comes later in enumeration order. */
  lemma PresentKeepsBest(cs: seq<TeamCombination>, shuffle: seq<nat>, i: nat, q: nat)
    requires |cs| >= KEEP && IsPermutation(shuffle, KEEP) && i < KEEP
    requires q < |cs| && q !in PresentedPositions(cs, shuffle)
    ensures Present(cs, shuffle)[i].evaluation <= cs[q].evaluation
    ensures Present(cs, shuffle)[i].evaluation == cs[q].evaluation ==> PresentedPositions(cs, shuffle)[i] < q
  {
    var keys := Keys(cs);
    var order := Order(cs);
    var p := PresentedPositions(cs, shuffle)[i];
    PresentAt(cs, shuffle, i);
    PresentedAreKept(cs, shuffle);
    assert p in order[..KEEP];
    assert q in order;
    var m :| 0 <= m < |order| && order[m] == q;
    forall t | 0 <= t < KEEP ensures order[t] != q {
      assert order[..KEEP][t] == order[t];
    }
    assert order[KEEP..][m - KEEP] == q;
    KeptBeforeDropped(keys, order, KEEP, p, q);
  }

  /** Exactly C(10, 5) = 252 splits are built from a full pool. */
  lemma CandidateCount(pool: seq<Player>)
    requires |pool| == PARTY_SIZE
    ensures |Candidates(pool)| == 252
  {
    CombinationsCount(pool, TEAM_SIZE);
    BinomialTenFive();
  }

  /** What `maketeams` stores: the best KEEP splits of the pool, shuffled. */
  function Generate(pool: seq<Player>, shuffle: seq<nat>): (r: seq<TeamCombination>)
    requires |pool| == PARTY_SIZE && IsPermutation(shuffle, KEEP)
    ensures |r| == KEEP
  {
    CandidateCount(pool);
    Present(Candidates(pool), shuffle)
  }

  /** Enumeration positions of the generated candidates, in presentation order. */
  function Shown(pool: seq<Player>, shuffle: seq<nat>): (r: seq<nat>)
    requires |pool| == PARTY_SIZE && IsPermutation(shuffle, KEEP)
    ensures |r| == KEEP
  {
    CandidateCount(pool);
    PresentedPositions(Candidates(pool), shuffle)
  }

  lemma UniqueUsersDistinct(ps: seq<Player>)
    requires UniqueUsers(ps)
    ensures Distinct(ps)
  {
  }

  /** Each enumerated candidate splits the pool into team 1, a 5-subset in pool
      order, and team 2, the other players in pool order; its score is the
      integer fairness key of that split. */
  lemma CandidateIsPartition(pool: seq<Player>, q: nat)
    requires UniqueUsers(pool) && q < |Candidates(pool)|
    ensures var c := Candidates(pool)[q];
      && |c.team1| == TEAM_SIZE
      && |c.team2| == |pool| - TEAM_SIZE
      && IsSubsequence(c.team1, pool) && IsSubsequence(c.team2, pool)
      && multiset(c.team1) + multiset(c.team2) == multiset(pool)
      && (forall p :: p in c.team1 ==> p !in c.team2)
      && (forall p :: p in pool <==> p in c.team1 || p in c.team2)
      && c.evaluation == Evaluate(c.team1, c.team2)
  {
    var c := Candidates(pool)[q];
    var combo := Combinations(pool, TEAM_SIZE)[q];
    assert c.team1 == combo && c.team2 == Complement(pool, combo);
    UniqueUsersDistinct(pool);
    CombinationsAreSubsequences(pool, TEAM_SIZE, q);
    SubsequenceMembers(combo, pool);
    ComplementSplits(pool, combo);
  }

  /** Each matchup is enumerated twice, once from each side: for every
      candidate another one has the two teams swapped, with the same score. */
  lemma MirrorEnumerated(pool: seq<Player>, q: nat)
    requires |pool| == PARTY_SIZE && UniqueUsers(pool) && q < |Candidates(pool)|
    ensures var c := Candidates(pool)[q];
      exists q' :: 0 <= q' < |Candidates(pool)| && q' != q &&
        Candidates(pool)[q'] == TeamCombination(c.team2, c.team1, c.evaluation)
  {
    var cs := Candidates(pool);
    var combos := Combinations(pool, TEAM_SIZE);
    var c := cs[q];
    assert c.team1 == combos[q] && c.team2 == Complement(pool, combos[q]);
    UniqueUsersDistinct(pool);
    CombinationsAreSubsequences(pool, TEAM_SIZE, q);
    ComplementSplits(pool, combos[q]);
    CombinationsComplete(pool, c.team2);
    var q' :| 0 <= q' < |combos| && combos[q'] == c.team2;
    DoubleComplement(pool, combos[q]);
    assert cs[q'] == TeamCombination(c.team2, c.team1, c.evaluation);
    assert c.team1[0] in c.team1 && c.team1[0] !in c.team2;
  }

  /** The generated entry i is the candidate at enumeration position Shown[i]. */
  lemma GenerateShown(pool: seq<Player>, shuffle: seq<nat>, i: nat)
    requires |pool| == PARTY_SIZE && IsPermutation(shuffle, KEEP) && i < KEEP
    ensures Shown(pool, shuffle)[i] < |Candidates(pool)|
    ensures Generate(pool, shuffle)[i] == Candidates(pool)[Shown(pool, shuffle)[i]]
  {
    CandidateCount(pool);
    PresentAt(Candidates(pool), shuffle, i);
  }

  /** The shown positions are exactly those of the KEEP best splits, each shown once. */
  lemma ShownAreKept(pool: seq<Player>, shuffle: seq<nat>)
    requires |pool| == PARTY_SIZE && IsPermutation(shuffle, KEEP)
    ensures |Candidates(pool)| == 252
    ensures forall p :: p in Shown(pool, shuffle) <==> p in Kept(Candidates(pool))
    ensures Distinct(Shown(pool, shuffle))
  {
    CandidateCount(pool);
    PresentedAreKept(Candidates(pool), shuffle);
  }

  /** Top-k selection: every shown split scores at most every discarded one,
      and a discarded split with an equal score was enumerated later. */
  lemma GenerateKeepsBest(pool: seq<Player>, shuffle: seq<nat>, i: nat, q: nat)
    requires |pool| == PARTY_SIZE && IsPermutation(shuffle, KEEP) && i < KEEP
    requires q < |Candidates(pool)| && q !in Shown(pool, shuffle)
    ensures Generate(pool, shuffle)[i].evaluation <= Candidates(pool)[q].evaluation
    ensures Generate(pool, shuffle)[i].evaluation == Candidates(pool)[q].evaluation ==>
            Shown(pool, shuffle)[i] < q
  {
    CandidateCount(pool);
    PresentKeepsBest(Candidates(pool), shuffle, i, q);
  }

  /** No (team 1, team 2) record is presented twice. The same matchup with
      the sides swapped is a different record (MirrorEnumerated) and can be
      presented as well. */
  lemma GenerateDistinct(pool: seq<Player>, shuffle: seq<nat>, i: nat, j: nat)
    requires |pool| == PARTY_SIZE && IsPermutation(shuffle, KEEP) && UniqueUsers(pool)
    requires i < j < KEEP
    ensures Generate(pool, shuffle)[i] != Generate(pool, shuffle)[j]
  {
    var cs := Candidates(pool);
    var shown := Shown(pool, shuffle);
    GenerateShown(pool, shuffle, i);
    GenerateShown(pool, shuffle, j);
    ShownAreKept(pool, shuffle);
    assert shown[i] != shown[j];
    UniqueUsersDistinct(pool);
    CombinationsDistinct(pool, TEAM_SIZE);
    var combos := Combinations(pool, TEAM_SIZE);
    if shown[i] < shown[j] {
      assert combos[shown[i]] != combos[shown[j]];
    } else {
      assert combos[shown[j]] != combos[shown[i]];
    }
    assert cs[shown[i]].team1 == combos[shown[i]];
    assert cs[shown[j]].team1 == combos[shown[j]];
  }

  /** Every presented candidate is a 5/5 partition of the ten players. */
  lemma GeneratePartitions(pool: seq<Player>, shuffle: seq<nat>, i: nat)
    requires |pool| == PARTY_SIZE && IsPermutation(shuffle, KEEP) && UniqueUsers(pool)
    requires i < KEEP
    ensures var c := Generate(pool, shuffle)[i];
      && |c.team1| == TEAM_SIZE && |c.team2| == TEAM_SIZE
      && IsSubsequence(c.team1, pool) && IsSubsequence(c.team2, pool)
      && multiset(c.team1) + multiset(c.team2) == multiset(pool)
      && (forall p :: p in c.team1 ==> p !in c.team2)
      && (forall p :: p in pool <==> p in c.team1 || p in c.team2)
  {
    GenerateShown(pool, shuffle, i);
    CandidateIsPartition(pool, Shown(pool, shuffle)[i]);
  }
}

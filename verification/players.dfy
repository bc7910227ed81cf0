/** Participants of a room: a user handle and an integer rating ("rank"). */
module Players {
  import opened Subsets

  /** A pool entry. `id` stands for the identity of the player object: the
      committed match refers to its players by it, so a reported result moves
      the ratings of exactly the objects that were split into the match. */
  datatype Player = Player(user: string, rank: int, id: nat)

  /** Skill tier to rating, the fixed table a player names when joining. */
  const RANKS: map<string, int> := map[
    "bronze1" := 640, "bronze2" := 670, "bronze3" := 710,
    "silver1" := 800, "silver2" := 830, "silver3" := 860,
    "gold1" := 960, "gold2" := 990, "gold3" := 1020,
    "plat1" := 1050, "plat2" := 1080, "plat3" := 1110
  ]

  /** The tiers in the order the table lists them, lowest first. */
  const TIERS: seq<string> := [
    "bronze1", "bronze2", "bronze3", "silver1", "silver2", "silver3",
    "gold1", "gold2", "gold3", "plat1", "plat2", "plat3"
  ]

  /** The table names exactly the twelve tiers, every rating lies between 640
      and 1110, and each tier rates higher than the one below it. */
  lemma TierLadder()
    ensures forall t :: t in RANKS <==> t in TIERS
    ensures forall t :: t in RANKS ==> 640 <= RANKS[t] <= 1110
    ensures forall i :: 0 < i < |TIERS| ==> RANKS[TIERS[i - 1]] < RANKS[TIERS[i]]
  {
    TierNames();
    TierRange();
    TierOrder();
  }

  lemma TierNames()
    ensures forall t :: t in RANKS <==> t in TIERS
  {
  }

  lemma TierRange()
    ensures forall t :: t in RANKS ==> 640 <= RANKS[t] <= 1110
  {
  }

  lemma TierOrder()
    ensures forall i :: 0 < i < |TIERS| ==> RANKS[TIERS[i - 1]] < RANKS[TIERS[i]]
  {
  }

  /** Rating change used both by a reported result and by a manual bump. */
  const STEP: int := 8

  /** Largest pool a room accepts, and the exact size team generation needs. */
  const PARTY_SIZE: nat := 10

  /** The user handles of a list of players, in list order. */
  function Users(ps: seq<Player>): seq<string>
  {
    seq(|ps|, i requires 0 <= i < |ps| => ps[i].user)
  }

  /** The identities of a list of players, in list order. */
  function Ids(ps: seq<Player>): seq<nat>
  {
    seq(|ps|, i requires 0 <= i < |ps| => ps[i].id)
  }

  /** The elements of a list, as a set. */
  function Members<T>(xs: seq<T>): set<T>
  {
    set x | x in xs
  }

  /** No user handle occurs twice. */
  predicate UniqueUsers(ps: seq<Player>)
  {
    forall i, j :: 0 <= i < j < |ps| ==> ps[i].user != ps[j].user
  }

  /** No player object occurs twice. */
  predicate UniqueIds(ps: seq<Player>)
  {
    forall i, j :: 0 <= i < j < |ps| ==> ps[i].id != ps[j].id
  }

  /** Sum of the ratings of a list of players. */
  function RankSum(ps: seq<Player>): int
  {
    if |ps| == 0 then 0 else ps[0].rank + RankSum(ps[1..])
  }

  /** Position of the first player whose handle is `user`. */
  function IndexOf(ps: seq<Player>, user: string): (i: nat)
    requires user in Users(ps)
    ensures i < |ps| && ps[i].user == user
    ensures forall j :: 0 <= j < i ==> ps[j].user != user
  {
    if ps[0].user == user then 0
    else
      assert Users(ps[1..]) == Users(ps)[1..];
      1 + IndexOf(ps[1..], user)
  }

  lemma {:induction false} RankSumAppend(a: seq<Player>, b: seq<Player>)
    ensures RankSum(a + b) == RankSum(a) + RankSum(b)
    decreases |a|
  {
    if |a| == 0 {
      assert a + b == b;
    } else {
      assert (a + b)[1..] == a[1..] + b;
      RankSumAppend(a[1..], b);
    }
  }

  /** Replacing one player changes the total by exactly the change of that player's rating. */
  lemma {:induction false} RankSumUpdate(ps: seq<Player>, i: nat, p: Player)
    requires i < |ps|
    ensures RankSum(ps[i := p]) == RankSum(ps) - ps[i].rank + p.rank
    decreases |ps|
  {
    if i == 0 {
      assert ps[i := p][1..] == ps[1..];
    } else {
      assert ps[i := p][1..] == ps[1..][i - 1 := p];
      RankSumUpdate(ps[1..], i - 1, p);
    }
  }

  /** With unique identities, the identities of `n` players form a set of `n`. */
  lemma {:induction false} MembersOfUniqueIds(ps: seq<Player>)
    requires UniqueIds(ps)
    ensures |Members(Ids(ps))| == |ps|
    decreases |ps|
  {
    if |ps| == 0 {
      assert Members(Ids(ps)) == {};
    } else {
      HeadIdSplit(ps);
      MembersOfUniqueIds(ps[1..]);
    }
  }

  /** The identities of a list with unique identities are its head's plus
      those of its tail, which do not include the head's. */
  lemma HeadIdSplit(ps: seq<Player>)
    requires UniqueIds(ps) && |ps| > 0
    ensures Members(Ids(ps)) == {ps[0].id} + Members(Ids(ps[1..]))
    ensures ps[0].id !in Members(Ids(ps[1..]))
  {
    assert Ids(ps) == [ps[0].id] + Ids(ps[1..]);
    forall x | x in Members(Ids(ps[1..])) ensures x != ps[0].id {
      var i :| 0 <= i < |Ids(ps[1..])| && Ids(ps[1..])[i] == x;
      assert ps[1..][i] == ps[i + 1];
    }
  }

  /** Keeping players of a list in order keeps their handles, and their
      identities, unique. */
  lemma {:induction false} SubsequenceUnique(c: seq<Player>, ps: seq<Player>)
    requires IsSubsequence(c, ps)
    ensures UniqueUsers(ps) ==> UniqueUsers(c)
    ensures UniqueIds(ps) ==> UniqueIds(c)
    decreases |ps|
  {
    if |c| == 0 {
    } else if c[0] == ps[0] && IsSubsequence(c[1..], ps[1..]) {
      SubsequenceUnique(c[1..], ps[1..]);
      SubsequenceMembers(c[1..], ps[1..]);
      forall j | 0 < j < |c| ensures exists m :: 0 < m < |ps| && ps[m] == c[j] {
        assert c[j] == c[1..][j - 1];
        assert c[j] in ps[1..];
        var m :| 0 <= m < |ps[1..]| && ps[1..][m] == c[j];
        assert ps[m + 1] == c[j];
      }
    } else {
      SubsequenceUnique(c, ps[1..]);
    }
  }
}

/** The bot as a whole: a command dispatcher over one room, the invariant every
    command keeps, and the guarantees of a full round (join, maketeams,
    newteams, choose, winner). */
module Bot {
  import opened Players
  import opened Subsets
  import opened Ranking
  import opened Search
  import opened Server
  import opened Commands

  /** A command with its arguments. The caller's handle is part of the
      commands that act on the caller; `shuffle` is the order the random
      shuffle of `maketeams` picks. */
  datatype Command =
    | JoinCmd(user: string, rank: string)
    | ResetCmd
    | PlayersCmd
    | MakeTeamsCmd(shuffle: seq<nat>)
    | NewTeamsCmd
    | ChooseCmd
    | WinnerCmd(val: string)
    | BumpCmd(user: string)
    | LeaveCmd(user: string)
    | KickCmd(player: string)

  /** A shuffle must be a reordering of the twenty kept candidates. */
  predicate WellFormed(c: Command)
  {
    c.MakeTeamsCmd? ==> IsPermutation(c.shuffle, KEEP)
  }

  /** Runs one command. A failed command leaves the room untouched, and only
      a successful join hands out a new player identity. */
  function Apply(room: Room, c: Command): (s: Step)
    requires WellFormed(c)
    ensures s.reply == Failed ==> s.room == room
    ensures s.room.nextId == if s.reply.Joined? then room.nextId + 1 else room.nextId
  {
    match c
    case JoinCmd(user, rank) => Join(room, user, rank)
    case ResetCmd => Reset(room)
    case PlayersCmd => ListPlayers(room)
    case MakeTeamsCmd(shuffle) => MakeTeams(room, shuffle)
    case NewTeamsCmd => NewTeams(room)
    case ChooseCmd => Choose(room)
    case WinnerCmd(val) => Winner(room, val)
    case BumpCmd(user) => Bump(room, user)
    case LeaveCmd(user) => Leave(room, user)
    case KickCmd(player) => Kick(room, player)
  }

  /** The room after a sequence of commands. */
  function Run(room: Room, cs: seq<Command>): Room
    requires forall i :: 0 <= i < |cs| ==> WellFormed(cs[i])
    decreases |cs|
  {
    if |cs| == 0 then room else Run(Apply(room, cs[0]).room, cs[1..])
  }

  /** A new room has an empty pool, no candidates, the cursor at 0, no
      match, satisfies the invariant, and ignores every reported result. */
  lemma FreshRoom(val: string)
    ensures Valid(Fresh())
    ensures Fresh().players == [] && Fresh().teams == [] && Fresh().currentTeam == 0
    ensures Fresh().team1 == [] && Fresh().team2 == [] && Fresh().gameOver
    ensures Winner(Fresh(), val) == Step(Fresh(), NoGame)
  {
  }

  /** Removing entries keeps the invariant. */
  lemma SubsequenceValid(room: Room, ps: seq<Player>)
    requires Valid(room) && IsSubsequence(ps, room.players)
    ensures Valid(room.(players := ps))
  {
    SubsequenceUnique(ps, room.players);
    SubsequenceMembers(ps, room.players);
    SubsequenceLength(ps, room.players);
    forall i | 0 <= i < |ps| ensures ps[i].id < room.nextId {
      assert ps[i] in room.players;
    }
  }

  /** Entries keeping their handles and identities keep the invariant. */
  lemma SameEntriesValid(room: Room, ps: seq<Player>)
    requires Valid(room) && |ps| == |room.players|
    requires forall i :: 0 <= i < |ps| ==> ps[i].user == room.players[i].user && ps[i].id == room.players[i].id
    ensures Valid(room.(players := ps))
  {
  }

  /** A successful join appends an entry with a fresh handle and identity. */
  lemma JoinValid(room: Room, user: string, rank: string)
    requires Valid(room)
    ensures Valid(Join(room, user, rank).room)
  {
    var s := Join(room, user, rank);
    if s.reply.Joined? {
      forall i | 0 <= i < |room.players| ensures room.players[i].user != user {
        assert Users(room.players)[i] == room.players[i].user;
      }
    }
  }

  /** Every command keeps the room invariant. */
  lemma ApplyValid(room: Room, c: Command)
    requires Valid(room) && WellFormed(c)
    ensures Valid(Apply(room, c).room)
  {
    match c
    case JoinCmd(user, rank) => JoinValid(room, user, rank);
    case LeaveCmd(user) => SubsequenceValid(room, RemoveUser(room.players, user));
    case KickCmd(player) => SubsequenceValid(room, RemoveUser(room.players, player));
    case BumpCmd(user) =>
      var ps := Bump(room, user).room.players;
      forall i | 0 <= i < |ps| ensures ps[i].user == room.players[i].user && ps[i].id == room.players[i].id {
        assert Users(ps)[i] == ps[i].user && Ids(ps)[i] == ps[i].id;
      }
      SameEntriesValid(room, ps);
    case WinnerCmd(val) => SameEntriesValid(room, Winner(room, val).room.players);
    case _ =>
  }

  /** Every sequence of commands from a valid room ends in a valid room; in
      particular every room the bot ever holds, starting from Fresh(). */
  lemma {:induction false} RunValid(room: Room, cs: seq<Command>)
    requires Valid(room)
    requires forall i :: 0 <= i < |cs| ==> WellFormed(cs[i])
    ensures Valid(Run(room, cs))
    decreases |cs|
  {
    if |cs| > 0 {
      ApplyValid(room, cs[0]);
      RunValid(Apply(room, cs[0]).room, cs[1..]);
    }
  }

  /** Leaving right after joining restores the pool. */
  lemma JoinThenLeave(room: Room, user: string, rank: string)
    requires Join(room, user, rank).reply.Joined?
    ensures Leave(Join(room, user, rank).room, user).room.players == room.players
  {
    var ps := room.players;
    var joined := Join(room, user, rank).room.players;
    assert joined[|ps|].user == user;
    assert Users(joined)[|ps|] == user;
    forall j | 0 <= j < |ps| ensures joined[j].user != user {
      assert Users(ps)[j] == joined[j].user;
    }
    var i := IndexOf(joined, user);
    assert i == |ps|;
    assert joined[..i] == ps;
  }

  /** `n` successive `newteams` commands. */
  function Browse(room: Room, n: nat): (r: Room)
    ensures r == room.(currentTeam := room.currentTeam + n)
    decreases n
  {
    if n == 0 then room else Browse(NewTeams(room).room, n - 1)
  }

  /** After `maketeams` on ten players, `newteams` shows the generated
      candidates one after another, each exactly once, and shows nothing once
      the twenty are used up. */
  lemma BrowseShowsEachOnce(room: Room, shuffle: seq<nat>, n: nat)
    requires |room.players| == PARTY_SIZE && IsPermutation(shuffle, KEEP)
    ensures var r := Browse(MakeTeams(room, shuffle).room, n);
      && r.currentTeam == n
      && NewTeams(r).reply == if n + 1 < KEEP then ShowTeams(Generate(room.players, shuffle)[n + 1]) else NothingShown
  {
  }

  /** The match `choose` commits after browsing to candidate `n`: two disjoint
      sets of five player objects, together the whole pool. Past the twentieth
      candidate `choose` fails. */
  lemma ChooseSplitsPool(room: Room, shuffle: seq<nat>, n: nat)
    requires Valid(room) && |room.players| == PARTY_SIZE && IsPermutation(shuffle, KEEP)
    ensures var s := Choose(Browse(MakeTeams(room, shuffle).room, n));
      n >= KEEP ==> s.reply == Failed
    ensures var s := Choose(Browse(MakeTeams(room, shuffle).room, n));
      n < KEEP ==>
      && s.reply == HaveFun && !s.room.gameOver
      && s.room.players == room.players
      && |Members(s.room.team1)| == TEAM_SIZE && |Members(s.room.team2)| == TEAM_SIZE
      && Members(s.room.team1) * Members(s.room.team2) == {}
      && Members(s.room.team1) + Members(s.room.team2) == Members(Ids(room.players))
  {
    if n < KEEP {
      var c := Generate(room.players, shuffle)[n];
      GeneratePartitions(room.players, shuffle, n);
      TeamIds(c.team1, c.team2, room.players);
    }
  }

  /** A whole round on a full pool: `maketeams`, `n` times `newteams`,
      `choose`, then `winner val`. The game is over, the pool's total rating
      is unchanged, and with '1' (or '2') every player of the winning team of
      the chosen candidate gains STEP while every other player loses STEP. */
  lemma RoundResult(room: Room, shuffle: seq<nat>, n: nat, val: string)
    requires Valid(room) && |room.players| == PARTY_SIZE && IsPermutation(shuffle, KEEP)
    requires n < KEEP
    ensures var c := Generate(room.players, shuffle)[n];
      var w := Winner(Choose(Browse(MakeTeams(room, shuffle).room, n)).room, val);
      && w.reply == GoodGame(val in {"0", "1", "2"})
      && w.room.gameOver
      && RankSum(w.room.players) == RankSum(room.players)
      && Users(w.room.players) == Users(room.players)
      && forall i :: 0 <= i < |room.players| ==>
           w.room.players[i].rank == room.players[i].rank +
             (if val == "1" then (if room.players[i] in c.team1 then STEP else -STEP)
              else if val == "2" then (if room.players[i] in c.team2 then STEP else -STEP)
              else 0)
  {
    var c := Generate(room.players, shuffle)[n];
    var m := Choose(Browse(MakeTeams(room, shuffle).room, n)).room;
    GeneratePartitions(room.players, shuffle, n);
    assert m.players == room.players && !m.gameOver;
    assert m.team1 == Ids(c.team1) && m.team2 == Ids(c.team2);
    WinnerOnSplit(m, val, c.team1, c.team2);
  }

  /** `winner` on a match whose teams split the pool: the game is over, the
      total rating is unchanged, and with '1' (or '2') each pool player of
      the winning team gains STEP and every other pool player loses STEP. */
  lemma WinnerOnSplit(m: Room, val: string, t1: seq<Player>, t2: seq<Player>)
    requires UniqueIds(m.players) && !m.gameOver
    requires IsSubsequence(t1, m.players) && IsSubsequence(t2, m.players)
    requires |t1| == |t2|
    requires forall p :: p in t1 ==> p !in t2
    requires forall p :: p in m.players <==> p in t1 || p in t2
    requires m.team1 == Ids(t1) && m.team2 == Ids(t2)
    ensures var w := Winner(m, val);
      && w.reply == GoodGame(val in {"0", "1", "2"})
      && w.room.gameOver
      && RankSum(w.room.players) == RankSum(m.players)
      && Users(w.room.players) == Users(m.players)
      && forall i :: 0 <= i < |m.players| ==>
           w.room.players[i].rank == m.players[i].rank +
             (if val == "1" then (if m.players[i] in t1 then STEP else -STEP)
              else if val == "2" then (if m.players[i] in t2 then STEP else -STEP)
              else 0)
  {
    var w := Winner(m, val);
    TeamIds(t1, t2, m.players);
    WinnerConservesRating(m, val);
    forall i | 0 <= i < |m.players|
      ensures m.players[i].id in Members(m.team1) <==> m.players[i] in t1
      ensures m.players[i].id in Members(m.team2) <==> m.players[i] in t2
    {
      IdInPart(m.players, t1, m.players[i]);
      IdInPart(m.players, t2, m.players[i]);
    }
    forall i | 0 <= i < |m.players| ensures Users(w.room.players)[i] == Users(m.players)[i] {
    }
  }

  /** The identities of a split of a pool with unique identities: each team
      keeps its size, the teams share no identity, and together they have
      all of the pool's. */
  lemma TeamIds(t1: seq<Player>, t2: seq<Player>, pool: seq<Player>)
    requires UniqueIds(pool)
    requires IsSubsequence(t1, pool) && IsSubsequence(t2, pool)
    requires forall p :: p in t1 ==> p !in t2
    requires forall p :: p in pool <==> p in t1 || p in t2
    ensures |Members(Ids(t1))| == |t1| && |Members(Ids(t2))| == |t2|
    ensures Members(Ids(t1)) * Members(Ids(t2)) == {}
    ensures Members(Ids(t1)) + Members(Ids(t2)) == Members(Ids(pool))
  {
    SubsequenceUnique(t1, pool);
    SubsequenceUnique(t2, pool);
    MembersOfUniqueIds(t1);
    MembersOfUniqueIds(t2);
    IdsOfPart(t1, pool);
    IdsOfPart(t2, pool);
    forall x | x in Members(Ids(t1)) ensures x !in Members(Ids(t2)) {
      var p := PlayerWithId(t1, x);
      if x in Members(Ids(t2)) {
        var q := PlayerWithId(t2, x);
        SameIdSamePlayer(pool, p, q);
      }
    }
    forall x | x in Members(Ids(pool)) ensures x in Members(Ids(t1)) + Members(Ids(t2)) {
      var p := PlayerWithId(pool, x);
      if p in t1 {
        IdOfMember(t1, p);
      } else {
        IdOfMember(t2, p);
      }
    }
  }

  /** The identities of a part of a pool are identities of the pool. */
  lemma IdsOfPart(t: seq<Player>, pool: seq<Player>)
    requires IsSubsequence(t, pool)
    ensures Members(Ids(t)) <= Members(Ids(pool))
    ensures forall p :: p in t ==> p in pool
  {
    SubsequenceMembers(t, pool);
    forall x | x in Members(Ids(t)) ensures x in Members(Ids(pool)) {
      var p := PlayerWithId(t, x);
      IdOfMember(pool, p);
    }
  }

  /** A pool entry belongs to a part of a pool with unique identities
      exactly when its identity does. */
  lemma IdInPart(pool: seq<Player>, t: seq<Player>, p: Player)
    requires UniqueIds(pool) && IsSubsequence(t, pool) && p in pool
    ensures p.id in Members(Ids(t)) <==> p in t
  {
    if p in t {
      IdOfMember(t, p);
    }
    if p.id in Members(Ids(t)) {
      var q := PlayerWithId(t, p.id);
      SubsequenceMembers(t, pool);
      SameIdSamePlayer(pool, p, q);
    }
  }

  /** An entry carrying a given identity. */
  lemma PlayerWithId(ps: seq<Player>, x: nat) returns (p: Player)
    requires x in Members(Ids(ps))
    ensures p in ps && p.id == x
  {
    var i :| 0 <= i < |Ids(ps)| && Ids(ps)[i] == x;
    p := ps[i];
  }

  /** The identity of an entry is among the identities of the list. */
  lemma IdOfMember(ps: seq<Player>, p: Player)
    requires p in ps
    ensures p.id in Members(Ids(ps))
  {
    var i :| 0 <= i < |ps| && ps[i] == p;
    assert Ids(ps)[i] == p.id;
  }

  /** In a list with unique identities, the identity determines the entry. */
  lemma SameIdSamePlayer(ps: seq<Player>, p: Player, q: Player)
    requires UniqueIds(ps) && p in ps && q in ps && p.id == q.id
    ensures p == q
  {
    var i :| 0 <= i < |ps| && ps[i] == p;
    var j :| 0 <= j < |ps| && ps[j] == q;
    assert !(i < j) && !(j < i);
  }
}

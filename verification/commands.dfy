/** One pure transition per bot command of main.py. Each takes the room and
    the command's arguments and returns the next room with the reply kind;
    the calling user's handle is a parameter, and the reply text is left out. */
module Commands {
  import opened Players
  import opened Subsets
  import opened Evaluation
  import opened Ranking
  import opened Search
  import opened Server

  /** The reply a command sends, without its text. */
  datatype Reply =
    | AlreadyAdded(user: string)
    | InvalidRank
    | PartyFull
    | Joined(user: string)
    | PlayersReset
    | NeedTenPlayers
    | ShowTeams(shown: TeamCombination)
    | NothingShown
    | HaveFun
    | NoGame
    | GoodGame(validTeam: bool)
    | Bumped(user: string, rank: int)
    | LeftParty
    | Kicked(user: string)
    | NotInParty(user: string)
    | Listed(players: seq<Player>)
    | Failed

  /** The room after a command, and what the command replied. A command whose
      body raises (an unbound local, an index out of range) sends nothing and
      leaves the room as it was; its reply is Failed. */
  datatype Step = Step(room: Room, reply: Reply)

  /** `join rank`: rejects a user already in the pool, then a tier that is not
      in RANKS, then a full pool; otherwise appends a new player object, with
      the tier's rating, at the end. */
  function Join(room: Room, user: string, rank: string): (s: Step)
    ensures user in Users(room.players) ==> s == Step(room, AlreadyAdded(user))
    ensures user !in Users(room.players) && rank !in RANKS ==> s == Step(room, InvalidRank)
    ensures user !in Users(room.players) && rank in RANKS && |room.players| >= PARTY_SIZE ==>
            s == Step(room, PartyFull)
    ensures s.reply.Joined? <==> user !in Users(room.players) && rank in RANKS && |room.players| < PARTY_SIZE
    ensures s.reply.Joined? ==>
            && s.room.players == room.players + [Player(user, RANKS[rank], room.nextId)]
            && s.room == room.(players := s.room.players, nextId := room.nextId + 1)
            && s.reply.user == user
    ensures !s.reply.Joined? ==> s.room == room
  {
    if user in Users(room.players) then Step(room, AlreadyAdded(user))
    else if rank !in RANKS then Step(room, InvalidRank)
    else if |room.players| >= PARTY_SIZE then Step(room, PartyFull)
    else
      var player := Player(user, RANKS[rank], room.nextId);
      Step(room.(players := room.players + [player], nextId := room.nextId + 1), Joined(user))
  }

  /** `reset`: empties the pool and nothing else. */
  function Reset(room: Room): (s: Step)
    ensures s.room.players == []
    ensures s.room.teams == room.teams && s.room.currentTeam == room.currentTeam
    ensures s.room.team1 == room.team1 && s.room.team2 == room.team2
    ensures s.room.gameOver == room.gameOver && s.room.nextId == room.nextId
    ensures s.reply == PlayersReset
  {
    Step(room.(players := []), PlayersReset)
  }

  /** `players`: lists the pool in join order and changes nothing. */
  function ListPlayers(room: Room): (s: Step)
    ensures s.room == room
    ensures s.reply.Listed? && s.reply.players == room.players
  {
    Step(room, Listed(room.players))
  }

  /** The pool without the first entry whose handle is `user` (the loop that
      removes the first match and breaks); unchanged when no entry matches. */
  function RemoveUser(ps: seq<Player>, user: string): (r: seq<Player>)
    ensures user !in Users(ps) ==> r == ps
    ensures user in Users(ps) ==> |r| == |ps| - 1
    ensures IsSubsequence(r, ps)
  {
    if user in Users(ps) then
      var i := IndexOf(ps, user);
      DropOneIsSubsequence(ps, i);
      ps[..i] + ps[i + 1..]
    else
      SubsequenceReflexive(ps);
      ps
  }

  /** With unique handles, removal takes out exactly the user's entry. */
  lemma RemoveUserUnique(ps: seq<Player>, user: string)
    requires UniqueUsers(ps)
    ensures UniqueUsers(RemoveUser(ps, user))
    ensures user !in Users(RemoveUser(ps, user))
    ensures forall p :: p in RemoveUser(ps, user) <==> p in ps && p.user != user
  {
    var r := RemoveUser(ps, user);
    SubsequenceUnique(r, ps);
    forall i | 0 <= i < |r| ensures r[i].user != user {
      if user in Users(ps) {
        var k := IndexOf(ps, user);
        if i < k {
          assert r[i] == ps[i];
        } else {
          assert r[i] == ps[i + 1];
        }
      } else {
        assert Users(ps)[i] == ps[i].user;
      }
    }
    forall p | p in r ensures p.user != user {
      var i :| 0 <= i < |r| && r[i] == p;
    }
  }

  /** `leave`: the caller's entry leaves the pool, if there is one. */
  function Leave(room: Room, user: string): (s: Step)
    ensures s.room == room.(players := RemoveUser(room.players, user))
    ensures s.reply == LeftParty
    ensures |s.room.players| == if user in Users(room.players) then |room.players| - 1 else |room.players|
  {
    Step(room.(players := RemoveUser(room.players, user)), LeftParty)
  }

  /** `kick player`: like `leave` for a named user, reporting whether anyone was removed. */
  function Kick(room: Room, user: string): (s: Step)
    ensures s.room == room.(players := RemoveUser(room.players, user))
    ensures s.reply.Kicked? <==> user in Users(room.players)
    ensures s.reply == Kicked(user) || s.reply == NotInParty(user)
    ensures s.reply.NotInParty? ==> s.room == room
  {
    var kicked := user in Users(room.players);
    Step(room.(players := RemoveUser(room.players, user)),
         if kicked then Kicked(user) else NotInParty(user))
  }

  /** `bump`: the caller's rating goes up by STEP. For a caller not in the
      pool the loop binds nothing and the reply raises: nothing changes. */
  function Bump(room: Room, user: string): (s: Step)
    ensures user !in Users(room.players) ==> s == Step(room, Failed)
    ensures user in Users(room.players) ==> s.reply.Bumped? && s.reply.user == user
    ensures s.reply.Bumped? ==>
            exists j :: 0 <= j < |s.room.players| && s.room.players[j].user == user && s.room.players[j].rank == s.reply.rank
    ensures Ids(s.room.players) == Ids(room.players)
    ensures |s.room.players| == |room.players|
    ensures Users(s.room.players) == Users(room.players)
    ensures forall j :: 0 <= j < |room.players| && room.players[j].user != user ==>
            s.room.players[j] == room.players[j]
    ensures UniqueUsers(room.players) ==>
            forall j :: 0 <= j < |room.players| && room.players[j].user == user ==>
            s.room.players[j].rank == room.players[j].rank + STEP
    ensures user in Users(room.players) ==> RankSum(s.room.players) == RankSum(room.players) + STEP
    ensures s.room == room.(players := s.room.players)
  {
    if user !in Users(room.players) then
      assert forall j :: 0 <= j < |room.players| ==> Users(room.players)[j] == room.players[j].user;
      Step(room, Failed)
    else
      var i := IndexOf(room.players, user);
      var bumped := room.players[i].(rank := room.players[i].rank + STEP);
      var players := room.players[i := bumped];
      RankSumUpdate(room.players, i, bumped);
      assert Users(players) == Users(room.players);
      assert Ids(players) == Ids(room.players);
      assert players[i].user == user && players[i].rank == bumped.rank;
      Step(room.(players := players), Bumped(user, bumped.rank))
  }

  /** `maketeams`: resets the cursor and the candidates, then, with exactly
      ten players, generates the twenty best splits in shuffled order and
      shows the first. `shuffle` is the permutation the random shuffle picks. */
  function MakeTeams(room: Room, shuffle: seq<nat>): (s: Step)
    requires IsPermutation(shuffle, KEEP)
    ensures s.room == room.(currentTeam := 0, teams := s.room.teams)
    ensures |room.players| != PARTY_SIZE <==> s.reply == NeedTenPlayers
    ensures |room.players| != PARTY_SIZE ==> s.room.teams == []
    ensures |room.players| == PARTY_SIZE ==>
            && |s.room.teams| == KEEP
            && s.room.teams == Generate(room.players, shuffle)
            && s.reply == ShowTeams(s.room.teams[0])
  {
    if |room.players| != PARTY_SIZE then
      Step(room.(currentTeam := 0, teams := []), NeedTenPlayers)
    else
      var teams := Generate(room.players, shuffle);
      Step(room.(currentTeam := 0, teams := teams), ShowTeams(teams[0]))
  }

  /** `newteams`: advances the cursor unconditionally and shows the candidate
      under it while the cursor is in range. */
  function NewTeams(room: Room): (s: Step)
    ensures s.room == room.(currentTeam := room.currentTeam + 1)
    ensures s.reply.ShowTeams? <==> room.currentTeam + 1 < |room.teams|
    ensures s.reply.ShowTeams? ==> s.reply.shown == room.teams[room.currentTeam + 1]
    ensures !s.reply.ShowTeams? ==> s.reply == NothingShown
  {
    var next := room.currentTeam + 1;
    Step(room.(currentTeam := next),
         if next < |room.teams| then ShowTeams(room.teams[next]) else NothingShown)
  }

  /** `choose`: commits the candidate under the cursor as the match, by the
      identities of its players. With the cursor past the last candidate the
      lookup raises and nothing changes. */
  function Choose(room: Room): (s: Step)
    ensures room.currentTeam >= |room.teams| ==> s == Step(room, Failed)
    ensures room.currentTeam < |room.teams| ==>
            && s.room.team1 == Ids(room.teams[room.currentTeam].team1)
            && s.room.team2 == Ids(room.teams[room.currentTeam].team2)
            && !s.room.gameOver
            && s.reply == HaveFun
    ensures s.room == room.(team1 := s.room.team1, team2 := s.room.team2, gameOver := s.room.gameOver)
  {
    if room.currentTeam >= |room.teams| then Step(room, Failed)
    else
      var c := room.teams[room.currentTeam];
      Step(room.(team1 := Ids(c.team1), team2 := Ids(c.team2), gameOver := false), HaveFun)
  }

  /** Rating change of object `id` when the loop over `plus` raised ratings
      by STEP and the loop over `minus` lowered them by STEP. */
  function Shift(id: nat, plus: set<nat>, minus: set<nat>): int
  {
    (if id in plus then STEP else 0) - (if id in minus then STEP else 0)
  }

  /** Every pool entry with its rating moved by its Shift. */
  function Adjust(ps: seq<Player>, plus: set<nat>, minus: set<nat>): (r: seq<Player>)
    ensures |r| == |ps|
  {
    seq(|ps|, i requires 0 <= i < |ps| => ps[i].(rank := ps[i].rank + Shift(ps[i].id, plus, minus)))
  }

  /** Rating change of object `id` for the reported result `val`. */
  function Gain(val: string, team1: seq<nat>, team2: seq<nat>, id: nat): int
  {
    if val == "1" then Shift(id, Members(team1), Members(team2))
    else if val == "2" then Shift(id, Members(team2), Members(team1))
    else 0
  }

  /** `winner val`: without a match nothing happens. Otherwise '1' (or '2')
      moves the ratings of the winning team's player objects up and the
      losing team's down by STEP; objects no longer in the pool change out of
      sight. Any other value moves no rating. Either way the match is over. */
  function Winner(room: Room, val: string): (s: Step)
    ensures room.gameOver ==> s == Step(room, NoGame)
    ensures !room.gameOver ==> s.room.gameOver && s.reply == GoodGame(val in {"0", "1", "2"})
    ensures s.room == room.(players := s.room.players, gameOver := s.room.gameOver)
    ensures |s.room.players| == |room.players|
    ensures forall i :: 0 <= i < |room.players| ==>
            && s.room.players[i].user == room.players[i].user
            && s.room.players[i].id == room.players[i].id
            && s.room.players[i].rank == room.players[i].rank +
               (if room.gameOver then 0 else Gain(val, room.team1, room.team2, room.players[i].id))
  {
    if room.gameOver then Step(room, NoGame)
    else
      var players :=
        if val == "1" then Adjust(room.players, Members(room.team1), Members(room.team2))
        else if val == "2" then Adjust(room.players, Members(room.team2), Members(room.team1))
        else room.players;
      Step(room.(players := players, gameOver := true), GoodGame(val in {"0", "1", "2"}))
  }

  /** Number of pool entries whose identity is in `s`. */
  function CountIn(ps: seq<Player>, s: set<nat>): nat
  {
    if |ps| == 0 then 0 else (if ps[0].id in s then 1 else 0) + CountIn(ps[1..], s)
  }

  /** With unique identities, CountIn counts the identities of `s` present in the pool. */
  lemma {:induction false} CountInUnique(ps: seq<Player>, s: set<nat>)
    requires UniqueIds(ps)
    ensures CountIn(ps, s) == |s * Members(Ids(ps))|
    decreases |ps|
  {
    if |ps| == 0 {
      assert Members(Ids(ps)) == {};
    } else {
      var u := ps[0].id;
      var rest := Members(Ids(ps[1..]));
      CountInUnique(ps[1..], s);
      HeadIdSplit(ps);
      if u in s {
        assert s * ({u} + rest) == {u} + (s * rest);
      } else {
        assert s * ({u} + rest) == s * rest;
      }
    }
  }

  /** Moving ratings by Shift changes the total by STEP per entry in `plus`
      and by -STEP per entry in `minus`. */
  lemma {:induction false} AdjustSum(ps: seq<Player>, plus: set<nat>, minus: set<nat>)
    ensures RankSum(Adjust(ps, plus, minus)) == RankSum(ps) + STEP * CountIn(ps, plus) - STEP * CountIn(ps, minus)
    decreases |ps|
  {
    if |ps| > 0 {
      assert Adjust(ps, plus, minus)[1..] == Adjust(ps[1..], plus, minus);
      AdjustSum(ps[1..], plus, minus);
    }
  }

  /** A reported result conserves the pool's total rating when both teams
      have all their players in the pool and are of equal size. */
  lemma WinnerConservesRating(room: Room, val: string)
    requires UniqueIds(room.players)
    requires Members(room.team1) <= Members(Ids(room.players))
    requires Members(room.team2) <= Members(Ids(room.players))
    requires |Members(room.team1)| == |Members(room.team2)|
    ensures RankSum(Winner(room, val).room.players) == RankSum(room.players)
  {
    var t1 := Members(room.team1);
    var t2 := Members(room.team2);
    var pool := Members(Ids(room.players));
    CountInUnique(room.players, t1);
    CountInUnique(room.players, t2);
    assert t1 * pool == t1 && t2 * pool == t2;
    AdjustSum(room.players, t1, t2);
    AdjustSum(room.players, t2, t1);
  }
}

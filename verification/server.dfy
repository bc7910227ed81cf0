/** The state of one room: the player pool, the candidate splits being
    browsed with their cursor, and the committed match. */
module Server {
  import opened Players
  import opened Evaluation

  /** One room's state. `team1` and `team2` hold the identities of the
      player objects of the committed match; `gameOver` is true when no match
      awaits a result; `nextId` is the identity the next joining player gets. */
  datatype Room = Room(
    players: seq<Player>,
    teams: seq<TeamCombination>,
    currentTeam: nat,
    team1: seq<nat>,
    team2: seq<nat>,
    gameOver: bool,
    nextId: nat)

  /** A newly created room. */
  function Fresh(): (r: Room)
    ensures Valid(r)
    ensures r.players == [] && r.teams == [] && r.team1 == [] && r.team2 == []
    ensures r.currentTeam == 0 && r.gameOver
  {
    Room([], [], 0, [], [], true, 0)
  }

  /** What every command keeps: at most ten players, one entry per user, each
      entry a distinct object created before `nextId` was handed out. */
  predicate Valid(room: Room)
  {
    && |room.players| <= PARTY_SIZE
    && UniqueUsers(room.players)
    && UniqueIds(room.players)
    && forall i :: 0 <= i < |room.players| ==> room.players[i].id < room.nextId
  }
}

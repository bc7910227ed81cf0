# Team-balancing bot: a Dafny model

A Discord bot that builds fair 5-vs-5 teams for a room of ten players. Each
player joins with a skill tier. The tier maps to a rating. `maketeams` scores
every split of the ten into two teams of five by the difference of the teams'
rating sums. It keeps the twenty fairest splits, shuffles them and shows them
one at a time (`newteams`). `choose` commits one split as the match, and
`winner` moves the ratings of the two teams by a fixed 8 points.

Every 5-subset of the ten is taken as team 1, so each matchup is enumerated
twice, once from each side, with the same score (Search.MirrorEnumerated).
The twenty kept splits can therefore hold the same matchup twice with the
sides swapped, and `newteams` can show it twice.

The model is a set of pure functions over one immutable room record:

| module | file | contents |
|---|---|---|
| `Players` | players.dfy | players, the tier table, rating sums |
| `Subsets` | combinations.dfy | k-subsets in `itertools.combinations` order, and complements |
| `Evaluation` | evaluation.dfy | a split and its fairness score |
| `Ranking` | ranking.dfy | stable sort, top-k, and the shuffle |
| `Search` | search.dfy | the candidate pipeline of `maketeams` |
| `Server` | server.dfy | the room record and its invariant |
| `Commands` | commands.dfy | one transition per bot command |
| `Bot` | bot.dfy | a command dispatcher, the invariant over any run, and end-to-end guarantees of a round |

Every command returns the next room together with the kind of reply it sends.

How the model reads the code:

- Player objects carry an identity (`id`), which `join` hands out. The committed match holds the identities of its players, as the code holds the objects. So `winner` moves exactly the ratings of the objects that were split into the match. A player who left keeps their old object, and that object's change is not visible in the pool.
- A command whose body raises before changing anything sends nothing and changes nothing. The model replies `Failed` in that case:
  - `bump` by a user not in the pool (an unbound local);
  - `choose` with the cursor past the last candidate (an index out of range).
- `maketeams` can also raise, in the middle of the enumeration, when a float power overflows. That case is not modelled; see Commands.MakeTeams under "Left out".
- `reset` empties the pool only. It keeps the candidates, the cursor and the committed match.
- `maketeams` clears the candidates and the cursor before it checks the pool size.
- `winner` with a value other than `'0'`, `'1'` or `'2'` reports the invalid value. It then still ends the match and replies as for a valid result, without moving any rating. The model keeps this behaviour (`GoodGame(false)`). It looks unintended, since the handler has no `return` after the invalid-value message.

## Model

| member | source | states |
|---|---|---|
| Players.IndexOf | main.py:161-165 | the position found holds the user's entry, and no earlier entry has that handle |
| Players.TierLadder | main.py:26-39 | the tier table names exactly the twelve tiers; every rating lies between 640 and 1110, and each tier rates higher than the one below it |
| Players.RankSumAppend | main.py:54-55 | the rating sum of two lists joined is the sum of their rating sums |
| Players.RankSumUpdate | main.py:163 | changing one entry's rating changes the pool total by exactly that change |
| Subsets.Combinations | main.py:108 | every enumerated subset has exactly k elements |
| Subsets.CombinationsOrdered | main.py:108 | the enumeration is in lexicographic order of pool positions: of two enumerated subsets, the earlier one holds, at the first place where they differ, the player who comes earlier in the pool |
| Subsets.CombinationsCount | main.py:108 | the enumeration has C(n, k) entries |
| Subsets.BinomialTenFive | main.py:105-108 | C(10, 5) = 252 |
| Subsets.CombinationsAreSubsequences | main.py:108 | every enumerated subset keeps the pool order |
| Subsets.CombinationsComplete | main.py:108 | every order-preserving choice of k elements is enumerated |
| Subsets.CombinationsDistinct | main.py:108 | on a pool without repeats no subset is enumerated twice |
| Subsets.Complement | main.py:109 | team 2 keeps the pool order and holds exactly the pool players that are not in team 1 |
| Subsets.ComplementSplits | main.py:109 | team 2 has the remaining count of players, and the two teams together are the pool as a multiset |
| Subsets.DoubleComplement | main.py:109 | on a pool without repeats, the complement of team 2 is team 1 again |
| Evaluation.Evaluate | main.py:53-57 | the score is the distance between the two rating sums; it is 0 exactly when the sums are equal |
| Evaluation.EvaluateSymmetric | main.py:53-57 | swapping the teams does not change the score |
| Evaluation.EvaluateMonotone | main.py:110 | a larger gap between the rating sums never gets a better score |
| Evaluation.SplitRankSum | main.py:108-110 | a split shares out the pool's total rating between its two teams |
| Evaluation.SplitEvaluation | main.py:108-110 | for a fixed pool a split's score is the distance of twice team 1's sum from the pool total |
| Ranking.StableOrder | main.py:112 | the sort lists every enumeration position once, ordered by score with ties in enumeration order |
| Ranking.OrderedUnique | main.py:112 | only one list of the same positions is ordered that way, so the stable sort's result is determined |
| Ranking.KeptBeforeDropped | main.py:112-113 | everything the slice keeps comes before everything it drops: lower or equal score, and enumerated earlier on a tie |
| Ranking.Permute | main.py:114 | the shuffle keeps the length of the kept list |
| Ranking.PermuteSameElements | main.py:114 | the shuffle keeps exactly the kept candidates and adds no repeats |
| Search.PresentKeepsBest | main.py:112-114 | for any candidate list, each presented candidate scores at most each discarded one, and beats a discarded equal score by enumeration order |
| Search.Candidates | main.py:108-111 | one candidate is built per enumerated 5-subset (what each candidate is: Search.CandidateIsPartition) |
| Search.CandidateCount | main.py:108-111 | a full pool yields exactly 252 candidates |
| Search.CandidateIsPartition | main.py:108-111 | each candidate is a 5-subset in pool order against the other five in pool order; the teams are disjoint, their union is the pool, and the score is that of the split |
| Search.MirrorEnumerated | main.py:108-111 | for every candidate another candidate has the two teams swapped and the same score, so every matchup is enumerated twice |
| Search.Generate | main.py:113 | the stored list has twenty entries (which ones: Search.GenerateShown, Search.ShownAreKept, Search.GenerateKeepsBest) |
| Search.GenerateShown | main.py:112-114 | each stored candidate is the enumerated candidate at its shown position |
| Search.ShownAreKept | main.py:112-114 | the stored candidates are exactly the twenty the slice keeps, each stored once |
| Search.GenerateKeepsBest | main.py:112-114 | every stored candidate scores at most every discarded one; a discarded candidate with an equal score was enumerated later |
| Search.GenerateDistinct | main.py:108-114 | no (team 1, team 2) record is stored twice; the same matchup with the sides swapped is a different record and can be stored too |
| Search.GeneratePartitions | main.py:108-114 | every stored candidate is a 5/5 partition of the ten players |
| Commands.Join | main.py:60-75 | joining rejects, in this order, a handle already present, an unknown tier and a full pool; otherwise it appends one new player with the tier's rating and a fresh identity |
| Commands.Reset | main.py:78-81 | the pool is emptied; candidates, cursor and match stay as they were |
| Commands.ListPlayers | main.py:95-97 | the pool is listed in join order and nothing changes |
| Commands.RemoveUser | main.py:171-175 | without a matching entry the pool is unchanged; otherwise exactly one entry goes and the rest keep their order |
| Commands.RemoveUserUnique | main.py:171-175 | with unique handles, exactly the user's entry goes and every other entry stays |
| Commands.Leave | main.py:169-176 | the caller's entry leaves the pool if present; the reply is always the same |
| Commands.Kick | main.py:179-190 | the named entry leaves the pool; the reply says kicked exactly when it was present |
| Commands.Bump | main.py:158-166 | the caller's rating rises by 8, the pool total rises by 8 and no other entry changes; without an entry nothing changes |
| Commands.MakeTeams | main.py:100-115 | the cursor is 0 and the candidates are cleared first; without exactly ten players nothing else happens; otherwise twenty generated candidates are stored and the first is shown |
| Commands.NewTeams | main.py:118-124 | the cursor always advances by one; a candidate is shown exactly when the new cursor is in range |
| Commands.Choose | main.py:127-133 | the candidate under the cursor becomes the match and the game is on; past the end nothing changes |
| Commands.Winner | main.py:136-155 | without a match nothing changes; otherwise each pool entry moves by +8 if its object is on the reported winning team and by -8 if it is on the losing team, handles and identities stay, and the match is over |
| Commands.AdjustSum | main.py:144-153 | the rating moves change the pool total by 8 per winning entry and -8 per losing entry |
| Commands.WinnerConservesRating | main.py:144-153 | with both teams fully in the pool and of equal size, a result leaves the pool's total rating unchanged |
| Bot.Apply | main.py:60-190 | a failed command changes nothing, and only a successful join hands out a new identity |
| Server.Fresh | server.py:31-49 | a new room has an empty pool, no candidates, cursor 0, no committed match and no game in progress, and it satisfies the room invariant |
| Bot.FreshRoom | server.py:43-49 | a new room has an empty pool, no candidates, cursor 0 and no match; it satisfies the invariant, and any reported result is ignored |
| Bot.JoinValid | main.py:60-75 | joining never takes the pool past ten and keeps handles and identities unique |
| Bot.ApplyValid | main.py:60-190 | every command keeps the room invariant: at most ten players, unique handles, unique identities |
| Bot.RunValid | main.py:60-190 | any sequence of commands from a valid room ends in a valid room |
| Bot.JoinThenLeave | main.py:60-176 | leaving right after a successful join restores the pool |
| Bot.Browse | main.py:118-122 | n successive `newteams` advance the cursor by n and change nothing else |
| Bot.BrowseShowsEachOnce | main.py:100-124 | after `maketeams`, successive `newteams` show the stored candidates in order, each once, then nothing |
| Bot.ChooseSplitsPool | main.py:100-133 | the committed match is two disjoint sets of five players that together are the pool; choosing past the twentieth candidate fails |
| Bot.RoundResult | main.py:100-155 | a full round conserves the total rating and keeps the handles; with '1' or '2' every winner gains 8 and every other player loses 8 |
| Bot.WinnerOnSplit | main.py:136-155 | a result on a match that splits the pool moves each winner by +8 and each loser by -8 and conserves the total |

## Left out

- The Discord transport: the bot object, the command context, message sending and the token lookup (main.py:1-7, 193). Replies are modelled by their kind only, without text.
- `format_players` and every reply string (main.py:84-92). They are display only.
- Evaluation.Evaluate: the code scores a split by the floating-point distance between 0.5 and the logistic win probability of team 1, with base 10 and scale 400 on the difference of the rating sums. The model uses the integer `|sum1 - sum2|` instead. Mathematically the two order splits the same way. The model does not reproduce these floating-point effects, each of which changes which ties the stable sort breaks by enumeration order:
  - rounding could make a gap of `d` and a gap of `-d` score a hair apart, or two close gaps score equal;
  - once the gap passes roughly 6,500 rating points the float score is exactly 0.5, so all such splits tie.
- Commands.MakeTeams: the float power in the win probability (main.py:56) raises OverflowError when team 1's sum exceeds team 2's by more than about 123,300. Ratings have no bound, because `bump` and `winner` keep moving them by 8. When that happens, `maketeams` has already set the cursor to 0 and holds in TEAMS every split enumerated before the overflowing one. That list is unsorted, unshuffled and partial, and no reply is sent. `newteams` and `choose` then browse and commit from it. The model always stores the twenty best splits, sorted and shuffled, and does not model the crash.
- Subsets.Combinations: its own contract states only that each subset has k elements. The enumeration order is stated by Subsets.CombinationsOrdered, the count by Subsets.CombinationsCount, and membership and distinctness by the lemmas after them.
- Search.Candidates: its own contract states only the number of candidates. What each candidate is, is stated by Search.CandidateIsPartition and Search.MirrorEnumerated.
- Search.Generate: its own contract states only the length of the stored list. Its contents are stated by Search.GenerateShown, Search.ShownAreKept, Search.GenerateKeepsBest and Search.GeneratePartitions.
- `random.shuffle` (main.py:114): its result is the `shuffle` parameter. Any permutation of the twenty positions is allowed.
- The module-level globals (main.py:41-50) become one `Room` record, which each command receives and returns.
- Shared objects inside stored candidates: in the code a later `bump` or result also changes the ratings shown by candidates still stored. The model's candidates are value copies, so only the reply text would differ. Scores are never recomputed in either.
- Player equality: the code compares players by handle and rating. That happens in `x not in combo` and in `list.remove`. The model compares whole entries, including identity. The two agree on pools with unique handles, which every reachable room has (Bot.RunValid).

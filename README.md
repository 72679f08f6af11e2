# Tournament bracket engine of the leaguehub match service

This project models the bracket logic of `MatchService`, the match
service of the leaguehub backend. It covers one channel, which is one
tournament. The model has six modules:

- **RoundPlan** (`RoundPlan.dfy`) creates the empty match skeleton when a
  channel is made. While at least eight players remain, it creates one
  match per eight players for the current round, named "Group A",
  "Group B", and so on. The name is `(char)(64 + i)`, with no cap at 26.
  Then the player count halves and the round number goes up by one.
  The module also maps a channel capacity to its round list `[1..k]` by
  looking the capacity up in `[0, 8, 16, 32, 64, 128, 256]`.
- **Assignment** (`Assignment.dfy`) is the literal dealing loop that
  fills a round's matches from a shuffled player list. Each match gets the
  quotient of players per match, plus one while the `remainingPlayers`
  counter is positive. The counter drops once per placed player, not once
  per match, so for some list lengths the tail of the list is never
  placed.
- **Elimination** (`Elimination.dfy`) is the pass that runs before a
  round is assigned. It walks each match's players in descending score
  order:
  - the first five PROGRESS participants stay in;
  - every other participant met before those five is dropped out;
  - after the fifth survivor, everyone is dropped out except
    DISQUALIFICATION participants.
- **Standings** (`Standings.dfy`) is the score-descending standings of a
  match, numbered by standard competition ranking (1, 2, 2, 4).
- **Service** (`MatchService.dfy`) is the class `MatchService`. Its state
  is the channel's matches, match players and participants. Its methods
  are the service's loops and its state changes: skeleton creation,
  live-round detection, the round list, the elimination pass, the dealing
  loop and the orchestrating `MatchAssignment`.
- **MatchTypes** (`MatchTypes.dfy`) holds the entities, statuses and
  errors. There is one error constructor per exception the service
  throws; an ArithmeticException from division by zero is `DivisionByZero`.

Each method is proved against a specification function in the module
that models that part of the service.
The properties are proved about those functions.

How the source's collaborators are represented:

- The repository queries become state and parameters. The matches of a
  round are a list of match indices (`RoundMatchList`). A match's
  by-score player list is a list of match-player indices (`ScoreOrder`).
- `Collections.shuffle` is a function parameter that must be a
  permutation on every input.
- The current member is an `Option<Role>`: `None` means a member who is
  not a participant of the channel.
- A failing `matchAssignment` leaves the state as it was, which is what
  the class-level `@Transactional` rollback gives.
- A group name is a sequence of UTF-16 code units, so that the
  truncating `(char)` cast can be written out (`CharCast`).

The model follows `MatchService.java` as written, including these
behaviours:

- Not every player is placed (see `Assignment.Assign`).
- Survival at fifth place is cut by position in the by-score order, not
  widened for ties.
- Group names carry on past "Group Z" with `[`, `\`, `]`, `^`, `_` and
  `` ` ``.
- An unknown capacity raises ChannelNotFound; there is no separate
  invalid-capacity error.
- The player threshold compares with 75% of the round *number*
  (`4 * size < 3 * matchRound`), not of a round capacity.

## Model

| member | source | states |
|---|---|---|
| MatchTypes.JavaDiv | src/main/java/leaguehub/leaguehubbackend/service/match/MatchService.java:161 | Java's `/` by a positive divisor rounds toward zero: the remainder a - b * r lies in [0, b) for a >= 0 and in (-b, 0] for a < 0 |
| MatchTypes.CharCast | src/main/java/leaguehub/leaguehubbackend/service/match/MatchService.java:164 | Java's `(char)` cast: the result agrees with the int modulo 2^16, and equals it when the int is a code unit |
| RoundPlan.GroupName | src/main/java/leaguehub/leaguehubbackend/service/match/MatchService.java:164 | definition: "Group " followed by `(char)(64 + i)`; its value is stated by GroupNameLetter and GroupNamesPastZ |
| RoundPlan.TableCount | src/main/java/leaguehub/leaguehubbackend/service/match/MatchService.java:161 | the table loop's bound: 0 below eight players, otherwise the largest r >= 1 with 8 * r <= players |
| RoundPlan.RoundMatches | src/main/java/leaguehub/leaguehubbackend/service/match/MatchService.java:163-167 | a round with `n` tables gets exactly `n` matches; the i-th, counting from 0, belongs to that round, is named GroupName(i + 1) and has the initial status |
| RoundPlan.RoundSkeleton | src/main/java/leaguehub/leaguehubbackend/service/match/MatchService.java:58-66 | definition: the matches of every round created while at least eight players remain, halving the count each round; SkeletonRound states what each round holds |
| RoundPlan.RoundSizes | src/main/java/leaguehub/leaguehubbackend/service/match/MatchService.java:62-63 | every created round has at least one match |
| RoundPlan.IndexOf | src/main/java/leaguehub/leaguehubbackend/service/match/MatchService.java:137 | `List.indexOf`: -1 exactly when the value is absent, otherwise its first position |
| RoundPlan.CalculateRoundList | src/main/java/leaguehub/leaguehubbackend/service/match/MatchService.java:134-146 | succeeds exactly for capacities in [0, 8, ..., 256]; otherwise ChannelNotFound; the list is 1, 2, ..., k and exactly as long as the number of rounds the skeleton creates |
| RoundPlan.SkeletonRound | src/main/java/leaguehub/leaguehubbackend/service/match/MatchService.java:58-66 | round q of the skeleton holds exactly RoundSizes[q - 1] matches, named Group 1, 2, ... in creation order; rounds outside the created range hold none |
| RoundPlan.HalvedStaysSmall | src/main/java/leaguehub/leaguehubbackend/service/match/MatchService.java:62-64 | once fewer than eight players remain, halving never reaches eight again |
| RoundPlan.RoundSizesHalve | src/main/java/leaguehub/leaguehubbackend/service/match/MatchService.java:58-66 | round j + 1 exists exactly when the count after j halvings is at least 8, and it has that count / 8 matches |
| RoundPlan.PowerOfTwoCapacity | src/main/java/leaguehub/leaguehubbackend/service/match/MatchService.java:58-66 | capacity 8 * 2^k creates k + 1 rounds with 2^k, 2^(k-1), ..., 1 matches, so every supported capacity ends with a single-match round |
| RoundPlan.SmallChannelCreatesNothing | src/main/java/leaguehub/leaguehubbackend/service/match/MatchService.java:62 | fewer than eight players create no round and no match |
| RoundPlan.Capacity64 | src/main/java/leaguehub/leaguehubbackend/service/match/MatchService.java:58-66 | 64 players give rounds of 8, 4, 2 and 1 matches |
| RoundPlan.KnownCapacity | src/main/java/leaguehub/leaguehubbackend/service/match/MatchService.java:135 | the known capacities after 0 are 8 * 2^k |
| RoundPlan.RoundListLength | src/main/java/leaguehub/leaguehubbackend/service/match/MatchService.java:134-146 | for a known capacity, the number of created rounds equals the capacity's position in the list (0 gives none) |
| RoundPlan.RoundListNamesCreatedRounds | src/main/java/leaguehub/leaguehubbackend/service/match/MatchService.java:134-146 | a round number is in the round list exactly when the skeleton has matches for that round |
| RoundPlan.GroupNameLetter | src/main/java/leaguehub/leaguehubbackend/service/match/MatchService.java:164 | group i is "Group " followed by the character with code 64 + i, so groups 1 to 26 are "Group A" to "Group Z" |
| RoundPlan.GroupNamesPastZ | src/main/java/leaguehub/leaguehubbackend/service/match/MatchService.java:163-164 | from 256 players on, the first round has at least 32 matches, and groups 27 to 32 are named with the characters after 'Z' ("Group [" ... "Group `") |
| Assignment.DealSizes | src/main/java/leaguehub/leaguehubbackend/service/match/MatchService.java:207-215 | one size per match: base plus one while the counter is positive, the counter dropping by that size; DealSizesShape and DealFits state its shape and sum |
| Assignment.Block | src/main/java/leaguehub/leaguehubbackend/service/match/MatchService.java:209-216 | definition: the match players the inner loop creates for one match, the next `size` list players with score 0; DealBlock is proved to append exactly these |
| Assignment.Deal | src/main/java/leaguehub/leaguehubbackend/service/match/MatchService.java:206-216 | definition: the blocks of all matches in order, each from what is left of the list; DealPlacesPrefix, DealAvoids and DealCountPerMatch state what it places |
| Assignment.Assign | src/main/java/leaguehub/leaguehubbackend/service/match/MatchService.java:197-218 | the dealing never reads past the list; match player j is list player j with score 0, so a prefix is placed in order; every placement goes into a listed match; the whole list is placed exactly when total % count <= 1 or total / count == 0 |
| Assignment.DealFits | src/main/java/leaguehub/leaguehubbackend/service/match/MatchService.java:202-215 | the loop places at most count * base plus the positive remainder, and exactly that many exactly when the remainder is at most one or base is 0 |
| Assignment.DealPlacesPrefix | src/main/java/leaguehub/leaguehubbackend/service/match/MatchService.java:206-216 | one match player per dealt place; the j-th is the j-th list player with score 0 and goes to one of the matches |
| Assignment.DealSizesShape | src/main/java/leaguehub/leaguehubbackend/service/match/MatchService.java:202-215 | every match gets base or base + 1 players (so sizes differ by at most one); sizes never grow along the match list; the first match gets base + 1 exactly when the remainder is positive |
| Assignment.NoRemainderAllBase | src/main/java/leaguehub/leaguehubbackend/service/match/MatchService.java:207 | once the counter is not positive, every further match gets base players |
| Assignment.DealAvoids | src/main/java/leaguehub/leaguehubbackend/service/match/MatchService.java:206-212 | a match outside the list receives nobody |
| Assignment.DealCountPerMatch | src/main/java/leaguehub/leaguehubbackend/service/match/MatchService.java:206-216 | with distinct matches, the k-th match receives exactly the k-th dealt size |
| Assignment.DealWithinList | src/main/java/leaguehub/leaguehubbackend/service/match/MatchService.java:200-203 | quotient and remainder of the division are in range, and the places dealt never exceed the players |
| Assignment.ElevenOverThree | src/main/java/leaguehub/leaguehubbackend/service/match/MatchService.java:202-215 | 11 players over 3 matches are dealt 4, 3 and 3, so only 10 are placed |
| Elimination.DropOutParticipant | src/main/java/leaguehub/leaguehubbackend/service/match/MatchService.java:311 | definition: the participant list with one status set to DropOut; characterised by DropOutEffect |
| Elimination.DropOutEffect | src/main/java/leaguehub/leaguehubbackend/service/match/MatchService.java:311 | the participant's status becomes DropOut, its role stays, the list keeps its length, and every other participant is unchanged |
| Elimination.Outcome | src/main/java/leaguehub/leaguehubbackend/service/match/MatchService.java:309-320 | definition: PROGRESS stays and anything else drops out while fewer than five have been counted; afterwards DISQUALIFICATION stays and anything else drops out; SweepOutcome ties it to the pass |
| Elimination.Sweep | src/main/java/leaguehub/leaguehubbackend/service/match/MatchService.java:306-321 | the pass over one match keeps the participant list's length; SweepOutcome, SweepFrame and MatchOutcome state its effect |
| Elimination.SweepAll | src/main/java/leaguehub/leaguehubbackend/service/match/MatchService.java:303-322 | the pass over every match of the round, each from a fresh counter, keeps the participant list's length; SweepAllAt and SweepAllOutside state its effect |
| Elimination.SweepOnlyDropsOut | src/main/java/leaguehub/leaguehubbackend/service/match/MatchService.java:308-321 | the pass never changes a role, and any status it changes becomes DropOut |
| Elimination.SweepStep | src/main/java/leaguehub/leaguehubbackend/service/match/MatchService.java:308-320 | one iteration: the listed player takes its outcome for the current counter, nobody else changes, and the counter goes up exactly for a PROGRESS player met before five |
| Elimination.SweepFrame | src/main/java/leaguehub/leaguehubbackend/service/match/MatchService.java:308-321 | an unlisted participant is unchanged |
| Elimination.SweepFrameAll | src/main/java/leaguehub/leaguehubbackend/service/match/MatchService.java:308-321 | every unlisted participant is unchanged |
| Elimination.OutcomeSaturates | src/main/java/leaguehub/leaguehubbackend/service/match/MatchService.java:309 | a participant's outcome depends only on whether fewer than five PROGRESS participants came before it |
| Elimination.SweepOutcomeAt | src/main/java/leaguehub/leaguehubbackend/service/match/MatchService.java:306-321 | for a by-score list that names each participant once: the k-th listed participant ends as Outcome(its old state, counter + PROGRESS participants listed before it) |
| Elimination.SweepOutcome | src/main/java/leaguehub/leaguehubbackend/service/match/MatchService.java:306-321 | for a by-score list that names each participant once: the same, for every listed position at once |
| Elimination.MatchOutcome | src/main/java/leaguehub/leaguehubbackend/service/match/MatchService.java:306-321 | for a by-score list that names each participant once: from a fresh counter, a participant is still PROGRESS exactly when it was and fewer than five came before; before that point non-PROGRESS (DISQUALIFICATION included) is dropped out; after it everything but DISQUALIFICATION is dropped out and DISQUALIFICATION is unchanged; roles never change |
| Elimination.SurvivorCount | src/main/java/leaguehub/leaguehubbackend/service/match/MatchService.java:306-321 | for a by-score list that names each participant once: after the pass a match has min(5, PROGRESS before) PROGRESS participants |
| Elimination.SweepLocal | src/main/java/leaguehub/leaguehubbackend/service/match/MatchService.java:303-321 | for a by-score list that names each participant once: the pass over a match depends only on that match's participants |
| Elimination.SweepIdempotent | src/main/java/leaguehub/leaguehubbackend/service/match/MatchService.java:306-321 | for a by-score list that names each participant once: re-running the pass on the same ordering changes nothing |
| Elimination.SweepAllAt | src/main/java/leaguehub/leaguehubbackend/service/match/MatchService.java:303-306 | for by-score lists that name each participant once across the round: the counter restarts for each match, so a participant of match i ends as the pass over match i alone leaves it |
| Elimination.SweepAllOutside | src/main/java/leaguehub/leaguehubbackend/service/match/MatchService.java:302-324 | for by-score lists that name each participant once across the round: a participant listed in no match of the round is untouched |
| Elimination.SweepAllIdempotent | src/main/java/leaguehub/leaguehubbackend/service/match/MatchService.java:302-324 | for by-score lists that name each participant once across the round: re-running the pass over the whole round with the same orderings changes nothing |
| Elimination.RepeatedEntrantBreaksIdempotence | src/main/java/leaguehub/leaguehubbackend/service/match/MatchService.java:306-321 | the once-per-list condition cannot be dropped: a list naming a PROGRESS participant twice, with a DISQUALIFICATION participant last, is left unchanged at that last participant by one pass and dropped out by a second |
| Standings.Insert | src/main/java/leaguehub/leaguehubbackend/service/match/MatchService.java:291 | insertion adds exactly the new line to the multiset of lines |
| Standings.InsertSorted | src/main/java/leaguehub/leaguehubbackend/service/match/MatchService.java:291 | insertion into a score-descending list keeps it score-descending and one longer |
| Standings.SortByScoreDesc | src/main/java/leaguehub/leaguehubbackend/service/match/MatchService.java:291 | the sort's result is score-descending and a permutation of its input |
| Standings.ConvertMatchPlayerInfoList | src/main/java/leaguehub/leaguehubbackend/service/match/MatchService.java:283-292 | one standings line per match player, scores non-increasing, a permutation of the players' lines |
| Standings.InsertStable | src/main/java/leaguehub/leaguehubbackend/service/match/MatchService.java:291 | insertion keeps the order of the lines with any given score, the new line first |
| Standings.SortStable | src/main/java/leaguehub/leaguehubbackend/service/match/MatchService.java:291 | the sort is stable: lines with equal scores keep their input order |
| Standings.RankedStandings | src/test/java/leaguehub/leaguehubbackend/service/match/MatchServiceScoreTest.java:175 | one ranked line per match player |
| Standings.Rank | src/test/java/leaguehub/leaguehubbackend/service/match/MatchServiceScoreTest.java:177-180 | one rank per entry; RankIsCompetitionRanking states that each is 1 + the number of strictly greater scores |
| Standings.RankIsCompetitionRanking | src/test/java/leaguehub/leaguehubbackend/service/match/MatchServiceScoreTest.java:177-180 | on a score-descending list, each rank is 1 + the number of strictly greater scores |
| Standings.RankedStandingsRanks | src/test/java/leaguehub/leaguehubbackend/service/match/MatchServiceScoreTest.java:177-180 | each ranked line carries the sorted standings line at its position, and its rank is 1 + the number of strictly higher scores in the match |
| Standings.RankProperties | src/test/java/leaguehub/leaguehubbackend/service/match/MatchServiceScoreTest.java:177-179 | the first entry is ranked 1, equal scores share a rank, and a strictly higher score has a strictly smaller rank |
| Standings.RankingTestFixture | src/test/java/leaguehub/leaguehubbackend/service/match/MatchServiceScoreTest.java:177-180 | four players scoring 1, 2, 2, 3 give four lines with scores 3, 2, 2, 1 and ranks 1, 2, 2, 4 |
| Service.CheckRoleHost | src/main/java/leaguehub/leaguehubbackend/service/match/MatchService.java:178-182 | passes exactly for HOST; otherwise InvalidParticipantAuth |
| Service.CheckHost | src/main/java/leaguehub/leaguehubbackend/service/match/MatchService.java:294-300 | passes exactly for a channel participant who is HOST; a non-participant or any other role gets InvalidParticipantAuth |
| Service.EligiblePlayers | src/main/java/leaguehub/leaguehubbackend/service/match/MatchService.java:190-191 | definition: the PLAYER/PROGRESS participants; EligiblePlayersSpec states its contents |
| Service.EligiblePlayersSpec | src/main/java/leaguehub/leaguehubbackend/service/match/MatchService.java:190-191 | the PLAYER/PROGRESS query returns exactly those participants, each once; the query fixes no order, and the model's list is in increasing id order, which is harmless because the list is shuffled before use |
| Service.LiveRound | src/main/java/leaguehub/leaguehubbackend/service/match/MatchService.java:148-157 | definition: the last listed round with a PROGRESS match, or 0; LiveRoundSpec characterises it |
| Service.AfterElimination | src/main/java/leaguehub/leaguehubbackend/service/match/MatchService.java:100-101 | definition: the optional elimination step of an assignment, keeping the participant count; its effect is stated by AfterEliminationEffect, SweepAllAt, SweepAllOutside and MatchAssignment's contract |
| Service.AfterEliminationEffect | src/main/java/leaguehub/leaguehubbackend/service/match/MatchService.java:100-101 | for by-score lists that name each participant once across the round: when the capacity differs from the round number, the participant at position k of a match's list ends as the per-position rule gives after the PROGRESS participants before it; when they are equal it keeps its state; a participant in no match of the round is unchanged either way |
| Service.LiveRoundSpec | src/main/java/leaguehub/leaguehubbackend/service/match/MatchService.java:148-157 | 0 when no listed round has a PROGRESS match; otherwise a listed round with one, and no later listed round has one |
| Service.NoPlayerPlacedTwice | src/main/java/leaguehub/leaguehubbackend/service/match/MatchService.java:197-218 | after shuffling the eligible list, the dealing never places a participant twice |
| Service.FirstDealRoundLists | src/main/java/leaguehub/leaguehubbackend/service/match/MatchService.java:95-106 | when the round's matches held no match player before a dealing of the shuffled PLAYER/PROGRESS participants, the by-score lists of those matches name each participant once across the round, so the elimination properties above apply to the next pass over the round |
| Service.DealtRoundLists | src/main/java/leaguehub/leaguehubbackend/service/match/MatchService.java:197-218 | when the match players from some position on name distinct participants below the participant count, and no match player before that position sits in the round's matches, the by-score lists of the round's matches are in range, name no participant twice and are pairwise disjoint |
| Service.PermutationInRange | src/main/java/leaguehub/leaguehubbackend/service/match/MatchService.java:198 | the shuffled list holds only participants of the channel |
| Service.ThresholdIsExact | src/main/java/leaguehub/leaguehubbackend/service/match/MatchService.java:193 | `size < matchRound * 0.75` is exactly `4 * size < 3 * matchRound` |
| Service.MatchService.CreateSubMatches | src/main/java/leaguehub/leaguehubbackend/service/match/MatchService.java:58-66 | appends exactly RoundSkeleton(maxPlayers, 1) to the matches and keeps the state valid |
| Service.MatchService.CreateSubMatchesForRound | src/main/java/leaguehub/leaguehubbackend/service/match/MatchService.java:159-170 | appends the round's TableCount matches, Group 1, 2, ... in order, and returns the player count halved with Java division |
| Service.MatchService.FindLiveRound | src/main/java/leaguehub/leaguehubbackend/service/match/MatchService.java:148-157 | returns LiveRound: 0 if no listed round is live, otherwise the last listed live round |
| Service.MatchService.GetRoundList | src/main/java/leaguehub/leaguehubbackend/service/match/MatchService.java:74-87 | fails with ChannelNotFound exactly for an unknown capacity; otherwise returns CalculateRoundList and the live round over it |
| Service.MatchService.GetParticipantList | src/main/java/leaguehub/leaguehubbackend/service/match/MatchService.java:189-195 | fails with MatchNotEnoughPlayer exactly when fewer than 75% of the round number are eligible; otherwise returns exactly the PLAYER/PROGRESS participants |
| Service.MatchService.SweepMatch | src/main/java/leaguehub/leaguehubbackend/service/match/MatchService.java:306-321 | the participants become Sweep(entrants, old participants, 0); only participants change, so scores are untouched |
| Service.MatchService.CheckUpdateScore | src/main/java/leaguehub/leaguehubbackend/service/match/MatchService.java:302-324 | the participants become SweepAll over the round's by-score lists; only participants change |
| Service.MatchService.AssignSubMatches | src/main/java/leaguehub/leaguehubbackend/service/match/MatchService.java:197-218 | an empty match list fails with DivisionByZero and changes nothing; otherwise Assign(matches, shuffled list) is appended to the match players, and the state stays valid |
| Service.MatchService.DealPlayers | src/main/java/leaguehub/leaguehubbackend/service/match/MatchService.java:200-217 | the outer dealing loop appends exactly Assign(matches, players) |
| Service.MatchService.DealBlock | src/main/java/leaguehub/leaguehubbackend/service/match/MatchService.java:209-216 | the inner loop appends the next `size` players to match `m`, in list order, with score 0 |
| Service.MatchService.MatchAssignment | src/main/java/leaguehub/leaguehubbackend/service/match/MatchService.java:95-106 | a non-host fails with InvalidParticipantAuth; elimination runs exactly when capacity != round; MatchNotEnoughPlayer exactly when 4 * eligible-after-elimination < 3 * round; an empty match list fails on the division; a failure changes nothing; success deals the shuffled PLAYER/PROGRESS participants read after elimination |

## Left out

- The repositories and the Spring wiring are not modelled. `save` is an append to the class's sequences. The `find...` queries are the ordering preconditions `RoundMatchList` and `ScoreOrders`.
- Service.MatchService.MatchAssignment: the match list may come in any order of the round's matches. The query orders it by match name, and that name order is not modelled.
- Elimination.SweepIdempotent, Elimination.SweepAllIdempotent, Elimination.MatchOutcome, Elimination.SurvivorCount and the other per-position elimination lemmas need by-score lists that name each participant once. The source does not enforce this: a second assignment of a round whose matches are already filled lists participants again. FirstDealRoundLists shows the condition holds after the first dealing into empty matches, and RepeatedEntrantBreaksIdempotence shows the properties fail without it.
- Service.EligiblePlayers: the PLAYER/PROGRESS query has no ORDER BY, so the source fixes no order. The model takes increasing id order; the shuffle that follows may be any permutation, so no property depends on it.
- Service.MatchService.CheckUpdateScore: within equal scores, the by-score order is any order. The database's tie order is not modelled.
- `@Transactional` rollback is not modelled as a transaction. A failing `MatchAssignment` restores the participants, and no match player has been added by then.
- `Collections.shuffle` randomness is not modelled. The shuffle is a parameter that must be a permutation.
- `memberService.findCurrentMember` and the security context are not modelled. The caller is given as an `Option<Role>`.
- `getChannel` failing for an unknown channel link is not modelled. The class holds one existing channel, so `GetRoundList` fails only for an unknown capacity.
- The DTO assembly is not modelled because it is field copying: `createMatchInfoDto`, `createMatchPlayerInfoList`, `getMatchInfo`, `convertMatchInfoDto` and `loadMatchPlayerList`. `findMyRoundName` is left out with them; it depends on `equalsIgnoreCase` case folding.
- The game id, tier and player status copied into a standings line are represented by the participant id (`Standings.MatchPlayerInfo`).
- The floating-point threshold is replaced by the integer comparison. `ThresholdIsExact` proves the two agree.
- MatchQueryService is not part of this model. The rank numbering (`Standings.Rank`) is only as much as the ranking test's assertions fix.
- MatchService.java lacks the closing brace of `convertMatchPlayerInfoList` after line 292. The model ends the method there.
- The Match, MatchPlayer and Participant entities are not part of this model, so three of their behaviours are assumed:
  - a new match has status Ready (`RoundPlan.InitialMatchStatus`);
  - a new match player has score 0;
  - `dropoutParticipantStatus` sets the status to DropOut and does nothing else.
- Participant statuses other than PROGRESS, DISQUALIFICATION and the dropped-out status are folded into `Request`, because the service never compares a status with them.
- Java's 32-bit `int` overflow is not modelled. Capacities, round numbers and list sizes are unbounded integers; divisions of possibly negative values use Java's rounding (`JavaDiv`).
- The other files are not modelled:
  - ChannelBoardService.java is board CRUD;
  - MemberInfoController.java is an HTTP controller;
  - Member.java is an entity without logic;
  - ParticipantInvalidRankException.java is an exception class;
  - ParticipantServiceTest.java covers external game-stat lookups.

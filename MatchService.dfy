/** The match service of one channel: it creates the channel's empty match
    skeleton, reports the round list and the live round, and assigns a
    round: host check, elimination pass, player threshold and the dealing of
    the shuffled players over the round's matches. */
module Service {
  import opened MatchTypes
  import opened RoundPlan
  import opened Assignment
  import opened Elimination

  /** What the round list view carries: the live round and the round list. */
  datatype RoundListView = RoundListView(liveRound: int, roundList: seq<int>)

  // ---------------------------------------------------------------------
  // Pure parts

  /** Only the channel's host may assign a round. */
  function CheckRoleHost(role: Role): (r: Outcome)
    ensures r == Pass <==> role == Host
    ensures r.Fail? ==> r.error == InvalidParticipantAuth
  {
    if role != Host then Fail(InvalidParticipantAuth) else Pass
  }

  /** The host check of the current member: `None` stands for a member who
      is not a participant of the channel. */
  function CheckHost(caller: Option<Role>): (r: Outcome)
    ensures r == Pass <==> caller == Some(Host)
    ensures r.Fail? ==> r.error == InvalidParticipantAuth
  {
    match caller
    case None => Fail(InvalidParticipantAuth)
    case Some(role) => CheckRoleHost(role)
  }

  /** The ids of the channel's PLAYER participants whose status is PROGRESS,
      in id order. */
  function EligiblePlayers(ps: seq<Participant>): seq<ParticipantId>
  {
    if ps == [] then []
    else
      var n := |ps| - 1;
      EligiblePlayers(ps[..n]) + (if ps[n].role == Player && ps[n].status == Progress then [n] else [])
  }

  predicate StrictlyIncreasing(s: seq<ParticipantId>)
  {
    forall i, j :: 0 <= i < j < |s| ==> s[i] < s[j]
  }

  /** The eligible list holds exactly the PLAYER participants with status
      PROGRESS, each once, in increasing id order. */
  lemma {:induction false} EligiblePlayersSpec(ps: seq<Participant>)
    ensures forall x: ParticipantId :: x in EligiblePlayers(ps) <==> x < |ps| && ps[x].role == Player && ps[x].status == Progress
    ensures StrictlyIncreasing(EligiblePlayers(ps))
  {
    if ps != [] {
      var n := |ps| - 1;
      EligiblePlayersSpec(ps[..n]);
      var e := EligiblePlayers(ps[..n]);
      var r := EligiblePlayers(ps);
      assert forall i :: 0 <= i < |e| ==> e[i] < n by {
        forall i | 0 <= i < |e| ensures e[i] < n {
          assert e[i] in e;
        }
      }
      forall x: ParticipantId ensures x in r <==> x < |ps| && ps[x].role == Player && ps[x].status == Progress {
        if x < n {
          assert ps[..n][x] == ps[x];
        }
      }
      forall i, j | 0 <= i < j < |r| ensures r[i] < r[j] {
        if j >= |e| {
          assert r[j] == n && r[i] == e[i];
        } else {
          assert r[i] == e[i] && r[j] == e[j];
        }
      }
    }
  }

  /** Every eligible id is a position in the participant list. */
  lemma {:induction false} EligibleInRange(ps: seq<Participant>)
    ensures forall i :: 0 <= i < |EligiblePlayers(ps)| ==> EligiblePlayers(ps)[i] < |ps|
  {
    EligiblePlayersSpec(ps);
    var e := EligiblePlayers(ps);
    forall i | 0 <= i < |e| ensures e[i] < |ps| {
      assert e[i] in e;
    }
  }

  /** The match list of round `round`: every match of that round, each once,
      in some order (the query orders them by name). */
  predicate RoundMatchList(ms: seq<Match>, round: int, ml: seq<nat>)
  {
    && (forall i :: 0 <= i < |ml| ==> ml[i] < |ms| && ms[ml[i]].round == round)
    && (forall i, j :: 0 <= i < j < |ml| ==> ml[i] != ml[j])
    && (forall j :: 0 <= j < |ms| && ms[j].round == round ==> j in ml)
  }

  /** `o` lists the match players of match `m`, each once, by descending
      score: what the by-score query returns. */
  predicate ScoreOrder(mps: seq<MatchPlayer>, m: nat, o: seq<nat>)
  {
    && (forall i :: 0 <= i < |o| ==> o[i] < |mps| && mps[o[i]].matchIndex == m)
    && (forall i, j :: 0 <= i < j < |o| ==> o[i] != o[j])
    && (forall j :: 0 <= j < |mps| && mps[j].matchIndex == m ==> j in o)
    && (forall i, j :: 0 <= i < j < |o| ==> mps[o[i]].score >= mps[o[j]].score)
  }

  /** `order[k]` is the by-score list of match `ml[k]`. */
  predicate ScoreOrders(mps: seq<MatchPlayer>, ml: seq<nat>, order: seq<seq<nat>>)
  {
    |order| == |ml| && forall k :: 0 <= k < |ml| ==> ScoreOrder(mps, ml[k], order[k])
  }

  /** The participants the elimination pass meets, match by match, in the
      order of the by-score lists. */
  function Entrants(mps: seq<MatchPlayer>, order: seq<seq<nat>>): (r: seq<seq<ParticipantId>>)
    requires forall k :: 0 <= k < |order| ==> forall i :: 0 <= i < |order[k]| ==> order[k][i] < |mps|
    ensures |r| == |order|
    ensures forall k :: 0 <= k < |order| ==> |r[k]| == |order[k]|
  {
    seq(|order|, k requires 0 <= k < |order| =>
      seq(|order[k]|, i requires 0 <= i < |order[k]| => mps[order[k][i]].participant))
  }

  /** The by-score lists name match players, and their participants are
      among the `n` participants. */
  lemma {:induction false} EntrantsInRange(mps: seq<MatchPlayer>, ml: seq<nat>, order: seq<seq<nat>>, n: nat)
    requires ScoreOrders(mps, ml, order)
    requires forall j :: 0 <= j < |mps| ==> mps[j].participant < n
    ensures forall k :: 0 <= k < |order| ==> forall i :: 0 <= i < |order[k]| ==> order[k][i] < |mps|
    ensures forall k :: 0 <= k < |order| ==> InRange(Entrants(mps, order)[k], n)
  {
    forall k | 0 <= k < |order| ensures forall i :: 0 <= i < |order[k]| ==> order[k][i] < |mps| {
      assert ScoreOrder(mps, ml[k], order[k]);
    }
  }

  /** The participants after the optional elimination step of an assignment:
      the pass runs unless the channel's capacity equals the round number,
      which no listed round of a supported capacity does. */
  function AfterElimination(maxPlayer: int, matchRound: int, mps: seq<MatchPlayer>, order: seq<seq<nat>>,
                            ps: seq<Participant>): (r: seq<Participant>)
    requires forall k :: 0 <= k < |order| ==> forall i :: 0 <= i < |order[k]| ==> order[k][i] < |mps|
    requires forall k :: 0 <= k < |order| ==> InRange(Entrants(mps, order)[k], |ps|)
    ensures |r| == |ps|
  {
    if maxPlayer != matchRound then SweepAll(Entrants(mps, order), ps) else ps
  }

  /** The elimination step participant by participant: when the pass runs,
      the one listed at position k of a match's by-score list ends as the
      per-position rule says after the PROGRESS participants before it, and
      every participant in no match of the round keeps its state. */
  lemma {:induction false} AfterEliminationEffect(maxPlayer: int, matchRound: int, mps: seq<MatchPlayer>,
                                                  order: seq<seq<nat>>, ps: seq<Participant>)
    requires forall k :: 0 <= k < |order| ==> forall i :: 0 <= i < |order[k]| ==> order[k][i] < |mps|
    requires RoundLists(Entrants(mps, order), |ps|)
    ensures var lists, r := Entrants(mps, order), AfterElimination(maxPlayer, matchRound, mps, order, ps);
            forall i, k :: 0 <= i < |lists| && 0 <= k < |lists[i]| ==>
              r[lists[i][k]] == if maxPlayer == matchRound then ps[lists[i][k]]
                                else Elimination.Outcome(ps[lists[i][k]], CountProgress(Statuses(lists[i], ps)[..k]))
    ensures var lists, r := Entrants(mps, order), AfterElimination(maxPlayer, matchRound, mps, order, ps);
            forall id :: 0 <= id < |ps| && (forall i :: 0 <= i < |lists| ==> id !in lists[i]) ==> r[id] == ps[id]
  {
    var lists := Entrants(mps, order);
    if maxPlayer != matchRound {
      forall i, k | 0 <= i < |lists| && 0 <= k < |lists[i]|
        ensures SweepAll(lists, ps)[lists[i][k]] == Elimination.Outcome(ps[lists[i][k]], CountProgress(Statuses(lists[i], ps)[..k]))
      {
        SweepAllAt(lists, ps, i, lists[i][k]);
        SweepOutcomeAt(lists[i], ps, 0, k);
      }
      forall id | 0 <= id < |ps| && (forall i :: 0 <= i < |lists| ==> id !in lists[i])
        ensures SweepAll(lists, ps)[id] == ps[id]
      {
        SweepAllOutside(lists, ps, id);
      }
    }
  }

  /** The live round over a round list: the last listed round that has a
      match in progress, or 0. */
  predicate HasLiveMatch(ms: seq<Match>, round: int)
  {
    exists i :: 0 <= i < |ms| && ms[i].round == round && ms[i].status == InProgress
  }

  function LiveRound(ms: seq<Match>, roundList: seq<int>): int
  {
    if roundList == [] then 0
    else
      var last := roundList[|roundList| - 1];
      if HasLiveMatch(ms, last) then last else LiveRound(ms, roundList[..|roundList| - 1])
  }

  /** The live round is 0 when no listed round has a match in progress;
      otherwise it is a listed round with a match in progress and no later
      listed round has one. */
  lemma {:induction false} LiveRoundSpec(ms: seq<Match>, roundList: seq<int>)
    ensures (forall i :: 0 <= i < |roundList| ==> !HasLiveMatch(ms, roundList[i])) ==> LiveRound(ms, roundList) == 0
    ensures (exists i :: 0 <= i < |roundList| && HasLiveMatch(ms, roundList[i])) ==>
              exists i :: 0 <= i < |roundList| && HasLiveMatch(ms, roundList[i]) && LiveRound(ms, roundList) == roundList[i] &&
                forall j :: i < j < |roundList| ==> !HasLiveMatch(ms, roundList[j])
  {
    if roundList != [] {
      var n := |roundList| - 1;
      var p := roundList[..n];
      LiveRoundSpec(ms, p);
      if !HasLiveMatch(ms, roundList[n]) {
        if exists i :: 0 <= i < |roundList| && HasLiveMatch(ms, roundList[i]) {
          var i :| 0 <= i < |roundList| && HasLiveMatch(ms, roundList[i]);
          assert i < n && p[i] == roundList[i];
          var i' :| 0 <= i' < |p| && HasLiveMatch(ms, p[i']) && LiveRound(ms, p) == p[i'] &&
                    forall j :: i' < j < |p| ==> !HasLiveMatch(ms, p[j]);
          assert roundList[i'] == p[i'];
          forall j | i' < j < |roundList| ensures !HasLiveMatch(ms, roundList[j]) {
            if j < n {
              assert p[j] == roundList[j];
            }
          }
        } else {
          forall i | 0 <= i < |p| ensures !HasLiveMatch(ms, p[i]) {
            assert p[i] == roundList[i];
          }
        }
      }
    }
  }

  /** No match player is placed twice: the eligible list has no repeats, the
      shuffle is a permutation, and the dealing places a prefix of it. */
  lemma {:induction false} NoPlayerPlacedTwice(ms: seq<nat>, eligible: seq<ParticipantId>, shuffled: seq<ParticipantId>)
    requires |ms| > 0
    requires StrictlyIncreasing(eligible)
    requires multiset(shuffled) == multiset(eligible)
    ensures forall i, j :: 0 <= i < j < |Assign(ms, shuffled)| ==>
              Assign(ms, shuffled)[i].participant != Assign(ms, shuffled)[j].participant
  {
    IncreasingAtMostOnce(eligible);
    AtMostOnceDistinct(shuffled);
  }

  /** The elimination pass is idempotent only for by-score lists that name
      each participant once (RoundLists), and nothing in the service
      enforces that. It holds for a round whose matches held no match
      player before one successful dealing: every match player of these
      matches then comes from the dealing, and the dealing never places a
      participant twice. */
  lemma {:induction false} FirstDealRoundLists(before: seq<MatchPlayer>, ml: seq<nat>, ps: seq<Participant>,
                                               shuffled: seq<ParticipantId>, order: seq<seq<nat>>)
    requires ml != [] && forall i, j :: 0 <= i < j < |ml| ==> ml[i] != ml[j]
    requires forall j :: 0 <= j < |before| ==> before[j].matchIndex !in ml
    requires multiset(shuffled) == multiset(EligiblePlayers(ps))
    requires ScoreOrders(before + Assign(ml, shuffled), ml, order)
    ensures forall k :: 0 <= k < |order| ==> forall i :: 0 <= i < |order[k]| ==> order[k][i] < |before + Assign(ml, shuffled)|
    ensures RoundLists(Entrants(before + Assign(ml, shuffled), order), |ps|)
  {
    var eligible := EligiblePlayers(ps);
    EligiblePlayersSpec(ps);
    EligibleInRange(ps);
    PermutationInRange(shuffled, eligible, |ps|);
    NoPlayerPlacedTwice(ml, eligible, shuffled);
    var added := Assign(ml, shuffled);
    var mps := before + added;
    forall j | |before| <= j < |mps| ensures mps[j] == added[j - |before|] {
    }
    DealtRoundLists(mps, |before|, ml, order, |ps|);
  }

  /** By-score lists over matches whose match players all come after
      position `b`, where no participant occurs twice, name each participant
      once across the round. */
  lemma {:induction false} DealtRoundLists(mps: seq<MatchPlayer>, b: nat, ml: seq<nat>, order: seq<seq<nat>>, n: nat)
    requires forall i, j :: 0 <= i < j < |ml| ==> ml[i] != ml[j]
    requires b <= |mps| && forall j :: 0 <= j < b ==> mps[j].matchIndex !in ml
    requires forall j, j' :: b <= j < j' < |mps| ==> mps[j].participant != mps[j'].participant
    requires forall j :: b <= j < |mps| ==> mps[j].participant < n
    requires ScoreOrders(mps, ml, order)
    ensures forall k :: 0 <= k < |order| ==> forall i :: 0 <= i < |order[k]| ==> order[k][i] < |mps|
    ensures RoundLists(Entrants(mps, order), n)
  {
    OrdersInRange(mps, ml, order);
    var e := Entrants(mps, order);
    forall k | 0 <= k < |e| ensures InRange(e[k], n) && Distinct(e[k]) {
      forall i | 0 <= i < |e[k]| ensures e[k][i] < n {
        EntrantSource(mps, b, ml, order, k, i);
      }
      forall i, i' | 0 <= i < i' < |e[k]| ensures e[k][i] != e[k][i'] {
        EntrantsInjective(mps, b, ml, order, k, i, k, i');
      }
    }
    forall k, k' | 0 <= k < k' < |e| ensures Disjoint(e[k], e[k']) {
      forall x | x in e[k] ensures x !in e[k'] {
        var i :| 0 <= i < |e[k]| && e[k][i] == x;
        forall i' | 0 <= i' < |e[k']| ensures e[k'][i'] != x {
          EntrantsInjective(mps, b, ml, order, k, i, k', i');
        }
      }
    }
  }

  /** The by-score lists name match players. */
  lemma {:induction false} OrdersInRange(mps: seq<MatchPlayer>, ml: seq<nat>, order: seq<seq<nat>>)
    requires ScoreOrders(mps, ml, order)
    ensures forall k :: 0 <= k < |order| ==> forall i :: 0 <= i < |order[k]| ==> order[k][i] < |mps|
  {
    forall k | 0 <= k < |order| ensures forall i :: 0 <= i < |order[k]| ==> order[k][i] < |mps| {
      assert ScoreOrder(mps, ml[k], order[k]);
    }
  }

  /** Two entries of the round's by-score lists name the same participant
      only when they are the same entry. */
  lemma {:induction false} EntrantsInjective(mps: seq<MatchPlayer>, b: nat, ml: seq<nat>, order: seq<seq<nat>>,
                                             k: nat, i: nat, k': nat, i': nat)
    requires forall i, j :: 0 <= i < j < |ml| ==> ml[i] != ml[j]
    requires b <= |mps| && forall j :: 0 <= j < b ==> mps[j].matchIndex !in ml
    requires forall j, j' :: b <= j < j' < |mps| ==> mps[j].participant != mps[j'].participant
    requires ScoreOrders(mps, ml, order)
    requires forall k :: 0 <= k < |order| ==> forall i :: 0 <= i < |order[k]| ==> order[k][i] < |mps|
    requires k < |order| && i < |order[k]| && k' < |order| && i' < |order[k']|
    ensures Entrants(mps, order)[k][i] == Entrants(mps, order)[k'][i'] ==> k == k' && i == i'
  {
    EntrantSource(mps, b, ml, order, k, i);
    EntrantSource(mps, b, ml, order, k', i');
    var x, x' := order[k][i], order[k'][i'];
    if mps[x].participant == mps[x'].participant {
      assert x == x';
      assert ml[k] == ml[k'];
      assert ScoreOrder(mps, ml[k], order[k]);
    }
  }

  /** A by-score entry names a match player past position `b`, of its own
      match. */
  lemma {:induction false} EntrantSource(mps: seq<MatchPlayer>, b: nat, ml: seq<nat>, order: seq<seq<nat>>, k: nat, i: nat)
    requires b <= |mps| && forall j :: 0 <= j < b ==> mps[j].matchIndex !in ml
    requires ScoreOrders(mps, ml, order)
    requires k < |order| && i < |order[k]|
    ensures b <= order[k][i] < |mps| && mps[order[k][i]].matchIndex == ml[k]
    ensures Entrants(mps, order)[k][i] == mps[order[k][i]].participant
  {
    assert ScoreOrder(mps, ml[k], order[k]);
    OrdersInRange(mps, ml, order);
  }

  lemma {:induction false} IncreasingAtMostOnce(s: seq<ParticipantId>)
    requires StrictlyIncreasing(s)
    ensures forall x :: multiset(s)[x] <= 1
  {
    if s != [] {
      var t := s[1..];
      assert s == [s[0]] + t;
      IncreasingAtMostOnce(t);
      assert s[0] !in t;
    }
  }

  lemma {:induction false} AtMostOnceDistinct(s: seq<ParticipantId>)
    requires forall x :: multiset(s)[x] <= 1
    ensures forall i, j :: 0 <= i < j < |s| ==> s[i] != s[j]
  {
    if s != [] {
      var t := s[1..];
      assert s == [s[0]] + t;
      assert multiset(s) == multiset{s[0]} + multiset(t);
      assert forall x :: multiset(t)[x] <= multiset(s)[x];
      AtMostOnceDistinct(t);
      assert multiset(s)[s[0]] == 1 + multiset(t)[s[0]];
      assert s[0] !in multiset(t);
      forall i, j | 0 <= i < j < |s| ensures s[i] != s[j] {
        if i == 0 {
          assert s[j] == t[j - 1];
        } else {
          assert s[i] == t[i - 1] && s[j] == t[j - 1];
        }
      }
    }
  }

  /** A permutation of ids below `n` holds only ids below `n`. */
  lemma {:induction false} PermutationInRange(a: seq<ParticipantId>, b: seq<ParticipantId>, n: nat)
    requires multiset(a) == multiset(b)
    requires forall i :: 0 <= i < |b| ==> b[i] < n
    ensures forall i :: 0 <= i < |a| ==> a[i] < n
  {
    forall i | 0 <= i < |a| ensures a[i] < n {
      assert a[i] in multiset(b);
      var j :| 0 <= j < |b| && b[j] == a[i];
    }
  }

  /** The threshold compares the list size with 75% of the round number in
      floating point; the product is exact for every `int`, so it is the
      integer comparison 4 * size < 3 * round. */
  lemma {:induction false} ThresholdIsExact(size: nat, matchRound: int)
    ensures (size as real) < (matchRound as real) * 0.75 <==> 4 * size < 3 * matchRound
  {
  }

  // ---------------------------------------------------------------------
  // The service state of one channel

  class MatchService {
    /** The channel's capacity. */
    const maxPlayer: int
    /** The channel's matches, in creation order. */
    var matches: seq<Match>
    /** The channel's match players, in creation order. */
    var matchPlayers: seq<MatchPlayer>
    /** The channel's participants; a participant's id is its position. */
    var participants: seq<Participant>

    /** Every match player refers to an existing participant and match. */
    predicate Valid()
      reads this
    {
      forall j :: 0 <= j < |matchPlayers| ==>
        matchPlayers[j].participant < |participants| && matchPlayers[j].matchIndex < |matches|
    }

    /** Appending the dealt match players of valid matches and participants
        keeps the state valid. */
    lemma ValidAfterAppend(before: seq<MatchPlayer>, ml: seq<nat>, players: seq<ParticipantId>)
      requires ml != []
      requires forall j :: 0 <= j < |before| ==> before[j].participant < |participants| && before[j].matchIndex < |matches|
      requires forall i :: 0 <= i < |ml| ==> ml[i] < |matches|
      requires forall t :: 0 <= t < |players| ==> players[t] < |participants|
      requires matchPlayers == before + Assign(ml, players)
      ensures Valid()
    {
      var added := Assign(ml, players);
      forall j | 0 <= j < |matchPlayers|
        ensures matchPlayers[j].participant < |participants| && matchPlayers[j].matchIndex < |matches|
      {
        if j >= |before| {
          assert matchPlayers[j] == added[j - |before|];
        }
      }
    }

    constructor(maxPlayer: int, participants: seq<Participant>)
      ensures Valid()
      ensures this.maxPlayer == maxPlayer && this.participants == participants
      ensures matches == [] && matchPlayers == []
    {
      this.maxPlayer := maxPlayer;
      this.participants := participants;
      matches := [];
      matchPlayers := [];
    }

    /** Creates the empty match skeleton of a `maxPlayers` channel: round by
        round, while at least eight players remain. */
    method CreateSubMatches(maxPlayers: int)
      requires Valid()
      modifies this`matches
      ensures Valid()
      ensures matches == old(matches) + RoundSkeleton(maxPlayers, 1)
    {
      var currentPlayers := maxPlayers;
      var matchRoundIndex := 1;
      while currentPlayers >= MinPlayersForSubMatch
        invariant Valid()
        invariant old(matches) + RoundSkeleton(maxPlayers, 1) == matches + RoundSkeleton(currentPlayers, matchRoundIndex)
        decreases currentPlayers
      {
        ghost var before, c, round := matches, currentPlayers, matchRoundIndex;
        currentPlayers := CreateSubMatchesForRound(currentPlayers, matchRoundIndex);
        matchRoundIndex := matchRoundIndex + 1;
        ghost var added, rest := RoundMatches(round, TableCount(c)), RoundSkeleton(currentPlayers, matchRoundIndex);
        assert currentPlayers == c / 2;
        assert RoundSkeleton(c, round) == added + rest;
        assert before + (added + rest) == (before + added) + rest;
      }
    }

    /** Creates the matches of one round, "Group A", "Group B", ..., one per
        eight players, and returns the halved player count. */
    method CreateSubMatchesForRound(players: int, matchRoundIndex: int) returns (next: int)
      requires Valid()
      modifies this`matches
      ensures Valid()
      ensures matches == old(matches) + RoundMatches(matchRoundIndex, TableCount(players))
      ensures next == JavaDiv(players, 2)
    {
      var tableCount := JavaDiv(players, MinPlayersForSubMatch);
      var tableIndex := 1;
      while tableIndex <= tableCount
        invariant 1 <= tableIndex <= (if tableCount > 0 then tableCount else 0) + 1
        invariant Valid()
        invariant matches == old(matches) + RoundMatches(matchRoundIndex, tableIndex - 1)
      {
        var groupName := GroupName(tableIndex);
        assert RoundMatches(matchRoundIndex, tableIndex) ==
               RoundMatches(matchRoundIndex, tableIndex - 1) + [Match(matchRoundIndex, groupName, InitialMatchStatus)];
        matches := matches + [Match(matchRoundIndex, groupName, InitialMatchStatus)];
        tableIndex := tableIndex + 1;
      }
      next := JavaDiv(players, 2);
    }

    /** The live round over `roundList`: each listed round with a match in
        progress overwrites the result, which starts at 0. */
    method FindLiveRound(roundList: seq<int>) returns (live: int)
      ensures live == LiveRound(matches, roundList)
      ensures (forall i :: 0 <= i < |roundList| ==> !HasLiveMatch(matches, roundList[i])) ==> live == 0
      ensures (exists i :: 0 <= i < |roundList| && HasLiveMatch(matches, roundList[i])) ==>
                exists i :: 0 <= i < |roundList| && HasLiveMatch(matches, roundList[i]) && live == roundList[i] &&
                  forall j :: i < j < |roundList| ==> !HasLiveMatch(matches, roundList[j])
    {
      live := 0;
      var i := 0;
      while i < |roundList|
        invariant 0 <= i <= |roundList|
        invariant live == LiveRound(matches, roundList[..i])
      {
        assert roundList[..i + 1][..i] == roundList[..i];
        if HasLiveMatch(matches, roundList[i]) {
          live := roundList[i];
        }
        i := i + 1;
      }
      assert roundList[..i] == roundList;
      LiveRoundSpec(matches, roundList);
    }

    /** The round list of the channel and its live round; an unknown
        capacity is a ChannelNotFound error. */
    method GetRoundList() returns (r: Result<RoundListView>)
      ensures r.Failure? <==> maxPlayer !in DefaultRoundList
      ensures r.Failure? ==> r.error == ChannelNotFound
      ensures r.Success? ==> r.value.roundList == CalculateRoundList(maxPlayer).value
      ensures r.Success? ==> r.value.liveRound == LiveRound(matches, r.value.roundList)
    {
      var roundList := CalculateRoundList(maxPlayer);
      if roundList.Failure? {
        return Failure(roundList.error);
      }
      var live := FindLiveRound(roundList.value);
      return Success(RoundListView(live, roundList.value));
    }

    /** The players a round is assigned from: every PLAYER participant with
        status PROGRESS, unless there are fewer than 75% of the round number
        of them. */
    function GetParticipantList(matchRound: int): (r: Result<seq<ParticipantId>>)
      reads this
      ensures r.Failure? <==> (|EligiblePlayers(participants)| as real) < (matchRound as real) * 0.75
      ensures r.Failure? <==> 4 * |EligiblePlayers(participants)| < 3 * matchRound
      ensures r.Failure? ==> r.error == MatchNotEnoughPlayer
      ensures r.Success? ==> forall x: ParticipantId :: x in r.value <==>
                x < |participants| && participants[x].role == Player && participants[x].status == Progress
      ensures r.Success? ==> r.value == EligiblePlayers(participants)
    {
      var playerList := EligiblePlayers(participants);
      ThresholdIsExact(|playerList|, matchRound);
      EligiblePlayersSpec(participants);
      if 4 * |playerList| < 3 * matchRound then Failure(MatchNotEnoughPlayer) else Success(playerList)
    }

    /** The pass over one match: `entrants` are the participants of the
        match's players in descending score order. */
    method SweepMatch(entrants: seq<ParticipantId>)
      requires Valid()
      requires InRange(entrants, |participants|)
      modifies this`participants
      ensures Valid()
      ensures participants == Sweep(entrants, old(participants), 0)
    {
      var progressCount := 0;
      var j := 0;
      while j < |entrants|
        invariant 0 <= j <= |entrants|
        invariant |participants| == |old(participants)|
        invariant Sweep(entrants, old(participants), 0) == Sweep(entrants[j..], participants, progressCount)
      {
        var p := entrants[j];
        assert entrants[j..][0] == p && entrants[j..][1..] == entrants[j + 1..];
        ghost var next, count' := SweepStep(entrants[j..], participants, progressCount);
        if progressCount >= SurvivorsPerMatch {
          if participants[p].status != Disqualification {
            participants := DropOutParticipant(participants, p);
          }
        } else if participants[p].status == Progress {
          progressCount := progressCount + 1;
        } else {
          participants := DropOutParticipant(participants, p);
        }
        assert participants == next && progressCount == count';
        j := j + 1;
      }
      assert entrants[j..] == [];
    }

    /** The elimination pass over the matches `ml`, each walked in its
        by-score order. */
    method CheckUpdateScore(ml: seq<nat>, order: seq<seq<nat>>)
      requires Valid()
      requires ScoreOrders(matchPlayers, ml, order)
      modifies this`participants
      ensures Valid()
      ensures participants == SweepAll(Entrants(matchPlayers, order), old(participants))
    {
      EntrantsInRange(matchPlayers, ml, order, |participants|);
      var lists := Entrants(matchPlayers, order);
      var k := 0;
      while k < |ml|
        invariant 0 <= k <= |ml|
        invariant |participants| == |old(participants)|
        invariant Valid()
        invariant SweepAll(lists, old(participants)) == SweepAll(lists[k..], participants)
      {
        var entrants := lists[k];
        SweepMatch(entrants);
        assert lists[k..][0] == entrants && lists[k..][1..] == lists[k + 1..];
        k := k + 1;
      }
      assert lists[k..] == [];
    }

    /** Deals the shuffled players over the matches `ml`: `base` players per
        match, plus one while the remaining counter is positive, the counter
        dropping by one per placed player. An empty match list fails on the
        division. */
    method AssignSubMatches(ml: seq<nat>, playerList: seq<ParticipantId>, shuffle: seq<ParticipantId> -> seq<ParticipantId>)
      returns (r: Outcome)
      requires Valid()
      requires forall i :: 0 <= i < |ml| ==> ml[i] < |matches|
      requires forall i :: 0 <= i < |playerList| ==> playerList[i] < |participants|
      requires forall s: seq<ParticipantId> :: multiset(shuffle(s)) == multiset(s)
      modifies this`matchPlayers
      ensures Valid()
      ensures ml == [] ==> r == Fail(DivisionByZero) && matchPlayers == old(matchPlayers)
      ensures ml != [] ==> r == Pass && matchPlayers == old(matchPlayers) + Assign(ml, shuffle(playerList))
    {
      var players := shuffle(playerList);
      PermutationInRange(players, playerList, |participants|);
      if |ml| == 0 {
        return Fail(DivisionByZero);
      }
      DealPlayers(ml, players);
      ValidAfterAppend(old(matchPlayers), ml, players);
      return Pass;
    }

    /** The dealing loop of `AssignSubMatches`: every match of `ml` in turn
        takes the next `playersPerMatch` players, one more while players
        left over from the division remain. */
    method DealPlayers(ml: seq<nat>, players: seq<ParticipantId>)
      requires ml != []
      modifies this`matchPlayers
      ensures matchPlayers == old(matchPlayers) + Assign(ml, players)
    {
      var totalPlayers := |players|;
      var matchCount := |ml|;
      DealWithinList(matchCount, totalPlayers);
      var playersPerMatch: nat := totalPlayers / matchCount;
      var remainingPlayers := totalPlayers % matchCount;
      ghost var rem0 := remainingPlayers;
      var playerIndex: nat := 0;
      var k: nat := 0;
      DealtStart(old(matchPlayers), ml, players, playersPerMatch, rem0);
      while k < matchCount
        invariant DealtSoFar(old(matchPlayers), ml, players, playersPerMatch, rem0, k, playerIndex, remainingPlayers, matchPlayers)
      {
        var currentPlayerCount := playersPerMatch + (if remainingPlayers > 0 then 1 else 0);
        DealtStep(old(matchPlayers), ml, players, playersPerMatch, rem0, k, playerIndex, remainingPlayers, matchPlayers, currentPlayerCount);
        DealBlock(players, playerIndex, currentPlayerCount, ml[k]);
        playerIndex := playerIndex + currentPlayerCount;
        remainingPlayers := remainingPlayers - currentPlayerCount;
        k := k + 1;
      }
      DealtEnd(old(matchPlayers), ml, players, playersPerMatch, rem0, playerIndex, remainingPlayers, matchPlayers);
    }

    /** The inner loop of the dealing: appends the `size` players from
        position `from` on to match `m`, each with score 0. */
    method DealBlock(players: seq<ParticipantId>, from: nat, size: nat, m: nat)
      requires from + size <= |players|
      modifies this`matchPlayers
      ensures matchPlayers == old(matchPlayers) + Block(players, from, size, m)
    {
      var playerIndex := from;
      var i: nat := 0;
      while i < size
        invariant i <= size && playerIndex == from + i
        invariant matchPlayers == old(matchPlayers) + Block(players, from, i, m)
      {
        var player := players[playerIndex];
        BlockSnoc(players, from, i, m);
        matchPlayers := matchPlayers + [MatchPlayer(player, m, 0)];
        playerIndex := playerIndex + 1;
        i := i + 1;
      }
    }

    /** Assigns round `matchRound`: the caller must be the host; unless the
        round number equals the capacity, the elimination pass runs over the
        round's matches; the remaining PLAYER participants with status
        PROGRESS must reach the threshold; then they are shuffled and dealt.
        A failing call changes nothing. */
    method MatchAssignment(caller: Option<Role>, matchRound: int, ml: seq<nat>, order: seq<seq<nat>>,
                           shuffle: seq<ParticipantId> -> seq<ParticipantId>) returns (r: Outcome)
      requires Valid()
      requires RoundMatchList(matches, matchRound, ml)
      requires ScoreOrders(matchPlayers, ml, order)
      requires forall s: seq<ParticipantId> :: multiset(shuffle(s)) == multiset(s)
      modifies this`participants, this`matchPlayers
      ensures Valid()
      ensures caller != Some(Host) ==> r == Fail(InvalidParticipantAuth)
      ensures caller == Some(Host) ==>
                var players := EligiblePlayers(AfterElimination(maxPlayer, matchRound, old(matchPlayers), order, old(participants)));
                r == if 4 * |players| < 3 * matchRound then Fail(MatchNotEnoughPlayer)
                     else if ml == [] then Fail(DivisionByZero)
                     else Pass
      ensures r.Fail? ==> participants == old(participants) && matchPlayers == old(matchPlayers)
      ensures r == Pass ==>
                participants == AfterElimination(maxPlayer, matchRound, old(matchPlayers), order, old(participants)) &&
                matchPlayers == old(matchPlayers) + Assign(ml, shuffle(EligiblePlayers(participants)))
    {
      var auth := CheckHost(caller);
      if auth.Fail? {
        return auth;
      }
      EntrantsInRange(matchPlayers, ml, order, |participants|);
      ghost var after := AfterElimination(maxPlayer, matchRound, matchPlayers, order, participants);
      var saved := participants;
      if maxPlayer != matchRound {
        CheckUpdateScore(ml, order);
      }
      assert participants == after;
      var playerList := GetParticipantList(matchRound);
      if playerList.Failure? {
        participants := saved;
        return Fail(playerList.error);
      }
      EligibleInRange(participants);
      assert forall i :: 0 <= i < |ml| ==> ml[i] < |matches|;
      r := AssignSubMatches(ml, playerList.value, shuffle);
      if r.Fail? {
        participants := saved;
      }
    }
  }
}

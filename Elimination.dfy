/** The elimination pass run before a round is assigned. Each match's
    players are walked in score-descending order with a counter of PROGRESS
    participants met so far: until five have been met, a PROGRESS participant
    is counted and stays, anyone else is dropped out; once five have been
    met, everyone is dropped out except DISQUALIFICATION participants. The
    counter starts again at zero for every match. Ties at fifth place are cut
    by position in the ordering. */
module Elimination {
  import opened MatchTypes

  /** How many PROGRESS participants a match keeps. */
  const SurvivorsPerMatch: nat := 5

  /** Every id of `e` names one of `n` participants. */
  predicate InRange(e: seq<ParticipantId>, n: nat)
  {
    forall i :: 0 <= i < |e| ==> e[i] < n
  }

  /** No id occurs twice in `e`. */
  predicate Distinct(e: seq<ParticipantId>)
  {
    forall i, j :: 0 <= i < j < |e| ==> e[i] != e[j]
  }

  predicate Disjoint(a: seq<ParticipantId>, b: seq<ParticipantId>)
  {
    forall x :: x in a ==> x !in b
  }

  /** What dropping a participant out does: its status becomes DropOut. */
  function DropOutParticipant(ps: seq<Participant>, id: ParticipantId): (r: seq<Participant>)
    requires id < |ps|
  {
    ps[id := ps[id].(status := DropOut)]
  }

  /** Dropping out sets exactly the one status: the participant keeps its
      role, and everyone else is unchanged. */
  lemma {:induction false} DropOutEffect(ps: seq<Participant>, id: ParticipantId)
    requires id < |ps|
    ensures |DropOutParticipant(ps, id)| == |ps|
    ensures DropOutParticipant(ps, id)[id].status == DropOut && DropOutParticipant(ps, id)[id].role == ps[id].role
    ensures forall other :: 0 <= other < |ps| && other != id ==> DropOutParticipant(ps, id)[other] == ps[other]
  {
  }

  /** The pass over one match: `e` lists the match's participants in score
      order and `count` is the number of PROGRESS participants met so far. */
  function Sweep(e: seq<ParticipantId>, ps: seq<Participant>, count: nat): (r: seq<Participant>)
    requires InRange(e, |ps|)
    ensures |r| == |ps|
    decreases |e|
  {
    if e == [] then ps
    else
      var p := e[0];
      if count >= SurvivorsPerMatch then
        Sweep(e[1..], if ps[p].status != Disqualification then DropOutParticipant(ps, p) else ps, count)
      else if ps[p].status == Progress then
        Sweep(e[1..], ps, count + 1)
      else
        Sweep(e[1..], DropOutParticipant(ps, p), count)
  }

  /** The pass changes only statuses, and only to DropOut. */
  lemma {:induction false} SweepOnlyDropsOut(e: seq<ParticipantId>, ps: seq<Participant>, count: nat)
    requires InRange(e, |ps|)
    ensures forall id :: 0 <= id < |ps| ==> Sweep(e, ps, count)[id].role == ps[id].role
    ensures forall id :: 0 <= id < |ps| && Sweep(e, ps, count)[id].status != ps[id].status ==>
              Sweep(e, ps, count)[id].status == DropOut
    decreases |e|
  {
    if e != [] {
      var next, count' := SweepStep(e, ps, count);
      SweepOnlyDropsOut(e[1..], next, count');
    }
  }

  /** The pass over every match of the round, one after the other. */
  function SweepAll(lists: seq<seq<ParticipantId>>, ps: seq<Participant>): (r: seq<Participant>)
    requires forall k :: 0 <= k < |lists| ==> InRange(lists[k], |ps|)
    ensures |r| == |ps|
    decreases |lists|
  {
    if lists == [] then ps else SweepAll(lists[1..], Sweep(lists[0], ps, 0))
  }

  // ---------------------------------------------------------------------
  // A reference description of the pass, position by position

  /** The statuses of the participants `e`, in order. */
  function Statuses(e: seq<ParticipantId>, ps: seq<Participant>): (r: seq<ParticipantStatus>)
    requires InRange(e, |ps|)
    ensures |r| == |e|
  {
    seq(|e|, i requires 0 <= i < |e| => ps[e[i]].status)
  }

  /** The number of PROGRESS statuses in `s`. */
  function CountProgress(s: seq<ParticipantStatus>): nat
  {
    if s == [] then 0
    else CountProgress(s[..|s| - 1]) + (if s[|s| - 1] == Progress then 1 else 0)
  }

  /** The new state of a participant that the pass meets after `before`
      PROGRESS participants. */
  function Outcome(p: Participant, before: nat): Participant
  {
    if before < SurvivorsPerMatch then
      (if p.status == Progress then p else p.(status := DropOut))
    else
      (if p.status == Disqualification then p else p.(status := DropOut))
  }

  lemma {:induction false} CountProgressCons(x: ParticipantStatus, s: seq<ParticipantStatus>)
    ensures CountProgress([x] + s) == (if x == Progress then 1 else 0) + CountProgress(s)
    decreases |s|
  {
    if s != [] {
      assert ([x] + s)[..|s|] == [x] + s[..|s| - 1];
      CountProgressCons(x, s[..|s| - 1]);
    }
  }

  /** One step of the pass: the first listed participant gets its outcome
      and the walk goes on with the rest. */
  lemma {:induction false} SweepStep(e: seq<ParticipantId>, ps: seq<Participant>, count: nat)
      returns (next: seq<Participant>, count': nat)
    requires InRange(e, |ps|) && e != []
    ensures |next| == |ps| && InRange(e[1..], |next|)
    ensures Sweep(e, ps, count) == Sweep(e[1..], next, count')
    ensures next[e[0]] == Outcome(ps[e[0]], count)
    ensures forall id :: 0 <= id < |ps| && id != e[0] ==> next[id] == ps[id]
    ensures count' == count + (if count < SurvivorsPerMatch && ps[e[0]].status == Progress then 1 else 0)
    ensures next == if count >= SurvivorsPerMatch then
                      (if ps[e[0]].status != Disqualification then DropOutParticipant(ps, e[0]) else ps)
                    else if ps[e[0]].status == Progress then ps
                    else DropOutParticipant(ps, e[0])
  {
    var p := e[0];
    next := if count >= SurvivorsPerMatch then
              (if ps[p].status != Disqualification then DropOutParticipant(ps, p) else ps)
            else if ps[p].status == Progress then ps
            else DropOutParticipant(ps, p);
    count' := if count < SurvivorsPerMatch && ps[p].status == Progress then count + 1 else count;
  }

  /** The pass leaves every participant it does not list unchanged. */
  lemma {:induction false} SweepFrame(e: seq<ParticipantId>, ps: seq<Participant>, count: nat, id: ParticipantId)
    requires InRange(e, |ps|) && id < |ps| && id !in e
    ensures Sweep(e, ps, count)[id] == ps[id]
    decreases |e|
  {
    if e != [] {
      var next, count' := SweepStep(e, ps, count);
      SweepFrame(e[1..], next, count', id);
    }
  }

  /** Whether a participant survives depends only on whether fewer than five
      PROGRESS participants came before it. */
  lemma {:induction false} OutcomeSaturates(p: Participant, a: nat, b: nat)
    requires (a < SurvivorsPerMatch) == (b < SurvivorsPerMatch)
    ensures Outcome(p, a) == Outcome(p, b)
  {
  }

  /** For distinct participants, the k-th one listed ends in the state
      Outcome(old state, count + number of PROGRESS participants listed
      before it). */
  lemma {:induction false} SweepOutcomeAt(e: seq<ParticipantId>, ps: seq<Participant>, count: nat, k: nat)
    requires InRange(e, |ps|) && Distinct(e) && k < |e|
    ensures Sweep(e, ps, count)[e[k]] == Outcome(ps[e[k]], count + CountProgress(Statuses(e, ps)[..k]))
    decreases |e|
  {
    var next, count' := SweepStep(e, ps, count);
    assert Distinct(e[1..]);
    if k == 0 {
      assert e[0] !in e[1..];
      SweepFrame(e[1..], next, count', e[0]);
      assert Statuses(e, ps)[..0] == [];
    } else {
      assert e[1..][k - 1] == e[k];
      SweepOutcomeAt(e[1..], next, count', k - 1);
      OutcomeShift(e, ps, next, count, count', k);
    }
  }

  /** The outcome of the k-th listed participant (k > 0) seen from the rest
      of the list after the first step is its outcome seen from the start. */
  lemma {:induction false} OutcomeShift(e: seq<ParticipantId>, ps: seq<Participant>, next: seq<Participant>,
                                        count: nat, count': nat, k: nat)
    requires InRange(e, |ps|) && Distinct(e) && 0 < k < |e| && |next| == |ps|
    requires count' == count + (if count < SurvivorsPerMatch && ps[e[0]].status == Progress then 1 else 0)
    requires forall id :: 0 <= id < |ps| && id != e[0] ==> next[id] == ps[id]
    ensures Outcome(next[e[k]], count' + CountProgress(Statuses(e[1..], next)[..k - 1])) ==
            Outcome(ps[e[k]], count + CountProgress(Statuses(e, ps)[..k]))
  {
    forall i | 1 <= i < |e| ensures next[e[i]] == ps[e[i]] {
      assert e[i] != e[0];
    }
    PrefixCountShift(e, ps, next, k);
    OutcomeSaturates(ps[e[k]], count' + CountProgress(Statuses(e[1..], next)[..k - 1]),
                     count + CountProgress(Statuses(e, ps)[..k]));
  }

  /** Counting PROGRESS entries before position k, split at the first. */
  lemma {:induction false} PrefixCountShift(e: seq<ParticipantId>, ps: seq<Participant>, next: seq<Participant>, k: nat)
    requires InRange(e, |ps|) && |next| == |ps| && 0 < k <= |e|
    requires forall i :: 1 <= i < |e| ==> next[e[i]] == ps[e[i]]
    ensures CountProgress(Statuses(e, ps)[..k]) ==
            (if ps[e[0]].status == Progress then 1 else 0) + CountProgress(Statuses(e[1..], next)[..k - 1])
  {
    var st := Statuses(e, ps);
    assert Statuses(e[1..], next) == st[1..];
    assert st[..k] == [st[0]] + st[1..][..k - 1];
    CountProgressCons(st[0], st[1..][..k - 1]);
  }

  /** SweepFrame for all unlisted participants at once. */
  lemma {:induction false} SweepFrameAll(e: seq<ParticipantId>, ps: seq<Participant>, count: nat)
    requires InRange(e, |ps|)
    ensures forall id :: 0 <= id < |ps| && id !in e ==> Sweep(e, ps, count)[id] == ps[id]
  {
    forall id | 0 <= id < |ps| && id !in e ensures Sweep(e, ps, count)[id] == ps[id] {
      SweepFrame(e, ps, count, id);
    }
  }

  /** SweepOutcomeAt for all listed positions at once: the k-th listed
      participant ends in the state Outcome(old state, count + number of
      PROGRESS participants listed before it). */
  lemma {:induction false} SweepOutcome(e: seq<ParticipantId>, ps: seq<Participant>, count: nat)
    requires InRange(e, |ps|) && Distinct(e)
    ensures forall k :: 0 <= k < |e| ==>
              Sweep(e, ps, count)[e[k]] == Outcome(ps[e[k]], count + CountProgress(Statuses(e, ps)[..k]))
  {
    forall k | 0 <= k < |e|
      ensures Sweep(e, ps, count)[e[k]] == Outcome(ps[e[k]], count + CountProgress(Statuses(e, ps)[..k]))
    {
      SweepOutcomeAt(e, ps, count, k);
    }
  }

  /** The pass's outcome for each listed participant, for a match walked from
      a fresh counter. The survivors are exactly the PROGRESS participants
      met before five others; everything met before that which is not
      PROGRESS, DISQUALIFICATION included, is dropped out; after that,
      everything except DISQUALIFICATION is dropped out. Nothing unlisted
      changes. */
  lemma {:induction false} MatchOutcome(e: seq<ParticipantId>, ps: seq<Participant>, k: nat)
    requires InRange(e, |ps|) && Distinct(e) && k < |e|
    ensures var r := Sweep(e, ps, 0); var before := CountProgress(Statuses(e, ps)[..k]);
            && (r[e[k]].status == Progress <==> ps[e[k]].status == Progress && before < SurvivorsPerMatch)
            && (before < SurvivorsPerMatch && ps[e[k]].status != Progress ==> r[e[k]].status == DropOut)
            && (before >= SurvivorsPerMatch && ps[e[k]].status != Disqualification ==> r[e[k]].status == DropOut)
            && (before >= SurvivorsPerMatch && ps[e[k]].status == Disqualification ==> r[e[k]] == ps[e[k]])
            && r[e[k]].role == ps[e[k]].role
  {
    SweepOutcome(e, ps, 0);
  }

  /** If the new statuses keep PROGRESS exactly where the old one was
      PROGRESS with fewer than five earlier PROGRESS entries, the new prefix
      counts are the old ones capped at five. */
  lemma {:induction false} CappedCount(s: seq<ParticipantStatus>, t: seq<ParticipantStatus>, n: nat)
    requires |s| == |t| && n <= |s|
    requires forall k :: 0 <= k < |s| ==>
               (t[k] == Progress <==> s[k] == Progress && CountProgress(s[..k]) < SurvivorsPerMatch)
    ensures CountProgress(t[..n]) == if CountProgress(s[..n]) < SurvivorsPerMatch then CountProgress(s[..n]) else SurvivorsPerMatch
  {
    if n > 0 {
      CappedCount(s, t, n - 1);
      assert s[..n][..n - 1] == s[..n - 1];
      assert t[..n][..n - 1] == t[..n - 1];
    }
  }

  /** At most five participants of a match are still PROGRESS after the pass:
      the number is the smaller of five and the number before. */
  lemma {:induction false} SurvivorCount(e: seq<ParticipantId>, ps: seq<Participant>)
    requires InRange(e, |ps|) && Distinct(e)
    ensures var r := Sweep(e, ps, 0);
            CountProgress(Statuses(e, r)) ==
              if CountProgress(Statuses(e, ps)) < SurvivorsPerMatch then CountProgress(Statuses(e, ps)) else SurvivorsPerMatch
  {
    var r := Sweep(e, ps, 0);
    var s, t := Statuses(e, ps), Statuses(e, r);
    SweepOutcome(e, ps, 0);
    CappedCount(s, t, |e|);
    assert s[..|e|] == s && t[..|e|] == t;
  }

  /** The pass on one match depends only on the listed participants. */
  lemma {:induction false} SweepLocal(e: seq<ParticipantId>, ps: seq<Participant>, qs: seq<Participant>)
    requires |ps| == |qs| && InRange(e, |ps|) && Distinct(e)
    requires forall k :: 0 <= k < |e| ==> ps[e[k]] == qs[e[k]]
    ensures forall k :: 0 <= k < |e| ==> Sweep(e, ps, 0)[e[k]] == Sweep(e, qs, 0)[e[k]]
  {
    SweepFrameAll(e, ps, 0);
    SweepOutcome(e, ps, 0);
    SweepFrameAll(e, qs, 0);
    SweepOutcome(e, qs, 0);
    assert Statuses(e, ps) == Statuses(e, qs);
  }

  /** Re-running the pass on the same ordering changes nothing. */
  lemma {:induction false} SweepIdempotent(e: seq<ParticipantId>, ps: seq<Participant>)
    requires InRange(e, |ps|) && Distinct(e)
    ensures Sweep(e, Sweep(e, ps, 0), 0) == Sweep(e, ps, 0)
  {
    var r := Sweep(e, ps, 0);
    var r2 := Sweep(e, r, 0);
    SweepFrameAll(e, ps, 0);
    SweepOutcome(e, ps, 0);
    SweepFrameAll(e, r, 0);
    SweepOutcome(e, r, 0);
    var s, t := Statuses(e, ps), Statuses(e, r);
    forall k | 0 <= k < |e| ensures r2[e[k]] == r[e[k]] {
      CappedCount(s, t, k);
    }
    forall id | 0 <= id < |ps| ensures r2[id] == r[id] {
      if id in e {
        var k :| 0 <= k < |e| && e[k] == id;
      }
    }
  }

  /** The pass is not idempotent when a participant is listed twice: with
      five PROGRESS participants, the first of them listed again and a
      DISQUALIFICATION participant last, the first pass drops the repeated
      participant and keeps the last one, and the second pass meets the last
      one before five survivors and drops it out. */
  lemma {:induction false} RepeatedEntrantBreaksIdempotence()
    ensures var e := [0, 1, 2, 3, 4, 0, 5];
            var p, q := Participant(Player, Progress), Participant(Player, Disqualification);
            var ps := [p, p, p, p, p, q];
            Sweep(e, ps, 0)[5] == q && Sweep(e, Sweep(e, ps, 0), 0)[5].status == DropOut
  {
    var e := [0, 1, 2, 3, 4, 0, 5];
    var p, q := Participant(Player, Progress), Participant(Player, Disqualification);
    var ps := [p, p, p, p, p, q];
    // First pass: participants 0 to 4 are counted, then 0 is met again.
    var once := ps[0 := p.(status := DropOut)];
    assert Sweep(e[5..], ps, 5) == once by {
      assert e[5..][1..] == [5];
      assert Sweep([5], once, 5) == once;
    }
    assert Sweep(e, ps, 0) == Sweep(e[5..], ps, 5) by {
      assert e[1..] == [1, 2, 3, 4, 0, 5] && e[2..] == [2, 3, 4, 0, 5];
      assert e[3..] == [3, 4, 0, 5] && e[4..] == [4, 0, 5];
    }
    // Second pass: 0 is already out, so only four are counted before 5.
    var twice := once[5 := q.(status := DropOut)];
    assert Sweep(e, once, 0) == twice by {
      assert e[1..] == [1, 2, 3, 4, 0, 5] && e[2..] == [2, 3, 4, 0, 5];
      assert e[3..] == [3, 4, 0, 5] && e[4..] == [4, 0, 5];
      assert e[5..] == [0, 5];
      assert Sweep([5], once, 4) == twice;
    }
  }

  // ---------------------------------------------------------------------
  // The whole round

  /** Every list is in range and free of repeats, and no participant is
      listed for two matches. */
  predicate RoundLists(lists: seq<seq<ParticipantId>>, n: nat)
  {
    && (forall k :: 0 <= k < |lists| ==> InRange(lists[k], n) && Distinct(lists[k]))
    && (forall i, j :: 0 <= i < j < |lists| ==> Disjoint(lists[i], lists[j]))
  }

  /** A participant listed for match i ends as the pass over match i alone
      leaves it. */
  lemma {:induction false} SweepAllAt(lists: seq<seq<ParticipantId>>, ps: seq<Participant>, i: nat, id: ParticipantId)
    requires RoundLists(lists, |ps|)
    requires i < |lists| && id in lists[i]
    ensures SweepAll(lists, ps)[id] == Sweep(lists[i], ps, 0)[id]
    decreases |lists|
  {
    var ps1 := Sweep(lists[0], ps, 0);
    assert RoundLists(lists[1..], |ps1|);
    SweepFrameAll(lists[0], ps, 0);
    SweepOutcome(lists[0], ps, 0);
    if i == 0 {
      forall j | 0 <= j < |lists[1..]| ensures id !in lists[1..][j] {
        assert Disjoint(lists[0], lists[j + 1]);
      }
      SweepAllOutside(lists[1..], ps1, id);
    } else {
      SweepAllAt(lists[1..], ps1, i - 1, id);
      assert Disjoint(lists[0], lists[i]);
      forall k | 0 <= k < |lists[i]| ensures ps1[lists[i][k]] == ps[lists[i][k]] {
        assert lists[i][k] !in lists[0];
      }
      SweepLocal(lists[i], ps1, ps);
    }
  }

  /** A participant listed for no match is untouched. */
  lemma {:induction false} SweepAllOutside(lists: seq<seq<ParticipantId>>, ps: seq<Participant>, id: ParticipantId)
    requires RoundLists(lists, |ps|)
    requires id < |ps| && forall j :: 0 <= j < |lists| ==> id !in lists[j]
    ensures SweepAll(lists, ps)[id] == ps[id]
    decreases |lists|
  {
    if lists != [] {
      var ps1 := Sweep(lists[0], ps, 0);
      SweepFrameAll(lists[0], ps, 0);
      SweepOutcome(lists[0], ps, 0);
      assert RoundLists(lists[1..], |ps1|);
      SweepAllOutside(lists[1..], ps1, id);
    }
  }

  /** Re-running the pass over the same round, with the same orderings,
      changes nothing. */
  lemma {:induction false} SweepAllIdempotent(lists: seq<seq<ParticipantId>>, ps: seq<Participant>)
    requires RoundLists(lists, |ps|)
    ensures SweepAll(lists, SweepAll(lists, ps)) == SweepAll(lists, ps)
  {
    var q := SweepAll(lists, ps);
    var q2 := SweepAll(lists, q);
    forall id | 0 <= id < |ps| ensures q2[id] == q[id] {
      if i :| 0 <= i < |lists| && id in lists[i] {
        var e := lists[i];
        SweepAllAt(lists, q, i, id);
        SweepAllAt(lists, ps, i, id);
        forall k | 0 <= k < |e| ensures q[e[k]] == Sweep(e, ps, 0)[e[k]] {
          SweepAllAt(lists, ps, i, e[k]);
        }
        SweepLocal(e, q, Sweep(e, ps, 0));
        SweepIdempotent(e, ps);
        var k :| 0 <= k < |e| && e[k] == id;
      } else {
        SweepAllOutside(lists, q, id);
      }
    }
  }
}

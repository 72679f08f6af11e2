/** A match's standings: its players sorted by score, highest first, and
    numbered by standard competition ranking (tied scores share a rank and
    the next rank skips, 1, 2, 2, 4). */
module Standings {
  import opened MatchTypes

  /** One line of the standings. The game id, tier and player status the
      source copies alongside are identified here by the participant. */
  datatype MatchPlayerInfo = MatchPlayerInfo(participant: ParticipantId, score: int)

  /** A standings line with its rank. */
  datatype RankedInfo = RankedInfo(info: MatchPlayerInfo, rank: nat)

  function ToInfo(mp: MatchPlayer): MatchPlayerInfo
  {
    MatchPlayerInfo(mp.participant, mp.score)
  }

  function Infos(mps: seq<MatchPlayer>): seq<MatchPlayerInfo>
  {
    seq(|mps|, i requires 0 <= i < |mps| => ToInfo(mps[i]))
  }

  predicate ScoresNonIncreasing(xs: seq<MatchPlayerInfo>)
  {
    forall i, j :: 0 <= i < j < |xs| ==> xs[i].score >= xs[j].score
  }

  /** Inserts `x` into a score-descending list after every strictly higher
      score and before every other one. */
  function Insert(x: MatchPlayerInfo, s: seq<MatchPlayerInfo>): (r: seq<MatchPlayerInfo>)
    ensures multiset(r) == multiset(s) + multiset{x}
  {
    if s == [] || s[0].score <= x.score then [x] + s
    else
      assert s == [s[0]] + s[1..];
      [s[0]] + Insert(x, s[1..])
  }

  /** Insertion keeps a list score-descending; the new head is `x` or the
      old head. */
  lemma {:induction false} InsertSorted(x: MatchPlayerInfo, s: seq<MatchPlayerInfo>)
    requires ScoresNonIncreasing(s)
    ensures ScoresNonIncreasing(Insert(x, s))
    ensures |Insert(x, s)| == |s| + 1
    ensures Insert(x, s)[0] == x || Insert(x, s)[0] == s[0]
  {
    if s != [] && s[0].score > x.score {
      var t := Insert(x, s[1..]);
      InsertSorted(x, s[1..]);
      var r := [s[0]] + t;
      assert r[0].score >= t[0].score by {
        if |s| > 1 {
          assert s[1..][0] == s[1];
        }
      }
      assert forall i :: 0 < i < |r| ==> r[i] == t[i - 1];
    }
  }

  /** A stable sort by descending score. */
  function SortByScoreDesc(xs: seq<MatchPlayerInfo>): (r: seq<MatchPlayerInfo>)
    ensures ScoresNonIncreasing(r)
    ensures multiset(r) == multiset(xs)
  {
    if xs == [] then []
    else
      assert xs == [xs[0]] + xs[1..];
      InsertSorted(xs[0], SortByScoreDesc(xs[1..]));
      Insert(xs[0], SortByScoreDesc(xs[1..]))
  }

  /** The standings lines of a match: one per match player, a permutation of
      the players' lines, highest score first. */
  function ConvertMatchPlayerInfoList(mps: seq<MatchPlayer>): (r: seq<MatchPlayerInfo>)
    ensures |r| == |mps|
    ensures ScoresNonIncreasing(r)
    ensures multiset(r) == multiset(Infos(mps))
  {
    var r := SortByScoreDesc(Infos(mps));
    assert |r| == |multiset(r)| == |multiset(Infos(mps))| == |Infos(mps)|;
    r
  }

  // ---------------------------------------------------------------------
  // Stability: players with equal scores keep their relative order

  /** The lines of `xs` with score `v`, in order. */
  function WithScore(xs: seq<MatchPlayerInfo>, v: int): seq<MatchPlayerInfo>
  {
    if xs == [] then [] else (if xs[0].score == v then [xs[0]] else []) + WithScore(xs[1..], v)
  }

  lemma {:induction false} InsertStable(x: MatchPlayerInfo, s: seq<MatchPlayerInfo>, v: int)
    ensures WithScore(Insert(x, s), v) == WithScore([x] + s, v)
  {
    if s != [] && s[0].score > x.score {
      InsertStable(x, s[1..], v);
      var t := Insert(x, s[1..]);
      assert ([s[0]] + t)[1..] == t;
      assert ([x] + s)[1..] == s;
      assert ([x] + s[1..])[1..] == s[1..];
      if s[0].score == v {
        assert x.score != v;
      }
    }
  }

  /** The sort keeps, for every score, the order of the players with that
      score. */
  lemma {:induction false} SortStable(xs: seq<MatchPlayerInfo>, v: int)
    ensures WithScore(SortByScoreDesc(xs), v) == WithScore(xs, v)
  {
    if xs != [] {
      SortStable(xs[1..], v);
      InsertStable(xs[0], SortByScoreDesc(xs[1..]), v);
      assert ([xs[0]] + SortByScoreDesc(xs[1..]))[1..] == SortByScoreDesc(xs[1..]);
    }
  }

  // ---------------------------------------------------------------------
  // Rank numbers

  predicate NonIncreasing(s: seq<int>)
  {
    forall i, j :: 0 <= i < j < |s| ==> s[i] >= s[j]
  }

  /** The number of entries of `s` strictly greater than `x`. */
  function CountGreater(s: seq<int>, x: int): nat
  {
    if s == [] then 0 else CountGreater(s[..|s| - 1], x) + (if s[|s| - 1] > x then 1 else 0)
  }

  /** The rank numbers of a score-descending list: an entry equal to the one
      before it shares its rank, any other entry is ranked by its position
      (counting from 1). */
  function Rank(s: seq<int>): (r: seq<nat>)
    ensures |r| == |s|
  {
    if s == [] then []
    else
      var prev := Rank(s[..|s| - 1]);
      prev + [if |s| > 1 && s[|s| - 1] == s[|s| - 2] then prev[|s| - 2] else |s|]
  }

  /** The scores of standings lines. */
  function Scores(xs: seq<MatchPlayerInfo>): (r: seq<int>)
    ensures |r| == |xs|
  {
    seq(|xs|, i requires 0 <= i < |xs| => xs[i].score)
  }

  /** The ranked standings of a match. */
  function RankedStandings(mps: seq<MatchPlayer>): (r: seq<RankedInfo>)
    ensures |r| == |mps|
  {
    var infos := ConvertMatchPlayerInfoList(mps);
    var ranks := Rank(Scores(infos));
    seq(|infos|, i requires 0 <= i < |infos| => RankedInfo(infos[i], ranks[i]))
  }

  lemma {:induction false} CountGreaterAllAbove(s: seq<int>, x: int)
    requires forall i :: 0 <= i < |s| ==> s[i] > x
    ensures CountGreater(s, x) == |s|
  {
    if s != [] {
      CountGreaterAllAbove(s[..|s| - 1], x);
    }
  }

  /** On a score-descending list every rank is one more than the number of
      strictly greater scores: standard competition ranking. */
  lemma {:induction false} RankIsCompetitionRanking(s: seq<int>)
    requires NonIncreasing(s)
    ensures forall i :: 0 <= i < |s| ==> Rank(s)[i] == 1 + CountGreater(s, s[i])
  {
    if s != [] {
      var n := |s|;
      var p := s[..n - 1];
      RankIsCompetitionRanking(p);
      var r := Rank(s);
      assert r[..n - 1] == Rank(p);
      assert s[..n - 1] == p;
      forall i | 0 <= i < n ensures r[i] == 1 + CountGreater(s, s[i]) {
        if i < n - 1 {
          assert r[i] == Rank(p)[i];
          assert s[n - 1] <= s[i];
        } else if n > 1 && s[n - 1] == s[n - 2] {
          assert r[i] == Rank(p)[n - 2];
          assert p[n - 2] == s[n - 1];
        } else {
          forall j | 0 <= j < n - 1 ensures p[j] > s[n - 1] {
            assert s[j] >= s[n - 2];
          }
          CountGreaterAllAbove(p, s[n - 1]);
        }
      }
    }
  }

  /** Every line of the ranked standings carries its match player's line
      from the sorted standings, and its rank is one more than the number of
      strictly higher scores in the match. */
  lemma {:induction false} RankedStandingsRanks(mps: seq<MatchPlayer>)
    ensures var infos := ConvertMatchPlayerInfoList(mps);
            var r := RankedStandings(mps);
            forall i :: 0 <= i < |r| ==>
              r[i].info == infos[i] && r[i].rank == 1 + CountGreater(Scores(infos), infos[i].score)
  {
    var infos := ConvertMatchPlayerInfoList(mps);
    var s := Scores(infos);
    assert NonIncreasing(s) by {
      forall i, j | 0 <= i < j < |s| ensures s[i] >= s[j] {
        assert s[i] == infos[i].score && s[j] == infos[j].score;
      }
    }
    RankIsCompetitionRanking(s);
  }

  /** What the rank rule gives: the first entry is ranked 1, equal scores
      share a rank, and after a tie the rank skips to one more than the
      number of scores above. */
  lemma {:induction false} RankProperties(s: seq<int>)
    requires NonIncreasing(s)
    ensures |s| > 0 ==> Rank(s)[0] == 1
    ensures forall i, j :: 0 <= i < |s| && 0 <= j < |s| && s[i] == s[j] ==> Rank(s)[i] == Rank(s)[j]
    ensures forall i, j :: 0 <= i < |s| && 0 <= j < |s| && s[i] > s[j] ==> Rank(s)[i] < Rank(s)[j]
  {
    RankIsCompetitionRanking(s);
    if |s| > 0 {
      CountGreaterNone(s, s[0]);
    }
    forall i, j | 0 <= i < |s| && 0 <= j < |s| && s[i] > s[j] ensures Rank(s)[i] < Rank(s)[j] {
      CountGreaterMonotone(s, s[i], s[j]);
    }
  }

  lemma {:induction false} CountGreaterNone(s: seq<int>, x: int)
    requires forall i :: 0 <= i < |s| ==> s[i] <= x
    ensures CountGreater(s, x) == 0
  {
    if s != [] {
      CountGreaterNone(s[..|s| - 1], x);
    }
  }

  /** A smaller value has strictly more entries above it when one of the
      entries lies between them. */
  lemma {:induction false} CountGreaterMonotone(s: seq<int>, hi: int, lo: int)
    requires lo < hi && hi in s
    ensures CountGreater(s, lo) > CountGreater(s, hi)
  {
    var n := |s|;
    var p := s[..n - 1];
    if s[n - 1] == hi {
      CountGreaterWeaklyMonotone(p, hi, lo);
    } else {
      assert hi in p by {
        var k :| 0 <= k < n && s[k] == hi;
        assert p[k] == hi;
      }
      CountGreaterMonotone(p, hi, lo);
    }
  }

  lemma {:induction false} CountGreaterWeaklyMonotone(s: seq<int>, hi: int, lo: int)
    requires lo <= hi
    ensures CountGreater(s, lo) >= CountGreater(s, hi)
  {
    if s != [] {
      CountGreaterWeaklyMonotone(s[..|s| - 1], hi, lo);
    }
  }

  /** The fixture of the ranking test: four players of one match with
      scores 1, 2, 2 and 3 give four standings lines ranked 1, 2, 2 and 4,
      with scores 3, 2, 2 and 1. */
  lemma {:induction false} RankingTestFixture()
    ensures var mps := [MatchPlayer(0, 0, 1), MatchPlayer(1, 0, 2), MatchPlayer(2, 0, 2), MatchPlayer(3, 0, 3)];
            var r := RankedStandings(mps);
            |r| == 4 &&
            r[0].rank == 1 && r[1].rank == 2 && r[2].rank == 2 && r[3].rank == 4 &&
            r[0].info.score == 3 && r[1].info.score == 2 && r[2].info.score == 2 && r[3].info.score == 1
  {
    var mps := [MatchPlayer(0, 0, 1), MatchPlayer(1, 0, 2), MatchPlayer(2, 0, 2), MatchPlayer(3, 0, 3)];
    FixtureInfos(mps);
    var sorted := FixtureSorted();
    FixtureRanks(sorted);
  }

  /** The standings lines of the ranking test's four match players, with
      scores 1, 2, 2 and 3. */
  const Fixture1: MatchPlayerInfo := MatchPlayerInfo(0, 1)
  const Fixture2: MatchPlayerInfo := MatchPlayerInfo(1, 2)
  const Fixture3: MatchPlayerInfo := MatchPlayerInfo(2, 2)
  const Fixture4: MatchPlayerInfo := MatchPlayerInfo(3, 3)

  lemma {:induction false} FixtureInfos(mps: seq<MatchPlayer>)
    requires mps == [MatchPlayer(0, 0, 1), MatchPlayer(1, 0, 2), MatchPlayer(2, 0, 2), MatchPlayer(3, 0, 3)]
    ensures Infos(mps) == [Fixture1, Fixture2, Fixture3, Fixture4]
  {
    var infos := Infos(mps);
    assert |infos| == 4 && infos[0] == Fixture1 && infos[1] == Fixture2 && infos[2] == Fixture3 && infos[3] == Fixture4;
  }

  lemma {:induction false} FixtureSortPair()
    ensures SortByScoreDesc([Fixture3, Fixture4]) == [Fixture4, Fixture3]
  {
    assert [Fixture3, Fixture4][1..] == [Fixture4];
    assert SortByScoreDesc([Fixture4]) == Insert(Fixture4, []) == [Fixture4];
    assert Insert(Fixture3, [Fixture4]) == [Fixture4] + Insert(Fixture3, []) == [Fixture4, Fixture3];
  }

  lemma {:induction false} FixtureSortTail()
    ensures SortByScoreDesc([Fixture2, Fixture3, Fixture4]) == [Fixture4, Fixture2, Fixture3]
  {
    FixtureSortPair();
    assert [Fixture2, Fixture3, Fixture4][1..] == [Fixture3, Fixture4];
    assert Insert(Fixture2, [Fixture4, Fixture3]) == [Fixture4] + Insert(Fixture2, [Fixture3]) == [Fixture4, Fixture2, Fixture3];
  }

  lemma {:induction false} FixtureInsertTwo()
    ensures Insert(Fixture1, [Fixture2, Fixture3]) == [Fixture2, Fixture3, Fixture1]
  {
    assert Insert(Fixture1, []) == [Fixture1];
    assert Insert(Fixture1, [Fixture3]) == [Fixture3] + [Fixture1] == [Fixture3, Fixture1];
    assert [Fixture2, Fixture3][1..] == [Fixture3];
  }

  lemma {:induction false} FixtureInsertLast()
    ensures Insert(Fixture1, [Fixture4, Fixture2, Fixture3]) == [Fixture4, Fixture2, Fixture3, Fixture1]
  {
    FixtureInsertTwo();
    assert [Fixture4, Fixture2, Fixture3][1..] == [Fixture2, Fixture3];
    assert Insert(Fixture1, [Fixture4, Fixture2, Fixture3]) == [Fixture4] + [Fixture2, Fixture3, Fixture1];
  }

  lemma {:induction false} FixtureSorted() returns (sorted: seq<MatchPlayerInfo>)
    ensures sorted == [Fixture4, Fixture2, Fixture3, Fixture1] && SortByScoreDesc([Fixture1, Fixture2, Fixture3, Fixture4]) == sorted
  {
    sorted := [Fixture4, Fixture2, Fixture3, Fixture1];
    assert [Fixture1, Fixture2, Fixture3, Fixture4][1..] == [Fixture2, Fixture3, Fixture4];
    FixtureSortTail();
    FixtureInsertLast();
  }

  lemma {:induction false} FixtureRanks(sorted: seq<MatchPlayerInfo>)
    requires sorted == [Fixture4, Fixture2, Fixture3, Fixture1]
    ensures Scores(sorted) == [3, 2, 2, 1]
    ensures Rank([3, 2, 2, 1]) == [1, 2, 2, 4]
  {
    var scores := Scores(sorted);
    assert scores[0] == 3 && scores[1] == 2 && scores[2] == 2 && scores[3] == 1;
    var s := [3, 2, 2, 1];
    assert scores == s;
    assert s[..3] == [3, 2, 2] && s[..3][..2] == [3, 2] && s[..3][..2][..1] == [3];
    assert Rank([3]) == [1];
    assert Rank([3, 2]) == [1, 2];
    assert Rank([3, 2, 2]) == [1, 2, 2];
  }
}

/** The round skeleton a channel starts with: which matches are created for
    which round, how they are labelled, and the list of round numbers shown
    for a channel capacity. */
module RoundPlan {
  import opened MatchTypes

  /** The smallest player count a round of matches is created for. */
  const MinPlayersForSubMatch: int := 8

  /** The capacities the round list knows, in lookup order. */
  const DefaultRoundList: seq<int> := [0, 8, 16, 32, 64, 128, 256]

  /** "Group " as Java code units. */
  const GroupPrefix: JavaString := Utf16("Group ")

  /** The status a freshly created match carries. */
  const InitialMatchStatus: MatchStatus := Ready

  /** The name of the `tableIndex`-th match of a round (counting from 1):
      "Group " followed by the character with code 64 + tableIndex. */
  function GroupName(tableIndex: int): JavaString
  {
    GroupPrefix + [CharCast(64 + tableIndex)]
  }

  /** The number of matches created for a round that starts with `players`
      players: the number of iterations of the table loop. */
  function TableCount(players: int): (r: nat)
    ensures players < MinPlayersForSubMatch ==> r == 0
    ensures players >= MinPlayersForSubMatch ==>
              r >= 1 && MinPlayersForSubMatch * r <= players < MinPlayersForSubMatch * (r + 1)
  {
    if players < MinPlayersForSubMatch then 0 else players / MinPlayersForSubMatch
  }

  /** The matches created for round `round`, in creation order. */
  function RoundMatches(round: int, tableCount: nat): (r: seq<Match>)
    ensures |r| == tableCount
    ensures forall i :: 0 <= i < tableCount ==> r[i] == Match(round, GroupName(i + 1), InitialMatchStatus)
  {
    if tableCount == 0 then []
    else RoundMatches(round, tableCount - 1) + [Match(round, GroupName(tableCount), InitialMatchStatus)]
  }

  /** Every match created from a channel of `players` players, starting with
      round `round`: rounds are created while at least eight players remain,
      and the player count halves from one round to the next. */
  function RoundSkeleton(players: int, round: int): seq<Match>
    decreases players
  {
    if players < MinPlayersForSubMatch then []
    else RoundMatches(round, TableCount(players)) + RoundSkeleton(players / 2, round + 1)
  }

  /** The number of matches of each created round, first round first. */
  function RoundSizes(players: int): (r: seq<nat>)
    ensures forall j :: 0 <= j < |r| ==> r[j] >= 1
    decreases players
  {
    if players < MinPlayersForSubMatch then []
    else [TableCount(players)] + RoundSizes(players / 2)
  }

  /** The player count after `j` halvings. */
  function Halved(players: int, j: nat): int
    decreases j
  {
    if j == 0 then players else Halved(players / 2, j - 1)
  }

  /** Powers of two. */
  function Pow2(k: nat): (r: nat)
    ensures r >= 1
  {
    if k == 0 then 1 else 2 * Pow2(k - 1)
  }

  /** The matches of `ms` that belong to round `q`, in their order. */
  function RoundOf(ms: seq<Match>, q: int): seq<Match>
  {
    if |ms| == 0 then []
    else (if ms[0].round == q then [ms[0]] else []) + RoundOf(ms[1..], q)
  }

  /** Java's `List.indexOf`: the first position of `x` in `xs`, or -1. */
  function IndexOf(xs: seq<int>, x: int): (r: int)
    ensures r == -1 <==> x !in xs
    ensures r != -1 ==> 0 <= r < |xs| && xs[r] == x && x !in xs[..r]
  {
    if xs == [] then -1
    else if xs[0] == x then 0
    else var k := IndexOf(xs[1..], x); if k == -1 then -1 else k + 1
  }

  /** The round numbers shown for a channel of capacity `maxPlayers`: 1 up to
      the position of the capacity in DefaultRoundList; an unknown capacity
      is a ChannelNotFound error. The list is exactly as long as the number of
      rounds the skeleton creates. */
  function CalculateRoundList(maxPlayers: int): (r: Result<seq<int>>)
    ensures r.Success? <==> maxPlayers in DefaultRoundList
    ensures r.Failure? ==> r.error == ChannelNotFound
    ensures r.Success? ==> |r.value| == |RoundSizes(maxPlayers)|
    ensures r.Success? ==> forall i :: 0 <= i < |r.value| ==> r.value[i] == i + 1
  {
    var roundIndex := IndexOf(DefaultRoundList, maxPlayers);
    if roundIndex == -1 then Failure(ChannelNotFound)
    else
      RoundListLength(maxPlayers);
      Success(seq(roundIndex, i => i + 1))
  }

  // ---------------------------------------------------------------------
  // Lemmas about the skeleton

  lemma {:induction false} RoundOfConcat(a: seq<Match>, b: seq<Match>, q: int)
    ensures RoundOf(a + b, q) == RoundOf(a, q) + RoundOf(b, q)
  {
    if a == [] {
      assert a + b == b;
    } else {
      var head := if a[0].round == q then [a[0]] else [];
      assert (a + b)[0] == a[0];
      assert (a + b)[1..] == a[1..] + b;
      assert RoundOf(a + b, q) == head + RoundOf(a[1..] + b, q);
      RoundOfConcat(a[1..], b, q);
      assert head + (RoundOf(a[1..], q) + RoundOf(b, q)) == (head + RoundOf(a[1..], q)) + RoundOf(b, q);
    }
  }

  lemma {:induction false} RoundOfUniform(ms: seq<Match>, r: int, q: int)
    requires forall i :: 0 <= i < |ms| ==> ms[i].round == r
    ensures RoundOf(ms, q) == if q == r then ms else []
  {
    if ms != [] {
      RoundOfUniform(ms[1..], r, q);
    }
  }

  /** The matches round `q` should hold when the rounds from `r` on have
      the sizes `sizes`: all of its matches, named in creation order, or
      nothing for a round outside the range. */
  function RoundAt(sizes: seq<nat>, r: int, q: int): seq<Match>
  {
    if r <= q < r + |sizes| then RoundMatches(q, sizes[q - r]) else []
  }

  /** Round `q` of the skeleton started at round `r` holds exactly the matches
      created for it: RoundSizes says how many, RoundMatches how they are
      named; rounds outside the created range hold nothing. */
  lemma {:induction false} SkeletonRound(players: int, r: int, q: int)
    ensures RoundOf(RoundSkeleton(players, r), q) == RoundAt(RoundSizes(players), r, q)
  {
    if players >= MinPlayersForSubMatch {
      var n := TableCount(players);
      var rest := RoundSkeleton(players / 2, r + 1);
      SkeletonRound(players / 2, r + 1, q);
      RoundOfFront(r, n, rest, q);
      RoundAtCons(n, RoundSizes(players / 2), r, q);
      if q == r {
        assert RoundMatches(r, n) + [] == RoundMatches(r, n);
      }
    }
  }

  /** RoundAt for one more round in front. */
  lemma {:induction false} RoundAtCons(n: nat, sub: seq<nat>, r: int, q: int)
    ensures RoundAt([n] + sub, r, q) == if q == r then RoundMatches(r, n) else RoundAt(sub, r + 1, q)
    ensures q == r ==> RoundAt(sub, r + 1, q) == []
  {
    if r < q < r + 1 + |sub| {
      assert ([n] + sub)[q - r] == sub[q - (r + 1)];
    }
  }

  /** Round `q` of the matches created for round `r`. */
  lemma {:induction false} RoundOfMatches(r: int, n: nat, q: int)
    ensures RoundOf(RoundMatches(r, n), q) == if q == r then RoundMatches(r, n) else []
  {
    RoundOfUniform(RoundMatches(r, n), r, q);
  }

  /** Round `q` of round `r`'s `n` matches followed by `rest`. */
  lemma {:induction false} RoundOfFront(r: int, n: nat, rest: seq<Match>, q: int)
    ensures q == r ==> RoundOf(RoundMatches(r, n) + rest, q) == RoundMatches(r, n) + RoundOf(rest, q)
    ensures q != r ==> RoundOf(RoundMatches(r, n) + rest, q) == RoundOf(rest, q)
  {
    RoundOfConcat(RoundMatches(r, n), rest, q);
    RoundOfMatches(r, n, q);
    assert [] + RoundOf(rest, q) == RoundOf(rest, q);
  }

  /** Below eight players, halving never gets back to eight. */
  lemma {:induction false} HalvedStaysSmall(players: int, j: nat)
    requires players < MinPlayersForSubMatch
    ensures Halved(players, j) < MinPlayersForSubMatch
    decreases j
  {
    if j > 0 {
      HalvedStaysSmall(players / 2, j - 1);
    }
  }

  /** Round j + 1 (j counted from 0) is created exactly when the player count
      after j halvings is still at least eight, and it gets one match per
      eight of those players. */
  lemma {:induction false} RoundSizesHalve(players: int, j: nat)
    ensures j < |RoundSizes(players)| <==> Halved(players, j) >= MinPlayersForSubMatch
    ensures j < |RoundSizes(players)| ==> RoundSizes(players)[j] == Halved(players, j) / MinPlayersForSubMatch
    decreases j
  {
    if players < MinPlayersForSubMatch {
      HalvedStaysSmall(players, j);
    } else if j > 0 {
      RoundSizesHalve(players / 2, j - 1);
    }
  }

  /** A supported capacity 8 * 2^k creates k + 1 rounds with 2^k, 2^(k-1),
      ..., 2, 1 matches: every supported capacity ends with one match. */
  lemma {:induction false} PowerOfTwoCapacity(k: nat)
    ensures |RoundSizes(8 * Pow2(k))| == k + 1
    ensures forall j :: 0 <= j <= k ==> RoundSizes(8 * Pow2(k))[j] == Pow2(k - j)
  {
    if k == 0 {
      assert RoundSizes(4) == [];
    } else {
      var players := 8 * Pow2(k);
      PowerOfTwoCapacity(k - 1);
      assert players / 2 == 8 * Pow2(k - 1);
      var rest := RoundSizes(players / 2);
      assert RoundSizes(players) == [Pow2(k)] + rest;
      forall j | 0 < j <= k ensures RoundSizes(players)[j] == Pow2(k - j) {
        assert RoundSizes(players)[j] == rest[j - 1];
      }
    }
  }

  /** Fewer than eight players create no match at all. */
  lemma {:induction false} SmallChannelCreatesNothing(players: int)
    requires players < MinPlayersForSubMatch
    ensures RoundSkeleton(players, 1) == []
    ensures RoundSizes(players) == []
  {
  }

  /** The example of a 64-player channel: 8, 4, 2 and 1 matches. */
  lemma {:induction false} Capacity64()
    ensures RoundSizes(64) == [8, 4, 2, 1]
  {
    PowerOfTwoCapacity(3);
    assert Pow2(1) == 2 && Pow2(2) == 4 && Pow2(3) == 8;
    var r := RoundSizes(64);
    assert r[0] == 8 && r[1] == 4 && r[2] == 2 && r[3] == 1;
  }

  /** The round list is as long as the number of created rounds. */
  lemma {:induction false} RoundListLength(maxPlayers: int)
    requires maxPlayers in DefaultRoundList
    ensures |RoundSizes(maxPlayers)| == IndexOf(DefaultRoundList, maxPlayers)
  {
    var i := IndexOf(DefaultRoundList, maxPlayers);
    if i > 0 {
      KnownCapacity(i - 1);
      PowerOfTwoCapacity(i - 1);
    }
  }

  /** Every known capacity after 0 is 8 * 2^k, k counted from 0. */
  lemma {:induction false} KnownCapacity(k: nat)
    requires k + 1 < |DefaultRoundList|
    ensures DefaultRoundList[k + 1] == 8 * Pow2(k)
  {
    assert Pow2(1) == 2 && Pow2(2) == 4 && Pow2(3) == 8 && Pow2(4) == 16 && Pow2(5) == 32;
  }

  /** For a known capacity, the round list names exactly the rounds that have
      matches in the skeleton. */
  lemma {:induction false} RoundListNamesCreatedRounds(maxPlayers: int, q: int)
    requires maxPlayers in DefaultRoundList
    ensures q in CalculateRoundList(maxPlayers).value <==> RoundOf(RoundSkeleton(maxPlayers, 1), q) != []
  {
    var rl := CalculateRoundList(maxPlayers).value;
    SkeletonRound(maxPlayers, 1, q);
    assert RoundAt(RoundSizes(maxPlayers), 1, q) != [] <==> 1 <= q <= |rl|;
    if 1 <= q <= |rl| {
      assert rl[q - 1] == q;
    }
    if q in rl {
      var i :| 0 <= i < |rl| && rl[i] == q;
    }
  }

  /** Group i is named "Group " followed by the character with code 64 + i:
      groups 1 to 26 are "Group A" to "Group Z". */
  lemma {:induction false} GroupNameLetter(i: int)
    requires 1 <= i < 0xD800 - 64
    ensures GroupName(i) == Utf16("Group " + [(64 + i) as char])
  {
  }

  /** There is no cap at 26 groups: from 256 players on, the first round
      has at least 32 matches, and groups 27 to 32 are named with the
      characters that follow 'Z' in the code table. */
  lemma {:induction false} GroupNamesPastZ(players: int)
    requires players >= 256
    ensures var first := RoundSkeleton(players, 1);
            |first| >= 32 &&
            forall i :: 26 <= i < 32 ==> first[i] == Match(1, Utf16("Group " + [(65 + i) as char]), InitialMatchStatus)
    ensures var first := RoundSkeleton(players, 1); first[26].name == Utf16("Group [") && first[31].name == Utf16("Group `")
  {
    var first := RoundSkeleton(players, 1);
    var round1 := RoundMatches(1, TableCount(players));
    assert first == round1 + RoundSkeleton(players / 2, 2);
    forall i | 26 <= i < 32
      ensures first[i] == Match(1, Utf16("Group " + [(65 + i) as char]), InitialMatchStatus)
    {
      assert first[i] == round1[i];
      GroupNameLetter(i + 1);
    }
    assert "Group " + [(65 + 26) as char] == "Group [";
    assert "Group " + [(65 + 31) as char] == "Group `";
  }
}

/** How the assignment loop deals a shuffled player list over the matches
    of a round. Each match is given the quotient `base` of players per match,
    plus one while the `remaining` counter is positive; the counter starts as
    the remainder and drops by one for every player placed (not for every
    match), so for some list lengths the tail of the list is never placed. */
module Assignment {
  import opened MatchTypes

  /** The number of players each of `count` matches receives. */
  function DealSizes(count: nat, base: nat, remaining: int): (r: seq<nat>)
    ensures |r| == count
    decreases count
  {
    if count == 0 then []
    else
      var size := base + (if remaining > 0 then 1 else 0);
      [size] + DealSizes(count - 1, base, remaining - size)
  }

  function Sum(s: seq<nat>): nat
  {
    if s == [] then 0 else s[0] + Sum(s[1..])
  }

  /** The `size` match players created for match `m` from the players at
      positions `from`, `from + 1`, ... of `ps`; they start with score 0. */
  function Block(ps: seq<ParticipantId>, from: nat, size: nat, m: nat): (r: seq<MatchPlayer>)
    requires from + size <= |ps|
  {
    seq(size, t requires 0 <= t < size => MatchPlayer(ps[from + t], m, 0))
  }

  /** The match players created for the matches `ms` from the players `ps`,
      in creation order: each match takes its share from the front of what
      is left of the list. New match players start with score 0. */
  function Deal(ms: seq<nat>, ps: seq<ParticipantId>, base: nat, remaining: int): seq<MatchPlayer>
    requires Sum(DealSizes(|ms|, base, remaining)) <= |ps|
    decreases |ms|
  {
    if ms == [] then []
    else
      var size := base + (if remaining > 0 then 1 else 0);
      assert Sum(DealSizes(|ms|, base, remaining)) == size + Sum(DealSizes(|ms| - 1, base, remaining - size));
      Block(ps, 0, size, ms[0])
        + Deal(ms[1..], ps[size..], base, remaining - size)
  }

  /** The assignment of the shuffled players `ps` over the matches `ms`. It
      never reads past the end of the list, it places a prefix of the list
      in order (so a player occurs at most as often as in the list), every
      placement goes to one of the matches, and the whole list is placed
      exactly when the remainder is at most one or there are fewer players
      than matches. */
  function Assign(ms: seq<nat>, ps: seq<ParticipantId>): (r: seq<MatchPlayer>)
    requires |ms| > 0
    ensures |r| <= |ps|
    ensures forall j :: 0 <= j < |r| ==> r[j].participant == ps[j] && r[j].score == 0
    ensures forall j :: 0 <= j < |r| ==> r[j].matchIndex in ms
    ensures |r| == |ps| <==> |ps| % |ms| <= 1 || |ps| / |ms| == 0
  {
    var count, base, rem := |ms|, |ps| / |ms|, |ps| % |ms|;
    assert |ps| == count * base + rem;
    DealFits(count, base, rem);
    DealPlacesPrefix(ms, ps, base, rem);
    Deal(ms, ps, base, rem)
  }

  /** The number of placements into match `m`. */
  function CountFor(mps: seq<MatchPlayer>, m: nat): nat
  {
    if mps == [] then 0 else (if mps[0].matchIndex == m then 1 else 0) + CountFor(mps[1..], m)
  }

  // ---------------------------------------------------------------------
  // Lemmas

  /** The loop places at most `count * base` plus the positive part of the
      remainder, and exactly that many when the remainder is at most one or
      the quotient is zero. */
  lemma {:induction false} DealFits(count: nat, base: nat, remaining: int)
    requires remaining <= count
    ensures Sum(DealSizes(count, base, remaining)) <= count * base + (if remaining > 0 then remaining else 0)
    ensures Sum(DealSizes(count, base, remaining)) == count * base + (if remaining > 0 then remaining else 0)
            <==> remaining <= 1 || base == 0
  {
    if count > 0 {
      var size := base + (if remaining > 0 then 1 else 0);
      var s := DealSizes(count, base, remaining);
      assert s[1..] == DealSizes(count - 1, base, remaining - size);
      assert Sum(s) == size + Sum(s[1..]);
      assert count * base == (count - 1) * base + base;
      DealFits(count - 1, base, remaining - size);
    }
  }

  /** Deal creates one match player per dealt place, for the players of a
      prefix of the list, in the list's order, into the given matches. */
  lemma {:induction false} DealPlacesPrefix(ms: seq<nat>, ps: seq<ParticipantId>, base: nat, remaining: int)
    requires Sum(DealSizes(|ms|, base, remaining)) <= |ps|
    ensures |Deal(ms, ps, base, remaining)| == Sum(DealSizes(|ms|, base, remaining))
    ensures forall j :: 0 <= j < |Deal(ms, ps, base, remaining)| ==>
              Deal(ms, ps, base, remaining)[j].participant == ps[j] &&
              Deal(ms, ps, base, remaining)[j].score == 0 &&
              Deal(ms, ps, base, remaining)[j].matchIndex in ms
    decreases |ms|
  {
    if ms != [] {
      var size := DealUnfold(ms, ps, base, remaining);
      var s := DealSizes(|ms|, base, remaining);
      assert Sum(s) == size + Sum(s[1..]);
      var block := Block(ps, 0, size, ms[0]);
      var rest := Deal(ms[1..], ps[size..], base, remaining - size);
      DealPlacesPrefix(ms[1..], ps[size..], base, remaining - size);
      var d := Deal(ms, ps, base, remaining);
      forall j | 0 <= j < |d| ensures d[j].participant == ps[j] && d[j].score == 0 && d[j].matchIndex in ms {
        if j < size {
          assert d[j] == block[j];
        } else {
          assert d[j] == rest[j - size];
          assert ps[size..][j - size] == ps[j];
          assert rest[j - size].matchIndex in ms[1..];
        }
      }
    }
  }

  /** Every match gets `base` or `base + 1` players, and the sizes never grow
      along the match list: the ones with an extra player come first. */
  lemma {:induction false} DealSizesShape(count: nat, base: nat, remaining: int)
    ensures forall k :: 0 <= k < count ==>
              DealSizes(count, base, remaining)[k] == base || DealSizes(count, base, remaining)[k] == base + 1
    ensures forall i, k :: 0 <= i <= k < count ==>
              DealSizes(count, base, remaining)[i] >= DealSizes(count, base, remaining)[k]
    ensures count > 0 ==> (DealSizes(count, base, remaining)[0] == base + 1 <==> remaining > 0)
    decreases count
  {
    if count > 0 {
      var size := base + (if remaining > 0 then 1 else 0);
      var s := DealSizes(count, base, remaining);
      var t := DealSizes(count - 1, base, remaining - size);
      assert s[1..] == t;
      DealSizesShape(count - 1, base, remaining - size);
      if remaining <= 0 {
        NoRemainderAllBase(count - 1, base, remaining - size);
      }
      forall i, k | 0 <= i <= k < count ensures s[i] >= s[k] {
        if i > 0 {
          assert s[i] == t[i - 1] && s[k] == t[k - 1];
        }
      }
    }
  }

  /** With no positive remainder left, every further match gets `base`. */
  lemma {:induction false} NoRemainderAllBase(count: nat, base: nat, remaining: int)
    requires remaining <= 0
    ensures forall k :: 0 <= k < count ==> DealSizes(count, base, remaining)[k] == base
    decreases count
  {
    if count > 0 {
      assert DealSizes(count, base, remaining)[1..] == DealSizes(count - 1, base, remaining - base);
      NoRemainderAllBase(count - 1, base, remaining - base);
    }
  }

  lemma {:induction false} CountForConcat(a: seq<MatchPlayer>, b: seq<MatchPlayer>, m: nat)
    ensures CountFor(a + b, m) == CountFor(a, m) + CountFor(b, m)
  {
    if a == [] {
      assert a + b == b;
    } else {
      assert (a + b)[0] == a[0];
      assert (a + b)[1..] == a[1..] + b;
      CountForConcat(a[1..], b, m);
    }
  }

  lemma {:induction false} CountForUniform(a: seq<MatchPlayer>, m: nat, n: nat)
    requires forall j :: 0 <= j < |a| ==> a[j].matchIndex == m
    ensures CountFor(a, n) == if n == m then |a| else 0
  {
    if a != [] {
      CountForUniform(a[1..], m, n);
    }
  }

  lemma {:induction false} CountForAbsent(a: seq<MatchPlayer>, n: nat)
    requires forall j :: 0 <= j < |a| ==> a[j].matchIndex != n
    ensures CountFor(a, n) == 0
  {
    if a != [] {
      CountForAbsent(a[1..], n);
    }
  }

  /** A match that is not in the list receives nobody. */
  lemma {:induction false} DealAvoids(ms: seq<nat>, ps: seq<ParticipantId>, base: nat, remaining: int, m: nat)
    requires Sum(DealSizes(|ms|, base, remaining)) <= |ps|
    requires m !in ms
    ensures CountFor(Deal(ms, ps, base, remaining), m) == 0
    decreases |ms|
  {
    if ms != [] {
      var size := DealUnfold(ms, ps, base, remaining);
      var block := Block(ps, 0, size, ms[0]);
      var rest := Deal(ms[1..], ps[size..], base, remaining - size);
      CountForConcat(block, rest, m);
      CountForUniform(block, ms[0], m);
      DealAvoids(ms[1..], ps[size..], base, remaining - size, m);
    }
  }

  /** One step of Deal: the first match's block, then the rest. */
  lemma {:induction false} DealUnfold(ms: seq<nat>, ps: seq<ParticipantId>, base: nat, remaining: int) returns (size: nat)
    requires Sum(DealSizes(|ms|, base, remaining)) <= |ps|
    requires ms != []
    ensures size == base + (if remaining > 0 then 1 else 0)
    ensures size == DealSizes(|ms|, base, remaining)[0]
    ensures DealSizes(|ms|, base, remaining)[1..] == DealSizes(|ms| - 1, base, remaining - size)
    ensures size <= |ps| && Sum(DealSizes(|ms| - 1, base, remaining - size)) <= |ps| - size
    ensures Deal(ms, ps, base, remaining) ==
              Block(ps, 0, size, ms[0])
              + Deal(ms[1..], ps[size..], base, remaining - size)
  {
    size := base + (if remaining > 0 then 1 else 0);
    assert DealSizes(|ms|, base, remaining)[1..] == DealSizes(|ms| - 1, base, remaining - size);
  }

  /** The places dealt for `total` players over `count` matches never
      exceed the players. */
  lemma {:induction false} DealWithinList(count: nat, total: nat)
    requires count > 0
    ensures 0 <= total / count && 0 <= total % count < count
    ensures Sum(DealSizes(count, total / count, total % count)) <= total
  {
    var base, rem := total / count, total % count;
    assert total == count * base + rem;
    DealFits(count, base, rem);
  }

  /** A block grows by one player at its end. */
  lemma {:induction false} BlockSnoc(ps: seq<ParticipantId>, from: nat, size: nat, m: nat)
    requires from + size < |ps|
    ensures Block(ps, from, size + 1, m) == Block(ps, from, size, m) + [MatchPlayer(ps[from + size], m, 0)]
  {
  }

  /** One step of the dealing loop in terms of the loop's positions: match
      `k` takes the next `size` players from position `p`. */
  lemma {:induction false} DealAdvance(ms: seq<nat>, ps: seq<ParticipantId>, k: nat, p: nat, base: nat, remaining: int)
      returns (size: nat)
    requires k < |ms| && p <= |ps|
    requires Sum(DealSizes(|ms| - k, base, remaining)) <= |ps| - p
    ensures size == base + (if remaining > 0 then 1 else 0) && p + size <= |ps|
    ensures Sum(DealSizes(|ms| - (k + 1), base, remaining - size)) <= |ps| - (p + size)
    ensures Deal(ms[k..], ps[p..], base, remaining) ==
              Block(ps, p, size, ms[k])
              + Deal(ms[k + 1..], ps[p + size..], base, remaining - size)
  {
    assert |ms[k..]| == |ms| - k;
    size := DealUnfold(ms[k..], ps[p..], base, remaining);
    assert ms[k..][1..] == ms[k + 1..];
    assert ps[p..][size..] == ps[p + size..];
    assert Block(ps[p..], 0, size, ms[k..][0]) == Block(ps, p, size, ms[k]);
  }

  /** The state of the dealing loop before match `k`: `p` players have been
      taken, the counter stands at `rem`, and what was created so far
      (`now`) followed by what the rest of the loop creates is the whole
      dealing appended to `before`. */
  predicate DealtSoFar(before: seq<MatchPlayer>, ms: seq<nat>, ps: seq<ParticipantId>, base: nat, rem0: int,
                       k: nat, p: nat, rem: int, now: seq<MatchPlayer>)
  {
    && Sum(DealSizes(|ms|, base, rem0)) <= |ps|
    && k <= |ms| && p <= |ps|
    && Sum(DealSizes(|ms| - k, base, rem)) <= |ps| - p
    && before + Deal(ms, ps, base, rem0) == now + Deal(ms[k..], ps[p..], base, rem)
  }

  lemma {:induction false} DealtStart(before: seq<MatchPlayer>, ms: seq<nat>, ps: seq<ParticipantId>, base: nat, rem0: int)
    requires Sum(DealSizes(|ms|, base, rem0)) <= |ps|
    ensures DealtSoFar(before, ms, ps, base, rem0, 0, 0, rem0, before)
  {
    assert ms[0..] == ms && ps[0..] == ps;
  }

  /** One pass of the outer loop: match `k` takes `size` players. */
  lemma {:induction false} DealtStep(before: seq<MatchPlayer>, ms: seq<nat>, ps: seq<ParticipantId>, base: nat, rem0: int,
                  k: nat, p: nat, rem: int, now: seq<MatchPlayer>, size: nat)
    requires DealtSoFar(before, ms, ps, base, rem0, k, p, rem, now)
    requires k < |ms| && size == base + (if rem > 0 then 1 else 0)
    ensures p + size <= |ps|
    ensures DealtSoFar(before, ms, ps, base, rem0, k + 1, p + size, rem - size, now + Block(ps, p, size, ms[k]))
  {
    var size' := DealAdvance(ms, ps, k, p, base, rem);
    assert size' == size;
    var block, rest := Block(ps, p, size, ms[k]), Deal(ms[k + 1..], ps[p + size..], base, rem - size);
    assert now + (block + rest) == (now + block) + rest;
  }

  lemma {:induction false} DealtEnd(before: seq<MatchPlayer>, ms: seq<nat>, ps: seq<ParticipantId>, base: nat, rem0: int,
                 p: nat, rem: int, now: seq<MatchPlayer>)
    requires DealtSoFar(before, ms, ps, base, rem0, |ms|, p, rem, now)
    ensures now == before + Deal(ms, ps, base, rem0)
  {
    assert ms[|ms|..] == [];
  }

  /** When the matches are distinct, match `ms[k]` receives exactly the k-th
      dealt size. */
  lemma {:induction false} DealCountPerMatch(ms: seq<nat>, ps: seq<ParticipantId>, base: nat, remaining: int, k: nat)
    requires Sum(DealSizes(|ms|, base, remaining)) <= |ps|
    requires forall i, j :: 0 <= i < j < |ms| ==> ms[i] != ms[j]
    requires k < |ms|
    ensures CountFor(Deal(ms, ps, base, remaining), ms[k]) == DealSizes(|ms|, base, remaining)[k]
    decreases |ms|
  {
    if k == 0 {
      assert ms[0] !in ms[1..];
      DealCountHead(ms, ps, base, remaining);
    } else {
      var size := DealCountTail(ms, ps, base, remaining, k);
      assert ms[1..][k - 1] == ms[k];
      DealCountPerMatch(ms[1..], ps[size..], base, remaining - size, k - 1);
    }
  }

  /** The first match receives the first dealt size when it is not listed
      again. */
  lemma {:induction false} DealCountHead(ms: seq<nat>, ps: seq<ParticipantId>, base: nat, remaining: int)
    requires Sum(DealSizes(|ms|, base, remaining)) <= |ps|
    requires ms != [] && ms[0] !in ms[1..]
    ensures CountFor(Deal(ms, ps, base, remaining), ms[0]) == DealSizes(|ms|, base, remaining)[0]
  {
    var size := DealUnfold(ms, ps, base, remaining);
    var block := Block(ps, 0, size, ms[0]);
    var rest := Deal(ms[1..], ps[size..], base, remaining - size);
    CountForConcat(block, rest, ms[0]);
    CountForUniform(block, ms[0], ms[0]);
    DealAvoids(ms[1..], ps[size..], base, remaining - size, ms[0]);
  }

  /** A later match receives nothing from the first match's block. */
  lemma {:induction false} DealCountTail(ms: seq<nat>, ps: seq<ParticipantId>, base: nat, remaining: int, k: nat)
      returns (size: nat)
    requires Sum(DealSizes(|ms|, base, remaining)) <= |ps|
    requires 0 < k < |ms| && ms[0] != ms[k]
    ensures size == base + (if remaining > 0 then 1 else 0)
    ensures size <= |ps| && Sum(DealSizes(|ms| - 1, base, remaining - size)) <= |ps| - size
    ensures CountFor(Deal(ms, ps, base, remaining), ms[k]) ==
            CountFor(Deal(ms[1..], ps[size..], base, remaining - size), ms[k])
    ensures DealSizes(|ms|, base, remaining)[k] == DealSizes(|ms| - 1, base, remaining - size)[k - 1]
  {
    size := DealUnfold(ms, ps, base, remaining);
    var block := Block(ps, 0, size, ms[0]);
    var rest := Deal(ms[1..], ps[size..], base, remaining - size);
    CountForConcat(block, rest, ms[k]);
    CountForUniform(block, ms[0], ms[k]);
  }

  /** The worked example: 11 players over 3 matches are dealt 4, 3 and 3, so
      one player is left out. */
  lemma {:induction false} ElevenOverThree(ms: seq<nat>, ps: seq<ParticipantId>)
    requires |ms| == 3 && |ps| == 11
    ensures DealSizes(3, 3, 2) == [4, 3, 3]
    ensures |Assign(ms, ps)| == 10
  {
    assert DealSizes(3, 3, 2) == [4, 3, 3];
    assert Sum([4, 3, 3]) == 10;
    DealPlacesPrefix(ms, ps, 3, 2);
  }
}

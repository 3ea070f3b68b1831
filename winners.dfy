/** collectWinners of src/scheduleMatches.cpp: the players who advance from a
    stage. For the Qualifier the stage's participants are ranked through the
    WinnerPriorityQueue by the wins they took in that stage; for a knockout
    stage the winners of its completed matches advance. */
module Winners {
  import opened Base
  import opened Schedule
  import opened WinnerQueue

  /** The size of the playerAdded, wins and participants arrays: the source
      indexes them by player ID - 1, so IDs must lie in 1 .. 50. */
  const MaxPlayers: int := 50

  predicate IdOk(players: seq<Player>, p: nat) {
    p < |players| && 1 <= players[p].id <= MaxPlayers
  }

  /** Every match refers to roster entries. */
  predicate Referenced(players: seq<Player>, matches: seq<TournamentMatch>) {
    forall i :: 0 <= i < |matches| ==> MatchOk(matches[i], |players|)
  }

  /** The Qualifier branch indexes its arrays by the IDs of both players of
      every match of the stage. */
  predicate StageIdsOk(players: seq<Player>, matches: seq<TournamentMatch>, stage: Stage) {
    forall i :: 0 <= i < |matches| && matches[i].round == stage ==>
      IdOk(players, matches[i].player1) && IdOk(players, matches[i].player2)
  }

  /** A completed match of the stage that has a winner: the matches whose
      winner counts. */
  predicate Counted(m: TournamentMatch, stage: Stage) {
    m.round == stage && m.status == Completed && m.winner.Some?
  }

  /** The knockout branch indexes its array by the IDs of the winners. */
  predicate WinnerIdsOk(players: seq<Player>, matches: seq<TournamentMatch>, stage: Stage) {
    forall i :: 0 <= i < |matches| && Counted(matches[i], stage) ==> IdOk(players, matches[i].winner.value)
  }

  predicate OnRoster(players: seq<Player>, ps: seq<nat>) {
    forall k :: 0 <= k < |ps| ==> ps[k] < |players|
  }

  function IdsOf(players: seq<Player>, ps: seq<nat>): (r: seq<int>)
    requires OnRoster(players, ps)
    ensures |r| == |ps| && forall k :: 0 <= k < |ps| ==> r[k] == players[ps[k]].id
  {
    seq(|ps|, k requires 0 <= k < |ps| => players[ps[k]].id)
  }

  /** No two of the players share an ID. */
  predicate DistinctIds(players: seq<Player>, ps: seq<nat>)
    requires OnRoster(players, ps)
  {
    forall a, b :: 0 <= a < b < |ps| ==> players[ps[a]].id != players[ps[b]].id
  }

  // ---------------------------------------------------------------------------
  // Participants and wins

  /** p is appended unless a player with its ID is already listed: the
      playerAdded check. */
  function AddNew(players: seq<Player>, ps: seq<nat>, p: nat): (r: seq<nat>)
    requires OnRoster(players, ps) && p < |players|
    ensures OnRoster(players, r)
  {
    if players[p].id in IdsOf(players, ps) then ps else ps + [p]
  }

  /** The participants of the stage, each ID once, in order of first
      appearance (player1 before player2). */
  function ParticipantsOf(players: seq<Player>, matches: seq<TournamentMatch>, stage: Stage): (r: seq<nat>)
    requires Referenced(players, matches)
    ensures OnRoster(players, r)
  {
    if matches == [] then []
    else
      var last := |matches| - 1;
      var rest := ParticipantsOf(players, matches[..last], stage);
      var m := matches[last];
      assert MatchOk(m, |players|);
      if m.round == stage then AddNew(players, AddNew(players, rest, m.player1), m.player2) else rest
  }

  /** The player takes part in a match of the stage. */
  predicate PlaysIn(matches: seq<TournamentMatch>, stage: Stage, p: nat) {
    exists i :: 0 <= i < |matches| && matches[i].round == stage && (matches[i].player1 == p || matches[i].player2 == p)
  }

  lemma AddNewFacts(players: seq<Player>, ps: seq<nat>, p: nat)
    requires OnRoster(players, ps) && p < |players|
    ensures players[p].id in IdsOf(players, AddNew(players, ps, p))
    ensures forall x :: x in IdsOf(players, ps) ==> x in IdsOf(players, AddNew(players, ps, p))
    ensures forall k :: 0 <= k < |AddNew(players, ps, p)| ==> AddNew(players, ps, p)[k] in ps || AddNew(players, ps, p)[k] == p
    ensures DistinctIds(players, ps) ==> DistinctIds(players, AddNew(players, ps, p))
  {
    if players[p].id !in IdsOf(players, ps) {
      var r := ps + [p];
      assert IdsOf(players, r) == IdsOf(players, ps) + [players[p].id];
      if DistinctIds(players, ps) {
        forall a, b | 0 <= a < b < |r| ensures players[r[a]].id != players[r[b]].id {
          if b == |ps| {
            assert players[r[a]].id == IdsOf(players, ps)[a];
          }
        }
      }
    }
  }

  /** The participants have distinct IDs, each takes part in the stage, and
      every player of the stage is represented by its ID. */
  lemma ParticipantsShape(players: seq<Player>, matches: seq<TournamentMatch>, stage: Stage)
    requires Referenced(players, matches)
    ensures DistinctIds(players, ParticipantsOf(players, matches, stage))
    ensures AllPlay(matches, stage, ParticipantsOf(players, matches, stage))
    ensures Covered(players, matches, stage, ParticipantsOf(players, matches, stage))
  {
    ParticipantsDistinct(players, matches, stage);
    ParticipantsPlay(players, matches, stage);
    ParticipantsCover(players, matches, stage);
  }

  lemma {:induction false} ParticipantsDistinct(players: seq<Player>, matches: seq<TournamentMatch>, stage: Stage)
    requires Referenced(players, matches)
    ensures DistinctIds(players, ParticipantsOf(players, matches, stage))
    decreases |matches|
  {
    if matches != [] {
      var last := |matches| - 1;
      var pre := matches[..last];
      var rest := ParticipantsOf(players, pre, stage);
      ParticipantsDistinct(players, pre, stage);
      var m := matches[last];
      assert MatchOk(m, |players|);
      if m.round == stage {
        AddNewFacts(players, rest, m.player1);
        AddNewFacts(players, AddNew(players, rest, m.player1), m.player2);
      }
    }
  }

  /** Every listed player takes part in a match of the stage. */
  predicate AllPlay(matches: seq<TournamentMatch>, stage: Stage, ps: seq<nat>) {
    forall k :: 0 <= k < |ps| ==> PlaysIn(matches, stage, ps[k])
  }

  lemma AllPlaySnoc(matches: seq<TournamentMatch>, stage: Stage, ps: seq<nat>)
    requires matches != [] && AllPlay(matches[..|matches| - 1], stage, ps)
    ensures AllPlay(matches, stage, ps)
  {
    var pre := matches[..|matches| - 1];
    forall k | 0 <= k < |ps| ensures PlaysIn(matches, stage, ps[k]) {
      var i :| 0 <= i < |pre| && pre[i].round == stage && (pre[i].player1 == ps[k] || pre[i].player2 == ps[k]);
      assert matches[i] == pre[i];
    }
  }

  lemma AddNewPlays(players: seq<Player>, matches: seq<TournamentMatch>, stage: Stage, ps: seq<nat>, p: nat)
    requires OnRoster(players, ps) && p < |players| && AllPlay(matches, stage, ps) && PlaysIn(matches, stage, p)
    ensures AllPlay(matches, stage, AddNew(players, ps, p))
  {
  }

  lemma {:induction false} ParticipantsPlay(players: seq<Player>, matches: seq<TournamentMatch>, stage: Stage)
    requires Referenced(players, matches)
    ensures AllPlay(matches, stage, ParticipantsOf(players, matches, stage))
    decreases |matches|
  {
    if matches != [] {
      var last := |matches| - 1;
      var pre := matches[..last];
      var rest := ParticipantsOf(players, pre, stage);
      ParticipantsPlay(players, pre, stage);
      AllPlaySnoc(matches, stage, rest);
      var m := matches[last];
      assert MatchOk(m, |players|);
      if m.round == stage {
        assert PlaysIn(matches, stage, m.player1) && PlaysIn(matches, stage, m.player2);
        AddNewPlays(players, matches, stage, rest, m.player1);
        AddNewPlays(players, matches, stage, AddNew(players, rest, m.player1), m.player2);
      }
    }
  }

  /** Both players of the match are represented by their IDs. */
  predicate CoversMatch(players: seq<Player>, m: TournamentMatch, ps: seq<nat>)
    requires MatchOk(m, |players|) && OnRoster(players, ps)
  {
    players[m.player1].id in IdsOf(players, ps) && players[m.player2].id in IdsOf(players, ps)
  }

  /** Every player of the stage is represented by its ID. */
  predicate Covered(players: seq<Player>, matches: seq<TournamentMatch>, stage: Stage, ps: seq<nat>)
    requires Referenced(players, matches) && OnRoster(players, ps)
  {
    forall i :: 0 <= i < |matches| && matches[i].round == stage ==> CoversMatch(players, matches[i], ps)
  }

  /** Every ID of xs is an ID of ys. */
  predicate IdsWithin(players: seq<Player>, xs: seq<nat>, ys: seq<nat>)
    requires OnRoster(players, xs) && OnRoster(players, ys)
  {
    forall x :: x in IdsOf(players, xs) ==> x in IdsOf(players, ys)
  }

  /** Adding both players of a match keeps the IDs already listed and
      covers the match. */
  lemma AddBoth(players: seq<Player>, ps: seq<nat>, m: TournamentMatch)
    requires OnRoster(players, ps) && MatchOk(m, |players|)
    ensures IdsWithin(players, ps, AddNew(players, AddNew(players, ps, m.player1), m.player2))
    ensures CoversMatch(players, m, AddNew(players, AddNew(players, ps, m.player1), m.player2))
  {
    var r1 := AddNew(players, ps, m.player1);
    AddNewFacts(players, ps, m.player1);
    AddNewFacts(players, r1, m.player2);
  }

  lemma CoverWithin(players: seq<Player>, matches: seq<TournamentMatch>, stage: Stage, xs: seq<nat>, ys: seq<nat>)
    requires Referenced(players, matches) && OnRoster(players, xs) && OnRoster(players, ys)
    requires Covered(players, matches, stage, xs) && IdsWithin(players, xs, ys)
    ensures Covered(players, matches, stage, ys)
  {
    forall i | 0 <= i < |matches| && matches[i].round == stage ensures CoversMatch(players, matches[i], ys) {
      assert CoversMatch(players, matches[i], xs);
    }
  }

  lemma CoveredSnoc(players: seq<Player>, matches: seq<TournamentMatch>, stage: Stage, ps: seq<nat>)
    requires Referenced(players, matches) && matches != [] && OnRoster(players, ps)
    requires Covered(players, matches[..|matches| - 1], stage, ps)
    requires matches[|matches| - 1].round == stage ==> CoversMatch(players, matches[|matches| - 1], ps)
    ensures Covered(players, matches, stage, ps)
  {
    var pre := matches[..|matches| - 1];
    forall i | 0 <= i < |pre| && matches[i].round == stage ensures CoversMatch(players, matches[i], ps) {
      assert matches[i] == pre[i];
    }
  }

  lemma {:induction false} ParticipantsCover(players: seq<Player>, matches: seq<TournamentMatch>, stage: Stage)
    requires Referenced(players, matches)
    ensures Covered(players, matches, stage, ParticipantsOf(players, matches, stage))
    decreases |matches|
  {
    if matches != [] {
      var last := |matches| - 1;
      var pre := matches[..last];
      var rest := ParticipantsOf(players, pre, stage);
      ParticipantsCover(players, pre, stage);
      var m := matches[last];
      assert MatchOk(m, |players|);
      if m.round == stage {
        AddBoth(players, rest, m);
        CoverWithin(players, pre, stage, rest, ParticipantsOf(players, matches, stage));
      }
      CoveredSnoc(players, matches, stage, ParticipantsOf(players, matches, stage));
    }
  }

  /** The wins of the completed matches of the stage taken by players with
      this ID. */
  function WinsOf(players: seq<Player>, matches: seq<TournamentMatch>, stage: Stage, id: int): nat
    requires Referenced(players, matches)
  {
    if matches == [] then 0
    else
      var last := |matches| - 1;
      var m := matches[last];
      assert MatchOk(m, |players|);
      WinsOf(players, matches[..last], stage, id)
        + (if Counted(m, stage) && players[m.winner.value].id == id then 1 else 0)
  }

  /** A player has wins exactly when it won a completed match of the stage. */
  lemma {:induction false} WinsOfPositive(players: seq<Player>, matches: seq<TournamentMatch>, stage: Stage, id: int)
    requires Referenced(players, matches)
    ensures WinsOf(players, matches, stage, id) > 0 <==>
            exists i :: 0 <= i < |matches| && Counted(matches[i], stage) && players[matches[i].winner.value].id == id
    decreases |matches|
  {
    if matches != [] {
      var last := |matches| - 1;
      var pre := matches[..last];
      WinsOfPositive(players, pre, stage, id);
      assert forall i :: 0 <= i < last ==> matches[i] == pre[i];
    }
  }

  /** playerAdded records exactly the IDs listed, and the list is as long as
      the number of set flags. */
  predicate Flagged(players: seq<Player>, ps: seq<nat>, flags: seq<bool>)
    requires OnRoster(players, ps)
  {
    && |flags| == MaxPlayers
    && (forall k :: 0 <= k < MaxPlayers ==> (flags[k] <==> k + 1 in IdsOf(players, ps)))
    && |ps| == Trues(flags)
  }

  /** One playerAdded check of the first loop of the Qualifier branch. */
  method Admit(players: seq<Player>, ps: seq<nat>, playerAdded: array<bool>, p: nat) returns (qs: seq<nat>)
    requires OnRoster(players, ps) && IdOk(players, p) && Flagged(players, ps, playerAdded[..])
    modifies playerAdded
    ensures qs == AddNew(players, ps, p) && Flagged(players, qs, playerAdded[..])
  {
    qs := ps;
    var k := players[p].id - 1;
    if !playerAdded[k] {
      AddFlag(playerAdded, k);
      qs := ps + [p];
      assert IdsOf(players, qs) == IdsOf(players, ps) + [players[p].id];
    }
  }

  /** The first loop of the Qualifier branch. */
  method CollectParticipants(players: seq<Player>, matches: seq<TournamentMatch>, stage: Stage)
    returns (parts: seq<nat>)
    requires Referenced(players, matches) && StageIdsOk(players, matches, stage)
    ensures parts == ParticipantsOf(players, matches, stage)
    ensures |parts| <= MaxPlayers
  {
    var playerAdded := new bool[MaxPlayers](_ => false);
    parts := [];
    TruesNone(playerAdded[..]);
    for i := 0 to |matches|
      invariant parts == ParticipantsOf(players, matches[..i], stage)
      invariant Flagged(players, parts, playerAdded[..])
    {
      assert matches[..i + 1][..i] == matches[..i];
      var m := matches[i];
      assert MatchOk(m, |players|);
      if m.round == stage {
        assert IdOk(players, m.player1) && IdOk(players, m.player2);
        parts := Admit(players, parts, playerAdded, m.player1);
        parts := Admit(players, parts, playerAdded, m.player2);
      }
    }
    assert matches[..|matches|] == matches;
    TruesBound(playerAdded[..]);
  }

  /** The number of set flags. */
  function Trues(s: seq<bool>): nat {
    if s == [] then 0 else Trues(s[..|s| - 1]) + (if s[|s| - 1] then 1 else 0)
  }

  lemma {:induction false} TruesBound(s: seq<bool>)
    ensures Trues(s) <= |s|
  {
    if s != [] {
      TruesBound(s[..|s| - 1]);
    }
  }

  lemma {:induction false} TruesNone(s: seq<bool>)
    requires forall k :: 0 <= k < |s| ==> !s[k]
    ensures Trues(s) == 0
  {
    if s != [] {
      TruesNone(s[..|s| - 1]);
    }
  }

  lemma {:induction false} TruesSet(s: seq<bool>, k: nat)
    requires k < |s| && !s[k]
    ensures Trues(s[k := true]) == Trues(s) + 1
  {
    var t := s[k := true];
    if k < |s| - 1 {
      assert t[..|t| - 1] == s[..|s| - 1][k := true];
      TruesSet(s[..|s| - 1], k);
    } else {
      assert t[..|t| - 1] == s[..|s| - 1];
    }
  }

  /** playerAdded[k] = true, counted. */
  method AddFlag(flags: array<bool>, k: int)
    requires 0 <= k < flags.Length && !flags[k]
    modifies flags
    ensures flags[..] == old(flags[..])[k := true]
    ensures Trues(flags[..]) == Trues(old(flags[..])) + 1
  {
    TruesSet(flags[..], k);
    flags[k] := true;
  }

  /** The second loop of the Qualifier branch: wins[id - 1] for each ID. */
  method CountWins(players: seq<Player>, matches: seq<TournamentMatch>, stage: Stage) returns (wins: seq<int>)
    requires Referenced(players, matches) && StageIdsOk(players, matches, stage)
    ensures |wins| == MaxPlayers
    ensures forall k :: 0 <= k < MaxPlayers ==> wins[k] == WinsOf(players, matches, stage, k + 1)
  {
    var w := new int[MaxPlayers](_ => 0);
    for i := 0 to |matches|
      invariant forall k :: 0 <= k < MaxPlayers ==> w[k] == WinsOf(players, matches[..i], stage, k + 1)
    {
      assert matches[..i + 1][..i] == matches[..i];
      var m := matches[i];
      assert MatchOk(m, |players|);
      if m.round == stage && m.status == Completed {
        if m.winner.Some? {
          assert IdOk(players, m.player1) && IdOk(players, m.player2);
          var winnerId := players[m.winner.value].id;
          w[winnerId - 1] := w[winnerId - 1] + 1;
        }
      }
    }
    assert matches[..|matches|] == matches;
    wins := w[..];
  }

  // ---------------------------------------------------------------------------
  // Ranking through the queue

  /** The queue entry of a participant: its wins in the stage and its points. */
  function EntryFor(players: seq<Player>, matches: seq<TournamentMatch>, stage: Stage, p: nat): Entry
    requires Referenced(players, matches) && p < |players|
  {
    Entry(p, WinsOf(players, matches, stage, players[p].id), players[p].totalPointsScored)
  }

  /** The entries the Qualifier branch enqueues, in order. */
  function QualifierEntries(players: seq<Player>, matches: seq<TournamentMatch>, stage: Stage, ps: seq<nat>)
    : (es: seq<Entry>)
    requires Referenced(players, matches) && OnRoster(players, ps)
    ensures |es| == |ps| && forall k :: 0 <= k < |ps| ==> es[k] == EntryFor(players, matches, stage, ps[k])
  {
    seq(|ps|, k requires 0 <= k < |ps| => EntryFor(players, matches, stage, ps[k]))
  }

  /** The queue contents after enqueueing es in turn: enqueue does nothing at
      capacity. */
  ghost function AddWithin(m: multiset<Entry>, es: seq<Entry>): multiset<Entry> {
    if es == [] then m
    else
      var before := AddWithin(m, es[..|es| - 1]);
      if |before| < MaxSize then before + multiset{es[|es| - 1]} else before
  }

  lemma AddWithinStep(m: multiset<Entry>, es: seq<Entry>, i: nat)
    requires i < |es|
    ensures AddWithin(m, es[..i + 1]) == if |AddWithin(m, es[..i])| < MaxSize then AddWithin(m, es[..i]) + multiset{es[i]}
                                         else AddWithin(m, es[..i])
  {
    assert es[..i + 1][..i] == es[..i];
  }

  lemma {:induction false} AddWithinSize(m: multiset<Entry>, es: seq<Entry>)
    requires |m| <= MaxSize
    ensures |AddWithin(m, es)| == Min(MaxSize, |m| + |es|)
  {
    if es != [] {
      AddWithinSize(m, es[..|es| - 1]);
    }
  }

  /** Below capacity every entry is added. */
  lemma {:induction false} AddWithinAll(m: multiset<Entry>, es: seq<Entry>)
    requires |m| + |es| <= MaxSize
    ensures AddWithin(m, es) == m + multiset(es)
  {
    if es != [] {
      var pre := es[..|es| - 1];
      AddWithinAll(m, pre);
      assert es == pre + [es[|es| - 1]];
    }
  }

  /** e ranks at least as high as every entry of m. */
  ghost predicate Ranks(e: Entry, m: multiset<Entry>) {
    forall y :: y in m ==> AtLeast(e, y)
  }

  /** Each entry taken ranks at least as high as everything still in the pool
      when it was taken. */
  ghost predicate RankedFrom(pool: multiset<Entry>, ranked: seq<Entry>) {
    forall k :: 0 <= k < |ranked| ==> Ranks(ranked[k], pool - multiset(ranked[..k]))
  }

  lemma RankedSnoc(pool: multiset<Entry>, ranked: seq<Entry>, top: Entry)
    requires RankedFrom(pool, ranked) && Ranks(top, pool - multiset(ranked))
    ensures RankedFrom(pool, ranked + [top])
  {
    var r := ranked + [top];
    assert r[..|ranked|] == ranked;
    forall k | 0 <= k < |r| ensures Ranks(r[k], pool - multiset(r[..k])) {
      if k < |ranked| {
        assert r[..k] == ranked[..k];
      }
    }
  }

  /** How many players the Qualifier branch advances: min(participants, 4,
      maxWinners), and none when that is not positive. */
  function Advancing(participants: int, maxWinners: int): nat {
    var a := Min(Min(participants, 4), maxWinners);
    if a < 0 then 0 else a
  }

  /** Every queued entry is a roster player whose ID the arrays can index. */
  ghost predicate QueueOk(pq: WinnerPriorityQueue, players: seq<Player>)
    reads pq, pq.heap
    requires pq.Valid()
  {
    forall e :: e in pq.Contents() ==> IdOk(players, e.player)
  }

  /** The Qualifier's ranking when the queue starts empty: |winners| distinct
      participants, each ranking at least as high as every participant not
      taken before it. */
  ghost predicate TopRanked(players: seq<Player>, matches: seq<TournamentMatch>, stage: Stage, parts: seq<nat>,
                            winners: seq<nat>)
    requires Referenced(players, matches) && OnRoster(players, parts)
  {
    && (forall k :: 0 <= k < |winners| ==> winners[k] in parts)
    && (forall a, b :: 0 <= a < b < |winners| ==> winners[a] != winners[b])
    && (forall k, j :: 0 <= k < |winners| && 0 <= j < |parts| && parts[j] !in winners[..k] ==>
          AtLeast(EntryFor(players, matches, stage, winners[k]), EntryFor(players, matches, stage, parts[j])))
  }

  /** Entries of distinct players occur at most once. */
  lemma {:induction false} DistinctEntries(es: seq<Entry>)
    requires forall a, b :: 0 <= a < b < |es| ==> es[a].player != es[b].player
    ensures forall e :: multiset(es)[e] <= 1
    decreases |es|
  {
    if es != [] {
      var pre := es[..|es| - 1];
      DistinctEntries(pre);
      assert es == pre + [es[|es| - 1]];
      assert es[|es| - 1] !in pre;
    }
  }

  /** Every entry taken is the entry of a participant. */
  lemma RankedArePlayers(players: seq<Player>, matches: seq<TournamentMatch>, stage: Stage, parts: seq<nat>,
                         ranked: seq<Entry>, winners: seq<nat>)
    requires Referenced(players, matches) && OnRoster(players, parts)
    requires multiset(ranked) <= multiset(QualifierEntries(players, matches, stage, parts))
    requires winners == Players(ranked)
    ensures forall k :: 0 <= k < |winners| ==>
              winners[k] in parts && ranked[k] == EntryFor(players, matches, stage, winners[k])
  {
    var es := QualifierEntries(players, matches, stage, parts);
    forall k | 0 <= k < |winners|
      ensures winners[k] in parts && ranked[k] == EntryFor(players, matches, stage, winners[k])
    {
      assert ranked[k] in multiset(ranked);
      assert ranked[k] in es;
      var j :| 0 <= j < |es| && es[j] == ranked[k];
      assert winners[k] == parts[j];
    }
  }

  /** An entry at two positions occurs at least twice. */
  lemma TwiceCounted(s: seq<Entry>, a: nat, b: nat)
    requires a < b < |s| && s[a] == s[b]
    ensures multiset(s)[s[b]] >= 2
  {
    var e := s[b];
    assert s == s[..b] + [e] + s[b + 1..];
    assert e in s[..b];
    assert multiset(s) == multiset(s[..b]) + multiset{e} + multiset(s[b + 1..]);
  }

  /** No entry of a duplicate-free pool is taken twice. */
  lemma RankedDistinct(pool: multiset<Entry>, ranked: seq<Entry>)
    requires multiset(ranked) <= pool && forall e :: pool[e] <= 1
    ensures forall a, b :: 0 <= a < b < |ranked| ==> ranked[a] != ranked[b]
  {
    forall a, b | 0 <= a < b < |ranked| ensures ranked[a] != ranked[b] {
      if ranked[a] == ranked[b] {
        TwiceCounted(ranked, a, b);
      }
    }
  }

  /** The entry taken k-th ranks at least as high as every participant not
      taken before it. */
  lemma RankedAbove(players: seq<Player>, matches: seq<TournamentMatch>, stage: Stage, parts: seq<nat>,
                    ranked: seq<Entry>, winners: seq<nat>, k: nat, j: nat)
    requires Referenced(players, matches) && OnRoster(players, parts)
    requires RankedFrom(multiset(QualifierEntries(players, matches, stage, parts)), ranked)
    requires winners == Players(ranked)
    requires k < |winners| && j < |parts| && parts[j] !in winners[..k]
    ensures AtLeast(ranked[k], EntryFor(players, matches, stage, parts[j]))
  {
    var es := QualifierEntries(players, matches, stage, parts);
    var y := es[j];
    assert y !in ranked[..k];
    assert y in multiset(es) - multiset(ranked[..k]);
    assert Ranks(ranked[k], multiset(es) - multiset(ranked[..k]));
  }

  /** From the queue's promises to the ranking of participants when the queue
      started empty. */
  lemma EmptyQueueRanking(players: seq<Player>, matches: seq<TournamentMatch>, stage: Stage, parts: seq<nat>,
                          ranked: seq<Entry>, winners: seq<nat>)
    requires Referenced(players, matches) && OnRoster(players, parts) && DistinctIds(players, parts)
    requires multiset(ranked) <= multiset(QualifierEntries(players, matches, stage, parts))
    requires RankedFrom(multiset(QualifierEntries(players, matches, stage, parts)), ranked)
    requires winners == Players(ranked)
    ensures TopRanked(players, matches, stage, parts, winners)
  {
    var es := QualifierEntries(players, matches, stage, parts);
    DistinctEntries(es);
    RankedArePlayers(players, matches, stage, parts, ranked, winners);
    RankedDistinct(multiset(es), ranked);
    forall k, j | 0 <= k < |winners| && 0 <= j < |parts| && parts[j] !in winners[..k]
      ensures AtLeast(EntryFor(players, matches, stage, winners[k]), EntryFor(players, matches, stage, parts[j]))
    {
      RankedAbove(players, matches, stage, parts, ranked, winners, k, j);
    }
  }

  /** The pool the Qualifier's choice is made from: what was queued before,
      plus each participant's entry while there is room. */
  ghost function QualifierPool(players: seq<Player>, matches: seq<TournamentMatch>, stage: Stage,
                               start: multiset<Entry>): multiset<Entry>
    requires Referenced(players, matches)
  {
    AddWithin(start, QualifierEntries(players, matches, stage, ParticipantsOf(players, matches, stage)))
  }

  /** The third loop of the Qualifier branch: each participant is enqueued
      with its wins. */
  method EnqueueParticipants(players: seq<Player>, matches: seq<TournamentMatch>, stage: Stage,
                             parts: seq<nat>, wins: seq<int>, pq: WinnerPriorityQueue)
    requires Referenced(players, matches) && StageIdsOk(players, matches, stage)
    requires parts == ParticipantsOf(players, matches, stage)
    requires |wins| == MaxPlayers && forall k :: 0 <= k < MaxPlayers ==> wins[k] == WinsOf(players, matches, stage, k + 1)
    requires pq.Valid()
    modifies pq, pq.heap
    ensures pq.Valid() && pq.Contents() == QualifierPool(players, matches, stage, old(pq.Contents()))
  {
    ghost var es := QualifierEntries(players, matches, stage, parts);
    ghost var start := pq.Contents();
    ParticipantsPlay(players, matches, stage);
    for i := 0 to |parts|
      invariant pq.Valid()
      invariant pq.Contents() == AddWithin(start, es[..i])
    {
      AddWithinStep(start, es, i);
      var p := parts[i];
      ParticipantIdOk(players, matches, stage, parts, i);
      var playerId := players[p].id;
      pq.Enqueue(p, wins[playerId - 1], players[p].totalPointsScored);
    }
    assert es[..|parts|] == es;
  }

  /** The players of a sequence of entries. */
  function Players(es: seq<Entry>): (r: seq<nat>)
    ensures |r| == |es| && forall k :: 0 <= k < |es| ==> r[k] == es[k].player
  {
    seq(|es|, k requires 0 <= k < |es| => es[k].player)
  }

  lemma PlayersSnoc(es: seq<Entry>, e: Entry)
    ensures Players(es + [e]) == Players(es) + [e.player]
  {
    assert forall k :: 0 <= k < |es| ==> (es + [e])[k] == es[k];
  }

  /** One dequeue of the last loop of the Qualifier branch, on a non-empty
      queue: the top entry is taken out of what is left of the pool. */
  method TakeOne(pq: WinnerPriorityQueue, ghost pool: multiset<Entry>, ghost ranked: seq<Entry>)
    returns (r: Option<nat>, ghost top: Entry)
    requires pq.Valid() && pq.Contents() != multiset{}
    requires multiset(ranked) <= pool && pq.Contents() == pool - multiset(ranked) && RankedFrom(pool, ranked)
    modifies pq, pq.heap
    ensures pq.Valid() && r == Some(top.player)
    ensures multiset(ranked + [top]) <= pool && pq.Contents() == pool - multiset(ranked + [top])
    ensures RankedFrom(pool, ranked + [top])
    ensures |pq.Contents()| < |old(pq.Contents())|
  {
    ghost var left := pq.Contents();
    r, top := pq.Dequeue();
    RankedSnoc(pool, ranked, top);
  }

  /** The last loop of the Qualifier branch: up to maxAdvancing entries are
      dequeued, best first. */
  method TakeTop(pq: WinnerPriorityQueue, maxAdvancing: int) returns (winners: seq<nat>, ghost ranked: seq<Entry>)
    requires pq.Valid()
    modifies pq, pq.heap
    ensures pq.Valid()
    ensures |winners| == if maxAdvancing < 0 then 0 else Min(maxAdvancing, |old(pq.Contents())|)
    ensures winners == Players(ranked)
    ensures multiset(ranked) <= old(pq.Contents()) && pq.Contents() == old(pq.Contents()) - multiset(ranked)
    ensures RankedFrom(old(pq.Contents()), ranked)
  {
    ghost var pool := pq.Contents();
    winners, ranked := [], [];
    var empty := pq.IsEmpty();
    while !empty && |winners| < maxAdvancing
      invariant pq.Valid()
      invariant empty <==> pq.Contents() == multiset{}
      invariant winners == Players(ranked)
      invariant multiset(ranked) <= pool && pq.Contents() == pool - multiset(ranked)
      invariant RankedFrom(pool, ranked)
      invariant |winners| <= maxAdvancing || winners == []
      decreases |pq.Contents()|
    {
      var r;
      ghost var top;
      r, top := TakeOne(pq, pool, ranked);
      if r.Some? {
        PlayersSnoc(ranked, top);
        winners, ranked := winners + [r.value], ranked + [top];
      }
      empty := pq.IsEmpty();
    }
  }

  /** The Qualifier branch: every participant is enqueued with its wins, then
      the top entries are dequeued. The queue is not emptied first, so
      entries left over from an earlier call compete too, and the ones not
      taken stay queued. */
  method CollectQualifier(players: seq<Player>, matches: seq<TournamentMatch>, stage: Stage, maxWinners: int,
                          pq: WinnerPriorityQueue)
    returns (winners: seq<nat>, ghost ranked: seq<Entry>)
    requires Referenced(players, matches) && StageIdsOk(players, matches, stage)
    requires pq.Valid()
    modifies pq, pq.heap
    ensures pq.Valid()
    ensures QualifierChoice(players, matches, stage, maxWinners, old(pq.Contents()), winners, ranked)
    ensures pq.Contents() == QualifierPool(players, matches, stage, old(pq.Contents())) - multiset(ranked)
  {
    var parts := CollectParticipants(players, matches, stage);
    var wins := CountWins(players, matches, stage);
    ghost var start := pq.Contents();
    EnqueueParticipants(players, matches, stage, parts, wins, pq);
    ghost var es := QualifierEntries(players, matches, stage, parts);
    AddWithinSize(start, es);
    var maxAdvancing := Min(Min(|parts|, 4), maxWinners);
    winners, ranked := TakeTop(pq, maxAdvancing);
    if start == multiset{} {
      ParticipantsShape(players, matches, stage);
      AddWithinAll(start, es);
      EmptyQueueRanking(players, matches, stage, parts, ranked, winners);
    }
  }

  /** A participant has an ID the arrays can index. */
  lemma ParticipantIdOk(players: seq<Player>, matches: seq<TournamentMatch>, stage: Stage, parts: seq<nat>, i: nat)
    requires Referenced(players, matches) && StageIdsOk(players, matches, stage)
    requires parts == ParticipantsOf(players, matches, stage) && i < |parts|
    requires PlaysIn(matches, stage, parts[i])
    ensures IdOk(players, parts[i])
  {
  }

  // ---------------------------------------------------------------------------
  // Knockout stages

  /** The winners of the completed matches of the stage, each ID once, in
      match order, until maxWinners are collected. */
  function KnockoutWinnersOf(players: seq<Player>, matches: seq<TournamentMatch>, stage: Stage, maxWinners: int)
    : (r: seq<nat>)
    requires Referenced(players, matches)
    ensures OnRoster(players, r)
  {
    if matches == [] then []
    else
      var last := |matches| - 1;
      var rest := KnockoutWinnersOf(players, matches[..last], stage, maxWinners);
      var m := matches[last];
      assert MatchOk(m, |players|);
      if Counted(m, stage) && |rest| < maxWinners && players[m.winner.value].id !in IdsOf(players, rest)
      then rest + [m.winner.value]
      else rest
  }

  /** The player won a completed match of the stage. */
  predicate WonIn(matches: seq<TournamentMatch>, stage: Stage, p: nat) {
    exists i :: 0 <= i < |matches| && Counted(matches[i], stage) && matches[i].winner.value == p
  }

  /** At most maxWinners distinct IDs, each the winner of a completed match of
      the stage; short of maxWinners, every such winner is among them. */
  lemma {:induction false} KnockoutWinnersShape(players: seq<Player>, matches: seq<TournamentMatch>, stage: Stage,
                                                maxWinners: int)
    requires Referenced(players, matches)
    ensures |KnockoutWinnersOf(players, matches, stage, maxWinners)| <= (if maxWinners < 0 then 0 else maxWinners)
    ensures DistinctIds(players, KnockoutWinnersOf(players, matches, stage, maxWinners))
    ensures AllWon(matches, stage, KnockoutWinnersOf(players, matches, stage, maxWinners))
    ensures |KnockoutWinnersOf(players, matches, stage, maxWinners)| < maxWinners ==>
              WinnersCovered(players, matches, stage, KnockoutWinnersOf(players, matches, stage, maxWinners))
  {
    KnockoutWinnersDistinct(players, matches, stage, maxWinners);
    KnockoutWinnersWon(players, matches, stage, maxWinners);
    KnockoutWinnersCover(players, matches, stage, maxWinners);
  }

  /** A knockout step adds the winner as AddNew does, while there is room. */
  lemma KnockoutWinnersStep(players: seq<Player>, matches: seq<TournamentMatch>, stage: Stage, maxWinners: int)
    requires Referenced(players, matches) && matches != []
    ensures MatchOk(matches[|matches| - 1], |players|)
    ensures KnockoutWinnersOf(players, matches, stage, maxWinners) ==
              var rest := KnockoutWinnersOf(players, matches[..|matches| - 1], stage, maxWinners);
              var m := matches[|matches| - 1];
              if Counted(m, stage) && |rest| < maxWinners then AddNew(players, rest, m.winner.value) else rest
  {
    assert MatchOk(matches[|matches| - 1], |players|);
  }

  lemma {:induction false} KnockoutWinnersDistinct(players: seq<Player>, matches: seq<TournamentMatch>, stage: Stage,
                                                   maxWinners: int)
    requires Referenced(players, matches)
    ensures |KnockoutWinnersOf(players, matches, stage, maxWinners)| <= (if maxWinners < 0 then 0 else maxWinners)
    ensures DistinctIds(players, KnockoutWinnersOf(players, matches, stage, maxWinners))
    decreases |matches|
  {
    if matches != [] {
      var last := |matches| - 1;
      var pre := matches[..last];
      var rest := KnockoutWinnersOf(players, pre, stage, maxWinners);
      KnockoutWinnersDistinct(players, pre, stage, maxWinners);
      KnockoutWinnersStep(players, matches, stage, maxWinners);
      var m := matches[last];
      if Counted(m, stage) && |rest| < maxWinners {
        AddNewFacts(players, rest, m.winner.value);
      }
    }
  }

  /** Every listed player won a completed match of the stage. */
  predicate AllWon(matches: seq<TournamentMatch>, stage: Stage, ws: seq<nat>) {
    forall k :: 0 <= k < |ws| ==> WonIn(matches, stage, ws[k])
  }

  lemma AllWonSnoc(matches: seq<TournamentMatch>, stage: Stage, ws: seq<nat>)
    requires matches != [] && AllWon(matches[..|matches| - 1], stage, ws)
    ensures AllWon(matches, stage, ws)
  {
    var pre := matches[..|matches| - 1];
    forall k | 0 <= k < |ws| ensures WonIn(matches, stage, ws[k]) {
      assert WonIn(pre, stage, ws[k]);
      var i :| 0 <= i < |pre| && Counted(pre[i], stage) && pre[i].winner.value == ws[k];
      assert matches[i] == pre[i];
    }
  }

  lemma AddNewWon(players: seq<Player>, matches: seq<TournamentMatch>, stage: Stage, ws: seq<nat>, p: nat)
    requires OnRoster(players, ws) && p < |players| && AllWon(matches, stage, ws) && WonIn(matches, stage, p)
    ensures AllWon(matches, stage, AddNew(players, ws, p))
  {
  }

  lemma {:induction false} KnockoutWinnersWon(players: seq<Player>, matches: seq<TournamentMatch>, stage: Stage,
                                              maxWinners: int)
    requires Referenced(players, matches)
    ensures AllWon(matches, stage, KnockoutWinnersOf(players, matches, stage, maxWinners))
    decreases |matches|
  {
    if matches != [] {
      var last := |matches| - 1;
      var pre := matches[..last];
      var rest := KnockoutWinnersOf(players, pre, stage, maxWinners);
      KnockoutWinnersWon(players, pre, stage, maxWinners);
      KnockoutWinnersStep(players, matches, stage, maxWinners);
      AllWonSnoc(matches, stage, rest);
      var m := matches[last];
      if Counted(m, stage) && |rest| < maxWinners {
        assert WonIn(matches, stage, m.winner.value);
        AddNewWon(players, matches, stage, rest, m.winner.value);
      }
    }
  }

  /** The winner of the match is represented by its ID. */
  predicate WinnerCovered(players: seq<Player>, m: TournamentMatch, ws: seq<nat>)
    requires MatchOk(m, |players|) && m.winner.Some? && OnRoster(players, ws)
  {
    players[m.winner.value].id in IdsOf(players, ws)
  }

  /** The winner of every completed match of the stage is represented. */
  predicate WinnersCovered(players: seq<Player>, matches: seq<TournamentMatch>, stage: Stage, ws: seq<nat>)
    requires Referenced(players, matches) && OnRoster(players, ws)
  {
    forall i :: 0 <= i < |matches| && Counted(matches[i], stage) ==> WinnerCovered(players, matches[i], ws)
  }

  lemma WinnersCoveredSnoc(players: seq<Player>, matches: seq<TournamentMatch>, stage: Stage, xs: seq<nat>,
                           ws: seq<nat>)
    requires Referenced(players, matches) && matches != [] && OnRoster(players, xs) && OnRoster(players, ws)
    requires WinnersCovered(players, matches[..|matches| - 1], stage, xs) && IdsWithin(players, xs, ws)
    requires Counted(matches[|matches| - 1], stage) ==> WinnerCovered(players, matches[|matches| - 1], ws)
    ensures WinnersCovered(players, matches, stage, ws)
  {
    var pre := matches[..|matches| - 1];
    forall i | 0 <= i < |pre| && Counted(matches[i], stage) ensures WinnerCovered(players, matches[i], ws) {
      assert matches[i] == pre[i];
      assert WinnerCovered(players, pre[i], xs);
    }
  }

  lemma {:induction false} KnockoutWinnersCover(players: seq<Player>, matches: seq<TournamentMatch>, stage: Stage,
                                                maxWinners: int)
    requires Referenced(players, matches)
    ensures |KnockoutWinnersOf(players, matches, stage, maxWinners)| < maxWinners ==>
              WinnersCovered(players, matches, stage, KnockoutWinnersOf(players, matches, stage, maxWinners))
    decreases |matches|
  {
    if matches != [] {
      var last := |matches| - 1;
      var pre := matches[..last];
      var rest := KnockoutWinnersOf(players, pre, stage, maxWinners);
      KnockoutWinnersCover(players, pre, stage, maxWinners);
      KnockoutWinnersStep(players, matches, stage, maxWinners);
      var m := matches[last];
      var r := KnockoutWinnersOf(players, matches, stage, maxWinners);
      if |r| < maxWinners {
        if Counted(m, stage) && |rest| < maxWinners {
          AddNewFacts(players, rest, m.winner.value);
        }
        WinnersCoveredSnoc(players, matches, stage, rest, r);
      }
    }
  }

  /** The knockout branch. */
  method CollectKnockout(players: seq<Player>, matches: seq<TournamentMatch>, stage: Stage, maxWinners: int)
    returns (winners: seq<nat>)
    requires Referenced(players, matches) && WinnerIdsOk(players, matches, stage)
    ensures winners == KnockoutWinnersOf(players, matches, stage, maxWinners)
  {
    var playerAdded := new bool[MaxPlayers](_ => false);
    winners := [];
    for i := 0 to |matches|
      invariant winners == KnockoutWinnersOf(players, matches[..i], stage, maxWinners)
      invariant forall k :: 0 <= k < MaxPlayers ==> (playerAdded[k] <==> k + 1 in IdsOf(players, winners))
    {
      assert matches[..i + 1][..i] == matches[..i];
      var m := matches[i];
      assert MatchOk(m, |players|);
      if m.round == stage && m.status == Completed {
        if m.winner.Some? && |winners| < maxWinners {
          assert IdOk(players, m.winner.value);
          var playerId := players[m.winner.value].id;
          if !playerAdded[playerId - 1] {
            ghost var w0 := winners;
            winners := winners + [m.winner.value];
            playerAdded[playerId - 1] := true;
            assert IdsOf(players, winners) == IdsOf(players, w0) + [playerId];
          }
        }
      }
    }
    assert matches[..|matches|] == matches;
  }

  /** What the Qualifier branch promises about its choice, made from the
      queue contents `start` it was called with. */
  ghost predicate QualifierChoice(players: seq<Player>, matches: seq<TournamentMatch>, stage: Stage, maxWinners: int,
                                  start: multiset<Entry>, winners: seq<nat>, ranked: seq<Entry>)
    requires Referenced(players, matches)
  {
    && |winners| == Advancing(|ParticipantsOf(players, matches, stage)|, maxWinners)
    && winners == Players(ranked)
    && multiset(ranked) <= QualifierPool(players, matches, stage, start)
    && RankedFrom(QualifierPool(players, matches, stage, start), ranked)
    && (start == multiset{} ==> TopRanked(players, matches, stage, ParticipantsOf(players, matches, stage), winners))
  }

  /** collectWinners. The returned count is |winners|; `ranked` is the
      sequence of queue entries behind the Qualifier's choice. */
  method CollectWinners(players: seq<Player>, matches: seq<TournamentMatch>, stage: Stage, maxWinners: int,
                        pq: WinnerPriorityQueue)
    returns (winners: seq<nat>, ghost ranked: seq<Entry>)
    requires Referenced(players, matches)
    requires stage == Qualifier ==> StageIdsOk(players, matches, stage)
    requires stage != Qualifier ==> WinnerIdsOk(players, matches, stage)
    requires pq.Valid() && QueueOk(pq, players)
    modifies pq, pq.heap
    ensures pq.Valid() && QueueOk(pq, players)
    ensures forall k :: 0 <= k < |winners| ==> IdOk(players, winners[k])
    ensures stage != Qualifier ==>
              winners == KnockoutWinnersOf(players, matches, stage, maxWinners) && pq.Contents() == old(pq.Contents())
    ensures stage == Qualifier ==>
              && QualifierChoice(players, matches, stage, maxWinners, old(pq.Contents()), winners, ranked)
              && pq.Contents() == QualifierPool(players, matches, stage, old(pq.Contents())) - multiset(ranked)
  {
    if stage == Qualifier {
      ghost var start := pq.Contents();
      winners, ranked := CollectQualifier(players, matches, stage, maxWinners, pq);
      QualifierPoolOk(players, matches, stage, start);
      ChosenOk(players, QualifierPool(players, matches, stage, start), ranked, winners);
    } else {
      ranked := [];
      winners := CollectKnockout(players, matches, stage, maxWinners);
      KnockoutWinnersOk(players, matches, stage, maxWinners);
    }
  }

  /** Everything in the Qualifier's pool is a roster player with an
      indexable ID. */
  lemma QualifierPoolOk(players: seq<Player>, matches: seq<TournamentMatch>, stage: Stage, start: multiset<Entry>)
    requires Referenced(players, matches) && StageIdsOk(players, matches, stage)
    requires forall e :: e in start ==> IdOk(players, e.player)
    ensures forall e :: e in QualifierPool(players, matches, stage, start) ==> IdOk(players, e.player)
  {
    var parts := ParticipantsOf(players, matches, stage);
    var es := QualifierEntries(players, matches, stage, parts);
    ParticipantsShape(players, matches, stage);
    forall k | 0 <= k < |es| ensures IdOk(players, es[k].player) {
      ParticipantIdOk(players, matches, stage, parts, k);
    }
    PoolOk(players, matches, stage, start, es);
  }

  /** What is taken from a pool, and what is left of it, are roster players
      with indexable IDs. */
  lemma ChosenOk(players: seq<Player>, pool: multiset<Entry>, ranked: seq<Entry>, winners: seq<nat>)
    requires forall e :: e in pool ==> IdOk(players, e.player)
    requires multiset(ranked) <= pool && winners == Players(ranked)
    ensures forall k :: 0 <= k < |winners| ==> IdOk(players, winners[k])
    ensures forall e :: e in pool - multiset(ranked) ==> IdOk(players, e.player)
  {
    forall k | 0 <= k < |winners| ensures IdOk(players, winners[k]) {
      assert ranked[k] in multiset(ranked);
    }
  }

  /** Knockout winners are winners of stage matches, with indexable IDs. */
  lemma KnockoutWinnersOk(players: seq<Player>, matches: seq<TournamentMatch>, stage: Stage, maxWinners: int)
    requires Referenced(players, matches) && WinnerIdsOk(players, matches, stage)
    ensures forall k :: 0 <= k < |KnockoutWinnersOf(players, matches, stage, maxWinners)| ==>
              IdOk(players, KnockoutWinnersOf(players, matches, stage, maxWinners)[k])
  {
    var w := KnockoutWinnersOf(players, matches, stage, maxWinners);
    KnockoutWinnersShape(players, matches, stage, maxWinners);
    forall k | 0 <= k < |w| ensures IdOk(players, w[k]) {
      assert WonIn(matches, stage, w[k]);
      var i :| 0 <= i < |matches| && Counted(matches[i], stage) && matches[i].winner.value == w[k];
    }
  }

  /** A winner is one of the players, so its ID is in range. */
  lemma WinnersOk(players: seq<Player>, matches: seq<TournamentMatch>, stage: Stage)
    requires Referenced(players, matches) && StageIdsOk(players, matches, stage)
    ensures WinnerIdsOk(players, matches, stage)
  {
    forall i | 0 <= i < |matches| && Counted(matches[i], stage) ensures IdOk(players, matches[i].winner.value) {
      assert MatchOk(matches[i], |players|);
    }
  }

  /** Everything in the pool is a roster player with an indexable ID. */
  lemma {:induction false} PoolOk(players: seq<Player>, matches: seq<TournamentMatch>, stage: Stage,
                                  start: multiset<Entry>, es: seq<Entry>)
    requires Referenced(players, matches) && StageIdsOk(players, matches, stage)
    requires forall e :: e in start ==> IdOk(players, e.player)
    requires forall k :: 0 <= k < |es| ==> IdOk(players, es[k].player)
    ensures forall e :: e in AddWithin(start, es) ==> IdOk(players, e.player)
  {
    if es != [] {
      PoolOk(players, matches, stage, start, es[..|es| - 1]);
    }
  }
}

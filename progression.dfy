/** Stage progression in src/scheduleMatches.cpp: handlePostMatchProgression,
    which generates the next knockout stage once the previous one is
    complete, and autoSimulateFullTournament, which plays a whole tournament
    with random tallies. */
module Progression {
  import opened Base
  import opened Schedule
  import opened WinnerQueue
  import opened Winners

  /** The maxMatches bound both callers pass to generateKnockoutMatches. */
  const KnockoutRoom: int := 100

  /** Every player of every match is a roster entry with an ID in 1 .. 50. */
  predicate IdsOk(b: Board) {
    forall i :: 0 <= i < |b.matches| ==> IdOk(b.players, b.matches[i].player1) && IdOk(b.players, b.matches[i].player2)
  }

  /** A completed match has a winner: the engine sets both together. */
  predicate Decided(matches: seq<TournamentMatch>) {
    forall i :: 0 <= i < |matches| && matches[i].status == Completed ==> matches[i].winner.Some?
  }

  /** The state the engine keeps between menu actions. */
  predicate Ready(b: Board) {
    WellFormed(b) && IdsOk(b) && Decided(b.matches)
  }

  /** A match just generated for the stage. */
  predicate Fresh(m: TournamentMatch, stage: Stage, players: seq<Player>) {
    m.round == stage && m.status == Upcoming && m.winner == None && IdOk(players, m.player1) && IdOk(players, m.player2)
  }

  /** ms is ms0 followed by matches just generated for the stage. */
  predicate Appended(ms0: seq<TournamentMatch>, ms: seq<TournamentMatch>, stage: Stage, players: seq<Player>) {
    && |ms0| <= |ms| && ms[..|ms0|] == ms0
    && forall i :: |ms0| <= i < |ms| ==> Fresh(ms[i], stage, players)
  }

  /** Some match of the stage was added after the first |ms0|. */
  predicate NewIn(ms0: seq<TournamentMatch>, ms: seq<TournamentMatch>, stage: Stage) {
    exists i :: |ms0| <= i < |ms| && ms[i].round == stage
  }

  /** The same fixture: ID, players and stage. */
  predicate SameFixture(m: TournamentMatch, m2: TournamentMatch) {
    m2.id == m.id && m2.player1 == m.player1 && m2.player2 == m.player2 && m2.round == m.round
  }

  /** ms keeps every match of ms0 as a fixture and every recorded result of
      ms0 unchanged, and may have more matches after them. */
  predicate Evolved(ms0: seq<TournamentMatch>, ms: seq<TournamentMatch>) {
    && |ms0| <= |ms|
    && forall i :: 0 <= i < |ms0| ==> SameFixture(ms0[i], ms[i]) && (ms0[i].status == Completed ==> ms[i] == ms0[i])
  }

  lemma EvolvedTrans(ms0: seq<TournamentMatch>, ms1: seq<TournamentMatch>, ms2: seq<TournamentMatch>)
    requires Evolved(ms0, ms1) && Evolved(ms1, ms2)
    ensures Evolved(ms0, ms2)
  {
  }

  // ---------------------------------------------------------------------------
  // Generated matches

  /** generateKnockoutMatches appends matches just generated for the stage,
      between the advancers. */
  lemma KnockoutAppended(players: seq<Player>, winners: seq<nat>, matches: seq<TournamentMatch>, k: nat, id0: int,
                         stage: Stage)
    requires forall j :: 0 <= j < |winners| ==> IdOk(players, winners[j])
    requires k <= |winners| / 2
    ensures Appended(matches, matches + NewMatches(KnockoutPairs(winners)[..k], id0, stage), stage, players)
  {
    var pairs := KnockoutPairs(winners)[..k];
    var nm := NewMatches(pairs, id0, stage);
    var ms := matches + nm;
    assert ms[..|matches|] == matches;
    forall t | 0 <= t < |nm| ensures Fresh(nm[t], stage, players) {
      assert pairs[t] == (winners[2 * t], winners[2 * t + 1]);
    }
    forall i | |matches| <= i < |ms| ensures Fresh(ms[i], stage, players) {
      assert ms[i] == nm[i - |matches|];
    }
  }


  /** Appending generated matches keeps the engine's state. */
  lemma AppendedReady(b: Board, ms: seq<TournamentMatch>, stage: Stage)
    requires Ready(b) && Appended(b.matches, ms, stage, b.players)
    ensures Ready(b.(matches := ms))
  {
    forall i | 0 <= i < |b.matches| ensures ms[i] == b.matches[i] {
      assert ms[i] == ms[..|b.matches|][i];
    }
  }

  /** Appending keeps every match as it was. */
  lemma AppendedEvolved(ms0: seq<TournamentMatch>, ms: seq<TournamentMatch>, stage: Stage, players: seq<Player>)
    requires Appended(ms0, ms, stage, players)
    ensures Evolved(ms0, ms)
  {
    forall i | 0 <= i < |ms0| ensures ms[i] == ms0[i] {
      assert ms[i] == ms[..|ms0|][i];
    }
  }

  /** Matches generated for one stage leave every other stage as it was. */
  lemma AppendedOther(ms0: seq<TournamentMatch>, ms: seq<TournamentMatch>, stage: Stage, players: seq<Player>,
                      other: Stage)
    requires Appended(ms0, ms, stage, players) && other != stage
    ensures AreAllMatchesCompleted(ms, other) == AreAllMatchesCompleted(ms0, other)
    ensures StageExists(ms, other) == StageExists(ms0, other)
    ensures !NewIn(ms0, ms, other)
  {
    assert forall i :: 0 <= i < |ms0| ==> ms[i] == ms[..|ms0|][i];
  }

  /** Generated matches are new matches of the stage, and not played. */
  lemma AppendedNew(ms0: seq<TournamentMatch>, ms: seq<TournamentMatch>, stage: Stage, players: seq<Player>)
    requires Appended(ms0, ms, stage, players)
    ensures |ms| > |ms0| ==> NewIn(ms0, ms, stage) && !AreAllMatchesCompleted(ms, stage)
    ensures |ms| == |ms0| ==> ms == ms0
  {
    if |ms| > |ms0| {
      assert Fresh(ms[|ms0|], stage, players);
    } else {
      assert ms == ms[..|ms0|];
    }
  }

  // ---------------------------------------------------------------------------
  // Simulated stages

  /** Auto-simulating a stage keeps the engine's state, keeps every fixture
      and recorded result, and completes stages without ever un-completing
      one. */
  lemma SimulatedReady(b: Board, r: Board, stage: Stage, cursor: nat, next: nat)
    requires Ready(b) && StageSimulated(b, r, stage, cursor, next)
    ensures Ready(r) && Evolved(b.matches, r.matches)
    ensures forall s :: AreAllMatchesCompleted(b.matches, s) ==> AreAllMatchesCompleted(r.matches, s)
    ensures forall s :: StageExists(r.matches, s) == StageExists(b.matches, s)
  {
    forall i | 0 <= i < |b.matches|
      ensures SameFixture(b.matches[i], r.matches[i])
      ensures b.matches[i].status == Completed ==> r.matches[i] == b.matches[i]
      ensures r.matches[i].status == Completed ==> r.matches[i].winner.Some?
    {
      assert Handled(b.matches[i], r.matches[i], stage);
    }
    forall s | AreAllMatchesCompleted(b.matches, s) ensures AreAllMatchesCompleted(r.matches, s) {
      forall i | 0 <= i < |r.matches| && r.matches[i].round == s ensures r.matches[i].status == Completed {
        assert Handled(b.matches[i], r.matches[i], stage);
      }
    }
    forall i | 0 <= i < |r.matches|
      ensures IdOk(r.players, r.matches[i].player1) && IdOk(r.players, r.matches[i].player2)
    {
      assert SameFixture(b.matches[i], r.matches[i]);
      assert r.players[r.matches[i].player1].id == b.players[b.matches[i].player1].id;
      assert r.players[r.matches[i].player2].id == b.players[b.matches[i].player2].id;
    }
  }

  /** The queue's entries stay valid when only win and loss counters change. */
  lemma QueueOkRoster(pq: WinnerPriorityQueue, ps: seq<Player>, qs: seq<Player>)
    requires pq.Valid() && QueueOk(pq, ps) && SameRoster(ps, qs)
    ensures QueueOk(pq, qs)
  {
    forall e | e in pq.Contents() ensures IdOk(qs, e.player) {
      assert IdOk(ps, e.player);
    }
  }

  /** Collecting winners from the engine's state meets collectWinners's
      demands. */
  lemma ReadyToCollect(b: Board, stage: Stage)
    requires Ready(b)
    ensures Referenced(b.players, b.matches) && StageIdsOk(b.players, b.matches, stage)
    ensures WinnerIdsOk(b.players, b.matches, stage)
  {
    WinnersOk(b.players, b.matches, stage);
  }

  /** One or more knockout winners mean the stage has matches. */
  lemma KnockoutWinnersExist(b: Board, stage: Stage, maxWinners: int)
    requires Referenced(b.players, b.matches) && |KnockoutWinnersOf(b.players, b.matches, stage, maxWinners)| > 0
    ensures StageExists(b.matches, stage)
  {
    KnockoutWinnersShape(b.players, b.matches, stage, maxWinners);
    var w := KnockoutWinnersOf(b.players, b.matches, stage, maxWinners);
    assert WonIn(b.matches, stage, w[0]);
    var i :| 0 <= i < |b.matches| && Counted(b.matches[i], stage) && b.matches[i].winner.value == w[0];
  }

  // ---------------------------------------------------------------------------
  // The operations

  /** The generateKnockoutMatches call of both callers, bounded by 100
      matches. */
  method GenerateStage(b: Board, winners: seq<nat>, matchIdCounter: int, stage: Stage)
    returns (r: Board, nextId: int)
    requires Ready(b) && forall k :: 0 <= k < |winners| ==> IdOk(b.players, winners[k])
    ensures Ready(r) && r.players == b.players && r.history == b.history
    ensures Appended(b.matches, r.matches, stage, b.players)
    ensures nextId - matchIdCounter == |r.matches| - |b.matches| == Fits(|winners| / 2, |b.matches|, KnockoutRoom)
    ensures r.matches == b.matches + NewMatches(KnockoutPairs(winners)[..nextId - matchIdCounter], matchIdCounter, stage)
  {
    var ms;
    ms, nextId := GenerateKnockoutMatches(winners, b.matches, KnockoutRoom, matchIdCounter, stage);
    KnockoutAppended(b.players, winners, b.matches, nextId - matchIdCounter, matchIdCounter, stage);
    AppendedReady(b, ms, stage);
    r := b.(matches := ms);
  }

  /** One block of handlePostMatchProgression: once every match of `from` is
      completed and `to` has no matches yet, the winners of `from` are
      collected and, when there are at least two, matches of `to` are
      generated for them. */
  method ProgressStage(b: Board, matchIdCounter: int, pq: WinnerPriorityQueue, from: Stage, to: Stage,
                       maxWinners: int)
    returns (r: Board, nextId: int)
    requires Ready(b) && pq.Valid() && QueueOk(pq, b.players) && from != to
    modifies pq, pq.heap
    ensures Ready(r) && r.players == b.players && r.history == b.history
    ensures pq.Valid() && QueueOk(pq, b.players)
    ensures Appended(b.matches, r.matches, to, b.players)
    ensures nextId - matchIdCounter == |r.matches| - |b.matches|
    ensures NewIn(b.matches, r.matches, to) ==> AreAllMatchesCompleted(b.matches, from) && !StageExists(b.matches, to)
    ensures NewIn(b.matches, r.matches, to) && from != Qualifier ==> StageExists(b.matches, from)
    ensures (from == Qualifier && AreAllMatchesCompleted(b.matches, from) && !StageExists(b.matches, to)
             && Advancing(|ParticipantsOf(b.players, b.matches, from)|, maxWinners) >= 2
             && |b.matches| < KnockoutRoom) ==> NewIn(b.matches, r.matches, to)
    ensures (from != Qualifier && AreAllMatchesCompleted(b.matches, from) && !StageExists(b.matches, to)
             && |KnockoutWinnersOf(b.players, b.matches, from, maxWinners)| >= 2
             && |b.matches| < KnockoutRoom) ==> NewIn(b.matches, r.matches, to)
  {
    r, nextId := b, matchIdCounter;
    assert b.matches[..|b.matches|] == b.matches;
    if AreAllMatchesCompleted(b.matches, from) && !StageExists(b.matches, to) {
      ReadyToCollect(b, from);
      var winners, ranked := CollectWinners(b.players, b.matches, from, maxWinners, pq);
      if |winners| >= 2 {
        r, nextId := GenerateStage(b, winners, matchIdCounter, to);
        if |r.matches| > |b.matches| {
          assert r.matches[|b.matches|].round == to;
        }
        if from != Qualifier {
          KnockoutWinnersExist(b, from, maxWinners);
        }
      }
    }
  }

  /** The Final match whose winner is announced: the first Final match
      with a winner. */
  predicate FinalWon(m: TournamentMatch) {
    m.round == Final && m.winner.Some?
  }

  /** The champion handlePostMatchProgression and autoSimulateFullTournament
      announce: the winner of the first Final match that has one. */
  function Champion(matches: seq<TournamentMatch>): (c: Option<nat>)
    ensures c.Some? <==> exists i :: 0 <= i < |matches| && FinalWon(matches[i])
    ensures c.Some? ==> exists i :: 0 <= i < |matches| && FinalWon(matches[i]) && matches[i].winner == c
                                    && forall j :: 0 <= j < i ==> !FinalWon(matches[j])
  {
    if matches == [] then None
    else if FinalWon(matches[0]) then matches[0].winner
    else
      var c := Champion(matches[1..]);
      assert forall i :: 1 <= i < |matches| ==> matches[1..][i - 1] == matches[i];
      c
  }

  /** Once the Final is complete there is a champion exactly when the Final
      was played at all. */
  lemma ChampionExists(matches: seq<TournamentMatch>)
    requires Decided(matches) && AreAllMatchesCompleted(matches, Final)
    ensures Champion(matches).Some? <==> StageExists(matches, Final)
  {
    if StageExists(matches, Final) {
      var i :| 0 <= i < |matches| && matches[i].round == Final;
      assert FinalWon(matches[i]);
    }
  }

  /** The loop that finds the champion. */
  method FindChampion(matches: seq<TournamentMatch>) returns (champion: Option<nat>)
    ensures champion == Champion(matches)
  {
    for i := 0 to |matches|
      invariant Champion(matches[i..]) == Champion(matches)
    {
      if matches[i].round == Final && matches[i].winner.Some? {
        return matches[i].winner;
      }
      assert matches[i..][1..] == matches[i + 1..];
    }
    return None;
  }

  /** handlePostMatchProgression: the Semifinal block, then the Final block,
      then the champion once the Final is complete. Each knockout stage is
      generated at most once, and only after the stage before it is
      complete. */
  method HandlePostMatchProgression(b: Board, matchIdCounter: int, pq: WinnerPriorityQueue)
    returns (r: Board, nextId: int, champion: Option<nat>)
    requires Ready(b) && pq.Valid() && QueueOk(pq, b.players)
    modifies pq, pq.heap
    ensures Ready(r) && r.players == b.players && r.history == b.history
    ensures pq.Valid() && QueueOk(pq, r.players)
    ensures |b.matches| <= |r.matches| && r.matches[..|b.matches|] == b.matches
    ensures nextId - matchIdCounter == |r.matches| - |b.matches|
    ensures !NewIn(b.matches, r.matches, Qualifier)
    ensures NewIn(b.matches, r.matches, Semifinal) ==>
              AreAllMatchesCompleted(b.matches, Qualifier) && !StageExists(b.matches, Semifinal)
    ensures NewIn(b.matches, r.matches, Final) ==>
              && StageExists(b.matches, Semifinal) && AreAllMatchesCompleted(b.matches, Semifinal)
              && !StageExists(b.matches, Final) && !NewIn(b.matches, r.matches, Semifinal)
    ensures (AreAllMatchesCompleted(b.matches, Qualifier) && !StageExists(b.matches, Semifinal)
             && |ParticipantsOf(b.players, b.matches, Qualifier)| >= 2
             && |b.matches| < KnockoutRoom) ==> NewIn(b.matches, r.matches, Semifinal)
    ensures (StageExists(b.matches, Semifinal) && AreAllMatchesCompleted(b.matches, Semifinal)
             && !StageExists(b.matches, Final) && |KnockoutWinnersOf(b.players, b.matches, Semifinal, 2)| >= 2
             && |b.matches| < KnockoutRoom) ==> NewIn(b.matches, r.matches, Final)
    ensures champion == if AreAllMatchesCompleted(r.matches, Final) then Champion(r.matches) else None
  {
    var r1, id1 := ProgressStage(b, matchIdCounter, pq, Qualifier, Semifinal, 4);
    r, nextId := ProgressStage(r1, id1, pq, Semifinal, Final, 2);
    Joined(b, r1, r);
    champion := None;
    if AreAllMatchesCompleted(r.matches, Final) {
      champion := FindChampion(r.matches);
    }
  }

  /** How the two blocks of handlePostMatchProgression combine. */
  lemma Joined(b: Board, r1: Board, r: Board)
    requires Appended(b.matches, r1.matches, Semifinal, b.players) && Appended(r1.matches, r.matches, Final, b.players)
    requires NewIn(b.matches, r1.matches, Semifinal) ==> !StageExists(b.matches, Semifinal)
    requires NewIn(r1.matches, r.matches, Final) ==>
               AreAllMatchesCompleted(r1.matches, Semifinal) && !StageExists(r1.matches, Final)
               && StageExists(r1.matches, Semifinal)
    ensures |b.matches| <= |r.matches| && r.matches[..|b.matches|] == b.matches
    ensures !NewIn(b.matches, r.matches, Qualifier)
    ensures NewIn(b.matches, r.matches, Semifinal) <==> NewIn(b.matches, r1.matches, Semifinal)
    ensures NewIn(b.matches, r.matches, Final) <==> NewIn(r1.matches, r.matches, Final)
    ensures NewIn(b.matches, r.matches, Final) ==> r1.matches == b.matches
    ensures StageExists(b.matches, Semifinal) ==> r1.matches == b.matches
  {
    var n0, n1 := |b.matches|, |r1.matches|;
    assert r.matches[..n0] == r.matches[..n1][..n0];
    forall i | n0 <= i < n1 ensures r.matches[i] == r1.matches[i] {
      assert r.matches[i] == r.matches[..n1][i];
    }
    AppendedNew(b.matches, r1.matches, Semifinal, b.players);
  }

  /** The match array after generateKnockoutMatches for the advancers, bounded
      by 100 matches: the knockout pairs that fit, as new matches of the stage
      with consecutive IDs from id0. */
  function WithKnockout(ms: seq<TournamentMatch>, winners: seq<nat>, id0: int, stage: Stage): (r: seq<TournamentMatch>)
    ensures |r| == |ms| + Fits(|winners| / 2, |ms|, KnockoutRoom) && r[..|ms|] == ms
  {
    ms + NewMatches(KnockoutPairs(winners)[..Fits(|winners| / 2, |ms|, KnockoutRoom)], id0, stage)
  }

  /** One stage of autoSimulateFullTournament: the stage is auto-simulated
      into r0, and if it is then complete (it always is) the winners are
      collected from r0 and matches of the next stage generated for them.
      There is no stageExists guard: the next stage's matches are appended
      whether or not that stage already has some. */
  method PlayStage(b: Board, matchIdCounter: int, pq: WinnerPriorityQueue, rand: nat -> nat, cursor: nat,
                   stage: Stage, nextStage: Stage, maxWinners: int)
    returns (r: Board, nextId: int, next: nat, winners: seq<nat>, ghost r0: Board, ghost ranked: seq<Entry>)
    requires Ready(b) && pq.Valid() && QueueOk(pq, b.players) && stage != nextStage
    modifies pq, pq.heap
    ensures Ready(r) && SameRoster(b.players, r.players) && pq.Valid() && QueueOk(pq, r.players)
    ensures Evolved(b.matches, r.matches)
    ensures AreAllMatchesCompleted(r.matches, stage)
    ensures forall s :: s != nextStage && AreAllMatchesCompleted(b.matches, s) ==> AreAllMatchesCompleted(r.matches, s)
    ensures r0 == SimulatePrefix(b, stage, rand, cursor, |b.matches|).0
    ensures next == SimulatePrefix(b, stage, rand, cursor, |b.matches|).1
    ensures StageSimulated(b, r0, stage, cursor, next) && Ready(r0)
    ensures stage == Qualifier ==>
              QualifierChoice(r0.players, r0.matches, stage, maxWinners, old(pq.Contents()), winners, ranked)
    ensures stage != Qualifier ==> winners == KnockoutWinnersOf(r0.players, r0.matches, stage, maxWinners)
    ensures r.players == r0.players && r.history == r0.history
    ensures nextId - matchIdCounter == Fits(|winners| / 2, |r0.matches|, KnockoutRoom)
    ensures r.matches == WithKnockout(r0.matches, winners, matchIdCounter, nextStage)
  {
    var sim;
    sim, next := AutoSimulateStageMatches(b, stage, rand, cursor);
    r0 := sim;
    SimulateStage(b, stage, rand, cursor);
    SimulatedReady(b, sim, stage, cursor, next);
    QueueOkRoster(pq, b.players, sim.players);
    r, nextId, winners, ranked := sim, matchIdCounter, [], [];
    if AreAllMatchesCompleted(sim.matches, stage) {
      ReadyToCollect(sim, stage);
      winners, ranked := CollectWinners(sim.players, sim.matches, stage, maxWinners, pq);
      r, nextId := GenerateStage(sim, winners, matchIdCounter, nextStage);
      AppendedEvolved(sim.matches, r.matches, nextStage, sim.players);
      EvolvedTrans(b.matches, sim.matches, r.matches);
      forall s | s != nextStage ensures AreAllMatchesCompleted(r.matches, s) == AreAllMatchesCompleted(sim.matches, s) {
        AppendedOther(sim.matches, r.matches, nextStage, sim.players, s);
      }
    } else {
      // auto-simulation always leaves the stage complete
      assert false;
    }
  }

  // ---------------------------------------------------------------------------
  // A full simulation from a fresh board crowns a champion

  /** Participants depend only on the fixtures and the players' IDs. */
  lemma {:induction false} ParticipantsByFixture(ps: seq<Player>, qs: seq<Player>, ms: seq<TournamentMatch>,
                                                 ms2: seq<TournamentMatch>, stage: Stage)
    requires Referenced(ps, ms) && Referenced(qs, ms2)
    requires |ps| == |qs| && forall p :: 0 <= p < |ps| ==> qs[p].id == ps[p].id
    requires |ms| == |ms2| && forall i :: 0 <= i < |ms| ==> SameFixture(ms[i], ms2[i])
    ensures ParticipantsOf(ps, ms, stage) == ParticipantsOf(qs, ms2, stage)
    decreases |ms|
  {
    if ms != [] {
      var last := |ms| - 1;
      ParticipantsByFixture(ps, qs, ms[..last], ms2[..last], stage);
      var rest := ParticipantsOf(ps, ms[..last], stage);
      assert IdsOf(ps, rest) == IdsOf(qs, rest);
      var mid := AddNew(ps, rest, ms[last].player1);
      assert mid == AddNew(qs, rest, ms[last].player1);
      assert IdsOf(ps, mid) == IdsOf(qs, mid);
    }
  }

  /** A board with exactly two Semifinal matches at the end, after n matches
      of which none is a Semifinal or a Final, with room for one more match.
      The two Semifinals are unplayed and no player of the first shares an
      ID with a player of the second. */
  predicate SemifinalsReady(b: Board, n: nat) {
    && Ready(b) && |b.matches| == n + 2 && n + 3 <= KnockoutRoom
    && (forall i :: 0 <= i < n ==> b.matches[i].round != Semifinal)
    && !StageExists(b.matches, Final)
    && IsPending(b.matches[n], Semifinal) && IsPending(b.matches[n + 1], Semifinal)
    && b.players[b.matches[n].player1].id != b.players[b.matches[n + 1].player1].id
    && b.players[b.matches[n].player1].id != b.players[b.matches[n + 1].player2].id
    && b.players[b.matches[n].player2].id != b.players[b.matches[n + 1].player1].id
    && b.players[b.matches[n].player2].id != b.players[b.matches[n + 1].player2].id
  }

  /** Roster entries keep their IDs when only the counters change. */
  lemma SameRosterIds(ps: seq<Player>, qs: seq<Player>)
    requires SameRoster(ps, qs)
    ensures |ps| == |qs| && forall p :: 0 <= p < |ps| ==> qs[p].id == ps[p].id
  {
    forall p | 0 <= p < |ps| ensures qs[p].id == ps[p].id {
      assert qs[p] == ps[p].(matchesWon := qs[p].matchesWon, matchesLost := qs[p].matchesLost);
    }
  }

  /** With four or more participants and an empty queue, the Qualifier sends
      four distinct participants on, so the first two and the last two share
      no ID. */
  lemma QualifierFour(players: seq<Player>, matches: seq<TournamentMatch>, w: seq<nat>, e: seq<Entry>)
    requires Referenced(players, matches) && |ParticipantsOf(players, matches, Qualifier)| >= 4
    requires QualifierChoice(players, matches, Qualifier, 4, multiset{}, w, e)
    ensures |w| == 4 && OnRoster(players, w)
    ensures forall x, y :: 0 <= x < 2 <= y < 4 ==> players[w[x]].id != players[w[y]].id
  {
    var parts := ParticipantsOf(players, matches, Qualifier);
    ParticipantsShape(players, matches, Qualifier);
    assert TopRanked(players, matches, Qualifier, parts, w);
    forall x, y | 0 <= x < 2 <= y < 4 ensures players[w[x]].id != players[w[y]].id {
      var jx :| 0 <= jx < |parts| && parts[jx] == w[x];
      var jy :| 0 <= jy < |parts| && parts[jy] == w[y];
      assert jx != jy;
    }
  }

  /** Four advancers give two Semifinals, (w0, w1) and (w2, w3), when there
      is room. */
  lemma SemisAppended(ms: seq<TournamentMatch>, w: seq<nat>, id0: int, r: seq<TournamentMatch>)
    requires |w| == 4 && |ms| + 3 <= KnockoutRoom && r == WithKnockout(ms, w, id0, Semifinal)
    ensures |r| == |ms| + 2 && r[..|ms|] == ms
    ensures r[|ms|] == NewMatch(id0, w[0], w[1], Semifinal)
    ensures r[|ms| + 1] == NewMatch(id0 + 1, w[2], w[3], Semifinal)
  {
    var pairs := KnockoutPairs(w)[..2];
    assert r == ms + NewMatches(pairs, id0, Semifinal);
  }

  /** Four advancers with the first two and the last two sharing no ID, on a
      board without knockout matches, give two Semifinals ready to play. */
  lemma SemifinalsFromAdvancers(s1: Board, r1: Board, w1: seq<nat>, id0: int)
    requires Ready(r1) && r1.players == s1.players && |s1.matches| + 3 <= KnockoutRoom
    requires !StageExists(s1.matches, Semifinal) && !StageExists(s1.matches, Final)
    requires |w1| == 4 && OnRoster(s1.players, w1)
    requires forall x, y :: 0 <= x < 2 <= y < 4 ==> s1.players[w1[x]].id != s1.players[w1[y]].id
    requires r1.matches == WithKnockout(s1.matches, w1, id0, Semifinal)
    ensures SemifinalsReady(r1, |s1.matches|)
  {
    var n := |s1.matches|;
    SemisAppended(s1.matches, w1, id0, r1.matches);
    forall i | 0 <= i < n ensures r1.matches[i].round != Semifinal && r1.matches[i].round != Final {
      assert r1.matches[i] == s1.matches[i];
    }
  }

  /** A pending match that auto-simulation handled now counts, won by one of
      its players. */
  lemma HandledCounted(m: TournamentMatch, m2: TournamentMatch, stage: Stage)
    requires IsPending(m, stage) && Handled(m, m2, stage)
    ensures Counted(m2, stage) && (m2.winner.value == m.player1 || m2.winner.value == m.player2)
  {
  }

  /** Two counted matches whose winners have distinct IDs give two knockout
      winners when two are wanted. */
  lemma TwoKnockoutWinners(players: seq<Player>, matches: seq<TournamentMatch>, stage: Stage, i: nat, j: nat)
    requires Referenced(players, matches) && i < |matches| && j < |matches|
    requires Counted(matches[i], stage) && Counted(matches[j], stage)
    requires MatchOk(matches[i], |players|) && MatchOk(matches[j], |players|)
    requires players[matches[i].winner.value].id != players[matches[j].winner.value].id
    ensures |KnockoutWinnersOf(players, matches, stage, 2)| == 2
  {
    KnockoutWinnersShape(players, matches, stage, 2);
  }

  /** Two unplayed Semifinals between players of distinct IDs, once
      simulated, give two Semifinal winners. */
  lemma FinalistsFromSemifinals(r1: Board, s2: Board, n: nat, c: nat, c2: nat)
    requires SemifinalsReady(r1, n) && StageSimulated(r1, s2, Semifinal, c, c2)
    ensures |KnockoutWinnersOf(s2.players, s2.matches, Semifinal, 2)| == 2
    ensures !StageExists(s2.matches, Final) && |s2.matches| == n + 2
  {
    SimulatedReady(r1, s2, Semifinal, c, c2);
    SameRosterIds(r1.players, s2.players);
    HandledCounted(r1.matches[n], s2.matches[n], Semifinal);
    HandledCounted(r1.matches[n + 1], s2.matches[n + 1], Semifinal);
    TwoKnockoutWinners(s2.players, s2.matches, Semifinal, n, n + 1);
  }

  /** Two Semifinal winners give one Final, when there is room. */
  lemma FinalFromFinalists(ms: seq<TournamentMatch>, w: seq<nat>, id0: int, r: seq<TournamentMatch>)
    requires |w| == 2 && |ms| + 1 <= KnockoutRoom && r == WithKnockout(ms, w, id0, Final)
    ensures |r| == |ms| + 1 && r[|ms|].round == Final
  {
    assert r == ms + NewMatches(KnockoutPairs(w)[..1], id0, Final);
  }

  /** The Qualifier half of a full simulation from a board without knockout
      matches: four or more participants, ranked from an empty queue, give
      two Semifinals ready to play. */
  lemma SemifinalsFromQualifier(b: Board, s1: Board, r1: Board, w1: seq<nat>, e1: seq<Entry>, id0: int,
                                c: nat, c1: nat)
    requires Ready(b) && StageSimulated(b, s1, Qualifier, c, c1)
    requires QualifierChoice(s1.players, s1.matches, Qualifier, 4, multiset{}, w1, e1)
    requires Ready(r1) && r1.players == s1.players && r1.matches == WithKnockout(s1.matches, w1, id0, Semifinal)
    requires !StageExists(b.matches, Semifinal) && !StageExists(b.matches, Final)
    requires |ParticipantsOf(b.players, b.matches, Qualifier)| >= 4 && |b.matches| + 3 <= KnockoutRoom
    ensures SemifinalsReady(r1, |b.matches|)
  {
    SimulatedReady(b, s1, Qualifier, c, c1);
    SameRosterIds(b.players, s1.players);
    ParticipantsByFixture(b.players, s1.players, b.matches, s1.matches, Qualifier);
    QualifierFour(s1.players, s1.matches, w1, e1);
    SemifinalsFromAdvancers(s1, r1, w1, id0);
  }

  /** The knockout half: two Semifinals ready to play lead to a Final, which
      the last auto-simulation keeps. */
  lemma FinalFromSemifinals(r1: Board, s2: Board, r2: Board, w2: seq<nat>, id1: int, ms: seq<TournamentMatch>,
                            n: nat, c1: nat, c2: nat)
    requires SemifinalsReady(r1, n) && StageSimulated(r1, s2, Semifinal, c1, c2)
    requires w2 == KnockoutWinnersOf(s2.players, s2.matches, Semifinal, 2)
    requires r2.matches == WithKnockout(s2.matches, w2, id1, Final) && Evolved(r2.matches, ms)
    ensures StageExists(ms, Final)
  {
    FinalistsFromSemifinals(r1, s2, n, c1, c2);
    FinalFromFinalists(s2.matches, w2, id1, r2.matches);
    assert SameFixture(r2.matches[n + 2], ms[n + 2]);
  }

  /** Both halves: from a board without knockout matches, with four or more
      Qualifier participants, room and an empty queue, the two stage steps
      and the last auto-simulation end with a Final. */
  lemma FinalReached(b: Board, pool: multiset<Entry>, s1: Board, r1: Board, w1: seq<nat>, e1: seq<Entry>, id0: int,
                     s2: Board, r2: Board, w2: seq<nat>, id1: int, ms: seq<TournamentMatch>, c: nat, c1: nat, c2: nat)
    requires Ready(b) && StageSimulated(b, s1, Qualifier, c, c1)
    requires QualifierChoice(s1.players, s1.matches, Qualifier, 4, pool, w1, e1)
    requires Ready(r1) && r1.players == s1.players && r1.matches == WithKnockout(s1.matches, w1, id0, Semifinal)
    requires StageSimulated(r1, s2, Semifinal, c1, c2)
    requires w2 == KnockoutWinnersOf(s2.players, s2.matches, Semifinal, 2)
    requires r2.matches == WithKnockout(s2.matches, w2, id1, Final) && Evolved(r2.matches, ms)
    ensures (pool == multiset{} && !StageExists(b.matches, Semifinal) && !StageExists(b.matches, Final)
             && |ParticipantsOf(b.players, b.matches, Qualifier)| >= 4 && |b.matches| + 3 <= KnockoutRoom)
            ==> StageExists(ms, Final)
  {
    if pool == multiset{} && !StageExists(b.matches, Semifinal) && !StageExists(b.matches, Final)
       && |ParticipantsOf(b.players, b.matches, Qualifier)| >= 4 && |b.matches| + 3 <= KnockoutRoom {
      SemifinalsFromQualifier(b, s1, r1, w1, e1, id0, c, c1);
      FinalFromSemifinals(r1, s2, r2, w2, id1, ms, |b.matches|, c1, c2);
    }
  }

  /** autoSimulateFullTournament: the Qualifier, Semifinal and Final are each
      auto-simulated in turn, with the next stage generated from the winners
      in between. Every stage ends complete, and there is a champion exactly
      when a Final was played. From a board without knockout matches, with
      four or more Qualifier participants, room for three more matches and
      an empty queue, a Final is always played. Like PlayStage, it has no
      stageExists guard. */
  method AutoSimulateFullTournament(b: Board, matchIdCounter: int, pq: WinnerPriorityQueue, rand: nat -> nat,
                                    cursor: nat)
    returns (r: Board, nextId: int, next: nat, champion: Option<nat>)
    requires Ready(b) && pq.Valid() && QueueOk(pq, b.players)
    modifies pq, pq.heap
    ensures Ready(r) && SameRoster(b.players, r.players) && pq.Valid() && QueueOk(pq, r.players)
    ensures Evolved(b.matches, r.matches)
    ensures AreAllMatchesCompleted(r.matches, Qualifier) && AreAllMatchesCompleted(r.matches, Semifinal)
    ensures AreAllMatchesCompleted(r.matches, Final)
    ensures champion == Champion(r.matches) && (champion.Some? <==> StageExists(r.matches, Final))
    ensures (old(pq.Contents()) == multiset{} && !StageExists(b.matches, Semifinal) && !StageExists(b.matches, Final)
             && |ParticipantsOf(b.players, b.matches, Qualifier)| >= 4 && |b.matches| + 3 <= KnockoutRoom)
            ==> champion.Some?
  {
    ghost var pool := pq.Contents();
    var r1, id1, c1, w1, s1, e1 := PlayStage(b, matchIdCounter, pq, rand, cursor, Qualifier, Semifinal, 4);
    var r2, id2, c2, w2, s2, e2 := PlayStage(r1, id1, pq, rand, c1, Semifinal, Final, 2);
    SameRosterTrans(b.players, r1.players, r2.players);
    EvolvedTrans(b.matches, r1.matches, r2.matches);
    var c3;
    r, c3 := AutoSimulateStageMatches(r2, Final, rand, c2);
    SimulateStage(r2, Final, rand, c2);
    SimulatedReady(r2, r, Final, c2, c3);
    SameRosterTrans(b.players, r2.players, r.players);
    EvolvedTrans(b.matches, r2.matches, r.matches);
    QueueOkRoster(pq, r2.players, r.players);
    nextId, next := id2, c3;
    FinalReached(b, pool, s1, r1, w1, e1, matchIdCounter, s2, r2, w2, id1, r.matches, cursor, c1, c2);
    ChampionExists(r.matches);
    champion := None;
    if AreAllMatchesCompleted(r.matches, Final) {
      champion := FindChampion(r.matches);
    }
  }
}

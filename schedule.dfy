/** The tournament scheduling engine of src/scheduleMatches.cpp: players and
    matches, the stage checks, round-robin and knockout generation, and the
    recording of a match result. Players and matches are referred to by their
    index in the roster and in the match array. */
module Schedule {
  import opened Base

  datatype Stage = Qualifier | Semifinal | Final

  /** A new match is "UPCOMING"; a recorded one is "Completed". */
  datatype Status = Upcoming | Completed

  datatype Player = Player(id: int, name: string, username: string, password: string,
                           matchesWon: int, matchesLost: int, totalPointsScored: int)

  /** The score of a match: "NOT AVAILABLE" until it is played, then the sets
      each player won, shown as ScoreText renders it. */
  datatype Score = NotAvailable | Sets(p1Sets: int, p2Sets: int)

  /** A TournamentMatch: the players and the winner are roster indices. */
  datatype TournamentMatch = TournamentMatch(id: int, player1: nat, player2: nat, round: Stage,
                                             score: Score, winner: Option<nat>, status: Status)

  /** The whole state the engine works on: the roster, the match array and the
      TournamentMatchHistory (indices of recorded matches). */
  datatype Board = Board(players: seq<Player>, matches: seq<TournamentMatch>, history: seq<nat>)

  function Min(a: int, b: int): int { if a <= b then a else b }

  /** The TournamentMatch constructor. */
  function NewMatch(id: int, p1: nat, p2: nat, round: Stage): TournamentMatch {
    TournamentMatch(id, p1, p2, round, NotAvailable, None, Upcoming)
  }

  /** A match refers to roster entries, and its winner is one of its players. */
  predicate MatchOk(m: TournamentMatch, n: nat) {
    && m.player1 < n && m.player2 < n
    && (m.winner.Some? ==> m.winner.value == m.player1 || m.winner.value == m.player2)
  }

  predicate WellFormed(b: Board) {
    && (forall i :: 0 <= i < |b.matches| ==> MatchOk(b.matches[i], |b.players|))
    && (forall k :: 0 <= k < |b.history| ==> b.history[k] < |b.matches|)
  }

  // ---------------------------------------------------------------------------
  // equalsIgnoreCase, areAllMatchesCompleted, stageExists

  /** equalsIgnoreCase: same length and the same characters up to tolower. */
  function EqualsIgnoreCase(a: string, b: string): (r: bool)
    ensures r <==> Lower(a) == Lower(b)
  {
    if |a| != |b| then false
    else if a == [] then true
    else
      assert Lower(a) == [ToLower(a[0])] + Lower(a[1..]);
      assert Lower(b) == [ToLower(b[0])] + Lower(b[1..]);
      ToLower(a[0]) == ToLower(b[0]) && EqualsIgnoreCase(a[1..], b[1..])
  }

  /** areAllMatchesCompleted: no match of the stage is still unplayed. */
  function AreAllMatchesCompleted(matches: seq<TournamentMatch>, stage: Stage): (r: bool)
    ensures r <==> forall i :: 0 <= i < |matches| && matches[i].round == stage ==> matches[i].status == Completed
  {
    if matches == [] then true
    else if matches[0].round == stage && matches[0].status != Completed then false
    else
      assert forall i :: 1 <= i < |matches| ==> matches[1..][i - 1] == matches[i];
      AreAllMatchesCompleted(matches[1..], stage)
  }

  /** stageExists: some match is tagged with the stage. */
  function StageExists(matches: seq<TournamentMatch>, stage: Stage): (r: bool)
    ensures r <==> exists i :: 0 <= i < |matches| && matches[i].round == stage
  {
    if matches == [] then false
    else if matches[0].round == stage then true
    else
      assert forall i :: 1 <= i < |matches| ==> matches[1..][i - 1] == matches[i];
      StageExists(matches[1..], stage)
  }

  /** A stage without matches counts as completed, which is why progression
      also asks whether the next stage exists yet. */
  lemma AbsentStageIsCompleted(matches: seq<TournamentMatch>, stage: Stage)
    requires !StageExists(matches, stage)
    ensures AreAllMatchesCompleted(matches, stage)
  {
  }

  // ---------------------------------------------------------------------------
  // Match generation

  /** The matches appended for a list of pairings, with consecutive IDs from id0. */
  function NewMatches(pairs: seq<(nat, nat)>, id0: int, stage: Stage): (r: seq<TournamentMatch>)
    ensures |r| == |pairs|
    ensures forall t :: 0 <= t < |pairs| ==> r[t] == NewMatch(id0 + t, pairs[t].0, pairs[t].1, stage)
  {
    seq(|pairs|, t requires 0 <= t < |pairs| => NewMatch(id0 + t, pairs[t].0, pairs[t].1, stage))
  }

  /** How many of `want` matches fit when the array holds `count` of at most
      `maxMatches`. */
  function Fits(want: nat, count: int, maxMatches: int): nat {
    if count >= maxMatches then 0 else Min(want, maxMatches - count)
  }

  /** Row i of the round robin: (i, j) for every j with i < j < n. */
  function Row(i: nat, n: nat): (r: seq<(nat, nat)>)
    ensures |r| == if i + 1 < n then n - 1 - i else 0
    ensures forall t :: 0 <= t < |r| ==> r[t] == (i, i + 1 + t)
  {
    if i + 1 >= n then [] else seq(n - 1 - i, t requires 0 <= t => (i, i + 1 + t))
  }

  /** Rows 0 .. i-1 of the round robin, in the order of the nested loops. */
  function PairsBefore(i: nat, n: nat): seq<(nat, nat)> {
    if i == 0 then [] else PairsBefore(i - 1, n) + Row(i - 1, n)
  }

  /** Every pairing of the round robin over n players. */
  function Pairs(n: int): seq<(nat, nat)> {
    if n <= 1 then [] else PairsBefore(n - 1, n)
  }

  lemma {:induction false} PairsBeforeLength(i: nat, n: nat)
    requires i < n
    ensures 2 * |PairsBefore(i, n)| == i * (2 * n - i - 1)
  {
    if i > 0 {
      PairsBeforeLength(i - 1, n);
      assert |PairsBefore(i, n)| == |PairsBefore(i - 1, n)| + (n - i);
      RowSum(i, n);
    }
  }

  lemma RowSum(i: int, n: int)
    ensures (i - 1) * (2 * n - (i - 1) - 1) + 2 * (n - i) == i * (2 * n - i - 1)
  {
    assert (i - 1) * (2 * n - i) == i * (2 * n - i) - (2 * n - i);
  }

  /** Round robin over n players makes n(n-1)/2 pairings. */
  lemma PairsCount(n: int)
    ensures n >= 0 ==> 2 * |Pairs(n)| == n * (n - 1)
  {
    if n > 1 {
      PairsBeforeLength(n - 1, n);
      assert (n - 1) * (2 * n - (n - 1) - 1) == (n - 1) * n;
    }
  }

  /** Every pairing in q has its lower player below i, its players in
      increasing order and below n. */
  predicate PairsWithin(q: seq<(nat, nat)>, i: nat, n: nat) {
    forall t :: 0 <= t < |q| ==> q[t].0 < i && q[t].0 < q[t].1 < n
  }

  /** q pairs every lower player below i with each higher player below n. */
  predicate CoversRows(q: seq<(nat, nat)>, i: nat, n: nat) {
    forall a: nat, b: nat :: a < i && a < b < n ==> (a, b) in q
  }

  predicate NoRepeats(q: seq<(nat, nat)>) {
    forall s, t :: 0 <= s < t < |q| ==> q[s] != q[t]
  }

  lemma RowExtendsWithin(p: seq<(nat, nat)>, r: seq<(nat, nat)>, i: nat, n: nat)
    requires i > 0 && r == Row(i - 1, n) && PairsWithin(p, i - 1, n)
    ensures PairsWithin(p + r, i, n)
  {
    var q := p + r;
    forall t | 0 <= t < |q| ensures q[t].0 < i && q[t].0 < q[t].1 < n {
      if t < |p| {
        assert q[t] == p[t];
      } else {
        assert q[t] == r[t - |p|];
      }
    }
  }

  lemma RowExtendsCover(p: seq<(nat, nat)>, r: seq<(nat, nat)>, i: nat, n: nat)
    requires i > 0 && r == Row(i - 1, n) && CoversRows(p, i - 1, n)
    ensures CoversRows(p + r, i, n)
  {
    forall a: nat, b: nat | a < i && a < b < n ensures (a, b) in p + r {
      if a == i - 1 {
        assert r[b - i] == (a, b);
      } else {
        assert (a, b) in p;
      }
    }
  }

  lemma RowExtendsDistinct(p: seq<(nat, nat)>, r: seq<(nat, nat)>, i: nat, n: nat)
    requires i > 0 && r == Row(i - 1, n) && PairsWithin(p, i - 1, n) && NoRepeats(p)
    ensures NoRepeats(p + r)
  {
    var q := p + r;
    forall s, t | 0 <= s < t < |q| ensures q[s] != q[t] {
      if s >= |p| {
        assert q[s] == r[s - |p|] && q[t] == r[t - |p|];
      } else if t >= |p| {
        assert q[s] == p[s] && q[t] == r[t - |p|];
      } else {
        assert q[s] == p[s] && q[t] == p[t];
      }
    }
  }

  lemma {:induction false} PairsBeforeShape(i: nat, n: nat)
    ensures PairsWithin(PairsBefore(i, n), i, n)
    ensures CoversRows(PairsBefore(i, n), i, n)
    ensures NoRepeats(PairsBefore(i, n))
  {
    if i > 0 {
      PairsBeforeShape(i - 1, n);
      var p, r := PairsBefore(i - 1, n), Row(i - 1, n);
      assert PairsBefore(i, n) == p + r;
      RowExtendsWithin(p, r, i, n);
      RowExtendsCover(p, r, i, n);
      RowExtendsDistinct(p, r, i, n);
    }
  }

  /** The round robin pairs every two distinct players exactly once, lower
      index first, and never a player with itself. */
  lemma PairsAreAllPairs(n: int)
    ensures forall t :: 0 <= t < |Pairs(n)| ==> Pairs(n)[t].0 < Pairs(n)[t].1 < n
    ensures forall a: nat, b: nat :: a < b < n ==> (a, b) in Pairs(n)
    ensures forall s, t :: 0 <= s < t < |Pairs(n)| ==> Pairs(n)[s] != Pairs(n)[t]
  {
    if n > 1 {
      PairsBeforeShape(n - 1, n);
    }
  }

  lemma {:induction false} PairsBeforePrefix(i: nat, j: nat, n: nat)
    requires i <= j
    ensures |PairsBefore(i, n)| <= |PairsBefore(j, n)|
    ensures PairsBefore(i, n) == PairsBefore(j, n)[..|PairsBefore(i, n)|]
    decreases j
  {
    if i < j {
      PairsBeforePrefix(i, j - 1, n);
      var p, r := PairsBefore(j - 1, n), Row(j - 1, n);
      TakeOfAppend(p, r, 0);
      PrefixTransitive(PairsBefore(i, n), p, p + r);
    }
  }

  /** Position in the round robin where row i starts. */
  function RowStart(i: nat, n: nat): nat {
    if i == 0 then 0 else RowStart(i - 1, n) + |Row(i - 1, n)|
  }

  lemma {:induction false} RowStartIsLength(i: nat, n: nat)
    ensures RowStart(i, n) == |PairsBefore(i, n)|
  {
    if i > 0 {
      RowStartIsLength(i - 1, n);
    }
  }

  lemma PairsEnd(n: nat)
    requires n > 1
    ensures RowStart(n - 1, n) == |Pairs(n)|
  {
    RowStartIsLength(n - 1, n);
  }

  lemma NewMatchesSnoc(pairs: seq<(nat, nat)>, p: (nat, nat), id0: int, stage: Stage)
    ensures NewMatches(pairs + [p], id0, stage) == NewMatches(pairs, id0, stage) + [NewMatch(id0 + |pairs|, p.0, p.1, stage)]
  {
  }

  lemma NewMatchesAppend(p: seq<(nat, nat)>, q: seq<(nat, nat)>, id0: int, stage: Stage)
    ensures NewMatches(p + q, id0, stage) == NewMatches(p, id0, stage) + NewMatches(q, id0 + |p|, stage)
  {
  }

  /** The matches of the first k pairings of row i, made after those of the
      rows before it, are those of a longer prefix of the round robin. */
  lemma RowJoin(ms: seq<TournamentMatch>, ms0: seq<TournamentMatch>, matches: seq<TournamentMatch>,
                all: seq<(nat, nat)>, c: nat, row: seq<(nat, nat)>, k: nat, e: nat, id0: int, id1: int, stage: Stage)
    requires c + |row| <= |all| && all[c..c + |row|] == row && k <= |row| && id1 == id0 + c && e == c + k
    requires ms0 == matches + NewMatches(all[..c], id0, stage)
    requires ms == ms0 + NewMatches(row[..k], id1, stage)
    ensures ms == matches + NewMatches(all[..e], id0, stage)
  {
    TakeOfSlice(all, c, row, k);
    NewMatchesAppend(all[..c], row[..k], id0, stage);
    calc {
      ms;
      (matches + NewMatches(all[..c], id0, stage)) + NewMatches(row[..k], id1, stage);
      { AppendAssoc(matches, NewMatches(all[..c], id0, stage), NewMatches(row[..k], id1, stage)); }
      matches + (NewMatches(all[..c], id0, stage) + NewMatches(row[..k], id1, stage));
      matches + NewMatches(all[..c] + row[..k], id0, stage);
    }
  }

  /** Generation stops with the array full or with every pairing made, and
      either way it has made as many matches as fit. */
  lemma FitsReached(count: int, made: nat, want: nat, maxMatches: int, full: bool)
    requires made <= want
    requires count + made <= maxMatches || made == 0
    requires full ==> count + made >= maxMatches
    requires !full ==> made == want
    ensures made == Fits(want, count, maxMatches)
  {
  }

  /** Row i of the round robin sits in all from position RowStart(i, n). */
  predicate RowPlaced(all: seq<(nat, nat)>, i: nat, n: nat) {
    RowStart(i, n) + |Row(i, n)| <= |all| && all[RowStart(i, n)..RowStart(i, n) + |Row(i, n)|] == Row(i, n)
  }

  /** The round robin as the nested loops lay it out: row after row. */
  lemma PairsLayout(n: nat)
    ensures forall i :: 0 <= i < n - 1 ==> RowPlaced(Pairs(n), i, n)
    ensures n > 1 ==> RowStart(n - 1, n) == |Pairs(n)|
    ensures n <= 1 ==> Pairs(n) == []
  {
    forall i | 0 <= i < n - 1 ensures RowPlaced(Pairs(n), i, n) {
      RowInPairs(i, n);
    }
    if n > 1 {
      PairsEnd(n);
    }
  }

  /** generateRoundRobinMatches: the nested loops over i < j append a match for
      each pairing until the array holds maxMatches matches; IDs are drawn
      from the counter. */
  method GenerateRoundRobinMatches(playerCount: int, matches: seq<TournamentMatch>, maxMatches: int,
                                   matchIdCounter: int, stage: Stage)
    returns (ms: seq<TournamentMatch>, nextId: int)
    ensures nextId - matchIdCounter == Fits(|Pairs(playerCount)|, |matches|, maxMatches)
    ensures ms == matches + NewMatches(Pairs(playerCount)[..nextId - matchIdCounter], matchIdCounter, stage)
  {
    var n: nat := if playerCount < 0 then 0 else playerCount;
    PairsLayout(n);
    ms, nextId := GenerateRows(n, Pairs(n), matches, maxMatches, matchIdCounter, stage);
  }

  /** The outer loop of generateRoundRobinMatches, over the rows i. */
  method GenerateRows(n: nat, ghost all: seq<(nat, nat)>, matches: seq<TournamentMatch>, maxMatches: int,
                      matchIdCounter: int, stage: Stage)
    returns (ms: seq<TournamentMatch>, nextId: int)
    requires forall i :: 0 <= i < n - 1 ==> RowPlaced(all, i, n)
    requires n > 1 ==> RowStart(n - 1, n) == |all|
    requires n <= 1 ==> all == []
    ensures nextId - matchIdCounter == Fits(|all|, |matches|, maxMatches)
    ensures ms == matches + NewMatches(all[..nextId - matchIdCounter], matchIdCounter, stage)
  {
    ms, nextId := matches, matchIdCounter;
    var i := 0;
    while i < n - 1
      invariant 0 <= i && (n > 1 ==> i <= n - 1)
      invariant nextId - matchIdCounter == RowStart(i, n) <= |all|
      invariant ms == matches + NewMatches(all[..nextId - matchIdCounter], matchIdCounter, stage)
      invariant |matches| + (nextId - matchIdCounter) <= maxMatches || nextId == matchIdCounter
    {
      assert RowPlaced(all, i, n);
      var ms0, id1 := ms, nextId;
      var stopped;
      ms, nextId, stopped := AppendRow(i, n, maxMatches, stage, ms0, id1);
      RowJoin(ms, ms0, matches, all, id1 - matchIdCounter, Row(i, n), nextId - id1, nextId - matchIdCounter,
              matchIdCounter, id1, stage);
      if stopped {
        FitsReached(|matches|, nextId - matchIdCounter, |all|, maxMatches, true);
        return;
      }
      i := i + 1;
    }
    FitsReached(|matches|, nextId - matchIdCounter, |all|, maxMatches, false);
  }

  /** The inner loop of generateRoundRobinMatches: the pairings (i, j) for
      j > i in turn, until the array is full, which ends the whole
      generation. */
  method AppendRow(i: nat, n: nat, maxMatches: int, stage: Stage, ms0: seq<TournamentMatch>, id1: int)
    returns (ms: seq<TournamentMatch>, nextId: int, stopped: bool)
    ensures 0 <= nextId - id1 <= |Row(i, n)|
    ensures ms == ms0 + NewMatches(Row(i, n)[..nextId - id1], id1, stage)
    ensures |ms0| + (nextId - id1) <= maxMatches || nextId == id1
    ensures stopped ==> |ms| >= maxMatches
    ensures !stopped ==> nextId - id1 == |Row(i, n)|
  {
    ms, nextId, stopped := ms0, id1, false;
    ghost var row := Row(i, n);
    var j: nat := i + 1;
    while j < n
      invariant i + 1 <= j && (i + 1 < n ==> j <= n)
      invariant nextId - id1 == j - i - 1 <= |row|
      invariant ms == ms0 + NewMatches(row[..j - i - 1], id1, stage)
      invariant |ms0| + (nextId - id1) <= maxMatches || nextId == id1
    {
      if |ms| >= maxMatches {
        return ms, nextId, true;
      }
      ghost var k := j - i - 1;
      assert row[..k + 1] == row[..k] + [(i, j)];
      NewMatchesSnoc(row[..k], (i, j), id1, stage);
      ms := ms + [NewMatch(nextId, i, j, stage)];
      nextId := nextId + 1;
      j := j + 1;
    }
  }

  /** Rows 0 .. j-1 begin the round robin. */
  lemma PairsPrefix(j: nat, n: nat)
    requires 0 < j < n
    ensures |PairsBefore(j, n)| <= |Pairs(n)| && PairsBefore(j, n) == Pairs(n)[..|PairsBefore(j, n)|]
  {
    PairsBeforePrefix(j, n - 1, n);
  }

  /** Row i of the round robin starts at RowStart(i, n). */
  lemma RowInPairs(i: nat, n: nat)
    requires i + 1 < n
    ensures RowStart(i, n) + |Row(i, n)| <= |Pairs(n)|
    ensures Pairs(n)[RowStart(i, n)..RowStart(i, n) + |Row(i, n)|] == Row(i, n)
  {
    RowStartIsLength(i, n);
    PairsPrefix(i + 1, n);
    SliceOfPrefix(Pairs(n), PairsBefore(i, n), Row(i, n), PairsBefore(i + 1, n));
  }

  /** The pairings of a knockout stage: advancer 2t against advancer 2t+1. */
  function KnockoutPairs(winners: seq<nat>): (r: seq<(nat, nat)>)
    ensures |r| == |winners| / 2
    ensures forall t :: 0 <= t < |r| ==> r[t] == (winners[2 * t], winners[2 * t + 1])
  {
    seq(|winners| / 2, t requires 0 <= t < |winners| / 2 => (winners[2 * t], winners[2 * t + 1]))
  }

  /** The players of a list of pairings, in slot order. */
  function Slots(pairs: seq<(nat, nat)>): seq<nat> {
    if pairs == [] then [] else Slots(pairs[..|pairs| - 1]) + [pairs[|pairs| - 1].0, pairs[|pairs| - 1].1]
  }

  /** The knockout pairings use every advancer once and in order, except the
      last one when there is an odd number of them: that player gets a bye. */
  lemma {:induction false} KnockoutSlots(winners: seq<nat>)
    ensures Slots(KnockoutPairs(winners)) == winners[..|winners| / 2 * 2]
    decreases |winners|
  {
    var k := |winners| / 2;
    if k > 0 {
      var shorter := winners[..2 * k - 2];
      KnockoutSlots(shorter);
      assert KnockoutPairs(winners)[..k - 1] == KnockoutPairs(shorter);
      assert winners[..2 * k] == shorter + [winners[2 * k - 2], winners[2 * k - 1]];
    }
  }

  /** One more pairing appended after the first c: the matches of the first
      c + 1 pairings. */
  lemma MatchesSnoc(ms0: seq<TournamentMatch>, matches: seq<TournamentMatch>, all: seq<(nat, nat)>,
                    c: nat, p: (nat, nat), id0: int, stage: Stage)
    requires c < |all| && all[c] == p
    requires ms0 == matches + NewMatches(all[..c], id0, stage)
    ensures ms0 + [NewMatch(id0 + c, p.0, p.1, stage)] == matches + NewMatches(all[..c + 1], id0, stage)
  {
    assert all[..c + 1] == all[..c] + [p];
    NewMatchesSnoc(all[..c], p, id0, stage);
    AppendAssoc(matches, NewMatches(all[..c], id0, stage), [NewMatch(id0 + c, p.0, p.1, stage)]);
  }

  /** generateKnockoutMatches: fewer than two advancers make nothing; otherwise
      the loop over even positions pairs each advancer with the next while
      the array has room. */
  method GenerateKnockoutMatches(winners: seq<nat>, matches: seq<TournamentMatch>, maxMatches: int,
                                 matchIdCounter: int, stage: Stage)
    returns (ms: seq<TournamentMatch>, nextId: int)
    ensures nextId - matchIdCounter == Fits(|winners| / 2, |matches|, maxMatches)
    ensures ms == matches + NewMatches(KnockoutPairs(winners)[..nextId - matchIdCounter], matchIdCounter, stage)
  {
    ms, nextId := matches, matchIdCounter;
    var winnerCount := |winners|;
    if winnerCount < 2 {
      return;
    }
    ghost var all := KnockoutPairs(winners);
    var i := 0;
    ghost var half: nat := 0;
    while i < winnerCount - 1
      invariant i == 2 * half <= winnerCount
      invariant 0 <= nextId - matchIdCounter <= half
      invariant |ms| == |matches| + (nextId - matchIdCounter)
      invariant ms == matches + NewMatches(all[..nextId - matchIdCounter], matchIdCounter, stage)
      invariant nextId - matchIdCounter == half || |ms| >= maxMatches
      invariant |ms| <= maxMatches || nextId == matchIdCounter
    {
      if i + 1 < winnerCount && |ms| < maxMatches {
        MatchesSnoc(ms, matches, all, nextId - matchIdCounter, (winners[i], winners[i + 1]), matchIdCounter, stage);
        ms := ms + [NewMatch(nextId, winners[i], winners[i + 1], stage)];
        nextId := nextId + 1;
      }
      i, half := i + 2, half + 1;
    }
    assert half == winnerCount / 2;
    FitsReached(|matches|, nextId - matchIdCounter, |all|, maxMatches, |ms| >= maxMatches);
  }

  // ---------------------------------------------------------------------------
  // Recording a result

  /** The tallies handleStartMatchMenu accepts: one player won two sets, the
      other fewer. */
  predicate ValidTally(p1Sets: int, p2Sets: int) {
    (p1Sets == 2 && (p2Sets == 0 || p2Sets == 1)) || (p2Sets == 2 && (p1Sets == 0 || p1Sets == 1))
  }

  /** The score string of a match: std::to_string of each tally joined by '-'. */
  function ScoreText(s: Score): string {
    match s
    case NotAvailable => "NOT AVAILABLE"
    case Sets(p1Sets, p2Sets) => IntToString(p1Sets) + "-" + IntToString(p2Sets)
  }

  lemma ScoreTexts()
    ensures ScoreText(Sets(2, 0)) == "2-0" && ScoreText(Sets(2, 1)) == "2-1"
    ensures ScoreText(Sets(0, 2)) == "0-2" && ScoreText(Sets(1, 2)) == "1-2"
  {
  }

  /** The match after a recorded tally. */
  function Outcome(m: TournamentMatch, p1Sets: int, p2Sets: int): TournamentMatch {
    m.(score := Sets(p1Sets, p2Sets),
       winner := Some(if p1Sets > p2Sets then m.player1 else m.player2),
       status := Completed)
  }

  /** The only four ways a match can be settled. */
  predicate SettledFrom(m: TournamentMatch, m2: TournamentMatch) {
    || m2 == Outcome(m, 2, 0) || m2 == Outcome(m, 2, 1)
    || m2 == Outcome(m, 0, 2) || m2 == Outcome(m, 1, 2)
  }

  /** A valid tally settles a match, and the player with two sets wins it. */
  lemma TallySettles(m: TournamentMatch, p1Sets: int, p2Sets: int)
    requires ValidTally(p1Sets, p2Sets)
    ensures SettledFrom(m, Outcome(m, p1Sets, p2Sets))
    ensures Outcome(m, p1Sets, p2Sets).winner == Some(if p1Sets == 2 then m.player1 else m.player2)
  {
  }

  /** The sum of one counter over the roster. */
  function Total(ps: seq<Player>, wins: bool): int {
    if ps == [] then 0
    else Total(ps[..|ps| - 1], wins) + (if wins then ps[|ps| - 1].matchesWon else ps[|ps| - 1].matchesLost)
  }

  lemma {:induction false} TotalUpdate(ps: seq<Player>, i: nat, p: Player, wins: bool)
    requires i < |ps|
    ensures Total(ps[i := p], wins) ==
            Total(ps, wins) - (if wins then ps[i].matchesWon else ps[i].matchesLost)
                            + (if wins then p.matchesWon else p.matchesLost)
    decreases |ps|
  {
    var q := ps[i := p];
    if i < |ps| - 1 {
      assert q[..|q| - 1] == ps[..|ps| - 1][i := p];
      TotalUpdate(ps[..|ps| - 1], i, p, wins);
    } else {
      assert q[..|q| - 1] == ps[..|ps| - 1];
    }
  }

  /** Only the win and loss counters of the roster differ. */
  predicate SameRoster(ps: seq<Player>, qs: seq<Player>) {
    |ps| == |qs| &&
    forall p :: 0 <= p < |ps| ==> qs[p] == ps[p].(matchesWon := qs[p].matchesWon, matchesLost := qs[p].matchesLost)
  }

  const HistoryCapacity: int := 100

  /** TournamentMatchHistory::addCompletedMatch: appends while fewer than 100
      matches are recorded. */
  function AddCompletedMatch(history: seq<nat>, c: nat): seq<nat> {
    if |history| < HistoryCapacity then history + [c] else history
  }

  /** addCompletedMatch for each of cs in turn. */
  function AddAll(history: seq<nat>, cs: seq<nat>): (h: seq<nat>)
    ensures |history| >= HistoryCapacity ==> h == history
    ensures |history| < HistoryCapacity ==> h == (history + cs)[..Min(HistoryCapacity, |history| + |cs|)]
  {
    if cs == [] then history
    else
      var h0 := AddAll(history, cs[..|cs| - 1]);
      assert (history + cs)[..|history| + |cs| - 1] == history + cs[..|cs| - 1];
      AddCompletedMatch(h0, cs[|cs| - 1])
  }

  /** One more win (won) or loss (not won) for roster entry p; the source's
      player pointers are always valid, and an index outside the roster
      changes nothing. */
  function Credit(ps: seq<Player>, p: nat, won: bool): seq<Player> {
    if p >= |ps| then ps
    else if won then ps[p := ps[p].(matchesWon := ps[p].matchesWon + 1)]
    else ps[p := ps[p].(matchesLost := ps[p].matchesLost + 1)]
  }

  /** The recording steps shared by handleStartMatchMenu and the
      auto-simulators: set the score and the winner (the side with more sets),
      mark the match completed, count a win and a loss, and log the match. */
  function Complete(b: Board, c: nat, p1Sets: int, p2Sets: int): Board
    requires c < |b.matches|
  {
    var m := b.matches[c];
    var w := if p1Sets > p2Sets then m.player1 else m.player2;
    var l := if p1Sets > p2Sets then m.player2 else m.player1;
    Board(Credit(Credit(b.players, w, true), l, false), b.matches[c := Outcome(m, p1Sets, p2Sets)],
          AddCompletedMatch(b.history, c))
  }

  /** Recording keeps the board well formed, changes only the recorded match
      and logs it. */
  lemma CompleteShape(b: Board, c: nat, p1Sets: int, p2Sets: int)
    requires WellFormed(b) && c < |b.matches|
    ensures WellFormed(Complete(b, c, p1Sets, p2Sets))
    ensures Complete(b, c, p1Sets, p2Sets).matches == b.matches[c := Outcome(b.matches[c], p1Sets, p2Sets)]
    ensures Complete(b, c, p1Sets, p2Sets).history == AddCompletedMatch(b.history, c)
  {
    assert MatchOk(b.matches[c], |b.players|);
    var r := Complete(b, c, p1Sets, p2Sets);
    forall i | 0 <= i < |r.matches| ensures MatchOk(r.matches[i], |r.players|) {
      if i != c {
        assert r.matches[i] == b.matches[i];
      }
    }
  }

  /** Recording keeps the board well formed, changes only the recorded match,
      adds one win and one loss to the roster and logs the match. */
  lemma CompleteFacts(b: Board, c: nat, p1Sets: int, p2Sets: int)
    requires WellFormed(b) && c < |b.matches|
    ensures WellFormed(Complete(b, c, p1Sets, p2Sets))
    ensures SameRoster(b.players, Complete(b, c, p1Sets, p2Sets).players)
    ensures Complete(b, c, p1Sets, p2Sets).matches == b.matches[c := Outcome(b.matches[c], p1Sets, p2Sets)]
    ensures Total(Complete(b, c, p1Sets, p2Sets).players, true) == Total(b.players, true) + 1
    ensures Total(Complete(b, c, p1Sets, p2Sets).players, false) == Total(b.players, false) + 1
    ensures Complete(b, c, p1Sets, p2Sets).history == AddCompletedMatch(b.history, c)
  {
    CompleteShape(b, c, p1Sets, p2Sets);
    var m := b.matches[c];
    assert MatchOk(m, |b.players|);
    var w := if p1Sets > p2Sets then m.player1 else m.player2;
    var l := if p1Sets > p2Sets then m.player2 else m.player1;
    var ps1 := Credit(b.players, w, true);
    var ps2 := Credit(ps1, l, false);
    TotalUpdate(b.players, w, ps1[w], true);
    TotalUpdate(b.players, w, ps1[w], false);
    TotalUpdate(ps1, l, ps2[l], true);
    TotalUpdate(ps1, l, ps2[l], false);
  }

  /** handleStartMatchMenu once the prompt loop has read a valid tally: an
      out-of-range choice or an already completed match changes nothing;
      otherwise the match is settled by the tally. */
  function StartMatch(b: Board, matchChoice: int, p1Sets: int, p2Sets: int): (r: Board)
    requires WellFormed(b) && ValidTally(p1Sets, p2Sets)
    ensures WellFormed(r)
    ensures matchChoice < 1 || matchChoice > |b.matches| ==> r == b
    ensures 1 <= matchChoice <= |b.matches| && b.matches[matchChoice - 1].status == Completed ==> r == b
    ensures 1 <= matchChoice <= |b.matches| && b.matches[matchChoice - 1].status != Completed ==>
              && |r.matches| == |b.matches|
              && SettledFrom(b.matches[matchChoice - 1], r.matches[matchChoice - 1])
              && r.matches[matchChoice - 1].winner ==
                 Some(if p1Sets == 2 then b.matches[matchChoice - 1].player1 else b.matches[matchChoice - 1].player2)
              && (forall i :: 0 <= i < |b.matches| && i != matchChoice - 1 ==> r.matches[i] == b.matches[i])
  {
    if matchChoice < 1 || matchChoice > |b.matches| then b
    else if b.matches[matchChoice - 1].status == Completed then b
    else
      CompleteShape(b, matchChoice - 1, p1Sets, p2Sets);
      TallySettles(b.matches[matchChoice - 1], p1Sets, p2Sets);
      Complete(b, matchChoice - 1, p1Sets, p2Sets)
  }

  /** One more win or loss for roster entry p, and nothing else changes. */
  lemma CreditFacts(ps: seq<Player>, p: nat, won: bool)
    requires p < |ps|
    ensures SameRoster(ps, Credit(ps, p, won))
    ensures forall q :: 0 <= q < |ps| ==>
              && Credit(ps, p, won)[q].matchesWon == ps[q].matchesWon + (if won && q == p then 1 else 0)
              && Credit(ps, p, won)[q].matchesLost == ps[q].matchesLost + (if !won && q == p then 1 else 0)
  {
  }

  /** Recording a match gives its winner one more win, its loser one more
      loss, changes nothing else about the roster, and logs the match. */
  lemma StartMatchCounts(b: Board, matchChoice: int, p1Sets: int, p2Sets: int)
    requires WellFormed(b) && ValidTally(p1Sets, p2Sets)
    requires 1 <= matchChoice <= |b.matches| && b.matches[matchChoice - 1].status != Completed
    ensures var m := b.matches[matchChoice - 1];
            var r := StartMatch(b, matchChoice, p1Sets, p2Sets);
            var w := if p1Sets == 2 then m.player1 else m.player2;
            var l := if p1Sets == 2 then m.player2 else m.player1;
            && SameRoster(b.players, r.players)
            && (forall q :: 0 <= q < |b.players| ==>
                  && r.players[q].matchesWon == b.players[q].matchesWon + (if q == w then 1 else 0)
                  && r.players[q].matchesLost == b.players[q].matchesLost + (if q == l then 1 else 0))
            && r.history == AddCompletedMatch(b.history, matchChoice - 1)
  {
    var m := b.matches[matchChoice - 1];
    assert MatchOk(m, |b.players|);
    var w := if p1Sets > p2Sets then m.player1 else m.player2;
    var l := if p1Sets > p2Sets then m.player2 else m.player1;
    var ps1 := Credit(b.players, w, true);
    CreditFacts(b.players, w, true);
    CreditFacts(ps1, l, false);
    SameRosterTrans(b.players, ps1, Credit(ps1, l, false));
  }

  /** A match is recorded at most once: recording it again, with any tally,
      changes nothing. */
  lemma StartMatchOnce(b: Board, matchChoice: int, x1: int, x2: int, y1: int, y2: int)
    requires WellFormed(b) && ValidTally(x1, x2) && ValidTally(y1, y2)
    ensures StartMatch(StartMatch(b, matchChoice, x1, x2), matchChoice, y1, y2) == StartMatch(b, matchChoice, x1, x2)
  {
  }

  // ---------------------------------------------------------------------------
  // Auto-simulation

  /** The two rand() calls an auto-simulated match makes, starting at call r: the
      first picks the winner, the second the loser's sets. */
  function Tally(rand: nat -> nat, r: nat): (t: (int, int))
    ensures ValidTally(t.0, t.1)
  {
    var winnerIndex := rand(r) % 2;
    var other := rand(r + 1) % 2;
    if winnerIndex == 0 then (2, other) else (other, 2)
  }

  /** Indices of the matches of the stage that are not completed yet, in order. */
  function Pending(matches: seq<TournamentMatch>, stage: Stage): seq<nat> {
    if matches == [] then []
    else
      var last := |matches| - 1;
      Pending(matches[..last], stage)
        + (if matches[last].round == stage && matches[last].status != Completed then [last] else [])
  }

  /** A match of the stage that is still waiting to be played. */
  predicate IsPending(m: TournamentMatch, stage: Stage) {
    m.round == stage && m.status != Completed
  }

  /** What auto-simulation does to one match: a pending match of the stage is
      settled, every other match is left as it was. */
  predicate Handled(m: TournamentMatch, m2: TournamentMatch, stage: Stage) {
    if IsPending(m, stage) then SettledFrom(m, m2) else m2 == m
  }

  /** The state of auto-simulation once the first i matches of b have been
      visited, starting at rand() call `cursor`. */
  ghost predicate Simulated(b: Board, r: Board, stage: Stage, i: nat, cursor: nat, next: nat)
    requires i <= |b.matches|
  {
    && WellFormed(r) && |r.matches| == |b.matches| && SameRoster(b.players, r.players)
    && (forall j :: i <= j < |b.matches| ==> r.matches[j] == b.matches[j])
    && (forall j :: 0 <= j < i ==> Handled(b.matches[j], r.matches[j], stage))
    && Total(r.players, true) == Total(b.players, true) + |Pending(b.matches[..i], stage)|
    && Total(r.players, false) == Total(b.players, false) + |Pending(b.matches[..i], stage)|
    && r.history == AddAll(b.history, Pending(b.matches[..i], stage))
    && next == cursor + 2 * |Pending(b.matches[..i], stage)|
  }

  lemma SameRosterTrans(ps: seq<Player>, qs: seq<Player>, us: seq<Player>)
    requires SameRoster(ps, qs) && SameRoster(qs, us)
    ensures SameRoster(ps, us)
  {
    forall p | 0 <= p < |ps|
      ensures us[p] == ps[p].(matchesWon := us[p].matchesWon, matchesLost := us[p].matchesLost)
    {
      assert qs[p] == ps[p].(matchesWon := qs[p].matchesWon, matchesLost := qs[p].matchesLost);
    }
  }

  /** Visiting a pending match settles it with a valid tally, drawn from the
      next two rand() values. */
  lemma SimulateSettle(b: Board, r: Board, stage: Stage, i: nat, cursor: nat, next: nat, p1Sets: int, p2Sets: int)
    requires i < |b.matches| && Simulated(b, r, stage, i, cursor, next) && IsPending(b.matches[i], stage)
    requires ValidTally(p1Sets, p2Sets)
    ensures Simulated(b, Complete(r, i, p1Sets, p2Sets), stage, i + 1, cursor, next + 2)
  {
    var r2 := Complete(r, i, p1Sets, p2Sets);
    CompleteFacts(r, i, p1Sets, p2Sets);
    assert b.matches[..i + 1][..i] == b.matches[..i];
    assert Pending(b.matches[..i + 1], stage) == Pending(b.matches[..i], stage) + [i];
    SameRosterTrans(b.players, r.players, r2.players);
    assert SettledFrom(b.matches[i], r2.matches[i]) by {
      assert r.matches[i] == b.matches[i];
      assert r2.matches[i] == Outcome(b.matches[i], p1Sets, p2Sets);
    }
  }

  /** Visiting any other match changes nothing. */
  lemma SimulateSkip(b: Board, r: Board, stage: Stage, i: nat, cursor: nat, next: nat)
    requires i < |b.matches| && Simulated(b, r, stage, i, cursor, next) && !IsPending(b.matches[i], stage)
    ensures Simulated(b, r, stage, i + 1, cursor, next)
  {
    assert b.matches[..i + 1][..i] == b.matches[..i];
    assert Pending(b.matches[..i + 1], stage) == Pending(b.matches[..i], stage);
  }

  /** One iteration of the auto-simulation loop at match i: a pending match
      of the stage is settled with the tally of the next two rand() calls. */
  function Visit(r: Board, stage: Stage, rand: nat -> nat, next: nat, i: nat): (v: (Board, nat))
    requires i < |r.matches|
    ensures |v.0.matches| == |r.matches|
  {
    if IsPending(r.matches[i], stage) then
      var t := Tally(rand, next);
      (Complete(r, i, t.0, t.1), next + 2)
    else (r, next)
  }

  /** The board and the rand() cursor after the loop has visited the first i
      matches. */
  function SimulatePrefix(b: Board, stage: Stage, rand: nat -> nat, cursor: nat, i: nat): (v: (Board, nat))
    requires i <= |b.matches|
    ensures |v.0.matches| == |b.matches|
  {
    if i == 0 then (b, cursor)
    else
      var v := SimulatePrefix(b, stage, rand, cursor, i - 1);
      Visit(v.0, stage, rand, v.1, i - 1)
  }

  /** The pair v of board and cursor is a simulated state after i visits. */
  ghost predicate SimulatesTo(b: Board, stage: Stage, i: nat, cursor: nat, v: (Board, nat))
    requires i <= |b.matches|
  {
    Simulated(b, v.0, stage, i, cursor, v.1)
  }

  /** Before the loop nothing has been visited. */
  lemma SimulatedStart(b: Board, stage: Stage, cursor: nat)
    requires WellFormed(b)
    ensures SimulatesTo(b, stage, 0, cursor, (b, cursor))
  {
    assert b.matches[..0] == [];
  }

  /** One visit extends the simulated prefix by one match. */
  lemma VisitSimulated(b: Board, stage: Stage, rand: nat -> nat, i: nat, cursor: nat, v: (Board, nat), w: (Board, nat))
    requires i < |b.matches| && SimulatesTo(b, stage, i, cursor, v) && |v.0.matches| == |b.matches|
    requires w == Visit(v.0, stage, rand, v.1, i)
    ensures SimulatesTo(b, stage, i + 1, cursor, w)
  {
    var r, next := v.0, v.1;
    assert r.matches[i] == b.matches[i];
    if IsPending(b.matches[i], stage) {
      var t := Tally(rand, next);
      SimulateSettle(b, r, stage, i, cursor, next, t.0, t.1);
    } else {
      SimulateSkip(b, r, stage, i, cursor, next);
    }
  }

  /** What auto-simulating a stage promises about the board r and the rand()
      cursor next it ends with: every pending match of the stage is settled,
      in array order, and nothing else is touched; afterwards the whole stage
      is completed, and each settled match counted one win and one loss, was
      logged, and used two rand() calls. */
  ghost predicate StageSimulated(b: Board, r: Board, stage: Stage, cursor: nat, next: nat) {
    && WellFormed(r) && |r.matches| == |b.matches| && SameRoster(b.players, r.players)
    && AreAllMatchesCompleted(r.matches, stage)
    && (forall i :: 0 <= i < |b.matches| ==> Handled(b.matches[i], r.matches[i], stage))
    && Total(r.players, true) == Total(b.players, true) + |Pending(b.matches, stage)|
    && Total(r.players, false) == Total(b.players, false) + |Pending(b.matches, stage)|
    && r.history == AddAll(b.history, Pending(b.matches, stage))
    && next == cursor + 2 * |Pending(b.matches, stage)|
  }

  lemma SimulatedDone(b: Board, r: Board, stage: Stage, cursor: nat, next: nat)
    requires Simulated(b, r, stage, |b.matches|, cursor, next)
    ensures StageSimulated(b, r, stage, cursor, next)
  {
    assert b.matches[..|b.matches|] == b.matches;
    forall j | 0 <= j < |r.matches| && r.matches[j].round == stage ensures r.matches[j].status == Completed {
      assert Handled(b.matches[j], r.matches[j], stage);
    }
  }

  lemma SimulateStage(b: Board, stage: Stage, rand: nat -> nat, cursor: nat)
    requires WellFormed(b)
    ensures StageSimulated(b, SimulatePrefix(b, stage, rand, cursor, |b.matches|).0, stage, cursor,
                           SimulatePrefix(b, stage, rand, cursor, |b.matches|).1)
  {
    var v := (b, cursor);
    SimulatedStart(b, stage, cursor);
    var i := 0;
    while i < |b.matches|
      invariant i <= |b.matches| && v == SimulatePrefix(b, stage, rand, cursor, i) && SimulatesTo(b, stage, i, cursor, v)
    {
      var w := Visit(v.0, stage, rand, v.1, i);
      VisitSimulated(b, stage, rand, i, cursor, v, w);
      v, i := w, i + 1;
    }
    SimulatedDone(b, v.0, stage, cursor, v.1);
  }

  /** autoSimulateStageMatches (and autoSimulateQualifierMatches, for the
      Qualifier stage): every unplayed match of the stage is settled with
      random tallies, in array order. rand(k) is the value of the k-th call
      to rand() from `cursor` on. */
  method AutoSimulateStageMatches(b: Board, stage: Stage, rand: nat -> nat, cursor: nat)
    returns (r: Board, next: nat)
    ensures r == SimulatePrefix(b, stage, rand, cursor, |b.matches|).0
    ensures next == SimulatePrefix(b, stage, rand, cursor, |b.matches|).1
  {
    r, next := b, cursor;
    var i := 0;
    while i < |b.matches|
      invariant 0 <= i <= |b.matches|
      invariant r == SimulatePrefix(b, stage, rand, cursor, i).0
      invariant next == SimulatePrefix(b, stage, rand, cursor, i).1
    {
      var m := r.matches[i];
      if m.round == stage && m.status != Completed {
        var t := Tally(rand, next);
        r := Complete(r, i, t.0, t.1);
        next := next + 2;
      }
      i := i + 1;
    }
  }
}

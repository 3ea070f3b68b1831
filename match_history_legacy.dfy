/** The older match history kept at the repository root (MatchHistory.cpp):
    the same linked stack of matches and the same file format, without the
    duplicate-ID check, the argument checks or the row validation of the
    newer src/MatchHistory.cpp. */
module LegacyHistory {
  import opened Base
  import opened LinkedStack
  import opened History

  // ---------------------------------------------------------------------------
  // Case-sensitive player search

  /** Player search: name is a substring of either player's name, with case. */
  predicate Mentions(m: Match, name: string) {
    Contains(m.player1, name) || Contains(m.player2, name)
  }

  /** The entries that mention name, in their order. */
  function ExactHits(ms: seq<Match>, name: string): (r: seq<Match>)
    ensures |r| <= |ms|
  {
    if ms == [] then []
    else
      var last := ms[|ms| - 1];
      ExactHits(ms[..|ms| - 1], name) + (if Mentions(last, name) then [last] else [])
  }

  lemma {:induction false} ExactHitsMembers(ms: seq<Match>, name: string)
    ensures forall m :: m in ExactHits(ms, name) <==> m in ms && Mentions(m, name)
    decreases |ms|
  {
    if ms != [] {
      ExactHitsMembers(ms[..|ms| - 1], name);
      assert ms == ms[..|ms| - 1] + [ms[|ms| - 1]];
    }
  }

  /** The empty name occurs in every name, so it finds the whole history. */
  lemma {:induction false} EmptyNameFindsAll(ms: seq<Match>)
    ensures ExactHits(ms, []) == ms
    decreases |ms|
  {
    if ms != [] {
      EmptyNameFindsAll(ms[..|ms| - 1]);
      assert Mentions(ms[|ms| - 1], []);
      TakeSnoc(ms, |ms| - 1);
      assert ms[..|ms|] == ms;
    }
  }

  /** An occurrence stays an occurrence once both strings are lowered. */
  lemma ContainsLower(hay: string, needle: string)
    ensures Contains(hay, needle) ==> Contains(Lower(hay), Lower(needle))
  {
    ContainsIsOccurrence(hay, needle);
    if Contains(hay, needle) {
      var i: nat :| OccursAt(hay, needle, i);
      var lh, ln := Lower(hay), Lower(needle);
      assert forall j :: 0 <= j < |needle| ==> hay[i + j] == needle[j] by {
        forall j | 0 <= j < |needle| ensures hay[i + j] == needle[j] {
          assert hay[i..i + |needle|][j] == hay[i + j];
        }
      }
      assert lh[i..i + |ln|] == ln;
      assert OccursAt(lh, ln, i);
      ContainsIsOccurrence(lh, ln);
    }
  }

  /** Every match the older search finds, the newer case-blind search finds too. */
  lemma ExactHitsInHits(ms: seq<Match>, name: string)
    ensures forall m :: m in ExactHits(ms, name) ==> m in Hits(ms, name)
  {
    ExactHitsMembers(ms, name);
    HitsMembers(ms, name);
    forall m | m in ExactHits(ms, name) ensures m in Hits(ms, name) {
      ContainsLower(m.player1, name);
      ContainsLower(m.player2, name);
    }
  }

  lemma ExactHitsStep(popped: seq<Match>, m: Match, name: string, hits: seq<Match>)
    requires hits == ExactHits(popped, name)
    ensures Mentions(m, name) ==> hits + [m] == ExactHits(popped + [m], name)
    ensures Mentions(m, name) ==> [m] + Reverse(hits) == Reverse(hits + [m])
    ensures !Mentions(m, name) ==> hits == ExactHits(popped + [m], name)
  {
    assert (popped + [m])[..|popped|] == popped;
    ReverseAppend(hits, [m]);
  }

  /** One pass of the search loop: pops the top entry of s onto tempStack,
      and onto resultStack too when it mentions playerName. */
  method ExactHitStep(s: Stack<Match>, tempStack: Stack<Match>, resultStack: Stack<Match>, playerName: string)
    returns (current: Match)
    requires s.Valid() && tempStack.Valid() && resultStack.Valid() && s.Contents != []
    requires s != tempStack && s != resultStack && tempStack != resultStack
    modifies s, tempStack, resultStack
    ensures s.Valid() && tempStack.Valid() && resultStack.Valid()
    ensures current == old(s.Contents)[0] && s.Contents == old(s.Contents)[1..]
    ensures tempStack.Contents == [current] + old(tempStack.Contents)
    ensures Mentions(current, playerName) ==> resultStack.Contents == [current] + old(resultStack.Contents)
    ensures !Mentions(current, playerName) ==> resultStack.Contents == old(resultStack.Contents)
  {
    var p := s.Pop();
    current := p.value;
    if Mentions(current, playerName) {
      resultStack.Push(current);
    }
    tempStack.Push(current);
  }

  /** The search loop of searchMatchesByPlayer: pops all of s onto a new
      stack and pushes every entry mentioning playerName onto a result stack. */
  method ScanExactHits(s: Stack<Match>, playerName: string) returns (tempStack: Stack<Match>, resultStack: Stack<Match>)
    requires s.Valid()
    modifies s
    ensures fresh(tempStack) && fresh(resultStack) && tempStack != resultStack
    ensures s.Valid() && tempStack.Valid() && resultStack.Valid() && s.Contents == []
    ensures tempStack.Contents == Reverse(old(s.Contents))
    ensures resultStack.Contents == Reverse(ExactHits(old(s.Contents), playerName))
  {
    ghost var h := s.Contents;
    tempStack := new Stack<Match>();
    resultStack := new Stack<Match>();
    var empty := s.IsEmpty();
    ghost var popped: seq<Match> := [];
    ghost var hits: seq<Match> := [];
    while !empty
      invariant s.Valid() && tempStack.Valid() && resultStack.Valid()
      invariant h == popped + s.Contents && tempStack.Contents == Reverse(popped)
      invariant hits == ExactHits(popped, playerName) && resultStack.Contents == Reverse(hits)
      invariant empty <==> s.Contents == []
      decreases |s.Contents|
    {
      PopStep(h, popped, s.Contents);
      var current := ExactHitStep(s, tempStack, resultStack, playerName);
      ReverseSnoc(popped, current);
      ExactHitsStep(popped, current, playerName, hits);
      if Mentions(current, playerName) {
        hits := hits + [current];
      }
      popped := popped + [current];
      empty := s.IsEmpty();
    }
    TakeAll(h, popped, s.Contents);
  }

  // ---------------------------------------------------------------------------
  // Loading without validation

  /** The match one line of a file gives, or None when std::stoi throws on the
      first field. Nothing else is checked: a getline that fails keeps the
      previous token, and one leading space is dropped from every field. */
  function LegacyParseRow(line: string): Option<Match> {
    var g := GetLine(Open(line), ',', []);
    var id := Stoi(g.1);
    if id.None? then None else Some(LegacyPlayer1(g.0, g.1, id.value))
  }

  function LegacyPlayer1(ss: Stream, token: string, id: int): Match {
    var g := GetLine(ss, ',', token);
    LegacyPlayer2(g.0, g.1, id, DropSpace(g.1))
  }

  function LegacyPlayer2(ss: Stream, token: string, id: int, player1: string): Match {
    var g := GetLine(ss, ',', token);
    LegacyWinner(g.0, g.1, id, player1, DropSpace(g.1))
  }

  function LegacyWinner(ss: Stream, token: string, id: int, player1: string, player2: string): Match {
    var g := GetLine(ss, ',', token);
    LegacyScore(g.0, g.1, id, player1, player2, DropSpace(g.1))
  }

  function LegacyScore(ss: Stream, token: string, id: int, player1: string, player2: string, winner: string): Match {
    var g := GetLine(ss, '\n', token);
    Match(id, player1, player2, winner, DropSpace(g.1))
  }

  /** A row holding only an ID: every later getline fails and keeps the ID's
      token, so every field repeats it. */
  lemma IdOnlyRow(d: string, v: int)
    requires ',' !in d && Stoi(d) == Some(v)
    ensures LegacyParseRow(d) == Some(Match(v, DropSpace(d), DropSpace(d), DropSpace(d), DropSpace(d)))
  {
    assert Stoi([]).None?;
    var k := IndexOf(d, ',');
    assert k == |d|;
    assert d[..k] == d;
    assert GetLine(Open(d), ',', []) == (Stream([], true, false), d);
  }

  /** A row whose ID field is empty, the whole line being empty or starting
      with the delimiter: stoi("") throws. */
  lemma EmptyRowThrows(line: string)
    requires line == [] || line[0] == ','
    ensures LegacyParseRow(line).None?
  {
    assert GetLine(Open(line), ',', []).1 == [];
    assert Stoi([]).None?;
  }

  /** The rows a load pushes, in file order, and whether it got through every
      row: the first row on which stoi throws ends it, keeping what came before. */
  function LegacyLoad(rows: seq<string>): (seq<Match>, bool) {
    if rows == [] then ([], true)
    else
      var prev := LegacyLoad(rows[..|rows| - 1]);
      var row := LegacyParseRow(rows[|rows| - 1]);
      if !prev.1 then prev
      else if row.None? then (prev.0, false)
      else (prev.0 + [row.value], true)
  }

  /** Once a row has thrown, later rows change nothing. */
  lemma {:induction false} LegacyLoadStaysFailed(rows: seq<string>, more: seq<string>)
    requires !LegacyLoad(rows).1
    ensures LegacyLoad(rows + more) == LegacyLoad(rows)
    decreases |more|
  {
    if more == [] {
      assert rows + more == rows;
    } else {
      var init := more[..|more| - 1];
      LegacyLoadStaysFailed(rows, init);
      assert (rows + more)[..|rows + more| - 1] == rows + init;
    }
  }

  /** One more row read after a prefix that loaded cleanly. */
  lemma LegacyLoadStep(rows: seq<string>, k: nat, loaded: seq<Match>, row: Option<Match>)
    requires k < |rows| && row == LegacyParseRow(rows[k]) && LegacyLoad(rows[..k]) == (loaded, true)
    ensures row.None? ==> LegacyLoad(rows[..k + 1]) == (loaded, false)
    ensures row.Some? ==> LegacyLoad(rows[..k + 1]) == (loaded + [row.value], true)
  {
    TakeSnoc(rows, k);
    assert (rows[..k] + [rows[k]])[..k] == rows[..k];
  }

  /** A failed prefix decides the outcome of the whole file. */
  lemma LegacyLoadFailedPrefix(rows: seq<string>, k: nat)
    requires k <= |rows| && !LegacyLoad(rows[..k]).1
    ensures LegacyLoad(rows) == LegacyLoad(rows[..k])
  {
    LegacyLoadStaysFailed(rows[..k], rows[k..]);
    assert rows[..k] + rows[k..] == rows;
  }

  /** The read loop of loadFromFile over the data rows: pushes each parsed
      row and stops at the first row whose ID does not convert. */
  method LegacyLoadRows(s: Stack<Match>, rows: seq<string>) returns (ok: bool)
    requires s.Valid() && s.Contents == []
    modifies s
    ensures s.Valid() && s.Contents == Reverse(LegacyLoad(rows).0)
    ensures ok == LegacyLoad(rows).1
  {
    ghost var loaded: seq<Match> := [];
    var k := 0;
    while k < |rows|
      invariant k <= |rows|
      invariant LegacyLoad(rows[..k]) == (loaded, true)
      invariant s.Valid() && s.Contents == Reverse(loaded)
    {
      var row := LegacyParseRow(rows[k]);
      LegacyLoadStep(rows, k, loaded, row);
      if row.None? {
        LegacyLoadFailedPrefix(rows, k + 1);
        return false;
      }
      ReverseSnoc(loaded, row.value);
      s.Push(row.value);
      loaded := loaded + [row.value];
      k := k + 1;
    }
    assert rows[..k] == rows;
    return true;
  }

  /** One row of the older loader, as saveToFile writes it. Any ID that fits
      an int and any fields without a comma in the names or a line break in
      the score come back; empty fields included. */
  predicate LegacySavable(m: Match) {
    && IntMin <= m.matchID <= IntMax
    && ',' !in m.player1 && ',' !in m.player2 && ',' !in m.winner && '\n' !in m.score
  }

  lemma LegacyScoreReadBack(m: Match, tok: string)
    requires '\n' !in m.score
    ensures LegacyScore(Open(" " + m.score), tok, m.matchID, m.player1, m.player2, m.winner) == m
  {
    GetLineLast(" " + m.score, tok);
    assert DropSpace(" " + m.score) == m.score;
  }

  lemma LegacyWinnerReadBack(m: Match, tok: string)
    requires LegacySavable(m)
    ensures LegacyWinner(Open(" " + Field(m.winner, m.score)), tok, m.matchID, m.player1, m.player2) == m
  {
    SpacedFieldRead(m.winner, m.score, tok);
    LegacyScoreReadBack(m, " " + m.winner);
  }

  lemma LegacyPlayer2ReadBack(m: Match, tok: string)
    requires LegacySavable(m)
    ensures LegacyPlayer2(Open(" " + Field(m.player2, Field(m.winner, m.score))), tok, m.matchID, m.player1) == m
  {
    SpacedFieldRead(m.player2, Field(m.winner, m.score), tok);
    LegacyWinnerReadBack(m, " " + m.player2);
  }

  lemma LegacyPlayer1ReadBack(m: Match, tok: string)
    requires LegacySavable(m)
    ensures LegacyPlayer1(Open(" " + Field(m.player1, Field(m.player2, Field(m.winner, m.score)))), tok, m.matchID) == m
  {
    SpacedFieldRead(m.player1, Field(m.player2, Field(m.winner, m.score)), tok);
    LegacyPlayer2ReadBack(m, " " + m.player1);
  }

  /** The row saveToFile writes is read back as the same match. */
  lemma LegacyParseRowText(m: Match)
    requires LegacySavable(m)
    ensures LegacyParseRow(RowText(m)) == Some(m)
  {
    var id := IntToString(m.matchID);
    var rest := Field(m.player1, Field(m.player2, Field(m.winner, m.score)));
    assert ',' !in id by {
      assert forall j :: 0 <= j < |id| ==> IsDigit(id[j]) || id[j] == '-';
    }
    FieldRead(id, rest, []);
    StoiOfIntToString(m.matchID);
    LegacyPlayer1ReadBack(m, id);
  }

  lemma {:induction false} LegacyRowsReadBack(ms: seq<Match>)
    requires forall k :: 0 <= k < |ms| ==> LegacySavable(ms[k])
    ensures LegacyLoad(Rows(ms)) == (ms, true)
    decreases |ms|
  {
    if ms != [] {
      var init, last := ms[..|ms| - 1], ms[|ms| - 1];
      LegacyRowsReadBack(init);
      RowsStep(init, last);
      TakeSnoc(ms, |ms| - 1);
      assert ms[..|ms|] == ms;
      LegacyParseRowText(last);
      var rows := Rows(init) + [RowText(last)];
      assert rows[..|rows| - 1] == Rows(init);
    }
  }

  /** Saving and loading with the older code: every row comes back, pushed in
      file order, so the stack ends up reversed. */
  lemma LegacySaveLoadRoundTrip(ms: seq<Match>)
    requires forall k :: 0 <= k < |ms| ==> LegacySavable(ms[k])
    ensures LegacyLoad(SaveLines(ms)[1..]) == (ms, true)
  {
    LegacyRowsReadBack(ms);
  }

  /** How loadFromFile ends: the file did not open, every row was read, or
      stoi threw on a row and the exception left loadFromFile. */
  datatype LoadOutcome = NotOpened | Loaded | StoiThrew

  /** The legacy match history: a stack of matches, the most recent on top. */
  class LegacyMatchHistory {
    const matchStack: Stack<Match>

    ghost predicate Valid()
      reads this, matchStack
    {
      matchStack.Valid()
    }

    /** The recorded matches, most recent first. */
    ghost function Matches(): seq<Match>
      reads this, matchStack
    {
      matchStack.Contents
    }

    constructor ()
      ensures Valid() && Matches() == [] && fresh(matchStack)
    {
      matchStack := new Stack<Match>();
    }

    /** addMatch: always pushes, whatever the ID. */
    method AddMatch(entry: Match)
      requires Valid()
      modifies matchStack
      ensures Valid() && Matches() == [entry] + old(Matches())
      ensures |Matches()| == |old(Matches())| + 1
    {
      matchStack.Push(entry);
    }

    /** viewRecentMatches: the entries it displays, or the message it prints
        on an empty history. A count that is not positive shows nothing. The
        history is left as it was. */
    method ViewRecentMatches(count: int) returns (r: Result<seq<Match>>)
      requires Valid()
      modifies matchStack
      ensures Valid() && Matches() == old(Matches())
      ensures old(Matches()) == [] ==> r == Err("No matches in history.")
      ensures old(Matches()) != [] ==> r == Ok(Recent(old(Matches()), Requested(count)))
    {
      ghost var h := matchStack.Contents;
      var empty := matchStack.IsEmpty();
      if empty {
        return Err("No matches in history.");
      }
      var shown, tempStack := PopUpTo(matchStack, count);
      ghost var rest := matchStack.Contents;
      MoveAll(tempStack, matchStack);
      Restored(h, shown, rest);
      return Ok(shown);
    }

    /** searchMatchesByPlayer: the matches where either player's name holds
        playerName exactly as written, most recent first; or the message
        printed on an empty history. The history is left as it was. */
    method SearchMatchesByPlayer(playerName: string) returns (r: Result<seq<Match>>)
      requires Valid()
      modifies matchStack
      ensures Valid() && Matches() == old(Matches())
      ensures old(Matches()) == [] ==> r == Err("No matches in history.")
      ensures old(Matches()) != [] ==> r == Ok(ExactHits(old(Matches()), playerName))
    {
      ghost var h := matchStack.Contents;
      var empty := matchStack.IsEmpty();
      if empty {
        return Err("No matches in history.");
      }
      var tempStack, resultStack := ScanExactHits(matchStack, playerName);
      MoveAll(tempStack, matchStack);
      Unreversed(h, []);
      var displayStack := new Stack<Match>();
      MoveAll(resultStack, displayStack);
      Unreversed(ExactHits(h, playerName), []);
      var shown := PopAll(displayStack);
      return Ok(shown);
    }

    /** saveToFile, with the lines written as a result and whether the file
        could be opened for writing as a parameter. The history is left as it was. */
    method SaveToFile(writable: bool) returns (ok: bool, lines: seq<string>)
      requires Valid()
      modifies matchStack
      ensures Valid() && Matches() == old(Matches())
      ensures ok == writable
      ensures ok ==> lines == SaveLines(old(Matches()))
      ensures !ok ==> lines == []
    {
      ghost var h := matchStack.Contents;
      if !writable {
        return false, [];
      }
      var tempStack;
      lines, tempStack := WriteRows(matchStack);
      MoveAll(tempStack, matchStack);
      Unreversed(h, []);
      ok := true;
    }

    /** loadFromFile, with the file's lines as a parameter (None when it cannot
        be opened). Once open, the history is cleared, the first line is
        skipped, and each later row is pushed in file order until one makes
        stoi throw. */
    method LoadFromFile(file: Option<seq<string>>) returns (outcome: LoadOutcome)
      requires Valid()
      modifies matchStack
      ensures Valid()
      ensures file.None? ==> outcome == NotOpened && Matches() == old(Matches())
      ensures file.Some? ==> Matches() == Reverse(LegacyLoad(DataRows(file.value)).0)
      ensures file.Some? ==> (outcome == Loaded <==> LegacyLoad(DataRows(file.value)).1)
      ensures file.Some? ==> outcome != NotOpened
    {
      if file.None? {
        return NotOpened;
      }
      var lines := file.value;
      matchStack.Clear();
      if lines == [] {
        return Loaded;
      }
      var ok := LegacyLoadRows(matchStack, lines[1..]);
      outcome := if ok then Loaded else StoiThrew;
    }

    /** getTotalMatches. */
    method GetTotalMatches() returns (n: int)
      requires Valid()
      ensures n == |Matches()|
    {
      n := matchStack.GetSize();
    }
  }
}

/** The match history of src/MatchHistory.cpp: recorded matches kept on a
    linked stack (most recent on top), the string validators used by its
    menus, and the row format of its save and load files. Every operation
    that reads the history pops the stack into a temporary stack and pushes
    everything back. */
module History {
  import opened Base
  import opened LinkedStack
  import Schedule

  /** A recorded match (include/Match.h). */
  datatype Match = Match(matchID: int, player1: string, player2: string, winner: string, score: string)

  // ---------------------------------------------------------------------------
  // trim

  /** The characters trim removes: " \t\n\r". */
  predicate IsTrimChar(c: char) { c == ' ' || c == '\t' || c == '\n' || c == '\r' }

  /** find_first_not_of(" \t\n\r"), with |s| standing for npos. */
  function FirstNotTrim(s: string): (k: nat)
    ensures k <= |s|
    ensures forall j :: 0 <= j < k ==> IsTrimChar(s[j])
    ensures k < |s| ==> !IsTrimChar(s[k])
  {
    if s == [] || !IsTrimChar(s[0]) then 0 else 1 + FirstNotTrim(s[1..])
  }

  /** One past find_last_not_of(" \t\n\r"); 0 when every character is trimmed. */
  function EndNotTrim(s: string): (e: nat)
    ensures e <= |s|
    ensures forall j :: e <= j < |s| ==> IsTrimChar(s[j])
    ensures e > 0 ==> !IsTrimChar(s[e - 1])
  {
    if s == [] || !IsTrimChar(s[|s| - 1]) then |s| else EndNotTrim(s[..|s| - 1])
  }

  /** s is t with trimmed characters only before position i and after t. */
  predicate Padded(s: string, i: nat, t: string) {
    && i + |t| <= |s|
    && s[i..i + |t|] == t
    && (forall j :: 0 <= j < i ==> IsTrimChar(s[j]))
    && (forall j :: i + |t| <= j < |s| ==> IsTrimChar(s[j]))
  }

  /** Neither end of t is a trimmed character. */
  predicate Tight(t: string) {
    t != [] ==> !IsTrimChar(t[0]) && !IsTrimChar(t[|t| - 1])
  }

  /** trim: drops the leading and trailing characters of " \t\n\r". */
  function Trim(s: string): (t: string)
    ensures exists i: nat :: Padded(s, i, t)
    ensures Tight(t)
    ensures t == [] <==> forall j :: 0 <= j < |s| ==> IsTrimChar(s[j])
  {
    var first := FirstNotTrim(s);
    if first == |s| then
      assert Padded(s, 0, []);
      ""
    else
      var last := EndNotTrim(s);
      assert first < last;
      assert Padded(s, first, s[first..last]);
      s[first..last]
  }

  /** Trim is the only way to pad: a tight t padded into s is Trim(s). */
  lemma TrimUnique(s: string, i: nat, t: string)
    requires Padded(s, i, t) && Tight(t)
    ensures Trim(s) == t
  {
    if t == [] {
      assert forall j :: 0 <= j < |s| ==> IsTrimChar(s[j]) by {
        forall j | 0 <= j < |s| ensures IsTrimChar(s[j]) {
          if j < i {} else {}
        }
      }
    } else {
      assert s[i] == t[0] && s[i + |t| - 1] == t[|t| - 1];
      var first, last := FirstNotTrim(s), EndNotTrim(s);
      assert first == i;
      assert last == i + |t|;
    }
  }

  lemma TrimIdempotent(s: string)
    ensures Trim(Trim(s)) == Trim(s)
  {
    var t := Trim(s);
    assert t[0..|t|] == t;
    TrimUnique(t, 0, t);
  }

  // ---------------------------------------------------------------------------
  // Validators

  predicate NameChar(c: char) { IsAlpha(c) || c == ' ' || c == '.' || c == '-' }

  /** isValidName: the trimmed text is non-empty and made of letters, spaces,
      '.' and '-'. */
  predicate IsValidName(name: string) {
    name != [] && Trim(name) != [] && forall j :: 0 <= j < |Trim(name)| ==> NameChar(Trim(name)[j])
  }

  /** A valid name holds only name characters and trimmed ones, and some
      character other than a space; conversely a string of name characters
      that is not all spaces is valid. */
  lemma ValidNameChars(name: string)
    ensures IsValidName(name) ==> forall j :: 0 <= j < |name| ==> NameChar(name[j]) || IsTrimChar(name[j])
    ensures IsValidName(name) ==> exists j :: 0 <= j < |name| && NameChar(name[j]) && name[j] != ' '
    ensures ((forall j :: 0 <= j < |name| ==> NameChar(name[j])) &&
             (exists j :: 0 <= j < |name| && name[j] != ' ')) ==> IsValidName(name)
  {
    var t := Trim(name);
    var i: nat :| Padded(name, i, t);
    forall j | i <= j < i + |t|
      ensures name[j] == t[j - i]
    {
      assert name[i..i + |t|][j - i] == name[j];
    }
    if IsValidName(name) {
      assert name[i] == t[0];
    }
    if (forall j :: 0 <= j < |name| ==> NameChar(name[j])) && (exists j :: 0 <= j < |name| && name[j] != ' ') {
      var j0 :| 0 <= j0 < |name| && name[j0] != ' ';
      assert !IsTrimChar(name[j0]);
    }
  }

  /** Whatever surrounds a name in trimmed characters does not change its validity. */
  lemma ValidNameTrimmed(name: string)
    ensures IsValidName(Trim(name)) <==> IsValidName(name)
  {
    TrimIdempotent(name);
  }

  predicate IsValidMatchID(id: int) { id > 0 }

  predicate IsScoreSeparator(c: char) { c == '-' || c == ' ' }

  /** The rule isValidScore checks: the trimmed text is non-empty, holds only
      digits, '-' and ' ', at least one digit and at least one separator. */
  predicate ScoreRule(score: string) {
    var t := Trim(score);
    && t != []
    && (forall j :: 0 <= j < |t| ==> IsDigit(t[j]) || IsScoreSeparator(t[j]))
    && (exists j :: 0 <= j < |t| && IsDigit(t[j]))
    && (exists j :: 0 <= j < |t| && IsScoreSeparator(t[j]))
  }

  /** isValidScore: one pass over the trimmed text that stops at the first
      character that is neither a digit nor a separator. */
  method IsValidScore(score: string) returns (v: bool)
    ensures v <==> ScoreRule(score)
  {
    if score == [] {
      return false;
    }
    var t := Trim(score);
    if t == [] {
      return false;
    }
    var hasDigit, hasSeparator := false, false;
    var i := 0;
    while i < |t|
      invariant 0 <= i <= |t|
      invariant forall j :: 0 <= j < i ==> IsDigit(t[j]) || IsScoreSeparator(t[j])
      invariant hasDigit <==> exists j :: 0 <= j < i && IsDigit(t[j])
      invariant hasSeparator <==> exists j :: 0 <= j < i && IsScoreSeparator(t[j])
    {
      var c := t[i];
      if IsDigit(c) {
        hasDigit := true;
      } else if c == '-' || c == ' ' {
        hasSeparator := true;
      } else {
        return false;
      }
      i := i + 1;
    }
    return hasDigit && hasSeparator;
  }

  /** Every score the tournament engine writes for a played match ("2-1")
      passes isValidScore's rule; its "NOT AVAILABLE" does not. */
  lemma EngineScoresValid(a: nat, b: nat)
    ensures ScoreRule(Schedule.ScoreText(Schedule.Sets(a, b)))
    ensures !ScoreRule(Schedule.ScoreText(Schedule.NotAvailable))
  {
    var x, y := NatToString(a), NatToString(b);
    var s := x + "-" + y;
    assert Schedule.ScoreText(Schedule.Sets(a, b)) == s;
    assert s[0] == x[0] && s[|s| - 1] == y[|y| - 1];
    assert s[0..|s|] == s;
    TrimUnique(s, 0, s);
    assert IsScoreSeparator(s[|x|]);
    assert forall j :: 0 <= j < |s| ==> IsDigit(s[j]) || IsScoreSeparator(s[j]) by {
      forall j | 0 <= j < |s| ensures IsDigit(s[j]) || IsScoreSeparator(s[j]) {
        if j < |x| {
          assert s[j] == x[j];
        } else if j > |x| {
          assert s[j] == y[j - |x| - 1];
        }
      }
    }
    var n := "NOT AVAILABLE";
    assert n[0..|n|] == n;
    TrimUnique(n, 0, n);
    assert !(IsDigit(n[0]) || IsScoreSeparator(n[0]));
  }

  const InvalidFilenameChars: string := "\\/:*?\"<>|"

  /** find_first_of(chars), with |s| standing for npos. */
  function FirstOf(s: string, chars: string): (k: nat)
    ensures k <= |s|
    ensures forall j :: 0 <= j < k ==> s[j] !in chars
    ensures k < |s| ==> s[k] in chars
  {
    if s == [] || s[0] in chars then 0 else 1 + FirstOf(s[1..], chars)
  }

  /** isValidFilename: non-empty, and none of \ / : * ? " < > |. */
  function IsValidFilename(filename: string): (v: bool)
    ensures v <==> filename != [] && forall j :: 0 <= j < |filename| ==> filename[j] !in InvalidFilenameChars
  {
    filename != [] && FirstOf(filename, InvalidFilenameChars) == |filename|
  }

  // ---------------------------------------------------------------------------
  // Specification functions over the history, most recent first

  predicate HasId(ms: seq<Match>, id: int) {
    exists k :: 0 <= k < |ms| && ms[k].matchID == id
  }

  lemma HasIdSnoc(ms: seq<Match>, i: nat, id: int)
    requires i < |ms|
    ensures HasId(ms[..i + 1], id) <==> HasId(ms[..i], id) || ms[i].matchID == id
  {
    if HasId(ms[..i + 1], id) {
      var k :| 0 <= k < i + 1 && ms[..i + 1][k].matchID == id;
      if k < i {
        assert ms[..i][k] == ms[k];
      }
    }
    if HasId(ms[..i], id) {
      var k :| 0 <= k < i && ms[..i][k].matchID == id;
      assert ms[..i + 1][k] == ms[k];
    }
    assert ms[..i + 1][i] == ms[i];
  }

  /** No two entries share a match ID. */
  predicate UniqueIds(ms: seq<Match>) {
    forall i, j :: 0 <= i < j < |ms| ==> ms[i].matchID != ms[j].matchID
  }

  /** The entries whose ID is not id, in their order. */
  function Without(ms: seq<Match>, id: int): (r: seq<Match>)
    ensures |r| <= |ms|
  {
    if ms == [] then []
    else
      var last := ms[|ms| - 1];
      Without(ms[..|ms| - 1], id) + (if last.matchID == id then [] else [last])
  }

  lemma {:induction false} WithoutAppend(a: seq<Match>, b: seq<Match>, id: int)
    ensures Without(a + b, id) == Without(a, id) + Without(b, id)
    decreases |b|
  {
    if b == [] {
      assert a + b == a;
    } else {
      var b' := b[..|b| - 1];
      assert (a + b)[..|a + b| - 1] == a + b';
      WithoutAppend(a, b', id);
    }
  }

  lemma {:induction false} WithoutMembers(ms: seq<Match>, id: int)
    ensures forall m :: m in Without(ms, id) <==> m in ms && m.matchID != id
    ensures !HasId(Without(ms, id), id)
    ensures !HasId(ms, id) ==> Without(ms, id) == ms
    decreases |ms|
  {
    if ms != [] {
      var init := ms[..|ms| - 1];
      WithoutMembers(init, id);
      assert ms == init + [ms[|ms| - 1]];
      if !HasId(ms, id) {
        assert forall k :: 0 <= k < |init| ==> init[k] == ms[k];
        assert ms[|ms| - 1].matchID != id;
      }
    }
  }

  lemma WithoutAbsent(ms: seq<Match>, id: int)
    requires !HasId(ms, id)
    ensures Without(ms, id) == ms
  {
    WithoutMembers(ms, id);
  }

  /** With unique IDs, the entry at k is the only one with its ID. */
  lemma UniqueElsewhere(ms: seq<Match>, k: nat)
    requires UniqueIds(ms) && k < |ms|
    ensures !HasId(ms[..k], ms[k].matchID) && !HasId(ms[k + 1..], ms[k].matchID)
  {
    var a, b := ms[..k], ms[k + 1..];
    assert forall j :: 0 <= j < |a| ==> a[j] == ms[j];
    assert forall j :: 0 <= j < |b| ==> b[j] == ms[k + 1 + j];
  }

  /** With unique IDs, dropping the ID of the entry at k drops that entry. */
  lemma WithoutSplit(ms: seq<Match>, k: nat)
    requires UniqueIds(ms) && k < |ms|
    ensures Without(ms, ms[k].matchID) == ms[..k] + ms[k + 1..]
  {
    var id := ms[k].matchID;
    var a, b := ms[..k], ms[k + 1..];
    SplitAt(ms, k);
    UniqueElsewhere(ms, k);
    WithoutAppend(a + [ms[k]], b, id);
    WithoutAppend(a, [ms[k]], id);
    WithoutAbsent(a, id);
    WithoutAbsent(b, id);
    assert Without([ms[k]], id) == [];
    assert a + [] == a;
  }

  /** Dropping one entry keeps IDs unique. */
  lemma UniqueDropOne(ms: seq<Match>, k: nat)
    requires UniqueIds(ms) && k < |ms|
    ensures UniqueIds(ms[..k] + ms[k + 1..])
  {
    var r := ms[..k] + ms[k + 1..];
    forall i, j | 0 <= i < j < |r| ensures r[i].matchID != r[j].matchID {
      var i', j' := if i < k then i else i + 1, if j < k then j else j + 1;
      assert r[i] == ms[i'] && r[j] == ms[j'];
    }
  }

  /** With unique IDs, dropping a present ID removes exactly one entry. */
  lemma WithoutUnique(ms: seq<Match>, id: int)
    requires UniqueIds(ms) && HasId(ms, id)
    ensures |Without(ms, id)| == |ms| - 1
    ensures UniqueIds(Without(ms, id))
  {
    var k :| 0 <= k < |ms| && ms[k].matchID == id;
    WithoutSplit(ms, k);
    UniqueDropOne(ms, k);
  }

  /** A new ID on top of a history with unique IDs keeps them unique. */
  lemma AddNewKeepsUnique(ms: seq<Match>, m: Match)
    requires UniqueIds(ms) && !HasId(ms, m.matchID)
    ensures UniqueIds([m] + ms)
  {
    var r := [m] + ms;
    forall i, j | 0 <= i < j < |r| ensures r[i].matchID != r[j].matchID {
      assert r[j] == ms[j - 1];
      if i > 0 {
        assert r[i] == ms[i - 1];
      }
    }
  }

  /** Replacing keeps IDs unique and, when the ID was present once, the size. */
  lemma ReplaceKeepsUnique(ms: seq<Match>, m: Match)
    requires UniqueIds(ms) && HasId(ms, m.matchID)
    ensures UniqueIds([m] + Without(ms, m.matchID))
    ensures |[m] + Without(ms, m.matchID)| == |ms|
  {
    WithoutUnique(ms, m.matchID);
    WithoutMembers(ms, m.matchID);
    AddNewKeepsUnique(Without(ms, m.matchID), m);
  }

  /** Player search: a case-insensitive substring of either player's name. */
  predicate Involves(m: Match, name: string) {
    Contains(Lower(m.player1), Lower(name)) || Contains(Lower(m.player2), Lower(name))
  }

  /** The entries that involve name, in their order. */
  function Hits(ms: seq<Match>, name: string): (r: seq<Match>)
    ensures |r| <= |ms|
  {
    if ms == [] then []
    else
      var last := ms[|ms| - 1];
      Hits(ms[..|ms| - 1], name) + (if Involves(last, name) then [last] else [])
  }

  /** Hits keep the history's order: those in a more recent part come first. */
  lemma {:induction false} HitsAppend(a: seq<Match>, b: seq<Match>, name: string)
    ensures Hits(a + b, name) == Hits(a, name) + Hits(b, name)
    decreases |b|
  {
    if b == [] {
      assert a + b == a;
    } else {
      var b' := b[..|b| - 1];
      assert (a + b)[..|a + b| - 1] == a + b';
      HitsAppend(a, b', name);
    }
  }

  lemma {:induction false} HitsMembers(ms: seq<Match>, name: string)
    ensures forall m :: m in Hits(ms, name) <==> m in ms && Involves(m, name)
    decreases |ms|
  {
    if ms != [] {
      HitsMembers(ms[..|ms| - 1], name);
      assert ms == ms[..|ms| - 1] + [ms[|ms| - 1]];
    }
  }

  /** The search does not depend on the case of the name searched for. */
  lemma {:induction false} HitsIgnoreCase(ms: seq<Match>, name: string)
    ensures Hits(ms, Lower(name)) == Hits(ms, name)
    decreases |ms|
  {
    LowerIdempotent(name);
    if ms != [] {
      HitsIgnoreCase(ms[..|ms| - 1], name);
    }
  }

  /** The entries viewRecentMatches shows: the top min(count, size). */
  function Recent(ms: seq<Match>, count: nat): (r: seq<Match>)
    ensures |r| == if count < |ms| then count else |ms|
    ensures r == ms[..|r|]
  {
    if count < |ms| then ms[..count] else ms
  }

  // ---------------------------------------------------------------------------
  // The save and load file format

  const Header: string := "MatchID" + Sep + "Player1" + Sep + "Player2" + Sep + "Winner" + Sep + "Score"

  /** One saved row: "id, player1, player2, winner, score". */
  function RowText(m: Match): string {
    Field(IntToString(m.matchID), Field(m.player1, Field(m.player2, Field(m.winner, m.score))))
  }

  /** The rows of a history, in the order given. */
  function Rows(ms: seq<Match>): (r: seq<string>)
    ensures |r| == |ms|
    ensures forall k :: 0 <= k < |ms| ==> r[k] == RowText(ms[k])
  {
    seq(|ms|, k requires 0 <= k < |ms| => RowText(ms[k]))
  }

  /** The lines saveToFile writes: the header, then the history top first. */
  function SaveLines(ms: seq<Match>): (r: seq<string>)
    ensures |r| == |ms| + 1 && r[0] == Header && r[1..] == Rows(ms)
  {
    [Header] + Rows(ms)
  }

  /** The header check of loadFromFile: all five column names occur in it. */
  predicate HeaderOk(line: string) {
    && Contains(line, "MatchID")
    && Contains(line, "Player1")
    && Contains(line, "Player2")
    && Contains(line, "Winner")
    && Contains(line, "Score")
  }

  lemma ContainsMiddle(a: string, b: string, c: string)
    ensures Contains(a + b + c, b)
  {
    assert OccursAt(a + b + c, b, |a|) by {
      assert (a + b + c)[|a|..|a| + |b|] == b;
    }
    ContainsIsOccurrence(a + b + c, b);
  }

  lemma HeaderHasMatchID()
    ensures Contains(Header, "MatchID")
  {
    ContainsMiddle([], "MatchID", Sep + "Player1" + Sep + "Player2" + Sep + "Winner" + Sep + "Score");
    assert [] + "MatchID" == "MatchID";
  }

  lemma HeaderHasPlayer1()
    ensures Contains(Header, "Player1")
  {
    ContainsMiddle("MatchID" + Sep, "Player1", Sep + "Player2" + Sep + "Winner" + Sep + "Score");
    assert "MatchID" + Sep + "Player1" + (Sep + "Player2" + Sep + "Winner" + Sep + "Score") == Header;
  }

  lemma HeaderHasPlayer2()
    ensures Contains(Header, "Player2")
  {
    ContainsMiddle("MatchID" + Sep + "Player1" + Sep, "Player2", Sep + "Winner" + Sep + "Score");
    assert "MatchID" + Sep + "Player1" + Sep + "Player2" + (Sep + "Winner" + Sep + "Score") == Header;
  }

  lemma HeaderHasResults()
    ensures Contains(Header, "Winner") && Contains(Header, "Score")
  {
    ContainsMiddle("MatchID" + Sep + "Player1" + Sep + "Player2" + Sep, "Winner", Sep + "Score");
    assert "MatchID" + Sep + "Player1" + Sep + "Player2" + Sep + "Winner" + (Sep + "Score") == Header;
    ContainsMiddle("MatchID" + Sep + "Player1" + Sep + "Player2" + Sep + "Winner" + Sep, "Score", []);
    assert "MatchID" + Sep + "Player1" + Sep + "Player2" + Sep + "Winner" + Sep + "Score" + [] == Header;
  }

  /** The header saveToFile writes passes the header check of loadFromFile. */
  lemma SavedHeaderOk()
    ensures HeaderOk(Header)
  {
    HeaderHasMatchID();
    HeaderHasPlayer1();
    HeaderHasPlayer2();
    HeaderHasResults();
  }

  /** token.substr(token[0] == ' ' ? 1 : 0); token[0] of an empty token is
      the terminating '\0', so an empty token stays empty. */
  function DropSpace(t: string): (r: string)
    ensures r == t || (t != [] && t[0] == ' ' && r == t[1..])
  {
    if t != [] && t[0] == ' ' then t[1..] else t
  }

  /** What a loaded row satisfies. */
  predicate Loadable(m: Match) {
    && IsValidMatchID(m.matchID) && m.matchID <= IntMax
    && m.player1 != [] && m.player2 != [] && m.winner != [] && m.score != []
    && (m.winner == m.player1 || m.winner == m.player2)
    && ',' !in m.player1 && ',' !in m.player2 && ',' !in m.winner
  }

  /** The match one line of a file holds, or None when loadFromFile skips the
      line: an empty line, a Match ID that stoi rejects or that is not
      positive, a missing or empty field (after one leading space is
      dropped), or a winner who is neither player. The fields are read one
      after another from a string stream over the line, each getline reusing
      the token of the one before. */
  function ParseRow(line: string): Option<Match> {
    if line == [] then None else ParseId(Open(line))
  }

  function ParseId(ss: Stream): Option<Match> {
    var g := GetLine(ss, ',', []);
    var id := Stoi(g.1);
    if g.0.fail || id.None? || id.value <= 0 then None
    else ParsePlayer1(g.0, g.1, id.value)
  }

  function ParsePlayer1(ss: Stream, token: string, id: int): Option<Match> {
    var g := GetLine(ss, ',', token);
    var player1 := DropSpace(g.1);
    if g.0.fail || player1 == [] then None
    else ParsePlayer2(g.0, g.1, id, player1)
  }

  function ParsePlayer2(ss: Stream, token: string, id: int, player1: string): Option<Match> {
    var g := GetLine(ss, ',', token);
    var player2 := DropSpace(g.1);
    if g.0.fail || player2 == [] then None
    else ParseWinner(g.0, g.1, id, player1, player2)
  }

  function ParseWinner(ss: Stream, token: string, id: int, player1: string, player2: string): Option<Match> {
    var g := GetLine(ss, ',', token);
    var winner := DropSpace(g.1);
    if g.0.fail || winner == [] then None
    else ParseScore(g.0, g.1, id, player1, player2, winner)
  }

  function ParseScore(ss: Stream, token: string, id: int, player1: string, player2: string, winner: string): Option<Match> {
    var g := GetLine(ss, '\n', token);
    var score := DropSpace(g.1);
    if g.0.fail || score == [] then None
    else if winner != player1 && winner != player2 then None
    else Some(Match(id, player1, player2, winner, score))
  }

  /** A token getline extracted without failing holds no delimiter. */
  lemma GetLineToken(st: Stream, c: char, tok: string)
    ensures !GetLine(st, c, tok).0.fail ==> c !in GetLine(st, c, tok).1
  {
  }

  /** The stages of the row parser keep what the earlier fields established. */
  lemma ParseWinnerLoadable(ss: Stream, token: string, id: int, player1: string, player2: string)
    requires IsValidMatchID(id) && id <= IntMax
    requires player1 != [] && player2 != [] && ',' !in player1 && ',' !in player2
    ensures ParseWinner(ss, token, id, player1, player2).Some? ==> Loadable(ParseWinner(ss, token, id, player1, player2).value)
  {
    GetLineToken(ss, ',', token);
  }

  lemma ParsePlayer2Loadable(ss: Stream, token: string, id: int, player1: string)
    requires IsValidMatchID(id) && id <= IntMax && player1 != [] && ',' !in player1
    ensures ParsePlayer2(ss, token, id, player1).Some? ==> Loadable(ParsePlayer2(ss, token, id, player1).value)
  {
    var g := GetLine(ss, ',', token);
    GetLineToken(ss, ',', token);
    if !g.0.fail && DropSpace(g.1) != [] {
      ParseWinnerLoadable(g.0, g.1, id, player1, DropSpace(g.1));
    }
  }

  lemma ParsePlayer1Loadable(ss: Stream, token: string, id: int)
    requires IsValidMatchID(id) && id <= IntMax
    ensures ParsePlayer1(ss, token, id).Some? ==> Loadable(ParsePlayer1(ss, token, id).value)
  {
    var g := GetLine(ss, ',', token);
    GetLineToken(ss, ',', token);
    if !g.0.fail && DropSpace(g.1) != [] {
      ParsePlayer2Loadable(g.0, g.1, id, DropSpace(g.1));
    }
  }

  /** Every row loadFromFile accepts has a positive ID that fits an int,
      non-empty fields, comma-free names and a winner who is one of the players. */
  lemma ParseRowLoadable(line: string)
    ensures ParseRow(line).Some? ==> Loadable(ParseRow(line).value)
  {
    if line != [] {
      var g := GetLine(Open(line), ',', []);
      var id := Stoi(g.1);
      if !g.0.fail && id.Some? && id.value > 0 {
        StoiRange(g.1);
        ParsePlayer1Loadable(g.0, g.1, id.value);
      }
    }
  }

  lemma StoiRange(s: string)
    ensures Stoi(s).Some? ==> IntMin <= Stoi(s).value <= IntMax
  {
  }

  /** The matches of the data lines, in file order. */
  function ParseRows(rows: seq<string>): seq<Match> {
    if rows == [] then []
    else
      var row := ParseRow(rows[|rows| - 1]);
      ParseRows(rows[..|rows| - 1]) + (if row.Some? then [row.value] else [])
  }

  lemma ParseRowsSnoc(rows: seq<string>, line: string, row: Option<Match>)
    requires row == ParseRow(line)
    ensures row.Some? ==> ParseRows(rows + [line]) == ParseRows(rows) + [row.value]
    ensures row.None? ==> ParseRows(rows + [line]) == ParseRows(rows)
  {
    assert (rows + [line])[..|rows|] == rows;
  }

  lemma SliceSnoc<T>(s: seq<T>, i: nat, j: nat)
    requires i <= j < |s|
    ensures s[i..j + 1] == s[i..j] + [s[j]]
  {
  }

  lemma SliceJoin<T>(s: seq<T>, i: nat, j: nat)
    requires i <= j <= |s|
    ensures s[i..j] + s[j..] == s[i..]
  {
  }

  lemma SliceToEnd<T>(s: seq<T>, i: nat)
    requires i <= |s|
    ensures s[i..|s|] == s[i..]
  {
  }

  /** One step of the load loop: the row at k, when it parses, goes on top. */
  lemma LoadStep(lines: seq<string>, k: nat, row: Option<Match>)
    requires 1 <= k < |lines| && row == ParseRow(lines[k])
    ensures row.Some? ==>
              Reverse(ParseRows(lines[1..k + 1])) == [row.value] + Reverse(ParseRows(lines[1..k])) &&
              |ParseRows(lines[1..k + 1])| == |ParseRows(lines[1..k])| + 1
    ensures row.None? ==> ParseRows(lines[1..k + 1]) == ParseRows(lines[1..k])
  {
    SliceSnoc(lines, 1, k);
    ParseRowsSnoc(lines[1..k], lines[k], row);
    if row.Some? {
      ReverseAppend(ParseRows(lines[1..k]), [row.value]);
    }
  }

  /** A match that survives a save and a load: what loading accepts, with no
      line break in any field. */
  predicate Savable(m: Match) {
    Loadable(m) && '\n' !in m.player1 && '\n' !in m.player2 && '\n' !in m.winner && '\n' !in m.score
  }

  lemma SpacedFieldRead(a: string, rest: string, tok: string)
    requires ',' !in a
    ensures GetLine(Open(" " + Field(a, rest)), ',', tok) == (Open(" " + rest), " " + a)
    ensures DropSpace(" " + a) == a
  {
    assert " " + Field(a, rest) == (" " + a) + Sep + rest;
    FieldRead(" " + a, rest, tok);
  }

  /** The stages of the row parser read back the fields saveToFile wrote. */
  lemma ScoreReadBack(m: Match, tok: string)
    requires Savable(m)
    ensures ParseScore(Open(" " + m.score), tok, m.matchID, m.player1, m.player2, m.winner) == Some(m)
  {
    GetLineLast(" " + m.score, tok);
    assert DropSpace(" " + m.score) == m.score;
  }

  lemma WinnerReadBack(m: Match, tok: string)
    requires Savable(m)
    ensures ParseWinner(Open(" " + Field(m.winner, m.score)), tok, m.matchID, m.player1, m.player2) == Some(m)
  {
    SpacedFieldRead(m.winner, m.score, tok);
    ScoreReadBack(m, " " + m.winner);
  }

  lemma Player2ReadBack(m: Match, tok: string)
    requires Savable(m)
    ensures ParsePlayer2(Open(" " + Field(m.player2, Field(m.winner, m.score))), tok, m.matchID, m.player1) == Some(m)
  {
    SpacedFieldRead(m.player2, Field(m.winner, m.score), tok);
    WinnerReadBack(m, " " + m.player2);
  }

  lemma Player1ReadBack(m: Match, tok: string)
    requires Savable(m)
    ensures ParsePlayer1(Open(" " + Field(m.player1, Field(m.player2, Field(m.winner, m.score)))), tok, m.matchID) == Some(m)
  {
    SpacedFieldRead(m.player1, Field(m.player2, Field(m.winner, m.score)), tok);
    Player2ReadBack(m, " " + m.player1);
  }

  /** The row saveToFile writes for a savable match is read back as that match. */
  lemma ParseRowText(m: Match)
    requires Savable(m)
    ensures ParseRow(RowText(m)) == Some(m)
  {
    var id := IntToString(m.matchID);
    var rest := Field(m.player1, Field(m.player2, Field(m.winner, m.score)));
    assert ',' !in id by {
      assert forall j :: 0 <= j < |id| ==> IsDigit(id[j]);
    }
    FieldRead(id, rest, []);
    StoiOfIntToString(m.matchID);
    Player1ReadBack(m, id);
  }

  /** The rows saveToFile writes for savable matches parse back as those
      matches, in the same sequence. */
  lemma {:induction false} ParseSavedRows(ms: seq<Match>)
    requires forall k :: 0 <= k < |ms| ==> Savable(ms[k])
    ensures ParseRows(Rows(ms)) == ms
    decreases |ms|
  {
    if ms != [] {
      var init, last := ms[..|ms| - 1], ms[|ms| - 1];
      ParseSavedRows(init);
      RowsStep(init, last);
      TakeSnoc(ms, |ms| - 1);
      assert ms[..|ms|] == ms;
      ParseRowText(last);
      ParseRowsSnoc(Rows(init), RowText(last), Some(last));
    }
  }

  /** Loading what was saved gives back the history in the same sequence;
      pushed in file order, it ends up with the stack order reversed. */
  lemma SaveLoadRoundTrip(ms: seq<Match>)
    requires forall k :: 0 <= k < |ms| ==> Savable(ms[k])
    ensures HeaderOk(SaveLines(ms)[0])
    ensures ParseRows(SaveLines(ms)[1..]) == ms
  {
    SavedHeaderOk();
    ParseSavedRows(ms);
  }

  // ---------------------------------------------------------------------------
  // The stack walks
  //
  // Each walk pops a stack whose contents were h; popped lists what it has
  // popped so far, so h == popped + what is left.

  /** Before a pop: the element popped next is the head of what is left. */
  lemma PopStep<T>(all: seq<T>, popped: seq<T>, rest: seq<T>)
    requires rest != [] && all == popped + rest
    ensures all == (popped + [rest[0]]) + rest[1..]
  {
    assert rest == [rest[0]] + rest[1..];
  }

  /** What a walk has pushed onto another stack is popped, reversed. */
  lemma ReverseSnoc<T>(ms: seq<T>, x: T)
    ensures [x] + Reverse(ms) == Reverse(ms + [x])
  {
    ReverseAppend(ms, [x]);
  }

  lemma TakeAll<T>(h: seq<T>, popped: seq<T>, rest: seq<T>)
    requires h == popped + rest && rest == []
    ensures popped == h
  {
  }

  /** Pushing back what a walk popped restores the stack. */
  lemma Restored<T>(h: seq<T>, popped: seq<T>, rest: seq<T>)
    requires h == popped + rest
    ensures Reverse(Reverse(popped)) + rest == h
  {
    ReverseReverse(popped);
  }

  lemma Unreversed<T>(s: seq<T>, rest: seq<T>)
    requires rest == []
    ensures Reverse(Reverse(s)) + rest == s
  {
    ReverseReverse(s);
  }

  lemma MoveStep<T>(moved: seq<T>, x: T, dst: seq<T>)
    ensures [x] + (Reverse(moved) + dst) == Reverse(moved + [x]) + dst
  {
    ReverseAppend(moved, [x]);
  }

  /** One pass of the restoring loop: the top of from goes onto to. */
  method MoveOne<T>(from: Stack<T>, to: Stack<T>) returns (x: T)
    requires from.Valid() && to.Valid() && from != to && from.Contents != []
    modifies from, to
    ensures from.Valid() && to.Valid()
    ensures x == old(from.Contents)[0] && from.Contents == old(from.Contents)[1..]
    ensures to.Contents == [x] + old(to.Contents)
  {
    var r := from.Pop();
    x := r.value;
    to.Push(x);
  }

  /** The restoring loop every operation ends with: pops each element of from
      and pushes it onto to, which receives them in reverse. */
  method MoveAll<T>(from: Stack<T>, to: Stack<T>)
    requires from.Valid() && to.Valid() && from != to
    modifies from, to
    ensures from.Valid() && to.Valid()
    ensures from.Contents == [] && to.Contents == Reverse(old(from.Contents)) + old(to.Contents)
  {
    ghost var src, dst := from.Contents, to.Contents;
    ghost var moved: seq<T> := [];
    var empty := from.IsEmpty();
    while !empty
      invariant from.Valid() && to.Valid()
      invariant src == moved + from.Contents
      invariant to.Contents == Reverse(moved) + dst
      invariant empty <==> from.Contents == []
      decreases |from.Contents|
    {
      PopStep(src, moved, from.Contents);
      var x := MoveOne(from, to);
      MoveStep(moved, x, dst);
      moved := moved + [x];
      empty := from.IsEmpty();
    }
    TakeAll(src, moved, from.Contents);
  }

  lemma HasIdStep(popped: seq<Match>, m: Match, id: int)
    ensures HasId(popped + [m], id) <==> HasId(popped, id) || m.matchID == id
  {
    var ms := popped + [m];
    HasIdSnoc(ms, |popped|, id);
    assert ms[..|popped|] == popped && ms[..|popped| + 1] == ms;
  }

  lemma HasIdPrefix(h: seq<Match>, popped: seq<Match>, rest: seq<Match>, id: int)
    requires h == popped + rest
    ensures HasId(popped, id) ==> HasId(h, id)
  {
    if HasId(popped, id) {
      var k :| 0 <= k < |popped| && popped[k].matchID == id;
      assert h[k] == popped[k];
    }
  }

  /** One step of the scan that drops an ID, stated on the entries kept so far. */
  lemma WithoutStep(popped: seq<Match>, m: Match, id: int, kept: seq<Match>)
    requires kept == Without(popped, id)
    ensures m.matchID != id ==> kept + [m] == Without(popped + [m], id)
    ensures m.matchID != id ==> [m] + Reverse(kept) == Reverse(kept + [m])
    ensures m.matchID == id ==> kept == Without(popped + [m], id)
  {
    assert (popped + [m])[..|popped|] == popped;
    ReverseAppend(kept, [m]);
  }

  /** One step of the player search, stated on the hits found so far. */
  lemma HitsStep(popped: seq<Match>, m: Match, name: string, hits: seq<Match>)
    requires hits == Hits(popped, name)
    ensures Involves(m, name) ==> hits + [m] == Hits(popped + [m], name)
    ensures Involves(m, name) ==> [m] + Reverse(hits) == Reverse(hits + [m])
    ensures !Involves(m, name) ==> hits == Hits(popped + [m], name)
  {
    assert (popped + [m])[..|popped|] == popped;
    ReverseAppend(hits, [m]);
  }

  lemma RowsStep(popped: seq<Match>, m: Match)
    ensures Rows(popped) + [RowText(m)] == Rows(popped + [m])
  {
    assert Rows(popped + [m])[|popped|] == RowText(m);
  }

  /** The display loops: pops every element, top first. */
  method PopAll<T>(s: Stack<T>) returns (items: seq<T>)
    requires s.Valid()
    modifies s
    ensures s.Valid() && s.Contents == [] && items == old(s.Contents)
  {
    ghost var all := s.Contents;
    items := [];
    var empty := s.IsEmpty();
    while !empty
      invariant s.Valid()
      invariant all == items + s.Contents
      invariant empty <==> s.Contents == []
      decreases |s.Contents|
    {
      PopStep(all, items, s.Contents);
      var p := s.Pop();
      items := items + [p.value];
      empty := s.IsEmpty();
    }
    TakeAll(all, items, s.Contents);
  }

  /** The duplicate scan of addMatch: pops s onto a new stack until an entry
      with the ID turns up. */
  method ScanUntilId(s: Stack<Match>, id: int) returns (isDuplicate: bool, tempStack: Stack<Match>, ghost popped: seq<Match>)
    requires s.Valid()
    modifies s
    ensures fresh(tempStack) && s.Valid() && tempStack.Valid()
    ensures old(s.Contents) == popped + s.Contents && tempStack.Contents == Reverse(popped)
    ensures isDuplicate <==> HasId(old(s.Contents), id)
  {
    ghost var h := s.Contents;
    tempStack := new Stack<Match>();
    isDuplicate := false;
    var empty := s.IsEmpty();
    popped := [];
    while !empty && !isDuplicate
      invariant s.Valid() && tempStack.Valid()
      invariant h == popped + s.Contents && tempStack.Contents == Reverse(popped)
      invariant empty <==> s.Contents == []
      invariant isDuplicate <==> HasId(popped, id)
      decreases |s.Contents|
    {
      PopStep(h, popped, s.Contents);
      var current := MoveOne(s, tempStack);
      HasIdStep(popped, current, id);
      ReverseSnoc(popped, current);
      if current.matchID == id {
        isDuplicate := true;
      }
      popped := popped + [current];
      empty := s.IsEmpty();
    }
    HasIdPrefix(h, popped, s.Contents, id);
    if !isDuplicate {
      TakeAll(h, popped, s.Contents);
    }
  }

  /** The scan of searchMatchByID: pops all of s onto a new stack, noting
      whether some entry has the ID. */
  method ScanAllId(s: Stack<Match>, id: int) returns (found: bool, tempStack: Stack<Match>)
    requires s.Valid()
    modifies s
    ensures fresh(tempStack) && s.Valid() && tempStack.Valid() && s.Contents == []
    ensures tempStack.Contents == Reverse(old(s.Contents))
    ensures found <==> HasId(old(s.Contents), id)
  {
    ghost var h := s.Contents;
    tempStack := new Stack<Match>();
    found := false;
    var empty := s.IsEmpty();
    ghost var popped: seq<Match> := [];
    while !empty
      invariant s.Valid() && tempStack.Valid()
      invariant h == popped + s.Contents && tempStack.Contents == Reverse(popped)
      invariant empty <==> s.Contents == []
      invariant found <==> HasId(popped, id)
      decreases |s.Contents|
    {
      PopStep(h, popped, s.Contents);
      var current := MoveOne(s, tempStack);
      HasIdStep(popped, current, id);
      ReverseSnoc(popped, current);
      if current.matchID == id {
        found := true;
      }
      popped := popped + [current];
      empty := s.IsEmpty();
    }
    TakeAll(h, popped, s.Contents);
  }

  /** The filtering loop of addMatch: pops every entry of s and pushes the
      ones whose ID differs onto a new stack, which receives them in reverse. */
  method FilterOut(s: Stack<Match>, id: int) returns (tempStack2: Stack<Match>)
    requires s.Valid()
    modifies s
    ensures fresh(tempStack2) && s.Valid() && tempStack2.Valid() && s.Contents == []
    ensures tempStack2.Contents == Reverse(Without(old(s.Contents), id))
  {
    ghost var h := s.Contents;
    tempStack2 := new Stack<Match>();
    var empty := s.IsEmpty();
    ghost var popped: seq<Match> := [];
    ghost var kept: seq<Match> := [];
    while !empty
      invariant s.Valid() && tempStack2.Valid()
      invariant h == popped + s.Contents
      invariant kept == Without(popped, id) && tempStack2.Contents == Reverse(kept)
      invariant empty <==> s.Contents == []
      decreases |s.Contents|
    {
      PopStep(h, popped, s.Contents);
      var r := s.Pop();
      var current := r.value;
      WithoutStep(popped, current, id, kept);
      if current.matchID != id {
        tempStack2.Push(current);
        kept := kept + [current];
      }
      popped := popped + [current];
      empty := s.IsEmpty();
    }
    TakeAll(h, popped, s.Contents);
  }

  lemma PrefixOf<T>(h: seq<T>, shown: seq<T>, rest: seq<T>)
    requires h == shown + rest
    ensures shown == h[..|shown|] && rest == h[|shown|..]
  {
  }

  /** How many entries a display loop bounded by count can show at most. */
  function Requested(count: int): nat {
    if count <= 0 then 0 else count
  }

  /** The display loop of viewRecentMatches: pops entries of s onto a new
      stack and lists them, while s is not empty and fewer than count have
      been shown. */
  method PopUpTo(s: Stack<Match>, count: int) returns (shown: seq<Match>, tempStack: Stack<Match>)
    requires s.Valid()
    modifies s
    ensures fresh(tempStack) && s.Valid() && tempStack.Valid()
    ensures shown == Recent(old(s.Contents), Requested(count)) && old(s.Contents) == shown + s.Contents
    ensures tempStack.Contents == Reverse(shown)
  {
    ghost var h := s.Contents;
    tempStack := new Stack<Match>();
    shown := [];
    var displayed := 0;
    var empty := s.IsEmpty();
    while !empty && displayed < count
      invariant s.Valid() && tempStack.Valid()
      invariant displayed == |shown| <= Requested(count)
      invariant h == shown + s.Contents && tempStack.Contents == Reverse(shown)
      invariant empty <==> s.Contents == []
      decreases |s.Contents|
    {
      PopStep(h, shown, s.Contents);
      var current := MoveOne(s, tempStack);
      ReverseSnoc(shown, current);
      shown := shown + [current];
      displayed := displayed + 1;
      empty := s.IsEmpty();
    }
    PrefixOf(h, shown, s.Contents);
  }

  /** One pass of the search loop: pops the top entry of s onto tempStack,
      and onto resultStack too when it involves playerName. */
  method HitStep(s: Stack<Match>, tempStack: Stack<Match>, resultStack: Stack<Match>, playerName: string)
    returns (current: Match)
    requires s.Valid() && tempStack.Valid() && resultStack.Valid() && s.Contents != []
    requires s != tempStack && s != resultStack && tempStack != resultStack
    modifies s, tempStack, resultStack
    ensures s.Valid() && tempStack.Valid() && resultStack.Valid()
    ensures current == old(s.Contents)[0] && s.Contents == old(s.Contents)[1..]
    ensures tempStack.Contents == [current] + old(tempStack.Contents)
    ensures Involves(current, playerName) ==> resultStack.Contents == [current] + old(resultStack.Contents)
    ensures !Involves(current, playerName) ==> resultStack.Contents == old(resultStack.Contents)
  {
    var p := s.Pop();
    current := p.value;
    if Involves(current, playerName) {
      resultStack.Push(current);
    }
    tempStack.Push(current);
  }

  /** The search loop of searchMatchesByPlayer: pops all of s onto a new
      stack and pushes every entry involving playerName onto a result stack. */
  method ScanHits(s: Stack<Match>, playerName: string) returns (tempStack: Stack<Match>, resultStack: Stack<Match>)
    requires s.Valid()
    modifies s
    ensures fresh(tempStack) && fresh(resultStack) && tempStack != resultStack
    ensures s.Valid() && tempStack.Valid() && resultStack.Valid() && s.Contents == []
    ensures tempStack.Contents == Reverse(old(s.Contents))
    ensures resultStack.Contents == Reverse(Hits(old(s.Contents), playerName))
  {
    ghost var h := s.Contents;
    tempStack := new Stack<Match>();
    resultStack := new Stack<Match>();
    var empty := s.IsEmpty();
    ghost var popped: seq<Match> := [];
    ghost var hits: seq<Match> := [];
    while !empty
      invariant s.Valid() && tempStack.Valid() && resultStack.Valid()
      invariant h == popped + s.Contents && tempStack.Contents == Reverse(popped)
      invariant hits == Hits(popped, playerName) && resultStack.Contents == Reverse(hits)
      invariant empty <==> s.Contents == []
      decreases |s.Contents|
    {
      PopStep(h, popped, s.Contents);
      var current := HitStep(s, tempStack, resultStack, playerName);
      ReverseSnoc(popped, current);
      HitsStep(popped, current, playerName, hits);
      if Involves(current, playerName) {
        hits := hits + [current];
      }
      popped := popped + [current];
      empty := s.IsEmpty();
    }
    TakeAll(h, popped, s.Contents);
  }

  /** The writing loop of saveToFile: pops all of s onto a new stack and
      produces one row per entry, top first, after the header. */
  method WriteRows(s: Stack<Match>) returns (lines: seq<string>, tempStack: Stack<Match>)
    requires s.Valid()
    modifies s
    ensures fresh(tempStack) && s.Valid() && tempStack.Valid() && s.Contents == []
    ensures tempStack.Contents == Reverse(old(s.Contents))
    ensures lines == SaveLines(old(s.Contents))
  {
    ghost var h := s.Contents;
    lines := [Header];
    tempStack := new Stack<Match>();
    var empty := s.IsEmpty();
    ghost var popped: seq<Match> := [];
    while !empty
      invariant s.Valid() && tempStack.Valid()
      invariant h == popped + s.Contents && tempStack.Contents == Reverse(popped)
      invariant lines == [Header] + Rows(popped)
      invariant empty <==> s.Contents == []
      decreases |s.Contents|
    {
      PopStep(h, popped, s.Contents);
      var current := MoveOne(s, tempStack);
      ReverseSnoc(popped, current);
      RowsStep(popped, current);
      lines := lines + [RowText(current)];
      popped := popped + [current];
      empty := s.IsEmpty();
    }
    TakeAll(h, popped, s.Contents);
  }

  class MatchHistory {
    const matchStack: Stack<Match>

    ghost predicate Valid()
      reads this, matchStack
    {
      matchStack.Valid()
    }

    /** The recorded matches, most recent first. */
    ghost function Matches(): seq<Match>
      reads this, matchStack
    {
      matchStack.Contents
    }

    constructor ()
      ensures Valid() && Matches() == [] && fresh(matchStack)
    {
      matchStack := new Stack<Match>();
    }

    /** The duplicate scan of addMatch; the history is pushed back. */
    method FindDuplicate(id: int) returns (isDuplicate: bool)
      requires Valid()
      modifies matchStack
      ensures Valid() && Matches() == old(Matches())
      ensures isDuplicate <==> HasId(old(Matches()), id)
    {
      ghost var h := matchStack.Contents;
      var tempStack;
      ghost var popped;
      isDuplicate, tempStack, popped := ScanUntilId(matchStack, id);
      ghost var rest := matchStack.Contents;
      MoveAll(tempStack, matchStack);
      Restored(h, popped, rest);
    }

    /** The replacing pass of addMatch: every entry whose ID differs is
        pushed back, in its order. */
    method RemoveId(id: int)
      requires Valid()
      modifies matchStack
      ensures Valid() && Matches() == Without(old(Matches()), id)
    {
      ghost var h := matchStack.Contents;
      var tempStack2 := FilterOut(matchStack, id);
      MoveAll(tempStack2, matchStack);
      Unreversed(Without(h, id), []);
    }

    /** addMatch, with the answer to "replace the existing match?" as a
        parameter. A new ID goes on top; a duplicate is either replaced (every
        entry with that ID goes, the new match goes on top) or left alone. */
    method AddMatch(entry: Match, replace: bool)
      requires Valid()
      modifies matchStack
      ensures Valid()
      ensures !HasId(old(Matches()), entry.matchID) ==> Matches() == [entry] + old(Matches())
      ensures HasId(old(Matches()), entry.matchID) && replace ==>
                Matches() == [entry] + Without(old(Matches()), entry.matchID)
      ensures HasId(old(Matches()), entry.matchID) && !replace ==> Matches() == old(Matches())
    {
      var isDuplicate := FindDuplicate(entry.matchID);
      if !isDuplicate {
        matchStack.Push(entry);
      } else if replace {
        RemoveId(entry.matchID);
        matchStack.Push(entry);
      }
    }

    /** viewRecentMatches: the entries it displays, or the message it prints
        instead. The history is left as it was. */
    method ViewRecentMatches(count: int) returns (r: Result<seq<Match>>)
      requires Valid()
      modifies matchStack
      ensures Valid() && Matches() == old(Matches())
      ensures old(Matches()) == [] ==> r == Err("No matches in history.")
      ensures old(Matches()) != [] && count <= 0 ==> r == Err("Error: Count must be positive.")
      ensures old(Matches()) != [] && count > 0 ==> r == Ok(Recent(old(Matches()), count))
    {
      ghost var h := matchStack.Contents;
      var empty := matchStack.IsEmpty();
      if empty {
        return Err("No matches in history.");
      }
      if count <= 0 {
        return Err("Error: Count must be positive.");
      }
      var total := matchStack.GetSize();
      var limit := count;
      if limit > total {
        limit := total;
      }
      var shown, tempStack := PopUpTo(matchStack, limit);
      assert Recent(h, limit) == Recent(h, count);
      ghost var rest := matchStack.Contents;
      MoveAll(tempStack, matchStack);
      Restored(h, shown, rest);
      return Ok(shown);
    }

    /** The search pass of searchMatchesByPlayer: every matching entry is
        pushed onto a result stack, and the history is pushed back. */
    method CollectHits(playerName: string) returns (resultStack: Stack<Match>)
      requires Valid()
      modifies matchStack
      ensures Valid() && Matches() == old(Matches())
      ensures fresh(resultStack) && resultStack.Valid()
      ensures resultStack.Contents == Reverse(Hits(old(Matches()), playerName))
    {
      ghost var h := matchStack.Contents;
      var tempStack;
      tempStack, resultStack := ScanHits(matchStack, playerName);
      MoveAll(tempStack, matchStack);
      Unreversed(h, []);
    }

    /** searchMatchesByPlayer: the matches whose either player's name holds
        playerName as a substring, ignoring case, most recent first; or the
        message printed instead. The history is left as it was. */
    method SearchMatchesByPlayer(playerName: string) returns (r: Result<seq<Match>>)
      requires Valid()
      modifies matchStack
      ensures Valid() && Matches() == old(Matches())
      ensures old(Matches()) == [] ==> r == Err("No matches in history.")
      ensures old(Matches()) != [] && playerName == [] ==> r == Err("Error: Player name cannot be empty.")
      ensures old(Matches()) != [] && playerName != [] ==> r == Ok(Hits(old(Matches()), playerName))
    {
      var empty := matchStack.IsEmpty();
      if empty {
        return Err("No matches in history.");
      }
      if playerName == [] {
        return Err("Error: Player name cannot be empty.");
      }
      var resultStack := CollectHits(playerName);
      var displayStack := new Stack<Match>();
      MoveAll(resultStack, displayStack);
      Unreversed(Hits(old(Matches()), playerName), []);
      var shown := PopAll(displayStack);
      return Ok(shown);
    }

    /** searchMatchByID: whether some match has the ID; false on an empty
        history and on an ID that is not positive. The history is left as it was. */
    method SearchMatchByID(matchID: int) returns (found: bool)
      requires Valid()
      modifies matchStack
      ensures Valid() && Matches() == old(Matches())
      ensures found <==> IsValidMatchID(matchID) && HasId(old(Matches()), matchID)
    {
      ghost var h := matchStack.Contents;
      var empty := matchStack.IsEmpty();
      if empty || matchID <= 0 {
        return false;
      }
      var tempStack;
      found, tempStack := ScanAllId(matchStack, matchID);
      MoveAll(tempStack, matchStack);
      Unreversed(h, []);
    }

    /** saveToFile, with the lines written as a result and whether the file
        could be opened for writing as a parameter. The history is left as it was. */
    method SaveToFile(filename: string, writable: bool) returns (ok: bool, lines: seq<string>)
      requires Valid()
      modifies matchStack
      ensures Valid() && Matches() == old(Matches())
      ensures ok <==> filename != [] && writable
      ensures ok ==> lines == SaveLines(old(Matches()))
      ensures !ok ==> lines == []
    {
      ghost var h := matchStack.Contents;
      if filename == [] || !writable {
        return false, [];
      }
      var tempStack;
      lines, tempStack := WriteRows(matchStack);
      MoveAll(tempStack, matchStack);
      Unreversed(h, []);
      ok := true;
    }

    /** loadFromFile, with the file's lines as a parameter (None when it cannot
        be opened). Once the file is open the history is cleared; a missing or
        wrong header then fails the load, and otherwise every row that parses
        is pushed in file order. The load fails when no row does, leaving the
        history empty. */
    method LoadFromFile(filename: string, file: Option<seq<string>>) returns (ok: bool)
      requires Valid()
      modifies matchStack
      ensures Valid()
      ensures filename == [] || file.None? ==> !ok && Matches() == old(Matches())
      ensures filename != [] && file.Some? && (file.value == [] || !HeaderOk(file.value[0])) ==>
                !ok && Matches() == []
      ensures filename != [] && file.Some? && file.value != [] && HeaderOk(file.value[0]) ==>
                Matches() == Reverse(ParseRows(file.value[1..])) && (ok <==> ParseRows(file.value[1..]) != [])
    {
      if filename == [] || file.None? {
        return false;
      }
      var lines := file.value;
      matchStack.Clear();
      if lines == [] || !HeaderOk(lines[0]) {
        return false;
      }
      var matchesLoaded := 0;
      var k := 1;
      while k < |lines|
        invariant 1 <= k <= |lines|
        invariant matchStack.Valid() && matchStack.Contents == Reverse(ParseRows(lines[1..k]))
        invariant matchesLoaded == |ParseRows(lines[1..k])|
      {
        var line := lines[k];
        LoadStep(lines, k, ParseRow(line));
        if line != [] {
          var row := ParseRow(line);
          if row.Some? {
            matchStack.Push(row.value);
            matchesLoaded := matchesLoaded + 1;
          }
        }
        k := k + 1;
      }
      SliceToEnd(lines, 1);
      ok := matchesLoaded > 0;
    }

    /** getTotalMatches. */
    method GetTotalMatches() returns (n: int)
      requires Valid()
      ensures n == |Matches()|
    {
      n := matchStack.GetSize();
    }
  }
}

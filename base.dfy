/** Shared vocabulary: an optional value, sequence reversal, the C locale's
    character classes, std::string::find, std::to_string, std::stoi and the
    parts of std::istream that the line parsers rely on. */
module Base {

  datatype Option<T> = None | Some(value: T)

  /** The value of an operation that may throw: Err carries the exception's message. */
  datatype Result<T> = Ok(value: T) | Err(message: string)

  // ---------------------------------------------------------------------------
  // Sequences

  /** The reversal of s: the order in which a stack hands back what was pushed. */
  function Reverse<T>(s: seq<T>): (r: seq<T>)
    ensures |r| == |s|
    ensures forall i :: 0 <= i < |s| ==> r[i] == s[|s| - 1 - i]
  {
    if s == [] then [] else Reverse(s[1..]) + [s[0]]
  }

  lemma ReverseReverse<T>(s: seq<T>)
    ensures Reverse(Reverse(s)) == s
  {
    var r := Reverse(Reverse(s));
    assert |r| == |s|;
    forall i | 0 <= i < |s| ensures r[i] == s[i] {
      assert r[i] == Reverse(s)[|s| - 1 - i];
    }
  }

  lemma ReverseAppend<T>(a: seq<T>, b: seq<T>)
    ensures Reverse(a + b) == Reverse(b) + Reverse(a)
  {
    var l, r := Reverse(a + b), Reverse(b) + Reverse(a);
    assert |l| == |r|;
    forall i | 0 <= i < |l| ensures l[i] == r[i] {
      if i < |b| {
        assert r[i] == Reverse(b)[i];
      } else {
        assert r[i] == Reverse(a)[i - |b|];
      }
    }
  }

  lemma TakeOfAppend<T>(a: seq<T>, r: seq<T>, k: nat)
    requires k <= |r|
    ensures a + r[..k] == (a + r)[..|a| + k]
  {
  }

  lemma PrefixTransitive<T>(x: seq<T>, y: seq<T>, z: seq<T>)
    requires |x| <= |y| <= |z| && x == y[..|x|] && y == z[..|y|]
    ensures x == z[..|x|]
  {
  }

  lemma AppendAssoc<T>(a: seq<T>, b: seq<T>, c: seq<T>)
    ensures (a + b) + c == a + (b + c)
  {
  }

  /** When s holds r from position c, its first c + k elements are its first c
      followed by the first k of r. */
  lemma TakeOfSlice<T>(s: seq<T>, c: nat, r: seq<T>, k: nat)
    requires c + |r| <= |s| && s[c..c + |r|] == r && k <= |r|
    ensures s[..c + k] == s[..c] + r[..k]
  {
    assert forall t :: c <= t < c + k ==> s[t] == r[t - c];
  }

  /** A prefix a + r of s holds r from position |a|. */
  lemma SliceOfPrefix<T>(s: seq<T>, a: seq<T>, r: seq<T>, b: seq<T>)
    requires b == a + r && |b| <= |s| && b == s[..|b|]
    ensures |a| + |r| <= |s| && s[|a|..|a| + |r|] == r
  {
    assert s[|a|..|a| + |r|] == b[|a|..];
  }

  lemma SplitAt<T>(s: seq<T>, k: nat)
    requires k < |s|
    ensures s == (s[..k] + [s[k]]) + s[k + 1..]
  {
    assert s == s[..k] + s[k..];
    assert s[k..] == [s[k]] + s[k + 1..];
  }

  lemma TakeSnoc<T>(s: seq<T>, c: nat)
    requires c < |s|
    ensures s[..c + 1] == s[..c] + [s[c]]
  {
  }

  // ---------------------------------------------------------------------------
  // Characters of the "C" locale

  /** isspace: space, \t, \n, \v, \f, \r. */
  predicate IsSpace(c: char) {
    c == ' ' || c == '\t' || c == '\n' || c == '\r' || c as int == 11 || c as int == 12
  }

  predicate IsDigit(c: char) { '0' <= c <= '9' }

  predicate IsAlpha(c: char) { 'a' <= c <= 'z' || 'A' <= c <= 'Z' }

  /** tolower: maps 'A'..'Z' to 'a'..'z' and leaves every other character alone. */
  function ToLower(c: char): (r: char)
    ensures 'A' <= c <= 'Z' ==> r as int == c as int + 32
    ensures !('A' <= c <= 'Z') ==> r == c
    ensures !('A' <= r <= 'Z')
  {
    if 'A' <= c <= 'Z' then (c as int + 32) as char else c
  }

  /** The string with tolower applied to every character. */
  function Lower(s: string): (r: string)
    ensures |r| == |s|
    ensures forall i :: 0 <= i < |s| ==> r[i] == ToLower(s[i])
  {
    seq(|s|, i requires 0 <= i < |s| => ToLower(s[i]))
  }

  lemma LowerIdempotent(s: string)
    ensures Lower(Lower(s)) == Lower(s)
  {
    var l := Lower(s);
    assert Lower(l) == l by {
      forall i | 0 <= i < |l| ensures Lower(l)[i] == l[i] {
        assert !('A' <= l[i] <= 'Z');
      }
    }
  }

  // ---------------------------------------------------------------------------
  // std::string::find

  /** needle occurs in hay starting at position i. */
  predicate OccursAt(hay: string, needle: string, i: nat) {
    i + |needle| <= |hay| && hay[i..i + |needle|] == needle
  }

  /** hay.find(needle) != npos, computed by trying every start position in turn. */
  function Contains(hay: string, needle: string): bool
    decreases |hay|
  {
    if |needle| > |hay| then false
    else if hay[..|needle|] == needle then true
    else Contains(hay[1..], needle)
  }

  /** An occurrence past the first position is an occurrence in the tail. */
  lemma OccursInTail(hay: string, needle: string, i: nat)
    requires 0 < i && hay != []
    ensures OccursAt(hay, needle, i) <==> OccursAt(hay[1..], needle, i - 1)
  {
    if i + |needle| <= |hay| {
      assert hay[1..][i - 1..i - 1 + |needle|] == hay[i..i + |needle|];
    }
  }

  lemma {:induction false} ContainsIsOccurrence(hay: string, needle: string)
    ensures Contains(hay, needle) <==> exists i: nat :: OccursAt(hay, needle, i)
    decreases |hay|
  {
    if |needle| > |hay| {
      assert forall i: nat :: !OccursAt(hay, needle, i);
    } else if hay[..|needle|] == needle {
      assert OccursAt(hay, needle, 0);
    } else {
      ContainsIsOccurrence(hay[1..], needle);
      if Contains(hay[1..], needle) {
        var i: nat :| OccursAt(hay[1..], needle, i);
        OccursInTail(hay, needle, i + 1);
      } else {
        forall i: nat ensures !OccursAt(hay, needle, i) {
          if i > 0 {
            OccursInTail(hay, needle, i);
          }
        }
      }
    }
  }

  /** Position of the first c in s, or |s| when s has none (npos). */
  function IndexOf(s: string, c: char): (k: nat)
    ensures k <= |s|
    ensures k < |s| ==> s[k] == c
    ensures forall j :: 0 <= j < k ==> s[j] != c
  {
    if s == [] then 0 else if s[0] == c then 0 else 1 + IndexOf(s[1..], c)
  }

  // ---------------------------------------------------------------------------
  // std::to_string and std::stoi on a 32-bit int

  const IntMin: int := -0x8000_0000
  const IntMax: int := 0x7fff_ffff

  function DigitChar(d: nat): (c: char)
    requires d < 10
    ensures IsDigit(c)
  {
    ('0' as int + d) as char
  }

  function DigitValue(c: char): (d: nat)
    requires IsDigit(c)
    ensures d < 10
  {
    c as int - '0' as int
  }

  /** Decimal digits of n, most significant first, no leading zeros. */
  function NatToString(n: nat): (s: string)
    ensures |s| >= 1
    ensures forall i :: 0 <= i < |s| ==> IsDigit(s[i])
  {
    if n < 10 then [DigitChar(n)] else NatToString(n / 10) + [DigitChar(n % 10)]
  }

  /** std::to_string of an int: a '-' precedes the digits of a negative number. */
  function IntToString(n: int): (s: string)
    ensures n >= 0 ==> s == NatToString(n)
    ensures n < 0 ==> s == "-" + NatToString(-n)
  {
    if n < 0 then "-" + NatToString(-n) else NatToString(n)
  }

  /** Value of a string of decimal digits, read most significant first. */
  function DigitsValue(s: string): nat
    requires forall i :: 0 <= i < |s| ==> IsDigit(s[i])
  {
    if s == [] then 0 else DigitsValue(s[..|s| - 1]) * 10 + DigitValue(s[|s| - 1])
  }

  function SkipSpaces(s: string): (t: string)
    ensures |t| <= |s| && t == s[|s| - |t|..]
    ensures t != [] ==> !IsSpace(t[0])
  {
    if s != [] && IsSpace(s[0]) then SkipSpaces(s[1..]) else s
  }

  /** Length of the run of digits that s starts with. */
  function DigitRun(s: string): (k: nat)
    ensures k <= |s|
    ensures forall i :: 0 <= i < k ==> IsDigit(s[i])
    ensures k < |s| ==> !IsDigit(s[k])
  {
    if s != [] && IsDigit(s[0]) then 1 + DigitRun(s[1..]) else 0
  }

  /** std::stoi(s): leading white space, an optional sign and at least one
      digit; parsing stops at the first non-digit. None stands for the
      exceptions: invalid_argument (no digits) and out_of_range (the value
      does not fit an int). */
  function Stoi(s: string): Option<int> {
    var t := SkipSpaces(s);
    if t != [] && t[0] == '-' then SignedDigits(true, t[1..])
    else if t != [] && t[0] == '+' then SignedDigits(false, t[1..])
    else SignedDigits(false, t)
  }

  /** The digit run that u starts with, negated when neg, if it fits an int. */
  function SignedDigits(neg: bool, u: string): Option<int> {
    var k := DigitRun(u);
    if k == 0 then None
    else
      var v: int := if neg then -(DigitsValue(u[..k]) as int) else DigitsValue(u[..k]);
      if IntMin <= v <= IntMax then Some(v) else None
  }

  lemma {:induction false} DigitsOfNat(n: nat)
    ensures DigitsValue(NatToString(n)) == n
  {
    var s := NatToString(n);
    if n >= 10 {
      DigitsOfNat(n / 10);
      assert s[..|s| - 1] == NatToString(n / 10);
    }
  }

  lemma SignedDigitsOfNat(neg: bool, d: nat)
    requires if neg then d <= -IntMin else d <= IntMax
    ensures SignedDigits(neg, NatToString(d)) == Some(if neg then -(d as int) else d as int)
  {
    var u := NatToString(d);
    assert DigitRun(u) == |u|;
    assert u[..|u|] == u;
    DigitsOfNat(d);
  }

  /** std::stoi of a string of digits is their value, when it fits an int. */
  lemma StoiOfDigits(u: string)
    requires u != [] && forall i :: 0 <= i < |u| ==> IsDigit(u[i])
    requires DigitsValue(u) <= IntMax
    ensures Stoi(u) == Some(DigitsValue(u) as int)
  {
    assert SkipSpaces(u) == u;
    assert DigitRun(u) == |u| && u[..|u|] == u;
  }

  /** std::stoi reads back what std::to_string wrote, for every int. */
  lemma StoiOfIntToString(n: int)
    requires IntMin <= n <= IntMax
    ensures Stoi(IntToString(n)) == Some(n)
  {
    var s := IntToString(n);
    assert SkipSpaces(s) == s;
    if n < 0 {
      assert s[1..] == NatToString(-n);
      SignedDigitsOfNat(true, -n);
    } else {
      SignedDigitsOfNat(false, n);
    }
  }

  // ---------------------------------------------------------------------------
  // std::istream, as far as the line parsers use it

  /** The unread characters and the eof and fail flags of a stream. */
  datatype Stream = Stream(rest: string, eof: bool, fail: bool) {
    predicate Good() { !eof && !fail }
  }

  /** A std::stringstream over one line. */
  function Open(line: string): Stream {
    Stream(line, false, false)
  }

  /** std::getline(is, tok, delim). When the stream is no longer good the
      sentry fails: failbit is set and tok keeps its old value. Otherwise tok
      is cleared and filled up to the delimiter, which is consumed; reaching
      the end sets eofbit, and failbit as well when nothing was extracted. */
  function GetLine(st: Stream, delim: char, tok: string): (r: (Stream, string))
    ensures !st.Good() ==> r == (st.(fail := true), tok)
    ensures st.Good() && st.rest == [] ==> r.0.fail && r.1 == []
    ensures st.Good() && st.rest != [] ==> !r.0.fail && r.1 == st.rest[..IndexOf(st.rest, delim)]
    ensures st.Good() && st.rest != [] && IndexOf(st.rest, delim) < |st.rest| ==>
              r.0 == Open(st.rest[IndexOf(st.rest, delim) + 1..])
  {
    if !st.Good() then (st.(fail := true), tok)
    else if st.rest == [] then (Stream([], true, true), [])
    else
      var k := IndexOf(st.rest, delim);
      if k < |st.rest| then (Open(st.rest[k + 1..]), st.rest[..k])
      else (Stream([], true, false), st.rest)
  }

  /** is >> std::ws: discards leading white space; reaching the end sets eofbit
      only. A stream that is not good gets failbit from the sentry. */
  function SkipWs(st: Stream): (r: Stream)
    ensures st.Good() ==> !r.fail && r.rest == SkipSpaces(st.rest)
  {
    if !st.Good() then st.(fail := true)
    else
      var t := SkipSpaces(st.rest);
      if t == [] then Stream([], true, false) else Stream(t, false, false)
  }

  /** getline(ss, tok, c) on a line that has c right after a. */
  lemma GetLineField(a: string, rest: string, c: char, tok: string)
    requires c !in a
    ensures GetLine(Open(a + [c] + rest), c, tok) == (Open(rest), a)
  {
    var s := a + [c] + rest;
    var k := IndexOf(s, c);
    assert s[|a|] == c;
    assert forall j :: 0 <= j < |a| ==> s[j] == a[j];
    assert k == |a|;
    assert s[..k] == a;
    assert s[k + 1..] == rest;
  }

  /** getline(ss, tok) on a last field without a line break. */
  lemma GetLineLast(s: string, tok: string)
    requires s != [] && '\n' !in s
    ensures GetLine(Open(s), '\n', tok) == (Stream([], true, false), s)
  {
    var k := IndexOf(s, '\n');
    assert k == |s|;
    assert s[..k] == s;
  }

  /** The separator of the text files' fields. */
  const Sep: string := ", "

  /** A field, the separator and what follows. */
  function Field(a: string, rest: string): string {
    a + Sep + rest
  }

  /** Reading a field of a saved row: up to the comma, and the rest after
      the space that follows it. */
  lemma FieldRead(a: string, rest: string, tok: string)
    requires ',' !in a
    ensures GetLine(Open(a + Sep + rest), ',', tok) == (Open(" " + rest), a)
  {
    assert a + Sep + rest == a + [','] + (" " + rest);
    GetLineField(a, " " + rest, ',', tok);
  }

  /** A file read line by line after its header line: the rows that follow
      the header; a file without lines has none. */
  function DataRows(lines: seq<string>): seq<string> {
    if lines == [] then [] else lines[1..]
  }
}

/** Text helpers shared by the declaration parser, the value differ and the compiler:
    JavaScript's whitespace class, `split(/\s+/)`, `join(' ')`, trimming and the
    decimal rendering of a step counter. */
module Text {

  datatype Option<T> = None | Some(value: T)

  /** JavaScript's `\s`: the ECMAScript WhiteSpace and LineTerminator characters. */
  predicate IsSpace(c: char) {
    c == ' ' || c == '\t' || c == '\n' || c == '\r' || c == '\U{0B}' || c == '\U{0C}'
    || c == '\U{A0}' || c == '\U{1680}' || ('\U{2000}' <= c <= '\U{200A}')
    || c == '\U{2028}' || c == '\U{2029}' || c == '\U{202F}' || c == '\U{205F}'
    || c == '\U{3000}' || c == '\U{FEFF}'
  }

  predicate SpaceFree(s: string) {
    forall i :: 0 <= i < |s| ==> !IsSpace(s[i])
  }

  /** Index of the first whitespace character of `s`, or `|s|` when there is none. */
  function FirstSpace(s: string): (i: nat)
    ensures i <= |s| && SpaceFree(s[..i])
    ensures i < |s| ==> IsSpace(s[i])
  {
    if s == [] then 0
    else if IsSpace(s[0]) then 0
    else
      var j := FirstSpace(s[1..]);
      assert s[..j + 1] == [s[0]] + s[1..][..j];
      j + 1
  }

  /** End of the whitespace run that starts at `i`. */
  function SpaceRunEnd(s: string, i: nat): (j: nat)
    requires i <= |s|
    ensures i <= j <= |s|
    ensures j < |s| ==> !IsSpace(s[j])
    ensures forall k :: i <= k < j ==> IsSpace(s[k])
    decreases |s| - i
  {
    if i < |s| && IsSpace(s[i]) then SpaceRunEnd(s, i + 1) else i
  }

  /** `s.split(/\s+/)`: the pieces between maximal whitespace runs. A leading (trailing)
      run yields an empty first (last) piece, and the empty string yields `[""]`. */
  function SplitWs(s: string): (r: seq<string>)
    ensures |r| >= 1
    ensures forall k :: 0 <= k < |r| ==> SpaceFree(r[k])
    decreases |s|
  {
    var i := FirstSpace(s);
    if i == |s| then [s] else [s[..i]] + SplitWs(s[SpaceRunEnd(s, i)..])
  }

  /** `ts.join(' ')`. */
  function Join(ts: seq<string>): string {
    if |ts| == 0 then ""
    else if |ts| == 1 then ts[0]
    else ts[0] + " " + Join(ts[1..])
  }

  predicate IsToken(t: string) {
    t != "" && SpaceFree(t)
  }

  predicate AllTokens(ts: seq<string>) {
    forall k :: 0 <= k < |ts| ==> IsToken(ts[k])
  }

  lemma JoinStartsWithFirst(ts: seq<string>)
    requires |ts| >= 1 && IsToken(ts[0])
    ensures |Join(ts)| >= |ts[0]| && Join(ts)[..|ts[0]|] == ts[0]
  {
  }

  /** Joining non-empty space-free tokens with single spaces and splitting the result on
      whitespace gives the tokens back. */
  lemma {:induction false} SplitJoinRoundTrip(ts: seq<string>)
    requires |ts| >= 1 && AllTokens(ts)
    ensures SplitWs(Join(ts)) == ts
  {
    var t0 := ts[0];
    if |ts| == 1 {
      assert FirstSpace(t0) == |t0|;
    } else {
      var rest := Join(ts[1..]);
      assert Join(ts) == t0 + " " + rest;
      JoinStartsWithFirst(ts[1..]);
      assert rest[0] == ts[1][0];
      SplitAfterToken(t0, rest);
      SplitJoinRoundTrip(ts[1..]);
    }
  }

  /** A space-free token, one space and a text that starts with no whitespace: the
      token is the first piece and the text is split on its own. */
  lemma SplitAfterToken(t: string, rest: string)
    requires SpaceFree(t) && rest != [] && !IsSpace(rest[0])
    ensures SplitWs(t + " " + rest) == [t] + SplitWs(rest)
  {
    var s := t + " " + rest;
    assert s[..|t|] == t;
    FirstSpaceOfPrefix(t, s);
    assert s[|t| + 1] == rest[0];
    assert SpaceRunEnd(s, |t| + 1) == |t| + 1;
    assert SpaceRunEnd(s, |t|) == |t| + 1;
    assert s[|t| + 1..] == rest;
  }

  lemma {:induction false} FirstSpaceOfPrefix(t: string, s: string)
    requires SpaceFree(t) && |s| > |t| && s[..|t|] == t && IsSpace(s[|t|])
    ensures FirstSpace(s) == |t|
  {
    if t != [] {
      assert s[0] == t[0];
      assert s[1..][..|t| - 1] == t[1..];
      FirstSpaceOfPrefix(t[1..], s[1..]);
    }
  }

  function TrimLeft(s: string): (r: string)
    ensures |r| <= |s|
  {
    if |s| > 0 && IsSpace(s[0]) then TrimLeft(s[1..]) else s
  }

  function TrimRight(s: string): (r: string)
    ensures |r| <= |s|
  {
    if |s| > 0 && IsSpace(s[|s| - 1]) then TrimRight(s[..|s| - 1]) else s
  }

  /** Whitespace stripped from both ends. */
  function Trim(s: string): string {
    TrimRight(TrimLeft(s))
  }

  /** Index of the first occurrence of `c` in `s`. */
  function IndexOf(s: string, c: char): (r: Option<nat>)
    ensures r.Some? ==> r.value < |s| && s[r.value] == c && c !in s[..r.value]
    ensures r.None? ==> c !in s
  {
    if s == [] then None
    else if s[0] == c then Some(0)
    else match IndexOf(s[1..], c)
      case None => None
      case Some(i) =>
        assert s[..i + 1] == [s[0]] + s[1..][..i];
        Some(i + 1)
  }

  /** A prefix free of `c` only shifts the index of the first `c`. */
  lemma {:induction false} IndexOfSkips(x: string, y: string, c: char)
    requires c !in x
    ensures IndexOf(x + y, c) == if IndexOf(y, c).None? then None else Some(|x| + IndexOf(y, c).value)
  {
    if x != [] {
      assert (x + y)[0] == x[0] && (x + y)[1..] == x[1..] + y;
      IndexOfSkips(x[1..], y, c);
    } else {
      assert x + y == y;
    }
  }

  /** The prefix of `s` before the first `c` (all of `s` when there is none). */
  function TakeUntil(s: string, c: char): (r: string)
    ensures c !in r
    ensures IndexOf(s, c).Some? ==> r == s[..IndexOf(s, c).value]
    ensures IndexOf(s, c).None? ==> r == s
  {
    match IndexOf(s, c)
    case None => s
    case Some(i) => s[..i]
  }

  /** Text free of `c` followed by nothing or by a `c` is cut back to that text. */
  lemma TakeUntilFree(x: string, y: string, c: char)
    requires c !in x
    requires y == [] || y[0] == c
    ensures TakeUntil(x + y, c) == x
  {
    IndexOfSkips(x, y, c);
    if y == [] {
      assert x + y == x;
    } else {
      assert IndexOf(y, c) == Some(0);
      assert (x + y)[..|x|] == x;
    }
  }

  predicate IsDigit(c: char) {
    '0' <= c <= '9'
  }

  function DigitChar(d: nat): (c: char)
    requires d < 10
    ensures IsDigit(c)
  {
    ('0' as int + d) as char
  }

  /** `'' + n` for a non-negative integer: its decimal digits, no leading zeros. */
  function NatToString(n: nat): (r: string)
    ensures |r| >= 1 && forall i :: 0 <= i < |r| ==> IsDigit(r[i])
  {
    if n < 10 then [DigitChar(n)] else NatToString(n / 10) + [DigitChar(n % 10)]
  }

  predicate IsHexDigit(c: char) {
    '0' <= c <= '9' || 'a' <= c <= 'f' || 'A' <= c <= 'F'
  }

  predicate IsLowerHexDigit(c: char) {
    '0' <= c <= '9' || 'a' <= c <= 'f'
  }

  predicate AllHex(s: string) {
    forall i :: 0 <= i < |s| ==> IsHexDigit(s[i])
  }

  /** The value of one hexadecimal digit, either case. */
  function HexValue(c: char): (v: nat)
    requires IsHexDigit(c)
    ensures v < 16
  {
    if '0' <= c <= '9' then c as int - '0' as int
    else if 'a' <= c <= 'f' then c as int - 'a' as int + 10
    else c as int - 'A' as int + 10
  }

  /** The lower-case hexadecimal digit for `d`. */
  function HexDigitChar(d: nat): (c: char)
    requires d < 16
    ensures IsLowerHexDigit(c) && HexValue(c) == d
  {
    if d < 10 then ('0' as int + d) as char else ('a' as int + d - 10) as char
  }
}

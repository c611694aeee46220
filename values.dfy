/** The value differ: pairs the whitespace-separated tokens of two values of one
    property and turns every token that differs into interpolatable components, a
    numeric token into one, a `#rrggbb` colour token (section 4.2.1 of CSS Color Module
    Level 3) into one per differing channel. */
module Values {
  import opened Text

  /** A JavaScript number as the differ produces it: `parseInt` of a channel that holds no
      hex digit is NaN. */
  datatype Number = Finite(val: real) | NaN

  function Minus(a: Number, b: Number): Number {
    if a.Finite? && b.Finite? then Finite(a.val - b.val) else NaN
  }

  /** Which formatter renders the component: `numToString` or `colorComponentToString`. */
  datatype Format = NumFormat | HexFormat

  /** One entry of the differ's result (`addVal`); an absent prefix or postfix is "". */
  datatype Delta = Delta(prefix: string, postfix: string, start: Number, delta: Number, to: Format)

  /** What parseAnimatedVals gives: the from-text when nothing interpolates, the deltas,
      or the TypeError thrown by `last.postfix = prefix` while there is no `last`. */
  datatype Diff = Literal(text: string) | Deltas(vals: seq<Delta>) | TypeError

  // ---------------------------------------------------------------- appendVal

  /** appendVal: `v` appended to `s` with a space between, when both are non-empty. */
  function AppendVal(s: string, v: string): string {
    if v == "" then s else (if s == "" then "" else s + " ") + v
  }

  lemma {:induction false} JoinConcat(a: seq<string>, b: seq<string>)
    requires |a| >= 1 && |b| >= 1
    ensures Join(a + b) == Join(a) + " " + Join(b)
  {
    if |a| == 1 {
      assert (a + b)[1..] == b;
    } else {
      assert (a + b)[1..] == a[1..] + b;
      JoinConcat(a[1..], b);
    }
  }

  /** Appending the text of more tokens is joining the token lists. */
  lemma AppendValJoin(a: seq<string>, b: seq<string>)
    requires AllTokens(a) && AllTokens(b)
    ensures AppendVal(Join(a), Join(b)) == Join(a + b)
  {
    if b == [] {
      assert a + b == a;
    } else if a == [] {
      assert a + b == b;
      assert Join(b) != "" by { assert IsToken(b[0]); if |b| == 1 {} else {} }
    } else {
      assert Join(b) != "" by { assert IsToken(b[0]); }
      assert Join(a) != "" by { assert IsToken(a[0]); }
      JoinConcat(a, b);
    }
  }

  // ---------------------------------------------------------------- hex channels

  /** `n.toString(16)` for a non-negative integer. */
  function ToHex(n: nat): (r: string)
    ensures |r| >= 1 && r[|r| - 1] == HexDigitChar(n % 16)
  {
    if n < 16 then [HexDigitChar(n)] else ToHex(n / 16) + [HexDigitChar(n % 16)]
  }

  /** `Math.round`: the nearest integer, halves rounded up. */
  function Round(x: real): int {
    (x + 0.5).Floor
  }

  /** colorComponentToString: the last two characters of `'0' + Math.round(v).toString(16)`. */
  function ColorComponentToString(v: real): (r: string)
    ensures |r| == 2
  {
    var n := Round(v);
    var s := "0" + (if n < 0 then "-" + ToHex(-n) else ToHex(n));
    s[|s| - 2..]
  }

  lemma RoundWhole(n: int)
    ensures Round(n as real) == n
  {
  }

  lemma HexDigitsOfByte(n: int)
    requires n >= 0
    ensures (n / 16) % 16 == (n % 256) / 16
    ensures (n % 256) % 16 == n % 16
  {
    var q, r := n / 256, n % 256;
    assert n == 256 * q + r;
    assert n / 16 == 16 * q + r / 16;
  }

  /** For a non-negative integer the result is the two lower-case hex digits of n mod 256:
      zero-padded below 16, not clamped above 255. */
  lemma ColorComponentDigits(n: int)
    requires n >= 0
    ensures ColorComponentToString(n as real) == [HexDigitChar((n % 256) / 16), HexDigitChar(n % 16)]
  {
    RoundWhole(n);
    HexDigitsOfByte(n);
    var s := "0" + ToHex(n);
    if n >= 16 {
      var h := ToHex(n / 16);
      assert ToHex(n) == h + [HexDigitChar(n % 16)];
      assert s[|s| - 2..] == [h[|h| - 1], HexDigitChar(n % 16)];
    } else {
      assert s == ['0', HexDigitChar(n)];
      assert HexDigitChar(0) == '0';
    }
  }

  /** `parseInt(s, 16)`: leading whitespace, an optional sign and an optional `0x` are
      skipped, then the longest run of hex digits is read; none gives NaN. */
  function ParseInt16(s: string): Option<int> {
    var t := TrimLeft(s);
    var neg := |t| > 0 && t[0] == '-';
    var u := if |t| > 0 && (t[0] == '-' || t[0] == '+') then t[1..] else t;
    var w := if |u| >= 2 && u[0] == '0' && (u[1] == 'x' || u[1] == 'X') then u[2..] else u;
    var n := HexRunLen(w);
    var v: int := if n == 0 then 0 else HexNat(w[..n]);
    if n == 0 then None else Some(if neg then -v else v)
  }

  function HexRunLen(s: string): (n: nat)
    ensures n <= |s| && AllHex(s[..n])
    ensures n < |s| ==> !IsHexDigit(s[n])
  {
    if s != [] && IsHexDigit(s[0]) then
      var m := HexRunLen(s[1..]);
      assert s[..m + 1] == [s[0]] + s[1..][..m];
      m + 1
    else 0
  }

  /** The value of a string of hex digits. */
  function HexNat(s: string): nat
    requires AllHex(s)
  {
    if s == [] then 0 else HexNat(s[..|s| - 1]) * 16 + HexValue(s[|s| - 1])
  }

  /** Two hex digits read back as the channel value they denote. */
  lemma ParseTwoHexDigits(a: char, b: char)
    requires IsHexDigit(a) && IsHexDigit(b)
    ensures ParseInt16([a, b]) == Some(HexValue(a) * 16 + HexValue(b))
  {
    var s := [a, b];
    assert TrimLeft(s) == s;
    assert !(s[0] == '-' || s[0] == '+');
    assert !(s[1] == 'x' || s[1] == 'X');
    assert HexRunLen(s[1..]) == 1 by { assert HexRunLen(s[1..][1..]) == 0; }
    assert HexRunLen(s) == 2;
    assert s[..2] == s && s[..1] == [a] && [a][..0] == [];
    assert HexNat([a]) == HexValue(a);
    assert HexNat(s) == HexNat([a]) * 16 + HexValue(b);
  }

  /** parseInt(…, 16) of colorComponentToString gives back a non-negative integer mod
      256: the channel wraps rather than clamps above 255. */
  lemma ColorComponentRoundTrip(n: int)
    requires n >= 0
    ensures ParseInt16(ColorComponentToString(n as real)) == Some(n % 256)
  {
    var r := n % 256;
    var s := ColorComponentToString(n as real);
    assert s == [HexDigitChar(r / 16), HexDigitChar(r % 16)] by {
      ColorComponentDigits(n);
      HexDigitsOfByte(n);
    }
    ParseByteDigits(r);
  }

  /** On [0,255] parseInt(…, 16) inverts colorComponentToString. */
  lemma ChannelRoundTrip(n: int)
    requires 0 <= n <= 255
    ensures ParseInt16(ColorComponentToString(n as real)) == Some(n)
  {
    assert n % 256 == n;
    ColorComponentRoundTrip(n);
  }

  /** The two digits of a byte read back as the byte. */
  lemma ParseByteDigits(r: int)
    requires 0 <= r < 256
    ensures ParseInt16([HexDigitChar(r / 16), HexDigitChar(r % 16)]) == Some(r)
  {
    ParseTwoHexDigits(HexDigitChar(r / 16), HexDigitChar(r % 16));
  }

  /** `s.substr(k, n)`. */
  function Substr(s: string, k: nat, n: nat): (r: string)
    ensures |r| <= n
  {
    if k >= |s| then "" else if k + n <= |s| then s[k..k + n] else s[k..]
  }

  function ParseChannel(s: string): Number {
    match ParseInt16(s)
    case None => NaN
    case Some(v) => Finite(v as real)
  }

  // ---------------------------------------------------------------- numeric tokens

  predicate IsLineTerminator(c: char) {
    c == '\n' || c == '\r' || c == '\U{2028}' || c == '\U{2029}'
  }

  function DigitRunEnd(s: string, i: nat): (j: nat)
    requires i <= |s|
    ensures i <= j <= |s|
    ensures forall k :: i <= k < j ==> IsDigit(s[k])
    ensures j < |s| ==> !IsDigit(s[j])
    decreases |s| - i
  {
    if i < |s| && IsDigit(s[i]) then DigitRunEnd(s, i + 1) else i
  }

  /** Length of the match of `\d+(?:\.\d*)?|\.\d+` at `i` (all alternatives greedy),
      0 when there is none. */
  function BodyLen(s: string, i: nat): (n: nat)
    requires i <= |s|
    ensures i + n <= |s|
  {
    if i < |s| && IsDigit(s[i]) then
      var d := DigitRunEnd(s, i);
      if d < |s| && s[d] == '.' then DigitRunEnd(s, d + 1) - i else d - i
    else if i + 1 < |s| && s[i] == '.' && IsDigit(s[i + 1]) then DigitRunEnd(s, i + 1) - i
    else 0
  }

  /** Every alternative is greedy: a match is followed by no digit, and by no `.` when
      it has none. */
  lemma BodyLenGreedy(s: string, i: nat)
    requires i <= |s|
    ensures var n := BodyLen(s, i);
            n > 0 ==> (i + n == |s| || !IsDigit(s[i + n]))
                      && ('.' !in s[i..i + n] ==> i + n == |s| || s[i + n] != '.')
  {
    if i < |s| && IsDigit(s[i]) {
      var d := DigitRunEnd(s, i);
      if d < |s| && s[d] == '.' {
        assert s[i..DigitRunEnd(s, d + 1)][d - i] == '.';
      }
    } else if i + 1 < |s| && s[i] == '.' && IsDigit(s[i + 1]) {
      assert s[i..DigitRunEnd(s, i + 1)][0] == '.';
    }
  }

  /** Length of the match of `-?(?:\d+(?:\.\d*)?|\.\d+)` at `i`, 0 when there is none. */
  function NumberLenAt(s: string, i: nat): (n: nat)
    requires i <= |s|
    ensures i + n <= |s|
  {
    if i < |s| && s[i] == '-' && BodyLen(s, i + 1) > 0 then 1 + BodyLen(s, i + 1) else BodyLen(s, i)
  }

  lemma NumberLenGreedy(s: string, i: nat)
    requires i <= |s|
    ensures var n := NumberLenAt(s, i);
            n > 0 ==> (i + n == |s| || !IsDigit(s[i + n]))
                      && ('.' !in s[i..i + n] ==> i + n == |s| || s[i + n] != '.')
  {
    if i < |s| && s[i] == '-' && BodyLen(s, i + 1) > 0 {
      BodyLenGreedy(s, i + 1);
      assert s[i..i + 1 + BodyLen(s, i + 1)][1..] == s[i + 1..i + 1 + BodyLen(s, i + 1)];
    } else {
      BodyLenGreedy(s, i);
    }
  }

  /** The three groups of `/^(.*?)(-?(?:\d+(?:\.\d*)?|\.\d+))(.*)$/`. */
  datatype NumMatch = NumMatch(pre: string, num: string, post: string)

  /** The match of a number that starts at `i`: the three groups give `s` back, and the
      number is taken greedily. */
  lemma MatchAtShape(s: string, i: nat)
    requires i <= |s| && NumberLenAt(s, i) > 0
    ensures var n := NumberLenAt(s, i);
            var m := NumMatch(s[..i], s[i..i + n], s[i + n..]);
            m.pre + m.num + m.post == s && m.num != "" && |m.pre| == i
            && NumberLenAt(s, |m.pre|) == |m.num|
            && (m.post == "" || !IsDigit(m.post[0]))
            && ('.' !in m.num ==> m.post == "" || m.post[0] != '.')
  {
    var n := NumberLenAt(s, i);
    NumberLenGreedy(s, i);
    assert s[..i] + s[i..i + n] + s[i + n..] == s;
  }

  /** The lazy prefix: the match starts at the first position where a number does. */
  function MatchFrom(s: string, i: nat): (r: Option<NumMatch>)
    requires i <= |s|
    ensures r.Some? ==> r.value.pre + r.value.num + r.value.post == s && r.value.num != ""
    ensures r.Some? ==> |r.value.pre| >= i && forall j :: i <= j < |r.value.pre| ==> NumberLenAt(s, j) == 0
    ensures r.Some? ==> NumberLenAt(s, |r.value.pre|) == |r.value.num|
    ensures r.None? ==> forall j :: i <= j <= |s| ==> NumberLenAt(s, j) == 0
    ensures r.Some? ==> r.value.post == "" || !IsDigit(r.value.post[0])
    ensures r.Some? && '.' !in r.value.num ==> r.value.post == "" || r.value.post[0] != '.'
    decreases |s| - i
  {
    var n := NumberLenAt(s, i);
    if n > 0 then
      MatchAtShape(s, i);
      Some(NumMatch(s[..i], s[i..i + n], s[i + n..]))
    else if i < |s| then MatchFrom(s, i + 1)
    else None
  }

  /** `valRE.exec(s)`; `.` matches no line terminator, so a token holding one fails. */
  function MatchNumber(s: string): Option<NumMatch> {
    if exists i :: 0 <= i < |s| && IsLineTerminator(s[i]) then None else MatchFrom(s, 0)
  }

  /** `valRE.exec(s)` splits `s` at its first number, taken greedily; it fails exactly
      when `s` holds a line terminator or no number at all. */
  lemma MatchNumberSplits(s: string)
    ensures var r := MatchNumber(s);
            r.Some? ==> r.value.pre + r.value.num + r.value.post == s && r.value.num != ""
                        && (forall j :: 0 <= j < |r.value.pre| ==> NumberLenAt(s, j) == 0)
                        && (r.value.post == "" || !IsDigit(r.value.post[0]))
    ensures MatchNumber(s).None?
        <==> (exists i :: 0 <= i < |s| && IsLineTerminator(s[i])) || forall j :: 0 <= j <= |s| ==> NumberLenAt(s, j) == 0
  {
  }

  function DigitsValue(ds: string): nat {
    if ds == [] then 0
    else DigitsValue(ds[..|ds| - 1]) * 10 + (if IsDigit(ds[|ds| - 1]) then ds[|ds| - 1] as int - '0' as int else 0)
  }

  function Pow10(n: nat): (p: nat)
    ensures p >= 1
  {
    if n == 0 then 1 else 10 * Pow10(n - 1)
  }

  /** `parseFloat` of a matched number, as the exact decimal it spells. */
  function DecimalValue(t: string): real {
    if |t| > 0 && t[0] == '-' then -UnsignedValue(t[1..]) else UnsignedValue(t)
  }

  function UnsignedValue(t: string): real {
    match IndexOf(t, '.')
    case None => DigitsValue(t) as real
    case Some(i) => DigitsValue(t[..i]) as real + DigitsValue(t[i + 1..]) as real / Pow10(|t| - i - 1) as real
  }

  // ---------------------------------------------------------------- per-token reference

  /** The numeric part of a delta: what is interpolated and how it is rendered. */
  datatype Component = Component(start: Number, delta: Number, to: Format)

  function Components(vs: seq<Delta>): (cs: seq<Component>)
    ensures |cs| == |vs|
    ensures forall j :: 0 <= j < |vs| ==> cs[j] == Component(vs[j].start, vs[j].delta, vs[j].to)
  {
    if vs == [] then [] else [Component(vs[0].start, vs[0].delta, vs[0].to)] + Components(vs[1..])
  }

  predicate StartsWithHash(s: string) {
    |s| > 0 && s[0] == '#'
  }

  /** The component of the two-character channel at `k`, if the channels differ. */
  function ChannelComponents(fi: string, ti: string, k: nat): seq<Component> {
    var fk, tk := Substr(fi, k, 2), Substr(ti, k, 2);
    if fk == tk then [] else [Component(ParseChannel(fk), Minus(ParseChannel(tk), ParseChannel(fk)), HexFormat)]
  }

  /** The components of the three channels of a `#` token pair, in channel order. */
  function HashComponents(fi: string, ti: string): seq<Component> {
    ChannelComponents(fi, ti, 1) + ChannelComponents(fi, ti, 3) + ChannelComponents(fi, ti, 5)
  }

  /** The component of a pair of numbers: the from-value and the difference to the
      to-value, rendered as a number. */
  function NumberComponent(fm: NumMatch, tm: NumMatch): Component {
    var fv, tv := DecimalValue(fm.num), DecimalValue(tm.num);
    Component(Finite(fv), Finite(tv - fv), NumFormat)
  }

  /** The components one token pair contributes: none for equal tokens, one per differing
      channel for a token starting with `#`, one for two numbers of different value, and
      none when either side holds no number. */
  function TokenComponents(fi: string, ti: string): seq<Component> {
    if fi == ti then []
    else if StartsWithHash(fi) then HashComponents(fi, ti)
    else match (MatchNumber(fi), MatchNumber(ti))
      case (Some(fm), Some(tm)) =>
        var fv, tv := DecimalValue(fm.num), DecimalValue(tm.num);
        if fv == tv then [] else [NumberComponent(fm, tm)]
      case _ => []
  }

  /** A differing `#` token none of whose three channels differs: the case in which
      parseAnimatedVals writes the leftover prefix into the previous delta. */
  predicate HashNoChannel(fi: string, ti: string) {
    fi != ti && StartsWithHash(fi) && TokenComponents(fi, ti) == []
  }

  /** The components of the first `n` token pairs, in token order. */
  function Flat(fa: seq<string>, ta: seq<string>, n: nat): seq<Component>
    requires n <= |fa| == |ta|
  {
    if n == 0 then [] else Flat(fa, ta, n - 1) + TokenComponents(fa[n - 1], ta[n - 1])
  }

  // ---------------------------------------------------------------- the differ

  /** The loop state of parseAnimatedVals: the deltas so far and `b`, the first token not
      yet placed in a prefix or postfix. */
  datatype DiffState = Running(vals: seq<Delta>, b: nat) | Crashed

  function SetLastPostfix(vals: seq<Delta>, p: string): (r: seq<Delta>)
    requires vals != []
    ensures |r| == |vals| && Components(r) == Components(vals)
  {
    vals[|vals| - 1 := vals[|vals| - 1].(postfix := p)]
  }

  /** compareColorComponent(k): a delta for a differing channel, else the channel's
      digits join the pending prefix. */
  function CompareColorComponent(vals: seq<Delta>, prefix: string, fi: string, ti: string, k: nat)
    : (r: (seq<Delta>, string))
    ensures Components(r.0) == Components(vals) + ChannelComponents(fi, ti, k)
    ensures ChannelComponents(fi, ti, k) == [] ==> r.0 == vals && r.1 == prefix + Substr(fi, k, 2)
  {
    var fk, tk := Substr(fi, k, 2), Substr(ti, k, 2);
    if fk != tk then
      var r := vals + [Delta(prefix, "", ParseChannel(fk), Minus(ParseChannel(tk), ParseChannel(fk)), HexFormat)];
      assert Components(r) == Components(vals) + [Components(r)[|vals|]];
      (r, "")
    else (vals, prefix + fk)
  }

  /** The last delta gets the postfix `p`; the others, and the rest of the last, stay. */
  lemma SetLastPostfixText(vals: seq<Delta>, p: string)
    requires vals != []
    ensures var r := SetLastPostfix(vals, p);
            r[..|r| - 1] == vals[..|vals| - 1] && r[|r| - 1].prefix == vals[|vals| - 1].prefix
            && r[|r| - 1].postfix == p
  {
  }

  /** A differing channel adds a delta whose prefix is the pending text and whose postfix
      is empty, and leaves no pending text; the deltas before it stay. */
  lemma ChannelDeltaText(vals: seq<Delta>, prefix: string, fi: string, ti: string, k: nat)
    requires ChannelComponents(fi, ti, k) != []
    ensures var r := CompareColorComponent(vals, prefix, fi, ti, k);
            |r.0| == |vals| + 1 && r.0[..|vals|] == vals && r.1 == ""
            && r.0[|vals|].prefix == prefix && r.0[|vals|].postfix == ""
  {
    var r := CompareColorComponent(vals, prefix, fi, ti, k);
    assert r.0 == vals + [r.0[|vals|]];
  }

  /** compareColorComponent(1), (3) and (5) in turn. */
  function CompareChannels(vals: seq<Delta>, prefix: string, fi: string, ti: string): (seq<Delta>, string) {
    var r1 := CompareColorComponent(vals, prefix, fi, ti, 1);
    var r2 := CompareColorComponent(r1.0, r1.1, fi, ti, 3);
    CompareColorComponent(r2.0, r2.1, fi, ti, 5)
  }

  lemma ConcatAssociates<T>(a: seq<T>, b: seq<T>, c: seq<T>, d: seq<T>)
    ensures a + b + c + d == a + (b + c + d)
  {
  }

  /** The three channels add one component per differing channel, and when none differs the channel digits all join the prefix. */
  lemma CompareChannelsComponents(vals: seq<Delta>, prefix: string, fi: string, ti: string)
    ensures Components(CompareChannels(vals, prefix, fi, ti).0) == Components(vals) + HashComponents(fi, ti)
    ensures HashComponents(fi, ti) == []
            ==> CompareChannels(vals, prefix, fi, ti).1 == prefix + Substr(fi, 1, 2) + Substr(fi, 3, 2) + Substr(fi, 5, 2)
  {
    var c1, c3, c5 := ChannelComponents(fi, ti, 1), ChannelComponents(fi, ti, 3), ChannelComponents(fi, ti, 5);
    var r1 := CompareColorComponent(vals, prefix, fi, ti, 1);
    var r2 := CompareColorComponent(r1.0, r1.1, fi, ti, 3);
    var r3 := CompareColorComponent(r2.0, r2.1, fi, ti, 5);
    assert CompareChannels(vals, prefix, fi, ti) == r3;
    assert HashComponents(fi, ti) == c1 + c3 + c5;
    assert Components(r3.0) == Components(vals) + c1 + c3 + c5;
    ConcatAssociates(Components(vals), c1, c3, c5);
    if c1 + c3 + c5 == [] {
      assert c1 == [] && c3 == [] && c5 == [];
    }
  }

  /** The colour branch of the token loop: the three channels, then the leftover prefix
      goes into the last delta's postfix (a TypeError when there is none yet). */
  function ColorStep(vals: seq<Delta>, prefix: string, fi: string, ti: string, i: nat): (r: DiffState)
    ensures r.Running? ==> r.b == i + 1
  {
    var r3 := CompareChannels(vals, AppendVal(prefix, "#"), fi, ti);
    if r3.1 == "" then Running(r3.0, i + 1)
    else if r3.0 == [] then Crashed
    else Running(SetLastPostfix(r3.0, r3.1), i + 1)
  }

  /** addVal for a pair of numbers: the pending prefix and the text before the number,
      the text after it, the from-value and the difference to the to-value. */
  function NumberDeltaOf(prefix: string, fm: NumMatch, tm: NumMatch): Delta {
    var c := NumberComponent(fm, tm);
    Delta(AppendVal(prefix, fm.pre), fm.post, c.start, c.delta, c.to)
  }

  /** The numeric branch of the token loop: a delta when both tokens hold a number and
      the two values differ, otherwise the state is left as it was. */
  function NumberStep(st: DiffState, prefix: string, fi: string, ti: string, i: nat): (r: DiffState)
    requires st.Running?
    ensures r.Running? && (r == st || r.b == i + 1)
  {
    match (MatchNumber(fi), MatchNumber(ti))
    case (Some(fm), Some(tm)) =>
      if DecimalValue(fm.num) == DecimalValue(tm.num) then st
      else Running(st.vals + [NumberDeltaOf(prefix, fm, tm)], i + 1)
    case _ => st
  }

  /** One turn of the token loop of parseAnimatedVals. */
  function TokenStep(st: DiffState, fa: seq<string>, ta: seq<string>, i: nat): (r: DiffState)
    requires i < |fa| == |ta|
    requires st.Running? ==> st.b <= i
    ensures r.Running? ==> r.b <= i + 1
  {
    match st
    case Crashed => Crashed
    case Running(vals, b) =>
      if fa[i] == ta[i] then st
      else if StartsWithHash(fa[i]) then ColorStep(vals, Join(fa[b..i]), fa[i], ta[i], i)
      else NumberStep(st, Join(fa[b..i]), fa[i], ta[i], i)
  }

  /** The loop state after the first `n` token pairs. */
  function DiffUpTo(fa: seq<string>, ta: seq<string>, n: nat): (r: DiffState)
    requires n <= |fa| == |ta|
    ensures r.Running? ==> r.b <= n
    decreases n, 1
  {
    if n == 0 then Running([], 0) else DiffAfter(fa, ta, n - 1)
  }

  /** The loop state once token pair `i` has been visited. */
  function DiffAfter(fa: seq<string>, ta: seq<string>, i: nat): (r: DiffState)
    requires i < |fa| == |ta|
    ensures r.Running? ==> r.b <= i + 1
    decreases i, 2
  {
    TokenStep(DiffUpTo(fa, ta, i), fa, ta, i)
  }

  /** What parseAnimatedVals returns for two token lists of the same length. */
  function AnimatedVals(fa: seq<string>, ta: seq<string>): Diff
    requires |fa| == |ta|
  {
    match DiffUpTo(fa, ta, |fa|)
    case Crashed => TypeError
    case Running(vals, b) =>
      if vals == [] then Literal(Join(fa))
      else Deltas(SetLastPostfix(vals, AppendVal(vals[|vals| - 1].postfix, Join(fa[b..]))))
  }

  /** parseAnimatedVals, over two token lists of the same length (compile calls it only
      for two values with as many tokens). */
  method ParseAnimatedVals(fa: seq<string>, ta: seq<string>) returns (r: Diff)
    requires |fa| == |ta|
    ensures r == AnimatedVals(fa, ta)
  {
    var vals: seq<Delta> := [];
    var b: nat := 0;
    for i := 0 to |fa|
      invariant b <= i
      invariant DiffUpTo(fa, ta, i) == Running(vals, b)
    {
      assert DiffUpTo(fa, ta, i + 1) == TokenStep(Running(vals, b), fa, ta, i);
      var crashed;
      vals, b, crashed := DiffToken(vals, b, fa, ta, i);
      if crashed {
        CrashIsFinal(fa, ta, i + 1, |fa|);
        return TypeError;
      }
    }
    if vals == [] {
      return Literal(Join(fa));
    }
    var last := vals[|vals| - 1];
    vals := vals[|vals| - 1 := last.(postfix := AppendVal(last.postfix, Join(fa[b..])))];
    r := Deltas(vals);
  }

  /** One turn of parseAnimatedVals' token loop, from the deltas `vals` and the first
      unplaced token `b`; `crashed` when `last.postfix = prefix` runs with no `last`. */
  method DiffToken(vals: seq<Delta>, b: nat, fa: seq<string>, ta: seq<string>, i: nat)
    returns (vals': seq<Delta>, b': nat, crashed: bool)
    requires b <= i < |fa| == |ta|
    ensures crashed <==> TokenStep(Running(vals, b), fa, ta, i).Crashed?
    ensures !crashed ==> TokenStep(Running(vals, b), fa, ta, i) == Running(vals', b')
  {
    vals', b', crashed := vals, b, false;
    var fi, ti := fa[i], ta[i];
    if fi == ti {
      return;
    }
    var prefix := Join(fa[b..i]);
    if StartsWithHash(fi) {
      vals', crashed := ColorToken(vals, prefix, fi, ti, i);
      if crashed {
        return;
      }
    } else {
      var fm, tm := MatchNumber(fi), MatchNumber(ti);
      if fm.None? || tm.None? {
        return;
      }
      var fk, tk := DecimalValue(fm.value.num), DecimalValue(tm.value.num);
      if fk == tk {
        return;
      }
      vals' := vals + [NumberDeltaOf(prefix, fm.value, tm.value)];
    }
    b' := i + 1;
  }

  /** The colour branch of one turn: the three channels are compared in turn, and a
      leftover prefix goes into the last delta's postfix. */
  method ColorToken(vals: seq<Delta>, prefix: string, fi: string, ti: string, i: nat)
    returns (vals': seq<Delta>, crashed: bool)
    ensures crashed <==> ColorStep(vals, prefix, fi, ti, i).Crashed?
    ensures !crashed ==> ColorStep(vals, prefix, fi, ti, i) == Running(vals', i + 1)
  {
    crashed := false;
    var p := AppendVal(prefix, "#");
    var c1 := CompareColorComponent(vals, p, fi, ti, 1);
    var c2 := CompareColorComponent(c1.0, c1.1, fi, ti, 3);
    var c3 := CompareColorComponent(c2.0, c2.1, fi, ti, 5);
    vals', p := c3.0, c3.1;
    if p != "" {
      if vals' == [] {
        crashed := true;
        return;
      }
      vals' := vals'[|vals'| - 1 := vals'[|vals'| - 1].(postfix := p)];
    }
  }

  lemma {:induction false} CrashIsFinal(fa: seq<string>, ta: seq<string>, i: nat, n: nat)
    requires i <= n <= |fa| == |ta|
    requires DiffUpTo(fa, ta, i) == Crashed
    ensures DiffUpTo(fa, ta, n) == Crashed
    decreases n - i
  {
    if i < n {
      CrashIsFinal(fa, ta, i + 1, n);
    }
  }

  // ---------------------------------------------------------------- what the differ promises

  lemma EmptyConcat<T>(a: seq<T>, b: seq<T>)
    requires a + b == []
    ensures a == []
  {
    assert |a + b| == |a| + |b|;
  }

  lemma FlatEmptyStep(fa: seq<string>, ta: seq<string>, n: nat)
    requires 0 < n <= |fa| == |ta|
    requires Flat(fa, ta, n) == []
    ensures Flat(fa, ta, n - 1) == []
  {
    EmptyConcat(Flat(fa, ta, n - 1), TokenComponents(fa[n - 1], ta[n - 1]));
  }

  /** No component in the first `n` token pairs means none in any shorter prefix. */
  lemma FlatEmptyPrefix(fa: seq<string>, ta: seq<string>, i: nat, n: nat)
    requires i <= n <= |fa| == |ta|
    requires Flat(fa, ta, n) == []
    ensures Flat(fa, ta, i) == []
    decreases n - i
  {
    if i < n {
      FlatEmptyStep(fa, ta, n);
      FlatEmptyPrefix(fa, ta, i, n - 1);
    }
  }

  /** The token at `i` makes parseAnimatedVals throw: a `#` token none of whose channels
      differs, with no component before it. */
  predicate CrashesAt(fa: seq<string>, ta: seq<string>, i: nat)
    requires i < |fa| == |ta|
  {
    Flat(fa, ta, i) == [] && HashNoChannel(fa[i], ta[i])
  }

  /** The loop state after `n` tokens: it has crashed exactly when a `#` token without a
      differing channel came before any component, and otherwise its deltas carry the
      components of the first `n` token pairs, in token order. */
  lemma {:induction false} DiffUpToComponents(fa: seq<string>, ta: seq<string>, n: nat)
    requires n <= |fa| == |ta|
    ensures DiffUpTo(fa, ta, n).Crashed? <==> exists i :: 0 <= i < n && CrashesAt(fa, ta, i)
    ensures DiffUpTo(fa, ta, n).Running? ==> Components(DiffUpTo(fa, ta, n).vals) == Flat(fa, ta, n)
  {
    if n > 0 {
      var m := n - 1;
      DiffUpToComponents(fa, ta, m);
      var st := DiffUpTo(fa, ta, m);
      assert DiffUpTo(fa, ta, n) == TokenStep(st, fa, ta, m);
      if st.Crashed? {
        var i :| 0 <= i < m && CrashesAt(fa, ta, i);
        assert 0 <= i < n && CrashesAt(fa, ta, i);
      } else {
        TokenStepComponents(st, fa, ta, m);
        assert Flat(fa, ta, n) == Flat(fa, ta, m) + TokenComponents(fa[m], ta[m]);
        assert DiffUpTo(fa, ta, n).Crashed? <==> CrashesAt(fa, ta, m);
        assert (exists i :: 0 <= i < n && CrashesAt(fa, ta, i)) <==> CrashesAt(fa, ta, m) by {
          if exists i :: 0 <= i < n && CrashesAt(fa, ta, i) {
            var i :| 0 <= i < n && CrashesAt(fa, ta, i);
            assert i == m;
          }
        }
      }
    }
  }

  lemma ColorStepComponents(vals: seq<Delta>, prefix: string, fi: string, ti: string, i: nat)
    requires fi != ti && StartsWithHash(fi)
    ensures ColorStep(vals, prefix, fi, ti, i).Crashed?
        <==> Components(vals) == [] && TokenComponents(fi, ti) == []
    ensures ColorStep(vals, prefix, fi, ti, i).Running?
        ==> Components(ColorStep(vals, prefix, fi, ti, i).vals) == Components(vals) + TokenComponents(fi, ti)
  {
    var p0 := AppendVal(prefix, "#");
    var r := CompareChannels(vals, p0, fi, ti);
    CompareChannelsComponents(vals, p0, fi, ti);
    assert TokenComponents(fi, ti) == HashComponents(fi, ti);
    assert |r.0| == |Components(r.0)|;
    assert |p0| > 0;
  }

  lemma TokenStepComponents(st: DiffState, fa: seq<string>, ta: seq<string>, i: nat)
    requires i < |fa| == |ta|
    requires st.Running? && st.b <= i
    ensures TokenStep(st, fa, ta, i).Crashed?
        <==> Components(st.vals) == [] && HashNoChannel(fa[i], ta[i])
    ensures TokenStep(st, fa, ta, i).Running?
        ==> Components(TokenStep(st, fa, ta, i).vals) == Components(st.vals) + TokenComponents(fa[i], ta[i])
  {
    if fa[i] != ta[i] && StartsWithHash(fa[i]) {
      ColorStepComponents(st.vals, Join(fa[st.b..i]), fa[i], ta[i], i);
    } else if fa[i] != ta[i] {
      var r := NumberStep(st, Join(fa[st.b..i]), fa[i], ta[i], i);
      if r != st {
        assert Components(r.vals) == Components(st.vals) + [Components(r.vals)[|st.vals|]];
      }
    }
  }

  /** What parseAnimatedVals promises for two equally long token lists:
      - it throws exactly when a `#` token none of whose channels differs comes before
        any component;
      - it returns the space-joined from-tokens exactly when no token pair yields a
        component (textually equal, no number on a side, or numerically equal) and it
        does not throw;
      - otherwise its deltas carry, in token order, the components of every token pair. */
  lemma DiffOutcome(fa: seq<string>, ta: seq<string>)
    requires |fa| == |ta|
    ensures AnimatedVals(fa, ta).TypeError? <==> exists i :: 0 <= i < |fa| && CrashesAt(fa, ta, i)
    ensures AnimatedVals(fa, ta).Literal?
        <==> Flat(fa, ta, |fa|) == [] && forall i :: 0 <= i < |fa| ==> !HashNoChannel(fa[i], ta[i])
    ensures AnimatedVals(fa, ta).Literal? ==> AnimatedVals(fa, ta).text == Join(fa)
    ensures AnimatedVals(fa, ta).Deltas? ==> Components(AnimatedVals(fa, ta).vals) == Flat(fa, ta, |fa|)
  {
    var n := |fa|;
    DiffUpToComponents(fa, ta, n);
    var st := DiffUpTo(fa, ta, n);
    if st.Running? {
      assert !exists i :: 0 <= i < n && CrashesAt(fa, ta, i);
      if Flat(fa, ta, n) == [] {
        forall i | 0 <= i < n ensures !HashNoChannel(fa[i], ta[i]) {
          FlatEmptyPrefix(fa, ta, i, n);
          assert !CrashesAt(fa, ta, i);
        }
        assert st.vals == [];
      } else {
        assert st.vals != [];
      }
    } else {
      var i :| 0 <= i < n && CrashesAt(fa, ta, i);
      assert HashNoChannel(fa[i], ta[i]);
    }
  }

  // ---------------------------------------------------------------- prefix and postfix text

  /** A token pair after which `b` moves on: a differing pair that yields a component,
      or any differing `#` pair (whose leftover digits go into a postfix). */
  predicate Places(fi: string, ti: string) {
    fi != ti && (StartsWithHash(fi) || TokenComponents(fi, ti) != [])
  }

  /** One past the last placing pair among the first `n`, 0 when there is none. */
  function LastPlaced(fa: seq<string>, ta: seq<string>, n: nat): (b: nat)
    requires n <= |fa| == |ta|
    ensures b <= n
    ensures b > 0 ==> Places(fa[b - 1], ta[b - 1])
    ensures forall j :: b <= j < n ==> !Places(fa[j], ta[j])
  {
    if n == 0 then 0 else if Places(fa[n - 1], ta[n - 1]) then n else LastPlaced(fa, ta, n - 1)
  }

  lemma TokenStepPlaced(st: DiffState, fa: seq<string>, ta: seq<string>, i: nat)
    requires i < |fa| == |ta|
    requires st.Running? && st.b <= i
    ensures TokenStep(st, fa, ta, i).Running?
        ==> TokenStep(st, fa, ta, i).b == if Places(fa[i], ta[i]) then i + 1 else st.b
  {
  }

  /** `b`, the first token not yet placed in a prefix or postfix, is one past the last
      placing pair. */
  lemma {:induction false} DiffUpToPlaced(fa: seq<string>, ta: seq<string>, n: nat)
    requires n <= |fa| == |ta|
    ensures DiffUpTo(fa, ta, n).Running? ==> DiffUpTo(fa, ta, n).b == LastPlaced(fa, ta, n)
  {
    if n > 0 {
      DiffUpToPlaced(fa, ta, n - 1);
      var st := DiffUpTo(fa, ta, n - 1);
      assert DiffUpTo(fa, ta, n) == TokenStep(st, fa, ta, n - 1);
      if st.Running? {
        TokenStepPlaced(st, fa, ta, n - 1);
      }
    }
  }

  /** Textually equal token pairs leave the loop state as it is. */
  lemma {:induction false} EqualTokensKeep(fa: seq<string>, ta: seq<string>, lo: nat, hi: nat)
    requires lo <= hi <= |fa| == |ta|
    requires forall j :: lo <= j < hi ==> fa[j] == ta[j]
    ensures DiffUpTo(fa, ta, hi) == DiffUpTo(fa, ta, lo)
    decreases hi
  {
    if lo < hi {
      EqualTokensKeep(fa, ta, lo, hi - 1);
      assert DiffUpTo(fa, ta, hi) == TokenStep(DiffUpTo(fa, ta, hi - 1), fa, ta, hi - 1);
    }
  }

  /** Two tokens, not starting with `#`, that hold numbers of different value. */
  predicate NumberPair(fi: string, ti: string) {
    fi != ti && !StartsWithHash(fi) && MatchNumber(fi).Some? && MatchNumber(ti).Some?
    && DecimalValue(MatchNumber(fi).value.num) != DecimalValue(MatchNumber(ti).value.num)
  }

  /** A differing pair of numbers adds one delta, placed after the pending tokens, which
      are the unplaced tokens since the last placing pair. */
  lemma NumberStepAt(fa: seq<string>, ta: seq<string>, i: nat)
    requires i < |fa| == |ta|
    requires DiffUpTo(fa, ta, i).Running?
    requires NumberPair(fa[i], ta[i])
    ensures var st, fm, tm := DiffUpTo(fa, ta, i), MatchNumber(fa[i]).value, MatchNumber(ta[i]).value;
            DiffUpTo(fa, ta, i + 1)
            == Running(st.vals + [NumberDeltaOf(Join(fa[LastPlaced(fa, ta, i)..i]), fm, tm)], i + 1)
  {
    var st := DiffUpTo(fa, ta, i);
    DiffUpToPlaced(fa, ta, i);
    assert DiffUpTo(fa, ta, i + 1) == TokenStep(st, fa, ta, i);
    assert TokenStep(st, fa, ta, i) == NumberStep(st, Join(fa[st.b..i]), fa[i], ta[i], i);
  }

  /** The text around the delta a differing pair of numbers adds: its prefix is the
      pending tokens, space-joined, then the text before the number, and its postfix
      the text after it; right after a placing pair the prefix is only the text before
      the number. */
  lemma NumberDelta(fa: seq<string>, ta: seq<string>, i: nat)
    requires i < |fa| == |ta|
    requires DiffUpTo(fa, ta, i).Running?
    requires NumberPair(fa[i], ta[i])
    ensures var st, fm := DiffUpTo(fa, ta, i), MatchNumber(fa[i]).value;
            var r := DiffUpTo(fa, ta, i + 1);
            r.Running? && |r.vals| == |st.vals| + 1 && r.vals[..|st.vals|] == st.vals
            && r.vals[|st.vals|].prefix == AppendVal(Join(fa[LastPlaced(fa, ta, i)..i]), fm.pre)
            && r.vals[|st.vals|].postfix == fm.post
            && (LastPlaced(fa, ta, i) == i ==> r.vals[|st.vals|].prefix == fm.pre)
  {
    NumberStepAt(fa, ta, i);
    var st, fm, tm := DiffUpTo(fa, ta, i), MatchNumber(fa[i]).value, MatchNumber(ta[i]).value;
    var pending := Join(fa[LastPlaced(fa, ta, i)..i]);
    var vs := st.vals + [NumberDeltaOf(pending, fm, tm)];
    assert DiffUpTo(fa, ta, i + 1).vals == vs;
    assert vs[..|st.vals|] == st.vals;
    if LastPlaced(fa, ta, i) == i {
      assert fa[i..i] == [];
    }
  }

  /** The offset of one of the three two-digit channels of a `#rrggbb` token. */
  predicate IsChannel(k: nat) {
    k == 1 || k == 3 || k == 5
  }

  /** The two-digit channels of a `#` token from `lo` up to `hi`, concatenated. */
  function ChannelText(s: string, lo: nat, hi: nat): string
    decreases hi - lo
  {
    if lo >= hi then "" else Substr(s, lo, 2) + ChannelText(s, lo + 2, hi)
  }

  /** The channels from `lo` up to `hi` are equal in the two tokens. */
  predicate ChannelsEqual(fi: string, ti: string, lo: nat, hi: nat)
    decreases hi - lo
  {
    lo >= hi || (Substr(fi, lo, 2) == Substr(ti, lo, 2) && ChannelsEqual(fi, ti, lo + 2, hi))
  }

  /** `b` is `a` with more deltas after it. */
  predicate Extends(a: seq<Delta>, b: seq<Delta>) {
    |b| >= |a| && b[..|a|] == a
  }

  lemma ExtendsTrans(a: seq<Delta>, b: seq<Delta>, c: seq<Delta>)
    requires Extends(a, b) && Extends(b, c)
    ensures Extends(a, c) && (|a| < |b| ==> c[|a|] == b[|a|])
  {
    assert c[..|a|] == c[..|b|][..|a|];
    if |a| < |b| {
      assert c[|a|] == c[..|b|][|a|];
    }
  }

  lemma ChannelExtends(vals: seq<Delta>, prefix: string, fi: string, ti: string, k: nat)
    ensures Extends(vals, CompareColorComponent(vals, prefix, fi, ti, k).0)
  {
    if ChannelComponents(fi, ti, k) != [] {
      ChannelDeltaText(vals, prefix, fi, ti, k);
    }
  }

  /** compareColorComponent(1), (3) and (5) when channel `k` is the first that differs:
      its delta's prefix is the pending text and the equal channels before `k`. */
  lemma ChannelsFirstText(vals: seq<Delta>, prefix: string, fi: string, ti: string, k: nat)
    requires IsChannel(k)
    requires ChannelsEqual(fi, ti, 1, k) && Substr(fi, k, 2) != Substr(ti, k, 2)
    ensures var r := CompareChannels(vals, prefix, fi, ti);
            Extends(vals, r.0) && |r.0| > |vals| && r.0[|vals|].prefix == prefix + ChannelText(fi, 1, k)
  {
    if k == 1 {
      FirstDiffersAt1(vals, prefix, fi, ti);
    } else if k == 3 {
      FirstDiffersAt3(vals, prefix, fi, ti);
    } else {
      FirstDiffersAt5(vals, prefix, fi, ti);
    }
  }

  /** `ChannelsFirstText` for channel 1. */
  lemma FirstDiffersAt1(vals: seq<Delta>, prefix: string, fi: string, ti: string)
    requires Substr(fi, 1, 2) != Substr(ti, 1, 2)
    ensures var r := CompareChannels(vals, prefix, fi, ti);
            Extends(vals, r.0) && |r.0| > |vals| && r.0[|vals|].prefix == prefix + ChannelText(fi, 1, 1)
  {
    var r1 := CompareColorComponent(vals, prefix, fi, ti, 1);
    var r2 := CompareColorComponent(r1.0, r1.1, fi, ti, 3);
    var r3 := CompareColorComponent(r2.0, r2.1, fi, ti, 5);
    DifferingChannel(fi, ti, 1);
    ChannelDeltaText(vals, prefix, fi, ti, 1);
    ChannelExtends(r1.0, r1.1, fi, ti, 3);
    ChannelExtends(r2.0, r2.1, fi, ti, 5);
    ExtendsTrans(vals, r1.0, r2.0);
    ExtendsTrans(vals, r2.0, r3.0);
  }

  /** `ChannelsFirstText` for channel 3. */
  lemma FirstDiffersAt3(vals: seq<Delta>, prefix: string, fi: string, ti: string)
    requires Substr(fi, 1, 2) == Substr(ti, 1, 2) && Substr(fi, 3, 2) != Substr(ti, 3, 2)
    ensures var r := CompareChannels(vals, prefix, fi, ti);
            Extends(vals, r.0) && |r.0| > |vals| && r.0[|vals|].prefix == prefix + ChannelText(fi, 1, 3)
  {
    var r1 := CompareColorComponent(vals, prefix, fi, ti, 1);
    var r2 := CompareColorComponent(r1.0, r1.1, fi, ti, 3);
    assert ChannelText(fi, 1, 3) == Substr(fi, 1, 2);
    assert r1 == (vals, prefix + Substr(fi, 1, 2));
    DifferingChannel(fi, ti, 3);
    ChannelDeltaText(r1.0, r1.1, fi, ti, 3);
    ChannelExtends(r2.0, r2.1, fi, ti, 5);
    ExtendsTrans(vals, r2.0, CompareColorComponent(r2.0, r2.1, fi, ti, 5).0);
  }

  /** An equal channel adds no delta and joins the pending text. */
  lemma EqualChannel(vals: seq<Delta>, prefix: string, fi: string, ti: string, k: nat)
    requires Substr(fi, k, 2) == Substr(ti, k, 2)
    ensures CompareColorComponent(vals, prefix, fi, ti, k) == (vals, prefix + Substr(fi, k, 2))
  {
  }

  /** A channel whose two digits differ yields a component. */
  lemma DifferingChannel(fi: string, ti: string, k: nat)
    requires Substr(fi, k, 2) != Substr(ti, k, 2)
    ensures ChannelComponents(fi, ti, k) != []
  {
  }

  /** `ChannelsFirstText` for channel 5. */
  lemma FirstDiffersAt5(vals: seq<Delta>, prefix: string, fi: string, ti: string)
    requires Substr(fi, 1, 2) == Substr(ti, 1, 2) && Substr(fi, 3, 2) == Substr(ti, 3, 2)
    requires Substr(fi, 5, 2) != Substr(ti, 5, 2)
    ensures var r := CompareChannels(vals, prefix, fi, ti);
            Extends(vals, r.0) && |r.0| > |vals| && r.0[|vals|].prefix == prefix + ChannelText(fi, 1, 5)
  {
    var r1 := CompareColorComponent(vals, prefix, fi, ti, 1);
    var r2 := CompareColorComponent(r1.0, r1.1, fi, ti, 3);
    assert r2 == (vals, prefix + ChannelText(fi, 1, 5)) by {
      assert ChannelText(fi, 3, 5) == Substr(fi, 3, 2);
      assert ChannelText(fi, 1, 5) == Substr(fi, 1, 2) + Substr(fi, 3, 2);
      EqualChannel(vals, prefix, fi, ti, 1);
      EqualChannel(r1.0, r1.1, fi, ti, 3);
      assert prefix + Substr(fi, 1, 2) + Substr(fi, 3, 2) == prefix + (Substr(fi, 1, 2) + Substr(fi, 3, 2));
    }
    DifferingChannel(fi, ti, 5);
    ChannelDeltaText(r2.0, r2.1, fi, ti, 5);
    assert CompareChannels(vals, prefix, fi, ti) == CompareColorComponent(r2.0, r2.1, fi, ti, 5);
  }

  /** compareColorComponent(1), (3) and (5) when channel `k2` is the last that differs:
      the last delta is its own, with an empty postfix, and the equal channels after
      `k2` are what is left pending. */
  lemma ChannelsLastText(vals: seq<Delta>, prefix: string, fi: string, ti: string, k2: nat)
    requires IsChannel(k2)
    requires Substr(fi, k2, 2) != Substr(ti, k2, 2) && ChannelsEqual(fi, ti, k2 + 2, 7)
    ensures var r := CompareChannels(vals, prefix, fi, ti);
            |r.0| > 0 && r.0[|r.0| - 1].postfix == "" && r.1 == ChannelText(fi, k2 + 2, 7)
  {
    var r1 := CompareColorComponent(vals, prefix, fi, ti, 1);
    var r2 := CompareColorComponent(r1.0, r1.1, fi, ti, 3);
    var r3 := CompareColorComponent(r2.0, r2.1, fi, ti, 5);
    assert CompareChannels(vals, prefix, fi, ti) == r3;
    assert ChannelText(fi, 7, 7) == "";
    if k2 == 1 {
      ChannelDeltaText(vals, prefix, fi, ti, 1);
      assert ChannelText(fi, 3, 7) == Substr(fi, 3, 2) + ChannelText(fi, 5, 7);
      assert ChannelText(fi, 5, 7) == Substr(fi, 5, 2);
      assert Substr(fi, 3, 2) == Substr(ti, 3, 2) && Substr(fi, 5, 2) == Substr(ti, 5, 2);
      assert r1.1 + Substr(fi, 3, 2) == Substr(fi, 3, 2);
    } else if k2 == 3 {
      ChannelDeltaText(r1.0, r1.1, fi, ti, 3);
      assert ChannelText(fi, 5, 7) == Substr(fi, 5, 2);
    } else {
      ChannelDeltaText(r2.0, r2.1, fi, ti, 5);
    }
  }

  /** The colour branch around the first channel `k` that differs and the last one `k2`:
      the first new delta's prefix is the pending text, `#` and the equal channels before
      `k`; the equal channels after `k2` end up as the last delta's postfix; the deltas
      from before stay as they were. */
  lemma ColorStepText(vals: seq<Delta>, prefix: string, fi: string, ti: string, i: nat, k: nat, k2: nat)
    requires IsChannel(k) && IsChannel(k2)
    requires ChannelsEqual(fi, ti, 1, k) && Substr(fi, k, 2) != Substr(ti, k, 2)
    requires Substr(fi, k2, 2) != Substr(ti, k2, 2) && ChannelsEqual(fi, ti, k2 + 2, 7)
    ensures var r := ColorStep(vals, prefix, fi, ti, i);
            r.Running? && r.b == i + 1 && Extends(vals, r.vals) && |r.vals| > |vals|
            && r.vals[|vals|].prefix == AppendVal(prefix, "#") + ChannelText(fi, 1, k)
            && r.vals[|r.vals| - 1].postfix == ChannelText(fi, k2 + 2, 7)
  {
    var p := AppendVal(prefix, "#");
    var r := CompareChannels(vals, p, fi, ti);
    ChannelsFirstText(vals, p, fi, ti, k);
    ChannelsLastText(vals, p, fi, ti, k2);
    if r.1 != "" {
      PostfixAfter(vals, r.0, r.1);
    }
  }

  /** Setting the last postfix of deltas that extend `vals` keeps them extending it, and
      leaves the first new delta's prefix as it was. */
  lemma PostfixAfter(vals: seq<Delta>, ws: seq<Delta>, p: string)
    requires Extends(vals, ws) && |ws| > |vals|
    ensures var u := SetLastPostfix(ws, p);
            Extends(vals, u) && u[|vals|].prefix == ws[|vals|].prefix && u[|u| - 1].postfix == p
  {
    var u := SetLastPostfix(ws, p);
    SetLastPostfixText(ws, p);
    assert u[..|vals|] == u[..|u| - 1][..|vals|];
    assert ws[..|vals|] == ws[..|ws| - 1][..|vals|];
  }

  /** Equal leading tokens leave the loop where it started. */
  lemma EqualPrefix(fa: seq<string>, ta: seq<string>, i: nat)
    requires i <= |fa| == |ta| && fa[..i] == ta[..i]
    ensures DiffUpTo(fa, ta, i) == Running([], 0) && LastPlaced(fa, ta, i) == 0
  {
    assert forall j :: 0 <= j < i ==> fa[j] == fa[..i][j];
    EqualTokensKeep(fa, ta, 0, i);
  }

  /** Equal trailing tokens leave the loop state, and `b`, as they were. */
  lemma EqualSuffix(fa: seq<string>, ta: seq<string>, i: nat)
    requires i <= |fa| == |ta| && fa[i..] == ta[i..]
    ensures DiffUpTo(fa, ta, |fa|) == DiffUpTo(fa, ta, i) && LastPlaced(fa, ta, |fa|) == LastPlaced(fa, ta, i)
  {
    assert forall j :: i <= j < |fa| ==> fa[j] == fa[i..][j - i];
    EqualTokensKeep(fa, ta, i, |fa|);
    LastPlacedKeep(fa, ta, i, |fa|);
  }

  lemma {:induction false} LastPlacedKeep(fa: seq<string>, ta: seq<string>, lo: nat, hi: nat)
    requires lo <= hi <= |fa| == |ta|
    requires forall j :: lo <= j < hi ==> fa[j] == ta[j]
    ensures LastPlaced(fa, ta, hi) == LastPlaced(fa, ta, lo)
    decreases hi
  {
    if lo < hi {
      LastPlacedKeep(fa, ta, lo, hi - 1);
    }
  }

  lemma SingleNumberLoop(fa: seq<string>, ta: seq<string>, i: nat)
    requires i < |fa| == |ta|
    requires fa[..i] == ta[..i] && fa[i + 1..] == ta[i + 1..]
    requires NumberPair(fa[i], ta[i])
    ensures DiffUpTo(fa, ta, |fa|)
         == Running([NumberDeltaOf(Join(fa[..i]), MatchNumber(fa[i]).value, MatchNumber(ta[i]).value)], i + 1)
  {
    EqualPrefix(fa, ta, i);
    NumberStepAt(fa, ta, i);
    assert fa[0..i] == fa[..i];
    EqualSuffix(fa, ta, i + 1);
  }

  /** parseAnimatedVals for token lists that differ in one pair of numbers only: one
      delta, whose prefix is the tokens before it and the text before the number, and
      whose postfix is the text after the number and the tokens after it. */
  lemma SingleNumberPair(fa: seq<string>, ta: seq<string>, i: nat)
    requires i < |fa| == |ta|
    requires fa[..i] == ta[..i] && fa[i + 1..] == ta[i + 1..]
    requires NumberPair(fa[i], ta[i])
    ensures var fm, tm := MatchNumber(fa[i]).value, MatchNumber(ta[i]).value;
            AnimatedVals(fa, ta)
            == Deltas([NumberDeltaOf(Join(fa[..i]), fm, tm).(postfix := AppendVal(fm.post, Join(fa[i + 1..])))])
    ensures var fm := MatchNumber(fa[i]).value;
            var d := AnimatedVals(fa, ta).vals[0];
            d.prefix == AppendVal(Join(fa[..i]), fm.pre) && d.postfix == AppendVal(fm.post, Join(fa[i + 1..]))
  {
    var fm, tm := MatchNumber(fa[i]).value, MatchNumber(ta[i]).value;
    SingleNumberLoop(fa, ta, i);
    var d := NumberDeltaOf(Join(fa[..i]), fm, tm);
    var p := AppendVal(d.postfix, Join(fa[i + 1..]));
    assert AnimatedVals(fa, ta) == Deltas(SetLastPostfix([d], p));
    assert SetLastPostfix([d], p) == [d.(postfix := p)];
  }

  /** parseAnimatedVals for token lists that differ in one `#` pair only, whose first
      differing channel is `k` and last `k2`: the first delta's prefix is the tokens
      before it, `#` and the equal channels before `k`; the last delta's postfix is the
      equal channels after `k2` and the tokens after the pair. */
  lemma SingleColorPair(fa: seq<string>, ta: seq<string>, i: nat, k: nat, k2: nat)
    requires i < |fa| == |ta|
    requires fa[..i] == ta[..i] && fa[i + 1..] == ta[i + 1..]
    requires fa[i] != ta[i] && StartsWithHash(fa[i])
    requires IsChannel(k) && IsChannel(k2)
    requires ChannelsEqual(fa[i], ta[i], 1, k) && Substr(fa[i], k, 2) != Substr(ta[i], k, 2)
    requires Substr(fa[i], k2, 2) != Substr(ta[i], k2, 2) && ChannelsEqual(fa[i], ta[i], k2 + 2, 7)
    ensures AnimatedVals(fa, ta).Deltas?
    ensures var vs := AnimatedVals(fa, ta).vals;
            vs != [] && vs[0].prefix == AppendVal(Join(fa[..i]), "#") + ChannelText(fa[i], 1, k)
            && vs[|vs| - 1].postfix == AppendVal(ChannelText(fa[i], k2 + 2, 7), Join(fa[i + 1..]))
  {
    ColorPairState(fa, ta, i, k, k2);
    EqualSuffix(fa, ta, i + 1);
    DeltasOfState(fa, ta);
  }

  /** The loop state just after the only differing pair, a `#` pair. */
  lemma ColorPairState(fa: seq<string>, ta: seq<string>, i: nat, k: nat, k2: nat)
    requires i < |fa| == |ta|
    requires fa[..i] == ta[..i]
    requires fa[i] != ta[i] && StartsWithHash(fa[i])
    requires IsChannel(k) && IsChannel(k2)
    requires ChannelsEqual(fa[i], ta[i], 1, k) && Substr(fa[i], k, 2) != Substr(ta[i], k, 2)
    requires Substr(fa[i], k2, 2) != Substr(ta[i], k2, 2) && ChannelsEqual(fa[i], ta[i], k2 + 2, 7)
    ensures var st := DiffUpTo(fa, ta, i + 1);
            st.Running? && st.b == i + 1 && st.vals != []
            && st.vals[0].prefix == AppendVal(Join(fa[..i]), "#") + ChannelText(fa[i], 1, k)
            && st.vals[|st.vals| - 1].postfix == ChannelText(fa[i], k2 + 2, 7)
  {
    FirstColorStep(fa, ta, i);
    ColorStepText([], Join(fa[..i]), fa[i], ta[i], i, k, k2);
  }

  /** A first differing pair that is a `#` pair is handled by the colour step, with the
      tokens before it as the pending text. */
  lemma FirstColorStep(fa: seq<string>, ta: seq<string>, i: nat)
    requires i < |fa| == |ta|
    requires fa[..i] == ta[..i]
    requires fa[i] != ta[i] && StartsWithHash(fa[i])
    ensures DiffUpTo(fa, ta, i + 1) == ColorStep([], Join(fa[..i]), fa[i], ta[i], i)
  {
    EqualPrefix(fa, ta, i);
    assert fa[0..i] == fa[..i];
  }

  /** A loop that ends with deltas: the result keeps the first delta's prefix and gives
      the last one the tokens after the last placing pair. */
  lemma DeltasOfState(fa: seq<string>, ta: seq<string>)
    requires |fa| == |ta|
    requires DiffUpTo(fa, ta, |fa|).Running? && DiffUpTo(fa, ta, |fa|).vals != []
    ensures var st, r := DiffUpTo(fa, ta, |fa|), AnimatedVals(fa, ta);
            r.Deltas? && r.vals != [] && r.vals[0].prefix == st.vals[0].prefix
            && r.vals[|r.vals| - 1].postfix == AppendVal(st.vals[|st.vals| - 1].postfix, Join(fa[st.b..]))
  {
    var st := DiffUpTo(fa, ta, |fa|);
    var last := |st.vals| - 1;
    var p := AppendVal(st.vals[last].postfix, Join(fa[st.b..]));
    SetLastPostfixText(st.vals, p);
    var vs := SetLastPostfix(st.vals, p);
    if last > 0 {
      assert vs[0] == vs[..last][0];
    }
  }

  /** What follows the last delta: its own postfix, then the tokens after the last
      placing pair (none of which yields a component), space-joined; the deltas before
      it are those of the loop. */
  lemma TrailingText(fa: seq<string>, ta: seq<string>)
    requires |fa| == |ta| && AnimatedVals(fa, ta).Deltas?
    ensures var st, vs := DiffUpTo(fa, ta, |fa|), AnimatedVals(fa, ta).vals;
            var b := LastPlaced(fa, ta, |fa|);
            st.Running? && |vs| == |st.vals| && vs[..|vs| - 1] == st.vals[..|vs| - 1]
            && vs[|vs| - 1].postfix == AppendVal(st.vals[|vs| - 1].postfix, Join(fa[b..]))
            && forall j :: b <= j < |fa| ==> !Places(fa[j], ta[j])
  {
    DiffUpToPlaced(fa, ta, |fa|);
  }

  /** Two adjacent differing pairs of numbers (as in `1px 2px` to `3px 4px`): the second
      delta's prefix is only the text before its own number, nothing of the pair before. */
  lemma AdjacentNumbers(fa: seq<string>, ta: seq<string>, i: nat)
    requires i + 1 < |fa| == |ta|
    requires DiffUpTo(fa, ta, i).Running?
    requires NumberPair(fa[i], ta[i]) && NumberPair(fa[i + 1], ta[i + 1])
    ensures var n, r := |DiffUpTo(fa, ta, i).vals|, DiffUpTo(fa, ta, i + 2);
            r.Running? && |r.vals| == n + 2 && r.vals[n + 1].prefix == MatchNumber(fa[i + 1]).value.pre
            && r.vals[n + 1].postfix == MatchNumber(fa[i + 1]).value.post
  {
    var n := |DiffUpTo(fa, ta, i).vals|;
    assert DiffUpTo(fa, ta, i + 1).Running? && |DiffUpTo(fa, ta, i + 1).vals| == n + 1 by {
      NumberDelta(fa, ta, i);
    }
    assert LastPlaced(fa, ta, i + 1) == i + 1 by {
      NumberPairPlaces(fa[i], ta[i]);
    }
    NumberDelta(fa, ta, i + 1);
  }

  lemma NumberPairPlaces(fi: string, ti: string)
    requires NumberPair(fi, ti)
    ensures Places(fi, ti)
  {
    assert TokenComponents(fi, ti) == [NumberComponent(MatchNumber(fi).value, MatchNumber(ti).value)];
  }

  /** The two digits at `k` of a `#rrggbb` colour are its `substr(k, 2)` and read as a
      channel value in [0,255]. */
  lemma ChannelValue(s: string, k: nat)
    requires |s| == 7 && AllHex(s[1..]) && 1 <= k <= 5
    ensures Substr(s, k, 2) == s[k..k + 2]
    ensures ParseChannel(s[k..k + 2]).Finite? && 0.0 <= ParseChannel(s[k..k + 2]).val <= 255.0
  {
    assert IsHexDigit(s[1..][k - 1]) && IsHexDigit(s[1..][k]);
    assert s[k..k + 2] == [s[k], s[k + 1]];
    ParseTwoHexDigits(s[k], s[k + 1]);
  }

  /** The channel at `k` of two `#rrggbb` colours: a component exactly when the two
      digit pairs differ, starting and ending in [0,255]. */
  lemma ColorChannel(fi: string, ti: string, k: nat)
    requires |fi| == 7 && |ti| == 7 && AllHex(fi[1..]) && AllHex(ti[1..])
    requires k == 1 || k == 3 || k == 5
    ensures |ChannelComponents(fi, ti, k)| == if fi[k..k + 2] != ti[k..k + 2] then 1 else 0
    ensures forall c :: c in ChannelComponents(fi, ti, k) ==>
              c.to == HexFormat && c.start.Finite? && c.delta.Finite?
              && 0.0 <= c.start.val <= 255.0 && 0.0 <= c.start.val + c.delta.val <= 255.0
  {
    ChannelValue(fi, k);
    ChannelValue(ti, k);
  }

  /** A differing pair of `#rrggbb` colours yields one hex component per differing channel,
      at least one, each starting in [0,255] and ending in [0,255]; so it never throws. */
  lemma ColorTokenComponents(fi: string, ti: string)
    requires |fi| == 7 && |ti| == 7 && fi[0] == '#' && ti[0] == '#'
    requires AllHex(fi[1..]) && AllHex(ti[1..]) && fi != ti
    ensures 1 <= |TokenComponents(fi, ti)| <= 3
    ensures |TokenComponents(fi, ti)|
         == (if fi[1..3] != ti[1..3] then 1 else 0) + (if fi[3..5] != ti[3..5] then 1 else 0)
          + (if fi[5..7] != ti[5..7] then 1 else 0)
    ensures forall c :: c in TokenComponents(fi, ti) ==>
              c.to == HexFormat && c.start.Finite? && c.delta.Finite?
              && 0.0 <= c.start.val <= 255.0 && 0.0 <= c.start.val + c.delta.val <= 255.0
    ensures !HashNoChannel(fi, ti)
  {
    ColorChannel(fi, ti, 1);
    ColorChannel(fi, ti, 3);
    ColorChannel(fi, ti, 5);
    assert TokenComponents(fi, ti)
        == ChannelComponents(fi, ti, 1) + ChannelComponents(fi, ti, 3) + ChannelComponents(fi, ti, 5);
    if fi[1..3] == ti[1..3] && fi[3..5] == ti[3..5] && fi[5..7] == ti[5..7] {
      forall j | 0 <= j < 7 ensures fi[j] == ti[j] {
        if 1 <= j < 3 { assert fi[1..3][j - 1] == ti[1..3][j - 1]; }
        else if 3 <= j < 5 { assert fi[3..5][j - 3] == ti[3..5][j - 3]; }
        else if 5 <= j { assert fi[5..7][j - 5] == ti[5..7][j - 5]; }
      }
      assert false;
    }
  }
}

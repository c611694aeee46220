/** The style-snapshot parser: a loose subset of the declaration-block syntax of
    section 4.1.8 of CSS 2.1. A block is split on `;`, each part once on `:`, the key is
    camel-cased and hex colours in the value are lower-cased, with `#rgb` expanded to
    `#rrggbb` as section 4.2.1 of CSS Color Module Level 3 defines. */
module Css {
  import opened Text

  type Snapshot = map<string, string>

  // ---------------------------------------------------------------- camel case

  predicate IsLowerAscii(c: char) {
    'a' <= c <= 'z'
  }

  function ToUpper(c: char): (u: char)
    requires IsLowerAscii(c)
    ensures 'A' <= u <= 'Z'
  {
    (c as int - 32) as char
  }

  /** No `-` is followed by a lower-case ASCII letter. */
  predicate IsCamel(s: string) {
    forall i :: 0 <= i < |s| - 1 ==> s[i] == '-' ==> !IsLowerAscii(s[i + 1])
  }

  /** `s.replace(/-([a-z])/g, upper)`: left to right, without overlap, every `-x` with
      `x` in a-z becomes `X`. */
  function ToCamelCase(s: string): (r: string)
    ensures |r| <= |s|
    ensures |r| == 0 <==> |s| == 0
    ensures |s| > 0 && IsLowerAscii(r[0]) ==> r[0] == s[0]
  {
    if |s| >= 2 && s[0] == '-' && IsLowerAscii(s[1]) then [ToUpper(s[1])] + ToCamelCase(s[2..])
    else if s == [] then []
    else [s[0]] + ToCamelCase(s[1..])
  }

  /** What toCamelCase returns never contains a `-x` with `x` in a-z. */
  lemma {:induction false} CamelCaseIsCamel(s: string)
    ensures IsCamel(ToCamelCase(s))
  {
    if |s| >= 2 && s[0] == '-' && IsLowerAscii(s[1]) {
      CamelCaseIsCamel(s[2..]);
      var r := ToCamelCase(s);
      assert r[1..] == ToCamelCase(s[2..]);
    } else if s != [] {
      CamelCaseIsCamel(s[1..]);
      var r := ToCamelCase(s);
      assert r[1..] == ToCamelCase(s[1..]);
    }
  }

  /** toCamelCase leaves a key alone exactly when it has no `-x` to rewrite. */
  lemma {:induction false} CamelCaseFixedPoint(s: string)
    ensures ToCamelCase(s) == s <==> IsCamel(s)
  {
    if |s| >= 2 && s[0] == '-' && IsLowerAscii(s[1]) {
      assert |ToCamelCase(s)| < |s|;
    } else if s != [] {
      CamelCaseFixedPoint(s[1..]);
      assert IsCamel(s) <==> IsCamel(s[1..]) by {
        if IsCamel(s[1..]) {
          forall i | 0 <= i < |s| - 1 && s[i] == '-' ensures !IsLowerAscii(s[i + 1]) {
            if i > 0 { assert s[1..][i - 1] == s[i]; }
          }
        }
        if IsCamel(s) {
          forall i | 0 <= i < |s[1..]| - 1 && s[1..][i] == '-' ensures !IsLowerAscii(s[1..][i + 1]) {
            assert s[i + 1] == '-';
          }
        }
      }
    }
  }

  /** Each `-x` with `x` in a-z becomes `X` in place: the text on either side is
      camel-cased on its own. With `CamelCaseFixedPoint` for the parts that hold no `-x`,
      this fixes the result for every key. */
  lemma {:induction false} CamelCaseAt(x: string, c: char, y: string)
    requires IsLowerAscii(c)
    ensures ToCamelCase(x + ['-', c] + y) == ToCamelCase(x) + [ToUpper(c)] + ToCamelCase(y)
  {
    var s := x + ['-', c] + y;
    if x == [] {
      assert s[2..] == y;
    } else {
      assert s[0] == x[0] && (|x| >= 2 ==> s[1] == x[1]) && (|x| == 1 ==> s[1] == '-');
      var k := CamelSkip(x);
      assert CamelSkip(s) == k && CamelHead(s) == CamelHead(x);
      assert s[k..] == x[k..] + ['-', c] + y;
      CamelCaseUnfold(s);
      CamelCaseUnfold(x);
      CamelCaseAt(x[k..], c, y);
      Regroup3(CamelHead(x), ToCamelCase(x[k..]), [ToUpper(c)], ToCamelCase(y));
    }
  }

  /** How many characters the first step of toCamelCase consumes: two for `-x` with `x`
      in a-z, else one. */
  function CamelSkip(s: string): nat
    requires s != []
  {
    if |s| >= 2 && s[0] == '-' && IsLowerAscii(s[1]) then 2 else 1
  }

  /** What the first step of toCamelCase writes. */
  function CamelHead(s: string): string
    requires s != []
  {
    if |s| >= 2 && s[0] == '-' && IsLowerAscii(s[1]) then [ToUpper(s[1])] else [s[0]]
  }

  lemma CamelCaseUnfold(s: string)
    requires s != []
    ensures CamelSkip(s) <= |s| && ToCamelCase(s) == CamelHead(s) + ToCamelCase(s[CamelSkip(s)..])
  {
  }

  lemma Regroup3(a: string, b: string, c: string, d: string)
    ensures a + (b + c + d) == a + b + c + d
  {
  }

  /** Camel-casing twice is camel-casing once. */
  lemma CamelCaseIdempotent(s: string)
    ensures ToCamelCase(ToCamelCase(s)) == ToCamelCase(s)
  {
    CamelCaseIsCamel(s);
    CamelCaseFixedPoint(ToCamelCase(s));
  }

  // ---------------------------------------------------------------- hex colours

  predicate AllLowerHex(s: string) {
    forall i :: 0 <= i < |s| ==> IsLowerHexDigit(s[i])
  }

  /** A character of `\w`; `\b` after a hex digit holds when the next one is not. */
  predicate IsWordChar(c: char) {
    'a' <= c <= 'z' || 'A' <= c <= 'Z' || '0' <= c <= '9' || c == '_'
  }

  function LowerChar(c: char): char {
    if 'A' <= c <= 'Z' then (c as int + 32) as char else c
  }

  function Lower(s: string): (r: string)
    ensures |r| == |s|
    ensures forall i :: 0 <= i < |s| ==> r[i] == LowerChar(s[i])
  {
    if s == [] then [] else [LowerChar(s[0])] + Lower(s[1..])
  }

  /** Length of a match of `/#(?:[0-9a-f]{6}|[0-9a-f]{3})\b/i` at the start of `s`:
      7 or 4, or 0 when there is none. The six-digit alternative is tried first. */
  function ColorMatchLen(s: string): (n: nat)
    ensures n == 0 || n == 4 || n == 7
    ensures n <= |s|
  {
    if |s| >= 7 && s[0] == '#' && AllHex(s[1..7]) && (|s| == 7 || !IsWordChar(s[7])) then 7
    else if |s| >= 4 && s[0] == '#' && AllHex(s[1..4]) && (|s| == 4 || !IsWordChar(s[4])) then 4
    else 0
  }

  /** `s.replace(colorRE, toLower)`. */
  function LowerColors(s: string): (r: string)
    ensures |r| == |s|
  {
    if s == [] then []
    else
      var n := ColorMatchLen(s);
      if n > 0 then Lower(s[..n]) + LowerColors(s[n..]) else [s[0]] + LowerColors(s[1..])
  }

  /** `/#([0-9a-f])([0-9a-f])([0-9a-f])\b/` (case-sensitive) matches at the start of `s`. */
  predicate IsShortColorAt(s: string) {
    |s| >= 4 && s[0] == '#' && AllLowerHex(s[1..4]) && (|s| == 4 || !IsWordChar(s[4]))
  }

  /** `s.replace(shortColorRE, '#$1$1$2$2$3$3')`. */
  function ExpandShortColors(s: string): (r: string)
    ensures |r| >= |s|
  {
    if s == [] then []
    else if IsShortColorAt(s) then ['#', s[1], s[1], s[2], s[2], s[3], s[3]] + ExpandShortColors(s[4..])
    else [s[0]] + ExpandShortColors(s[1..])
  }

  function NormalizeColors(s: string): (r: string)
    ensures |r| >= |s|
  {
    ExpandShortColors(LowerColors(s))
  }

  lemma {:induction false} ExpandWithoutHash(s: string)
    requires '#' !in s
    ensures ExpandShortColors(s) == s
  {
    if s != [] {
      assert s[0] != '#';
      ExpandWithoutHash(s[1..]);
    }
  }

  /** No colour match starts before the first `#`: `colorRE` leaves that text as it is. */
  lemma {:induction false} LowerColorsKeepsPlain(x: string, y: string)
    requires '#' !in x
    ensures LowerColors(x + y) == x + LowerColors(y)
  {
    if x == [] {
      assert x + y == y;
    } else {
      var s := x + y;
      assert LowerColors(s) == [x[0]] + LowerColors(x[1..] + y) by {
        LowerColorsPlainStep(s);
        assert s[1..] == x[1..] + y;
      }
      LowerColorsKeepsPlain(x[1..], y);
      ConsSplit(x, LowerColors(y));
    }
  }

  lemma ConsSplit(x: string, t: string)
    requires x != []
    ensures [x[0]] + (x[1..] + t) == x + t
  {
  }

  lemma LowerColorsPlainStep(s: string)
    requires s != [] && s[0] != '#'
    ensures LowerColors(s) == [s[0]] + LowerColors(s[1..])
  {
    assert ColorMatchLen(s) == 0;
  }

  /** No short colour match starts before the first `#` either. */
  lemma {:induction false} ExpandKeepsPlain(x: string, y: string)
    requires '#' !in x
    ensures ExpandShortColors(x + y) == x + ExpandShortColors(y)
  {
    if x != [] {
      var s := x + y;
      assert s[0] == x[0] && x[0] != '#';
      assert s[1..] == x[1..] + y;
      assert !IsShortColorAt(s);
      assert ExpandShortColors(s) == [x[0]] + ExpandShortColors(x[1..] + y);
      ExpandKeepsPlain(x[1..], y);
      assert x + ExpandShortColors(y) == [x[0]] + (x[1..] + ExpandShortColors(y));
    } else {
      assert x + y == y;
    }
  }

  /** The text before the first `#` passes through the colour normalisation unchanged,
      case included. */
  lemma NormalizeKeepsPlain(x: string, y: string)
    requires '#' !in x
    ensures NormalizeColors(x + y) == x + NormalizeColors(y)
  {
    LowerColorsKeepsPlain(x, y);
    ExpandKeepsPlain(x, LowerColors(y));
  }

  /** A value without `#` holds no colour and is left exactly as it is. */
  lemma NoHashUnchanged(s: string)
    requires '#' !in s
    ensures NormalizeColors(s) == s
  {
    NormalizeKeepsPlain(s, "");
    assert s + "" == s;
  }

  /** A six-digit colour token comes out lower-cased. */
  lemma SixDigitColor(h: string)
    requires |h| == 6 && AllHex(h)
    ensures NormalizeColors("#" + h) == "#" + Lower(h)
  {
    var s := "#" + h;
    assert ColorMatchLen(s) == 7 by {
      assert s[1..] == h;
      assert s[1..7] == s[1..];
    }
    assert s[..7] == s && s[7..] == [];
    assert Lower(s) == "#" + Lower(h);
    assert LowerColors(s) == "#" + Lower(h);
    var l := "#" + Lower(h);
    assert !IsShortColorAt(l) by { assert IsWordChar(l[4]); }
    assert l[1..] == Lower(h);
    assert '#' !in Lower(h);
    ExpandWithoutHash(Lower(h));
  }

  /** A three-digit colour token comes out lower-cased and expanded to six digits. */
  lemma ThreeDigitColor(h: string)
    requires |h| == 3 && AllHex(h)
    ensures NormalizeColors("#" + h) == ['#', LowerChar(h[0]), LowerChar(h[0]), LowerChar(h[1]),
                                          LowerChar(h[1]), LowerChar(h[2]), LowerChar(h[2])]
  {
    var s := "#" + h;
    assert ColorMatchLen(s) == 4 by {
      assert s[1..] == h;
      assert s[1..4] == s[1..];
    }
    assert s[..4] == s && s[4..] == [];
    var l := LowerColors(s);
    assert l == "#" + Lower(h);
    assert IsShortColorAt(l) by { assert l[1..4] == Lower(h); }
    assert l[4..] == [];
    assert l[1] == LowerChar(h[0]) && l[2] == LowerChar(h[1]) && l[3] == LowerChar(h[2]);
    assert ExpandShortColors(l) == ['#', l[1], l[1], l[2], l[2], l[3], l[3]] + ExpandShortColors([]);
  }

  /** A character that can neither start nor continue a colour: it is not `#` and,
      not being a word character, it is not a hex digit and it ends one at `\b`. */
  predicate ColorBoundary(c: char) {
    c != '#' && !IsWordChar(c)
  }

  /** No colour match reaches over a boundary character, and one that ends just
      before it ends there as it would at the end of the text. */
  lemma ColorMatchLenCut(x: string, c: char, y: string)
    requires ColorBoundary(c)
    ensures ColorMatchLen(x + [c] + y) == ColorMatchLen(x)
  {
    var s := x + [c] + y;
    assert forall k :: 0 <= k < |x| ==> s[k] == x[k];
    assert s[|x|] == c;
    if |x| >= 7 {
      assert s[1..7] == x[1..7];
    } else if |s| >= 7 {
      assert !AllHex(s[1..7]) || s[0] != '#' by {
        if |x| > 0 {
          assert s[1..7][|x| - 1] == c;
        }
      }
    }
    if |x| >= 4 {
      assert s[1..4] == x[1..4];
    } else if |s| >= 4 {
      assert !AllHex(s[1..4]) || s[0] != '#' by {
        if |x| > 0 {
          assert s[1..4][|x| - 1] == c;
        }
      }
    }
  }

  /** How many characters one step of `LowerColors` consumes: the colour match at the
      start, or one character. */
  function LowerSkip(x: string): nat
    requires x != []
  {
    var n := ColorMatchLen(x);
    if n > 0 then n else 1
  }

  /** What one step of `LowerColors` writes: the colour match lower-cased, or the first
      character as it is. */
  function LowerHead(x: string): string
    requires x != []
  {
    var n := ColorMatchLen(x);
    if n > 0 then Lower(x[..n]) else [x[0]]
  }

  /** One step of `LowerColors`. */
  lemma LowerColorsUnfold(x: string)
    requires x != []
    ensures LowerSkip(x) <= |x| && LowerColors(x) == LowerHead(x) + LowerColors(x[LowerSkip(x)..])
  {
  }

  /** One step of `LowerColors` over `x + [c] + y` is the step over `x`. */
  lemma LowerColorsCutStep(x: string, c: char, y: string)
    requires ColorBoundary(c) && x != []
    ensures LowerSkip(x) <= |x|
    ensures LowerColors(x + [c] + y) == LowerHead(x) + LowerColors(x[LowerSkip(x)..] + [c] + y)
  {
    var s := x + [c] + y;
    var n := ColorMatchLen(x);
    ColorMatchLenCut(x, c, y);
    if n > 0 {
      assert s[..n] == x[..n];
      assert s[n..] == x[n..] + [c] + y;
    } else {
      assert s[1..] == x[1..] + [c] + y;
    }
  }

  lemma Regroup(r: string, l: string, h: string, a: string, c: char, b: string)
    requires r == h + (a + [c] + b) && l == h + a
    ensures r == l + [c] + b
  {
  }

  /** `colorRE` lower-cases the two sides of a boundary character independently. */
  lemma {:induction false} LowerColorsCut(x: string, c: char, y: string)
    requires ColorBoundary(c)
    ensures LowerColors(x + [c] + y) == LowerColors(x) + [c] + LowerColors(y)
    decreases |x|
  {
    if x == [] {
      assert ([] + [c] + y)[1..] == y;
      LowerColorsPlainStep([] + [c] + y);
    } else {
      LowerColorsCutStep(x, c, y);
      LowerColorsUnfold(x);
      var m := LowerSkip(x);
      LowerColorsCut(x[m..], c, y);
      Regroup(LowerColors(x + [c] + y), LowerColors(x), LowerHead(x), LowerColors(x[m..]), c, LowerColors(y));
    }
  }

  lemma ShortColorCut(x: string, c: char, y: string)
    requires ColorBoundary(c)
    ensures IsShortColorAt(x + [c] + y) <==> IsShortColorAt(x)
  {
    var s := x + [c] + y;
    assert forall k :: 0 <= k < |x| ==> s[k] == x[k];
    assert s[|x|] == c;
    if |x| >= 4 {
      assert s[1..4] == x[1..4];
    } else if |s| >= 4 && 0 < |x| {
      assert s[1..4][|x| - 1] == c;
    }
  }

  /** One step of `ExpandShortColors` over `x + [c] + y` is the step over `x`. */
  lemma ExpandCutStep(x: string, c: char, y: string)
    requires ColorBoundary(c) && x != []
    ensures ExpandShortColors(x + [c] + y)
            == if IsShortColorAt(x) then ['#', x[1], x[1], x[2], x[2], x[3], x[3]] + ExpandShortColors(x[4..] + [c] + y)
               else [x[0]] + ExpandShortColors(x[1..] + [c] + y)
  {
    var s := x + [c] + y;
    ShortColorCut(x, c, y);
    if IsShortColorAt(x) {
      assert s[..4] == x[..4];
      assert s[4..] == x[4..] + [c] + y;
    } else {
      assert s[1..] == x[1..] + [c] + y;
    }
  }

  /** `shortColorRE` expands the two sides of a boundary character independently. */
  lemma {:induction false} ExpandShortColorsCut(x: string, c: char, y: string)
    requires ColorBoundary(c)
    ensures ExpandShortColors(x + [c] + y) == ExpandShortColors(x) + [c] + ExpandShortColors(y)
    decreases |x|
  {
    if x == [] {
      assert ([] + [c] + y)[1..] == y;
    } else {
      ExpandCutStep(x, c, y);
      var m := if IsShortColorAt(x) then 4 else 1;
      var h := if IsShortColorAt(x) then ['#', x[1], x[1], x[2], x[2], x[3], x[3]] else [x[0]];
      assert ExpandShortColors(x) == h + ExpandShortColors(x[m..]);
      ExpandShortColorsCut(x[m..], c, y);
      Regroup(ExpandShortColors(x + [c] + y), ExpandShortColors(x), h, ExpandShortColors(x[m..]), c, ExpandShortColors(y));
    }
  }

  /** Colours are normalised word by word: a whitespace character splits the value
      into parts that are normalised on their own. */
  lemma NormalizeColorsAtSpace(x: string, c: char, y: string)
    requires IsSpace(c)
    ensures NormalizeColors(x + [c] + y) == NormalizeColors(x) + [c] + NormalizeColors(y)
  {
    LowerColorsCut(x, c, y);
    ExpandShortColorsCut(LowerColors(x), c, LowerColors(y));
  }

  // ---------------------------------------------------------------- declarations

  /** The pieces joined back with `c` between them. */
  function JoinOn(ps: seq<string>, c: char): string {
    if ps == [] then "" else if |ps| == 1 then ps[0] else ps[0] + [c] + JoinOn(ps[1..], c)
  }

  /** Splits `s` at every occurrence of `c`: the pieces hold no `c`, and joining them
      with `c` gives `s` back. */
  function SplitChar(s: string, c: char): (r: seq<string>)
    ensures |r| >= 1
    ensures forall i :: 0 <= i < |r| ==> c !in r[i]
    ensures JoinOn(r, c) == s
  {
    if s == [] then [""]
    else
      var rest := SplitChar(s[1..], c);
      if s[0] == c then
        assert JoinOn([""] + rest, c) == [c] + JoinOn(rest, c) by {
          assert ([""] + rest)[1..] == rest;
        }
        assert s == [c] + s[1..];
        [""] + rest
      else
        var r := [[s[0]] + rest[0]] + rest[1..];
        assert JoinOn(r, c) == [s[0]] + JoinOn(rest, c) by {
          if |rest| > 1 {
            assert r[1..] == rest[1..];
            assert JoinOn(rest, c) == rest[0] + [c] + JoinOn(rest[1..], c);
          }
        }
        assert s == [s[0]] + s[1..];
        r
  }

  /** The declaration parts of a block: `s.replace(propTrimRE, '').split(propSplitRE)`,
      which is the `;`-separated pieces, trimmed, without the empty ones. (For a block
      with no part the source has one empty part, which, having no colon, is dropped.) */
  function Parts(s: string): seq<string> {
    NonEmpty(TrimAll(SplitChar(s, ';')))
  }

  function TrimAll(ps: seq<string>): (r: seq<string>)
    ensures |r| == |ps|
    ensures forall i :: 0 <= i < |ps| ==> r[i] == Trim(ps[i])
  {
    if ps == [] then [] else [Trim(ps[0])] + TrimAll(ps[1..])
  }

  /** `a` is `b` with some elements left out, the others kept in order. */
  predicate SubseqOf(a: seq<string>, b: seq<string>)
    decreases |b|
  {
    a == [] || (b != [] && if a[0] == b[0] then SubseqOf(a[1..], b[1..]) else SubseqOf(a, b[1..]))
  }

  /** The pieces without the empty ones: every non-empty piece is kept, in order, and
      only the empty ones are dropped. */
  function NonEmpty(ps: seq<string>): (r: seq<string>)
    ensures |r| <= |ps|
    ensures forall i :: 0 <= i < |r| ==> r[i] != ""
    ensures SubseqOf(r, ps)
    ensures multiset(r) == multiset(ps)[[] := 0]
  {
    if ps == [] then []
    else
      assert ps == [ps[0]] + ps[1..];
      if ps[0] == "" then NonEmpty(ps[1..])
      else
        var r := [ps[0]] + NonEmpty(ps[1..]);
        assert r[1..] == NonEmpty(ps[1..]);
        r
  }

  /** What one `;`-separated piece contributes to the parts: itself trimmed, unless
      that leaves nothing. */
  function Piece(x: string): seq<string> {
    if Trim(x) == "" then [] else [Trim(x)]
  }

  /** A text without `c` is a single piece. */
  lemma {:induction false} SplitCharWithout(x: string, c: char)
    requires c !in x
    ensures SplitChar(x, c) == [x]
  {
    if x != [] {
      SplitCharWithout(x[1..], c);
      assert [x[0]] + x[1..] == x;
    }
  }

  /** The first `c` of a text ends its first piece. */
  lemma {:induction false} SplitCharAt(x: string, c: char, y: string)
    requires c !in x
    ensures SplitChar(x + [c] + y, c) == [x] + SplitChar(y, c)
  {
    var s := x + [c] + y;
    if x == [] {
      assert s[1..] == y;
    } else {
      assert s[1..] == x[1..] + [c] + y;
      SplitCharAt(x[1..], c, y);
      assert [x[0]] + x[1..] == x;
    }
  }

  lemma PartsOfPieces(x: string, ys: seq<string>)
    ensures NonEmpty(TrimAll([x] + ys)) == Piece(x) + NonEmpty(TrimAll(ys))
  {
    assert ([x] + ys)[1..] == ys;
    var t := TrimAll([x] + ys);
    assert t == [Trim(x)] + TrimAll(ys);
    assert t[1..] == TrimAll(ys);
  }

  /** A block without `;` is one part, its trimmed text, or none when that is empty. */
  lemma PartsSingle(x: string)
    requires ';' !in x
    ensures Parts(x) == Piece(x)
  {
    SplitCharWithout(x, ';');
    PartsOfPieces(x, []);
    assert [x] + [] == [x];
  }

  /** `propTrimRE` and `propSplitRE` take the text up to the first `;` as the first part,
      trimmed and dropped when empty, and split the rest on its own. */
  lemma PartsAt(x: string, y: string)
    requires ';' !in x
    ensures Parts(x + ";" + y) == Piece(x) + Parts(y)
  {
    SplitCharAt(x, ';', y);
    PartsOfPieces(x, SplitChar(y, ';'));
  }

  datatype Decl = Decl(key: string, value: string)

  /** One part: `a[i].split(propValRE, 2)`, kept when it has a colon and a non-empty value.
      The value is only the text between the first and the second colon. */
  function ParseDecl(part: string): (r: Option<Decl>)
    ensures r.Some? ==> IsCamel(r.value.key) && r.value.value != ""
  {
    match IndexOf(part, ':')
    case None => None
    case Some(i) =>
      var value := Trim(TakeUntil(part[i + 1..], ':'));
      if value == "" then None
      else
        CamelCaseIsCamel(Trim(part[..i]));
        Some(Decl(ToCamelCase(Trim(part[..i])), NormalizeColors(value)))
  }

  /** A part with no colon declares nothing. */
  lemma ParseDeclNeedsColon(part: string)
    requires ':' !in part
    ensures ParseDecl(part) == None
  {
  }

  /** `key: val` (optionally followed by more colon-led text) declares the camel-cased
      key with the trimmed, colour-normalised value, unless that value is blank. */
  lemma ParseDeclShape(key: string, val: string, rest: string)
    requires ':' !in key && ':' !in val
    requires rest == "" || rest[0] == ':'
    ensures ParseDecl(key + ":" + val + rest)
         == if Trim(val) == "" then None else Some(Decl(ToCamelCase(Trim(key)), NormalizeColors(Trim(val))))
  {
    var part, tail := key + ":" + val + rest, ":" + val + rest;
    assert IndexOf(part, ':') == Some(|key|) by {
      assert part == key + tail;
      IndexOfSkips(key, tail, ':');
    }
    assert part[..|key|] == key;
    assert TakeUntil(part[|key| + 1..], ':') == val by {
      assert part[|key| + 1..] == val + rest;
      TakeUntilFree(val, rest, ':');
    }
  }

  /** The value of the first part of `parts` that declares `k`. */
  function FirstDecl(parts: seq<string>, k: string): Option<string> {
    if parts == [] then None
    else match ParseDecl(parts[0])
      case Some(d) => if d.key == k then Some(d.value) else FirstDecl(parts[1..], k)
      case None => FirstDecl(parts[1..], k)
  }

  /** The keys some part of `parts` declares. */
  function DeclKeys(parts: seq<string>): (r: set<string>)
    ensures forall k :: k in r <==> FirstDecl(parts, k).Some?
  {
    if parts == [] then {}
    else match ParseDecl(parts[0])
      case Some(d) => {d.key} + DeclKeys(parts[1..])
      case None => DeclKeys(parts[1..])
  }

  /** The snapshot a block denotes: each declared key with its first declaration. */
  function CssMap(s: string): Snapshot {
    var parts := Parts(s);
    map k | k in DeclKeys(parts) :: FirstDecl(parts, k).value
  }

  /** parseCssText: fills the map from the last part to the first, so that the first
      declaration of a key is the one that stays. */
  method ParseCssText(s: string) returns (r: Snapshot)
    ensures forall k :: k in r <==> FirstDecl(Parts(s), k).Some?
    ensures forall k :: k in r ==> r[k] == FirstDecl(Parts(s), k).value
    ensures forall k :: k in r ==> IsCamel(k) && r[k] != ""
    ensures s == "" ==> r == map[]
    ensures r == CssMap(s)
  {
    var a := Parts(s);
    r := map[];
    var i := |a|;
    while i > 0
      invariant 0 <= i <= |a|
      invariant forall k :: k in r <==> FirstDecl(a[i..], k).Some?
      invariant forall k :: k in r ==> r[k] == FirstDecl(a[i..], k).value
      invariant forall k :: k in r ==> IsCamel(k) && r[k] != ""
    {
      i := i - 1;
      assert a[i..][0] == a[i] && a[i..][1..] == a[i + 1..];
      var d := ParseDecl(a[i]);
      if d.Some? {
        r := r[d.value.key := d.value.value];
      }
    }
    assert a[0..] == a;
    if s == "" {
      assert Parts(s) == [];
    }
  }
}

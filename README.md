# animini: the animation compiler, modelled in Dafny

animini is a small browser library that animates CSS properties. A call lists
arguments in order:

- style snapshots, as CSS declaration text;
- easing functions;
- durations in milliseconds;
- completion callbacks.

`compile` turns that list into a timeline of *stages*. Each stage has:

- a start time `t` and a duration `d`;
- the callbacks `c` of the step it ends on;
- an easing `e`;
- a property `p` and a value `v`.

The value is either a text to set or a list of numeric deltas to interpolate.

This project models that core in four modules.

- **`Text`** (`text.dfy`): string helpers. It covers the whitespace split and join of values, trimming, the decimal form of a step number, and hex digits.
- **`Css`** (`css.dfy`): `toCamelCase`, and `parseCssText` as a loop over the declaration parts. The hex colour normalisation (`#ABC` becomes `#aabbcc`) is stated as functions on strings.
- **`Values`** (`values.dfy`): `appendVal`, `colorComponentToString`, `parseInt(…, 16)` of a channel, the `valRE` number match and `parseAnimatedVals`.
  - `parseAnimatedVals` is a method whose loop is proved equal to the reference function `AnimatedVals`.
  - `AnimatedVals` is characterised by the interpolatable components every token pair contributes (`Flat`).
  - The characterisation also says when the source throws (`DiffOutcome`).
- **`Timeline`** (`timeline.dfy`): `compile`.
  - Its local state is the class `Compilation`. `addStep` updates it in place (`AddStep`).
  - Each turn of the instruction switch is `Feed`, and the closing step is `Close`. Both are proved against the pure state machine `AfterInstr`/`AfterEnd`.
  - Step durations are computed by `AllocateTimes` against `Allocate`.
  - Stages are built by `BuildStages`, proved equal, as a multiset, to the stages every property contributes (`Emitted`).
  - The stages are sorted in place in an array (`SortStages`).

Values that the source leaves `undefined` or `null` are written as follows:

- a missing duration or easing is `None`;
- absent callbacks are `[]`;
- an absent prefix or postfix is `""`;
- the `TypeError` that `parseAnimatedVals` can throw is the `Diff` value `TypeError`;
- `compile` then returns `Thrown`.

## Model

| member | source | states |
|---|---|---|
| Text.SplitWs | animini.js:63 | `split(/\s+/)` gives at least one piece and no piece holds white space |
| Text.SplitJoinRoundTrip | animini.js:63 | splitting the space-joined text of a token list gives the same tokens back, so an entry's text `t` re-splits to its tokens `v` |
| Text.SplitAfterToken | animini.js:63 | a space-free token, one space and a text starting with no white space split into the token followed by the pieces of that text |
| Text.NatToString | animini.js:59 | the step marker `'' + count` is a non-empty string of decimal digits |
| Text.IndexOf | animini.js:178 | the first occurrence of the colon: it holds the character and none comes before it; `None` exactly when there is none |
| Text.TakeUntil | animini.js:178 | `split(propValRE, 2)` keeps the text before the first colon, and all of it when there is none. The result holds no colon |
| Text.IndexOfSkips | animini.js:178 | a prefix free of the colon only shifts the position of the first colon by its length; no colon after it means none at all |
| Text.TakeUntilFree | animini.js:178 | colon-free text followed by nothing or by a colon is cut back to exactly that text |
| Css.ToCamelCase | animini.js:151-153 | the result is never longer and is empty only for the empty key. A result that starts with a lower-case letter starts with the key's first character. What it rewrites is stated by `CamelCaseAt` and `CamelCaseFixedPoint` |
| Css.CamelCaseAt | animini.js:151-153 | each `-x` with x in a-z becomes the upper-case `X` in place, the text on either side being camel-cased on its own (`background-color` gives `backgroundColor`) |
| Css.CamelCaseUnfold | animini.js:152 | the replace works left to right: a leading `-x` becomes `X`, any other first character is kept, and the rest is rewritten after it |
| Css.CamelCaseIsCamel | animini.js:151-153 | no `-` followed by a letter a-z is left in the result |
| Css.CamelCaseFixedPoint | animini.js:151-153 | a key is left unchanged exactly when it holds no `-x` with x in a-z |
| Css.CamelCaseIdempotent | animini.js:151-153 | camel-casing twice is camel-casing once |
| Css.Lower | animini.js:174 | every character is lower-cased, one for one |
| Css.ColorMatchLen | animini.js:170 | a colour match at the start of a string is 7 characters, 4 characters, or none, and never longer than the string |
| Css.LowerColors | animini.js:179 | lower-casing the matched colours keeps the length of the value |
| Css.ExpandShortColors | animini.js:171-179 | expanding `#rgb` never shortens the value |
| Css.ExpandWithoutHash | animini.js:171-179 | a value without `#` is left as it is |
| Css.ColorMatchLenCut | animini.js:170 | no colour match reaches over a character that is neither `#` nor a word character, and one just before it ends there as at the end of the text (`\b`) |
| Css.LowerColorsUnfold | animini.js:179 | the `colorRE` replace works left to right: a colour match at the start is lower-cased, any other first character is kept, and the rest is rewritten after it |
| Css.LowerColorsCut | animini.js:179 | `colorRE` lower-cases the text on the two sides of such a character independently and keeps the character |
| Css.ExpandShortColorsCut | animini.js:179 | `shortColorRE` expands the text on the two sides of such a character independently and keeps the character |
| Css.NormalizeColors | animini.js:179 | the normalised value is never shorter |
| Css.LowerColorsKeepsPlain | animini.js:179 | `colorRE` leaves text before the first `#` as it is and lower-cases only what follows |
| Css.ExpandKeepsPlain | animini.js:179 | `shortColorRE` leaves text before the first `#` as it is and expands only what follows |
| Css.NormalizeKeepsPlain | animini.js:179 | the colour normalisation keeps text before the first `#` unchanged and normalises only the rest |
| Css.NoHashUnchanged | animini.js:179 | a value without `#` holds no colour and comes out unchanged |
| Css.NormalizeColorsAtSpace | animini.js:179 | colours are normalised word by word: around a white-space character the two sides are normalised on their own, so a colour inside a longer value such as `1px solid #ABC` is normalised as it would be alone |
| Css.SixDigitColor | animini.js:170-179 | a `#` followed by six hex digits of any case becomes the same colour in lower case |
| Css.ThreeDigitColor | animini.js:170-179 | a `#` followed by three hex digits of any case becomes `#rrggbb` in lower case, each digit doubled |
| Css.SplitChar | animini.js:166-167 | splitting on `;` gives at least one piece, no piece holds a `;`, and joining the pieces with `;` gives the text back |
| Css.TrimAll | animini.js:166-167 | each piece is trimmed in place: one result per piece, the i-th being the i-th piece trimmed |
| Css.NonEmpty | animini.js:166-167 | the empty pieces are dropped and every other piece is kept, in order: the result is a subsequence of the pieces with the same multiset minus the empty ones, and holds no empty piece |
| Css.Parts | animini.js:177 | definition, no contract: the `;`-separated pieces, trimmed, without the empty ones. `PartsSingle` and `PartsAt` state it piece by piece |
| Css.SplitCharWithout | animini.js:166-167 | a text without `;` is a single piece |
| Css.SplitCharAt | animini.js:166-167 | the first `;` ends the first piece; the rest is split on its own |
| Css.PartsOfPieces | animini.js:166-177 | a piece contributes its trimmed text to the parts, or nothing when that is empty |
| Css.PartsSingle | animini.js:177 | a block without `;` has one part, its trimmed text, or none when that is empty (`propTrimRE` strips it, and an empty part declares nothing) |
| Css.PartsAt | animini.js:177 | the text up to the first `;` gives the first part, trimmed and dropped when empty, and the text after it gives the remaining parts |
| Css.ParseDecl | animini.js:178-179 | a kept declaration has a camel-case key and a non-empty value |
| Css.ParseDeclNeedsColon | animini.js:178-179 | a part with no colon declares nothing (`p.length == 2` fails) |
| Css.ParseDeclShape | animini.js:178-179 | `key: val`, followed by nothing or by more colon-led text, declares the camel-cased trimmed key with the trimmed, colour-normalised value, and declares nothing exactly when the trimmed value is empty |
| Css.DeclKeys | animini.js:177-180 | a key is in the snapshot exactly when some part declares it |
| Css.CssMap | animini.js:176-182 | definition, no contract: each declared key with the value of its first declaration. `ParseCssText` is proved to compute it |
| Css.ParseCssText | animini.js:176-182 | a key is present exactly when some part declares it, and it holds the value of the FIRST part that does (the loop runs from the last part to the first). Keys are camel-case and values non-empty. An empty text gives the empty map. The result equals the reference `CssMap` |
| Values.AppendValJoin | animini.js:164 | `appendVal` of two joined token lists is the join of their concatenation |
| Values.JoinConcat | animini.js:224 | joining a concatenation puts one space between the two joined halves |
| Values.AppendVal | animini.js:164 | definition, no contract: `v` after `s` with a space between when both are non-empty. Its meaning on joined token lists is `AppendValJoin` |
| Values.ToHex | animini.js:160 | `toString(16)` ends with the hex digit of the number modulo 16 |
| Values.ColorComponentToString | animini.js:159-162 | the result has exactly two characters |
| Values.RoundWhole | animini.js:160 | `Math.round` leaves a whole number as it is |
| Values.ColorComponentDigits | animini.js:159-162 | for a whole number n ≥ 0 the result is the two lower-case hex digits of n modulo 256 |
| Values.ColorComponentRoundTrip | animini.js:159-162 | `parseInt(colorComponentToString(n), 16)` is n modulo 256 |
| Values.ChannelRoundTrip | animini.js:159-162 | a channel value 0..255 survives formatting and re-parsing unchanged |
| Values.ParseTwoHexDigits | animini.js:201-203 | `parseInt` of two hex digits is their value, first digit high |
| Values.ParseByteDigits | animini.js:201-203 | `parseInt` of the two hex digits of a byte gives the byte back |
| Values.ParseInt16 | animini.js:203 | definition, no contract: leading white space, a sign and `0x` are skipped and the longest hex-digit run is read; none gives NaN (`None`). Its values are stated by `ParseTwoHexDigits`, `ParseByteDigits` and `HexRunLen` |
| Values.HexRunLen | animini.js:203 | `parseInt` reads the longest prefix made of hex digits: every digit read is hex and the next character, if any, is not |
| Values.Substr | animini.js:201 | `substr(k, 2)` is at most two characters |
| Values.ChannelValue | animini.js:201-203 | in a `#` plus six hex digits token, each channel is the two characters at its offset and parses to a finite number in 0..255 |
| Values.DigitRunEnd | animini.js:169 | the digit run from a position holds only digits and stays inside the string |
| Values.BodyLen | animini.js:169 | the unsigned number alternatives match inside the string |
| Values.NumberLenAt | animini.js:169 | the signed number match at a position stays inside the string |
| Values.NumberLenGreedy | animini.js:169 | every alternative is greedy: a match is followed by no digit, and by no `.` when it holds none |
| Values.MatchAtShape | animini.js:169 | a number found at i splits the token into the text before i, the whole number there, and the rest, which starts with no digit, and with no `.` when the number has none |
| Values.MatchFrom | animini.js:169 | `valRE`: prefix + number + rest is the token, and the number is non-empty. No number starts earlier in the prefix (the lazy `.*?`). The number is the whole match at its position, so the rest starts with no digit, and with no `.` when the number has none (greedy). No match means no position starts a number |
| Values.MatchNumber | animini.js:169 | definition, no contract: `valRE.exec`, which fails on a token holding a line terminator (`.` matches none) |
| Values.MatchNumberSplits | animini.js:169 | `valRE.exec` splits the token at its first number, taken greedily, and fails exactly when the token holds a line terminator or no number |
| Values.DecimalValue | animini.js:216 | definition, no contract: `parseFloat` of a matched number is the exact decimal it spells, negated after a `-` |
| Values.Components | animini.js:187-191 | the interpolated part of each delta (start, delta, formatter), one per delta and in order |
| Values.TokenComponents | animini.js:194-220 | definition, no contract: the components one token pair adds (none for equal tokens, one per differing channel of a `#` token, one for two numbers of different value). `DiffUpToComponents` proves the loop adds exactly these |
| Values.SetLastPostfix | animini.js:211-224 | rewriting the last delta's postfix leaves every delta's numbers alone |
| Values.SetLastPostfixText | animini.js:211 | `last.postfix = …` overwrites the last delta's postfix with the given text and leaves the earlier deltas and the last prefix unchanged |
| Values.CompareColorComponent | animini.js:200-206 | a differing channel adds one hex component, and the channels added are exactly the differing ones. An equal channel adds nothing and appends its two digits to the prefix |
| Values.ChannelDeltaText | animini.js:202-205 | a differing channel appends one delta whose prefix is the pending prefix and whose postfix is empty, keeps the earlier deltas, and resets the pending text to `""` |
| Values.CompareChannelsComponents | animini.js:207-209 | the three channels add, in order, one component per differing channel. When none differs, all six digits join the prefix |
| Values.ColorStep | animini.js:197-211 | the colour branch, when it does not throw, places every token up to this one |
| Values.NumberStep | animini.js:212-221 | the numeric branch either leaves the state alone (no number, or equal values) or places every token up to this one |
| Values.TokenStep | animini.js:193-222 | one loop turn never moves `b` past the next token |
| Values.DiffUpTo | animini.js:193-222 | after n tokens, `b` is at most n |
| Values.DiffAfter | animini.js:193-222 | after visiting token i, `b` is at most i + 1 |
| Values.ColorToken | animini.js:197-211 | the colour branch as statements: it throws exactly when `ColorStep` does, and otherwise produces the same deltas |
| Values.DiffToken | animini.js:194-221 | one turn of the loop as statements: it throws exactly when `TokenStep` does, and otherwise produces its state |
| Values.ParseAnimatedVals | animini.js:184-226 | the loop computes `AnimatedVals`: the from-text, the deltas with the remaining tokens appended to the last postfix, or the TypeError |
| Values.AnimatedVals | animini.js:184-226 | definition, no contract: the from-text when no delta is made, the deltas with the unplaced tokens appended to the last postfix, or the TypeError. `DiffOutcome`, `SingleNumberPair`, `SingleColorPair` and `TrailingText` state what it is |
| Values.CrashIsFinal | animini.js:211 | once the loop has thrown, it stays thrown |
| Values.FlatEmptyStep | animini.js:193-222 | when the first n token pairs give no component, neither do the first n - 1 |
| Values.FlatEmptyPrefix | animini.js:193-222 | when the first n token pairs give no component, no shorter prefix of them gives one |
| Values.ColorStepComponents | animini.js:197-211 | a differing `#` token adds exactly its differing channels. It throws exactly when no delta exists yet and no channel differs |
| Values.TokenStepComponents | animini.js:193-222 | each token pair adds exactly its own components. The turn throws exactly when it is a `#` token with no differing channel and no delta exists yet |
| Values.DiffUpToComponents | animini.js:193-222 | the loop throws exactly when some token pair throws at its turn. Otherwise its deltas carry exactly the components of the visited token pairs, in order |
| Values.DiffOutcome | animini.js:184-226 | parseAnimatedVals throws exactly when some pair throws at its turn, and returns the from-text (joined) exactly when no pair yields a component or throws. Otherwise its deltas are the components of all the pairs, in token order |
| Values.ColorChannel | animini.js:200-206 | for `#` colour tokens, a channel yields a component exactly when it differs. That component is hex-formatted, and it starts and ends within 0..255 |
| Values.ColorTokenComponents | animini.js:197-211 | two different six-digit colours yield one to three components, one per differing channel, all within 0..255, and never throw |
| Values.LastPlaced | animini.js:196-221 | one past the last pair among the first n that moves `b`, or 0: that pair moves `b` and no later one does |
| Values.DiffUpToPlaced | animini.js:193-222 | `b`, where the pending prefix starts, is one past the last differing pair that yields a component or starts with `#` |
| Values.EqualTokensKeep | animini.js:195 | textually equal token pairs leave the loop state as it was |
| Values.NumberStepAt | animini.js:196-221 | a differing pair of numbers appends exactly one delta, built from the pending tokens since `b`, the text before the number, the text after it and the two values, and moves `b` past it |
| Values.NumberDelta | animini.js:196-221 | that delta's prefix is the pending tokens space-joined, then the text before the number; its postfix is the text after the number; right after a pair that moved `b` the prefix is only the text before the number |
| Values.EqualChannel | animini.js:200-206 | an equal channel adds no delta and appends its two digits to the pending prefix |
| Values.DifferingChannel | animini.js:200-206 | a channel whose digits differ yields a component |
| Values.ChannelsFirstText | animini.js:198-209 | when channel k is the first that differs, the first new delta's prefix is the pending text followed by the equal channels before k; the earlier deltas stay |
| Values.ChannelsLastText | animini.js:200-209 | when channel k2 is the last that differs, the last delta has an empty postfix and the equal channels after k2 are left pending |
| Values.ColorStepText | animini.js:197-211 | for a `#` pair with first differing channel k and last k2, the first new delta's prefix is the pending tokens, `#` and the channels before k; the last delta's postfix is the channels after k2; `b` moves past the pair |
| Values.SingleNumberPair | animini.js:184-226 | two token lists that differ in one pair of numbers give one delta: prefix is the tokens before it and the text before the number, postfix is the text after the number and the tokens after it |
| Values.SingleColorPair | animini.js:184-226 | two token lists that differ in one `#` pair give deltas whose first prefix is the tokens before it, `#` and the equal channels before the first differing one, and whose last postfix is the equal channels after the last differing one and the tokens after the pair |
| Values.FirstColorStep | animini.js:196-211 | after equal tokens, a first differing `#` pair is handled by the colour branch with the tokens before it pending |
| Values.ColorPairState | animini.js:196-211 | after the only differing pair, a `#` pair, the loop has deltas; the first prefix is the tokens before it, `#` and the equal channels before the first differing one, the last postfix the equal channels after the last, and `b` is past the pair |
| Values.DeltasOfState | animini.js:223-225 | a loop that ends with deltas gives them with the first prefix kept and the tokens from `b` on appended to the last postfix |
| Values.TrailingText | animini.js:223-225 | the last postfix is the loop's last postfix with the tokens from `b` on appended, none of which moves `b`; the other deltas are the loop's |
| Values.AdjacentNumbers | animini.js:196-221 | for two adjacent differing pairs of numbers (`1px 2px` to `3px 4px`), the second delta's prefix is only the text before its own number and its postfix the text after it |
| Timeline.FlagThenPush | animini.js:63-65 | flagging the last entry when the token count changes and then pushing the new entry is `Extend` |
| Timeline.StepProps | animini.js:62-71 | definition, no contract: the histories after a step. `AfterStepRecords` states them key by key and `StepHistories` proves the two loops compute them |
| Timeline.Unknown | animini.js:62-67 | definition, no contract: the snapshot after the `delete` of every known key with a truthy value |
| Timeline.AfterStep | animini.js:55-73 | definition, no contract: addStep as a function of the state. `AfterStepRecords` and `AfterStepValid` state its effect |
| Timeline.AfterInstr | animini.js:75-101 | definition, no contract: one turn of the switch. `StepClosing` states when it closes a step |
| Timeline.AfterEnd | animini.js:103-104 | definition, no contract: the closing step, on the sole snapshot if there was one |
| Timeline.ExtendValid | animini.js:62-67 | pushing a declared value keeps a history valid: step indices increase, texts are the joined tokens, and the flag marks exactly the entries whose successor has another token count |
| Timeline.AfterStepValid | animini.js:55-73 | addStep keeps every history valid and counts one more step |
| Timeline.AfterStepRecords | animini.js:55-73 | after addStep(p), the properties are the old ones plus the keys of p. A known key with a truthy value gets its value pushed: its earlier entries are kept, the previous last entry is kept except that its flag `z` is set when the token count changes, and the new entry closes the history. A new key, or a known key with an empty value, gets a fresh one-entry history. Every other key is unchanged |
| Timeline.StepClosing | animini.js:75-101 | a snapshot always closes a step and an easing never does. A duration closes one exactly when a truthy duration is pending, and a callback exactly when none is (a pending 0 counts as none). A duration always becomes the pending one |
| Timeline.AfterInstrValid | animini.js:75-101 | every turn of the switch keeps the histories valid |
| Timeline.Run | animini.js:75-102 | the state after the instruction loop has valid histories |
| Timeline.Steps | animini.js:75-104 | the state after the closing step has valid histories |
| Timeline.PushKnown | animini.js:62-67 | the first loop pushes the value of every known key with a truthy value, leaves the other properties alone, and deletes exactly those keys from the snapshot |
| Timeline.AddUnknown | animini.js:68-71 | the second loop gives every key left in the snapshot a fresh history and keeps the others |
| Timeline.StepHistories | animini.js:62-71 | the two loops together compute `StepProps` and leave the snapshot stripped of its known keys (`Unknown`) |
| Timeline.Compilation.constructor | animini.js:53 | compile's locals start empty: no properties, steps, pending duration, easing, callbacks or snapshot |
| Timeline.Compilation.AddStep | animini.js:55-73 | addStep moves the state exactly as `AfterStep`. It records the pending duration, easing and callbacks, clears them, and tracks the sole snapshot as the object stripped of known keys |
| Timeline.Compilation.Feed | animini.js:75-101 | one turn of the switch moves the state exactly as `AfterInstr` |
| Timeline.Compilation.Close | animini.js:103-104 | the closing step moves the state exactly as `AfterEnd` |
| Timeline.RunSteps | animini.js:75-104 | driving `Compilation` over the instructions and closing yields `Steps(args)` |
| Timeline.ImplicitPositive | animini.js:109-112 | a later step without a duration makes `z` positive |
| Timeline.NoImplicit | animini.js:109-114 | when `z` is 0, every step after the first has an explicit duration |
| Timeline.RoundRatioNearest | animini.js:113-116 | `Math.round(a / b)` is the integer q with q - 1/2 ≤ a/b < q + 1/2, stated without division for both signs of b |
| Timeline.RoundRatioError | animini.js:113-116 | the rounded quotient is within half of b of a |
| Timeline.RoundRatioWhole | animini.js:116 | dividing by 1 and rounding changes nothing |
| Timeline.Explicits | animini.js:110 | one explicit duration (or 0) per step |
| Timeline.Allocate | animini.js:115-116 | one duration per step |
| Timeline.ImplicitDuration | animini.js:113 | definition, no contract: `d`, an equal share of what the hint leaves, never negative, or 1000 without a hint. `ImplicitTotal` and `ImplicitStepsMeetHint` state what it achieves |
| Timeline.Scaled | animini.js:114-116 | definition, no contract: an explicit duration times `k` (hint over explicit total, or 1), rounded. `ScaledStep` and `ExplicitStepsMeetHint` state what it achieves |
| Timeline.Duration | animini.js:116 | definition, no contract: a step's duration: scaled when explicit, 0 for an implicit first step, `d` otherwise |
| Timeline.Starts | animini.js:115-117 | one start per step plus the end |
| Timeline.StartsArePrefixSums | animini.js:115-117 | the first start is 0, and each next one adds the step's duration |
| Timeline.StartsAppend | animini.js:117 | one more step adds one more start, the previous end plus its duration |
| Timeline.SumRangeSplit | animini.js:127 | a span's total splits at any inner step |
| Timeline.SumRangeNonNegative | animini.js:127 | non-negative durations give a non-negative span |
| Timeline.AllocateTimes | animini.js:109-118 | the loops compute `Allocate` and its prefix sums |
| Timeline.ExplicitKept | animini.js:113-116 | with later steps lacking a duration, explicit durations are kept unscaled, the first step defaults to 0, and every other implicit step gets the share `d` |
| Timeline.UnhintedKept | animini.js:113-116 | with every later step explicit and no truthy hint (`k = 1`), each step keeps its own duration and a first step without one lasts 0 |
| Timeline.ImplicitTotal | animini.js:109-116 | with z > 0 the total is the explicit sum plus z shares |
| Timeline.ImplicitStepsMeetHint | animini.js:113-116 | with a hint no smaller than the explicit sum, the total misses the hint by at most z/2 (only rounding is lost) |
| Timeline.ScaledStep | animini.js:114-116 | with z = 0, a hint and some explicit duration, each duration is its explicit value scaled by hint / total, rounded |
| Timeline.ExplicitStepsMeetHint | animini.js:114-116 | with z = 0, a hint and some explicit duration, the scaled total misses the hint by at most half a millisecond per step |
| Timeline.NothingToScale | animini.js:114-116 | with z = 0 and no explicit duration there is at most one step, and it lasts 0, so `k` multiplies nothing |
| Timeline.DurationsNonNegative | animini.js:113-116 | non-negative explicit durations and hint give non-negative step durations |
| Timeline.PairStageTiming | animini.js:126-130 | a pair stage starts where the step of the earlier value ends and lasts the steps after it up to the later value's step |
| Timeline.PairStage | animini.js:126-130 | definition, no contract: the stage pushed for the pair of declarations j - 1 and j. `PairStageSpan`, `PairStageValue` and `PairStagesInOrder` state what it is |
| Timeline.MarkerStage | animini.js:134-136 | definition, no contract: the instant stage of one declaration. `MarkerStageShape` states what it is |
| Timeline.PropStages | animini.js:123-138 | definition, no contract: one property's stages in the order compile pushes them, last first |
| Timeline.StartsSpan | animini.js:117 | the durations of steps lo..hi added to the start of lo give the start of hi |
| Timeline.PairStageSpan | animini.js:125-130 | a stage from declarations at steps bi < ai starts at the end of step bi and ends at the end of step ai |
| Timeline.ConsecutiveStagesAbut | animini.js:125-131 | each stage of a property ends exactly where the next one starts |
| Timeline.PairStagesInOrder | animini.js:125-131 | with non-negative durations, a property's stages last no less than 0 and do not overlap |
| Timeline.PairStageValue | animini.js:128-130 | a pair stage animates the destination text when the token counts differ, and otherwise what parseAnimatedVals makes of the two token lists. It has an easing (its step's) exactly when that is a delta list, and it carries its step's callbacks |
| Timeline.MarkerStageShape | animini.js:133-136 | an instant stage lasts 0 with no easing at the end of its step. A marker stage has no property or value; any other has the property and its text |
| Timeline.PairStageIsTween | animini.js:126-130 | the stage pushed for a pair has the start, span duration, step, value and easing of that pair |
| Timeline.EmittedPick | animini.js:122-139 | the stages of a set of keys are those of any one key plus those of the rest |
| Timeline.EmittedMore | animini.js:122-139 | appending one key's stages moves them from the to-do part to the emitted part |
| Timeline.NoThrowBelow | animini.js:125-131 | a pair that does not throw extends the non-throwing suffix by one |
| Timeline.SpanDuration | animini.js:127 | the inner loop adds the durations of steps bi+1 .. ai |
| Timeline.PairVals | animini.js:128 | the stage value is the destination text when flagged, else parseAnimatedVals |
| Timeline.EmitPair | animini.js:126-130 | one turn throws exactly when the pair's parseAnimatedVals throws, and otherwise pushes `PairStage` |
| Timeline.EmitPairs | animini.js:124-131 | the pair loop throws exactly when some pair of the property throws, and otherwise pushes its stages, last pair first |
| Timeline.EmitMarkers | animini.js:133-137 | a property declared once, or the marker key, gets one instant stage per entry, last first |
| Timeline.EmitProperty | animini.js:123-138 | one property's stages, or the throw |
| Timeline.BuildStages | animini.js:121-139 | the stage loop throws exactly when some property throws. Otherwise it pushes exactly the stages of every property, in any key order |
| Timeline.SortStages | animini.js:140-143 | the array ends up ordered by start, then duration, and is a permutation of what it held |
| Timeline.SortedStages | animini.js:140-143 | the sorted stages are ordered by the comparator and are a permutation of the input |
| Timeline.Compile | animini.js:52-146 | compile returns nothing exactly when no step was closed, and throws exactly when some stage's parseAnimatedVals throws. Otherwise it returns the stages of every property, ordered by start then duration, as a permutation |

## Left out

- Easing functions, the `Animation` class, argument classification (`parseAnimation`, `parseFunc`) and `create`: these are outside the compiler. An easing is an opaque tag, and a callback is an opaque identifier.
- Floating point: durations are integers and `Math.round(a / b)` is taken on the exact quotient (`RoundRatio`). `parseFloat` of a matched number is its exact decimal value (`DecimalValue`). The differ's values are exact reals. Double rounding and overflow are not modelled.
- `numToString` is left as the format tag `NumFormat`. The rendering of numbers is not modelled.
- JavaScript key order in `for (k in props)` and the stability of `Array.prototype.sort`: the model lets keys come in any order and states the stages as a multiset. `SortStages` is an insertion sort that meets the comparator's order; it is not shown to be the engine's sort.
- Timeline.Compile: requires that there is not at once a truthy hint, no later step without a duration, at least one explicit duration, and explicit durations summing to 0. A hint of 0 is not truthy and is allowed, and so is a call with no explicit duration at all (`compile([], 500)`, or one callback only): there `k` multiplies nothing and the one step lasts 0 (`NothingToScale`). In the excluded case the source computes `k = millisec / 0`, which is plus or minus Infinity. An explicit duration of 0 then becomes NaN (`Infinity * 0`), and a non-zero one, as when 5 and -5 cancel, becomes plus or minus Infinity. Integers cannot represent these values, so the model excludes the case.
- The `count < 0` branch of the `m` case can never run (`count` starts at 0 and only grows), so it is not modelled.
- `parseCssText(null)` (the `s || ''`) is not modelled. The model's text is always a string, and the empty text gives the empty map.
- Prototype keys of plain objects (`__proto__` and the like) and Unicode case mapping beyond ASCII are not modelled.
- Values.ParseAnimatedVals: modelled only for two token lists of the same length. compile calls it only then; the flag `z` routes every other pair to the destination text.
- Callbacks: a step without callbacks carries `undefined` in the source and `[]` in the model.

/** The timeline compiler: a pass over the classified instructions that records, step by
    step, the declared values of every property, then gives each step a duration and
    each consecutive pair of declared values one stage on the timeline. */
module Timeline {
  import opened Text
  import Css
  import opened Values

  /** An easing curve, known by the `isEasing` tag it carries (`name.variant`). */
  datatype Easing = Easing(tag: string)

  const DefaultEasing: Easing := Easing("sine.inout")

  /** A completion callback, opaque to the compiler. */
  datatype Callback = Callback(id: nat)

  /** One classified argument: `{p:'s'|'e'|'m'|'c', v}`. */
  datatype Instr = Snapshot(css: string) | Ease(easing: Easing) | Millis(ms: int) | Call(callback: Callback)

  /** A declared value of a property: its tokens `v`, their space-joined text `t`, the step
      `i` that declared it and the flag `z`, set when the next declared value has another
      number of tokens. */
  datatype Entry = Entry(v: seq<string>, t: string, i: nat, z: bool)

  /** The `dup` tracker: no snapshot yet, exactly one (the object itself, which addStep
      has since stripped of already-known keys), or more than one. */
  datatype Dup = Unset | Sole(snap: Css.Snapshot) | Many

  /** The state of compile's instruction pass. */
  datatype Machine = Machine(
    props: map<string, seq<Entry>>,
    times: seq<Option<int>>,
    efuncs: seq<Easing>,
    callbacks: seq<seq<Callback>>,
    count: nat,
    millis: Option<int>,
    efunc: Option<Easing>,
    cb: seq<Callback>,
    dup: Dup)

  const Initial: Machine := Machine(map[], [], [], [], 0, None, None, [], Unset)

  /** JavaScript truthiness of a pending duration: null and 0 are false. */
  predicate Truthy(ms: Option<int>) {
    ms.Some? && ms.value != 0
  }

  // ---------------------------------------------------------------- addStep

  function NewEntry(text: string, c: nat): Entry {
    var v := SplitWs(text);
    Entry(v, Join(v), c, false)
  }

  /** `l.z` set when the token count changes, then the new value pushed. */
  function Extend(a: seq<Entry>, text: string, c: nat): seq<Entry> {
    var e := NewEntry(text, c);
    if a == [] then [e]
    else
      var l := a[|a| - 1];
      a[..|a| - 1] + [l.(z := l.z || |l.v| != |e.v|)] + [e]
  }

  /** A key the snapshot re-declares: already a property, and with a truthy value. */
  predicate Known(props: map<string, seq<Entry>>, p: Css.Snapshot, k: string) {
    k in props && k in p && p[k] != ""
  }

  /** The property histories after step `c` declared snapshot `p`: known keys get the new
      value pushed, the other keys of `p` start a fresh history. */
  function StepProps(props: map<string, seq<Entry>>, p: Css.Snapshot, c: nat): map<string, seq<Entry>> {
    map k | k in props.Keys + p.Keys ::
      if Known(props, p, k) then Extend(props[k], p[k], c)
      else if k in p then [NewEntry(p[k], c)]
      else props[k]
  }

  /** `p` after `delete p[k]` of every known key. */
  function Unknown(props: map<string, seq<Entry>>, p: Css.Snapshot): Css.Snapshot {
    map k | k in p && !Known(props, p, k) :: p[k]
  }

  /** The snapshot a step without one gets: `{__: '' + count}`. */
  function Marker(c: nat): Css.Snapshot {
    map["__" := NatToString(c)]
  }

  /** addStep(p), with `None` for a call without a snapshot. */
  function AfterStep(m: Machine, p: Option<Css.Snapshot>): Machine {
    var snap := if p.Some? then p.value else Marker(m.count);
    var dup :=
      if p.None? then m.dup
      else if m.dup.Unset? then Sole(Unknown(m.props, snap))
      else Many;
    Machine(StepProps(m.props, snap, m.count),
            m.times + [m.millis],
            m.efuncs + [if m.efunc.Some? then m.efunc.value else DefaultEasing],
            m.callbacks + [m.cb],
            m.count + 1, None, None, [], dup)
  }

  /** One turn of compile's switch. */
  function AfterInstr(m: Machine, ins: Instr): Machine {
    match ins
    case Snapshot(css) => AfterStep(m, Some(Css.CssMap(css)))
    case Ease(e) => m.(efunc := Some(e))
    case Millis(v) => if Truthy(m.millis) then AfterStep(m, None).(millis := Some(v)) else m.(millis := Some(v))
    case Call(f) =>
      var m' := m.(cb := m.cb + [f]);
      if Truthy(m'.millis) then m' else AfterStep(m', None)
  }

  /** The state after the instructions, in order; its histories are valid. */
  function Run(args: seq<Instr>): (m: Machine)
    ensures Valid(m)
  {
    if args == [] then Initial
    else
      var m := Run(args[..|args| - 1]);
      AfterInstrValid(m, args[|args| - 1]);
      AfterInstr(m, args[|args| - 1])
  }

  /** The closing step: a pending duration or callbacks close one more step, on the sole
      snapshot if there was one; otherwise a sole snapshot is declared a second time. */
  function AfterEnd(m: Machine): Machine {
    if Truthy(m.millis) || m.cb != [] then AfterStep(m, if m.dup.Sole? then Some(m.dup.snap) else None)
    else if m.dup.Sole? then AfterStep(m, Some(m.dup.snap))
    else m
  }

  /** All steps of an instruction list; their histories are valid. */
  function Steps(args: seq<Instr>): (m: Machine)
    ensures Valid(m)
  {
    var m := Run(args);
    AfterStepValid(m, if m.dup.Sole? then Some(m.dup.snap) else None);
    AfterEnd(m)
  }

  // ---------------------------------------------------------------- the histories' invariant

  /** A property's history: step indices strictly increase and are below the step count,
      `t` is the joined tokens, and `z` is set exactly on the entries whose successor has
      another number of tokens. */
  predicate EntriesValid(a: seq<Entry>, count: nat) {
    && |a| >= 1
    && (forall j :: 0 <= j < |a| ==> a[j].i < count && a[j].t == Join(a[j].v))
    && (forall j :: 0 < j < |a| ==> Linked(a, j))
    && !a[|a| - 1].z
  }

  /** Declarations `j - 1` and `j` of a history: the step index increases, and `z` on the
      first says whether the token count changes. */
  predicate Linked(a: seq<Entry>, j: nat)
    requires 0 < j < |a|
  {
    a[j - 1].i < a[j].i && a[j - 1].z == (|a[j - 1].v| != |a[j].v|)
  }

  predicate Valid(m: Machine) {
    && |m.times| == m.count
    && |m.efuncs| == m.count
    && |m.callbacks| == m.count
    && forall k :: k in m.props ==> EntriesValid(m.props[k], m.count)
  }

  lemma ExtendValid(a: seq<Entry>, text: string, c: nat)
    requires EntriesValid(a, c)
    ensures EntriesValid(Extend(a, text, c), c + 1)
  {
    var e := NewEntry(text, c);
    var l := a[|a| - 1];
    var b := Extend(a, text, c);
    assert b == a[..|a| - 1] + [l.(z := |l.v| != |e.v|)] + [e];
    forall j | 0 < j < |b| ensures Linked(b, j) {
      if j < |a| - 1 {
        assert b[j - 1] == a[j - 1] && b[j] == a[j] && Linked(a, j);
      } else if j == |a| - 1 {
        assert b[j - 1].i == a[j - 1].i && b[j].i == a[j].i && b[j - 1].v == a[j - 1].v && b[j].v == a[j].v;
        assert Linked(a, j);
      }
    }
  }

  /** addStep keeps every history valid. */
  lemma AfterStepValid(m: Machine, p: Option<Css.Snapshot>)
    requires Valid(m)
    ensures Valid(AfterStep(m, p))
    ensures AfterStep(m, p).count == m.count + 1
  {
    var snap := if p.Some? then p.value else Marker(m.count);
    var props := StepProps(m.props, snap, m.count);
    forall k | k in props ensures EntriesValid(props[k], m.count + 1) {
      if Known(m.props, snap, k) {
        ExtendValid(m.props[k], snap[k], m.count);
      } else if k !in snap {
        var a := m.props[k];
        assert EntriesValid(a, m.count);
      }
    }
  }

  /** addStep on a snapshot `p`: a key already animated and re-declared with a non-empty
      value gets the new value appended to its history, recorded at this step, the
      earlier entries staying as they were but for the flag of the previous last one; any
      other key of `p` starts a fresh history, which for a known key declared empty
      discards the old one; the histories of keys outside `p` are left alone. */
  lemma AfterStepRecords(m: Machine, p: Css.Snapshot)
    requires Valid(m)
    ensures var props := AfterStep(m, Some(p)).props;
            && (forall k :: k in props <==> k in m.props || k in p)
            && (forall k :: k in m.props && k in p && p[k] != "" ==>
                  && |props[k]| == |m.props[k]| + 1
                  && props[k][|m.props[k]|] == NewEntry(p[k], m.count)
                  && props[k][..|m.props[k]| - 1] == m.props[k][..|m.props[k]| - 1]
                  && var l := m.props[k][|m.props[k]| - 1];
                     props[k][|m.props[k]| - 1] == l.(z := l.z || |l.v| != |SplitWs(p[k])|))
            && (forall k :: k in p && (k !in m.props || p[k] == "") ==> props[k] == [NewEntry(p[k], m.count)])
            && (forall k :: k in m.props && k !in p ==> props[k] == m.props[k])
  {
    var props := AfterStep(m, Some(p)).props;
    forall k | k in m.props && k in p && p[k] != ""
      ensures |props[k]| == |m.props[k]| + 1 && props[k][|m.props[k]|] == NewEntry(p[k], m.count)
      ensures props[k][..|m.props[k]| - 1] == m.props[k][..|m.props[k]| - 1]
      ensures var l := m.props[k][|m.props[k]| - 1];
              props[k][|m.props[k]| - 1] == l.(z := l.z || |l.v| != |SplitWs(p[k])|)
    {
      var a := m.props[k];
      assert props[k] == Extend(a, p[k], m.count);
      assert Extend(a, p[k], m.count)[..|a| - 1] == a[..|a| - 1];
    }
  }

  /** Which instructions close a step: a snapshot always does, an easing never; a
      duration does when one is already pending, a callback when none is, and a pending
      duration of 0 counts as none. */
  lemma StepClosing(m: Machine, css: string, e: Easing, v: int, f: Callback)
    ensures AfterInstr(m, Snapshot(css)).count == m.count + 1
    ensures AfterInstr(m, Ease(e)).count == m.count
    ensures AfterInstr(m, Millis(v)).count == m.count + (if m.millis.Some? && m.millis.value != 0 then 1 else 0)
    ensures AfterInstr(m, Call(f)).count == m.count + (if m.millis.Some? && m.millis.value != 0 then 0 else 1)
    ensures AfterInstr(m, Millis(v)).millis == Some(v)
  {
  }

  lemma AfterInstrValid(m: Machine, ins: Instr)
    requires Valid(m)
    ensures Valid(AfterInstr(m, ins))
  {
    match ins
    case Snapshot(css) => AfterStepValid(m, Some(Css.CssMap(css)));
    case Ease(e) =>
    case Millis(v) => AfterStepValid(m, None);
    case Call(f) => AfterStepValid(m.(cb := m.cb + [f]), None);
  }

  // ---------------------------------------------------------------- durations

  /** The explicit duration of every step, 0 for a step without one. */
  function Explicits(times: seq<Option<int>>): (xs: seq<int>)
    ensures |xs| == |times|
  {
    seq(|times|, j requires 0 <= j < |times| => if times[j].Some? then times[j].value else 0)
  }

  /** `ds[lo] + ... + ds[hi - 1]`. */
  function SumRange(ds: seq<int>, lo: nat, hi: nat): int
    requires lo <= hi <= |ds|
    decreases hi - lo
  {
    if lo == hi then 0 else SumRange(ds, lo, hi - 1) + ds[hi - 1]
  }

  /** `m`: the sum of the explicit durations. */
  function ExplicitSum(times: seq<Option<int>>): int {
    SumRange(Explicits(times), 0, |times|)
  }

  /** The number of steps before `i`, the first one excepted, without an explicit
      duration. */
  function ImplicitUpTo(times: seq<Option<int>>, i: nat): nat
    requires i <= |times|
  {
    if i <= 1 then 0 else ImplicitUpTo(times, i - 1) + (if times[i - 1].None? then 1 else 0)
  }

  /** `z`: the number of later steps without an explicit duration. */
  function ImplicitCount(times: seq<Option<int>>): nat {
    ImplicitUpTo(times, |times|)
  }

  lemma {:induction false} ImplicitPositive(times: seq<Option<int>>, i: nat, n: nat)
    requires 0 < i < n <= |times| && times[i].None?
    ensures ImplicitUpTo(times, n) > 0
  {
    if i < n - 1 {
      ImplicitPositive(times, i, n - 1);
    }
  }

  /** Without implicit steps, every step after the first has an explicit duration. */
  lemma NoImplicit(times: seq<Option<int>>, i: nat)
    requires ImplicitCount(times) == 0 && 0 < i < |times|
    ensures times[i].Some?
  {
    if times[i].None? {
      ImplicitPositive(times, i, |times|);
    }
  }

  /** Some step has an explicit duration. */
  predicate HasExplicit(times: seq<Option<int>>) {
    exists i :: 0 <= i < |times| && times[i].Some?
  }

  /** With a hint and every later step explicit, the source multiplies each explicit
      duration by the hint over the explicit total; when there is an explicit duration,
      that total must then not be 0. */
  predicate AllocationDefined(times: seq<Option<int>>, hint: Option<int>) {
    !(Truthy(hint) && ImplicitCount(times) == 0 && HasExplicit(times) && ExplicitSum(times) == 0)
  }

  function Max(a: int, b: int): int {
    if a < b then b else a
  }

  function Abs(x: int): int {
    if x < 0 then -x else x
  }

  /** `Math.round(a / b)` on the exact quotient: the nearest integer, halves rounded up. */
  function RoundRatio(a: int, b: int): int
    requires b != 0
  {
    if b > 0 then (2 * a + b) / (2 * b) else (-2 * a - b) / (-2 * b)
  }

  lemma DivBounds(n: int, d: int)
    requires d > 0
    ensures d * (n / d) <= n < d * (n / d) + d
  {
  }

  lemma Twice(b: int, q: int)
    ensures (2 * b) * q == 2 * (b * q)
  {
  }

  lemma Negated(b: int, q: int)
    ensures (-b) * q == -(b * q)
  {
  }

  lemma RoundRatioPositive(a: int, b: int)
    requires b > 0
    ensures -b < 2 * (b * RoundRatio(a, b) - a) <= b
  {
    DivBounds(2 * a + b, 2 * b);
    Twice(b, RoundRatio(a, b));
  }

  /** `RoundRatio(a, b)` is the integer `q` with `q - 1/2 <= a / b < q + 1/2`, stated
      without division: `b * q` lies within half of `b` of `a`, on the side that rounds
      halves up. */
  lemma RoundRatioNearest(a: int, b: int)
    requires b != 0
    ensures b > 0 ==> -b < 2 * (b * RoundRatio(a, b) - a) <= b
    ensures b < 0 ==> b <= 2 * (b * RoundRatio(a, b) - a) < -b
  {
    if b > 0 {
      RoundRatioPositive(a, b);
    } else {
      RoundRatioPositive(-a, -b);
      Negated(b, RoundRatio(a, b));
    }
  }

  lemma RoundRatioError(a: int, b: int)
    requires b != 0
    ensures -Abs(b) <= 2 * (b * RoundRatio(a, b) - a) <= Abs(b)
  {
    RoundRatioNearest(a, b);
  }

  /** Rounding a whole number leaves it as it is. */
  lemma RoundRatioWhole(a: int)
    ensures RoundRatio(a, 1) == a
  {
  }

  /** The duration `d` of a later step without one: an equal share of what the hint
      leaves after the explicit durations (never negative), or one second without a
      hint. */
  function ImplicitDuration(times: seq<Option<int>>, hint: Option<int>): int
    requires ImplicitCount(times) > 0
  {
    if Truthy(hint) then Max(0, RoundRatio(hint.value - ExplicitSum(times), ImplicitCount(times)))
    else 1000
  }

  /** An explicit duration `t` times the factor `k`, rounded: `k` is the hint over the
      explicit total when no later step is implicit and there is a hint, 1 otherwise. */
  function Scaled(times: seq<Option<int>>, hint: Option<int>, t: int): int
    requires AllocationDefined(times, hint) && HasExplicit(times)
  {
    if ImplicitCount(times) == 0 && Truthy(hint) then RoundRatio(hint.value * t, ExplicitSum(times))
    else RoundRatio(t, 1)
  }

  function Duration(times: seq<Option<int>>, hint: Option<int>, i: nat): int
    requires i < |times| && AllocationDefined(times, hint)
  {
    match times[i]
    case Some(t) => assert times[i].Some?; Scaled(times, hint, t)
    case None =>
      if i == 0 then 0
      else ImplicitPositive(times, i, |times|); ImplicitDuration(times, hint)
  }

  /** The duration of every step. */
  function Allocate(times: seq<Option<int>>, hint: Option<int>): (ds: seq<int>)
    requires AllocationDefined(times, hint)
    ensures |ds| == |times|
  {
    seq(|times|, i requires 0 <= i < |times| => Duration(times, hint, i))
  }

  /** `starts`: where each step's duration ends, with a leading 0. */
  function Starts(ds: seq<int>): (r: seq<int>)
    ensures |r| == |ds| + 1
  {
    seq(|ds| + 1, i requires 0 <= i <= |ds| => SumRange(ds, 0, i))
  }

  /** The start times are the prefix sums of the durations: the first is 0 and each
      next one adds a step's duration. */
  lemma StartsArePrefixSums(ds: seq<int>, i: nat)
    requires i < |ds|
    ensures Starts(ds)[0] == 0 && Starts(ds)[i + 1] == Starts(ds)[i] + ds[i]
  {
  }

  lemma {:induction false} SumRangeAppend(ds: seq<int>, x: int, lo: nat, hi: nat)
    requires lo <= hi <= |ds|
    ensures SumRange(ds + [x], lo, hi) == SumRange(ds, lo, hi)
    decreases hi - lo
  {
    if lo < hi {
      SumRangeAppend(ds, x, lo, hi - 1);
    }
  }

  lemma {:induction false} SumRangeSplit(ds: seq<int>, lo: nat, mid: nat, hi: nat)
    requires lo <= mid <= hi <= |ds|
    ensures SumRange(ds, lo, hi) == SumRange(ds, lo, mid) + SumRange(ds, mid, hi)
    decreases hi - mid
  {
    if mid < hi {
      SumRangeSplit(ds, lo, mid, hi - 1);
    }
  }

  lemma {:induction false} SumRangeNonNegative(ds: seq<int>, lo: nat, hi: nat)
    requires lo <= hi <= |ds|
    requires forall i :: lo <= i < hi ==> ds[i] >= 0
    ensures SumRange(ds, lo, hi) >= 0
    decreases hi - lo
  {
    if lo < hi {
      SumRangeNonNegative(ds, lo, hi - 1);
    }
  }

  /** compile's two duration loops: the explicit total and the implicit count, then each
      step's duration and the running start times. The factor `k` is kept as the exact
      fraction `kn / kd`. */
  method AllocateTimes(times: seq<Option<int>>, hint: Option<int>) returns (durs: seq<int>, starts: seq<int>)
    requires AllocationDefined(times, hint)
    ensures durs == Allocate(times, hint)
    ensures starts == Starts(durs)
  {
    var xs := Explicits(times);
    var m, z := 0, 0;
    for i := 0 to |times|
      invariant m == SumRange(xs, 0, i) && z == ImplicitUpTo(times, i)
    {
      if times[i].Some? {
        m := m + times[i].value;
      } else if i > 0 {
        z := z + 1;
      }
    }
    var kn, kd, d;
    if z != 0 {
      kn, kd := 1, 1;
      d := if Truthy(hint) then Max(0, RoundRatio(hint.value - m, z)) else 1000;
    } else {
      kn, kd := if Truthy(hint) then hint.value else 1, if Truthy(hint) then m else 1;
      d := if Truthy(hint) then hint.value else 1000;
    }
    durs, starts := [], [0];
    for i := 0 to |times|
      invariant |durs| == i
      invariant forall j :: 0 <= j < i ==> durs[j] == Duration(times, hint, j)
      invariant starts == Starts(durs)
    {
      var t := if times[i].None? then (if i > 0 then d else 0) else RoundRatio(kn * times[i].value, kd);
      if times[i].None? && i > 0 {
        ImplicitPositive(times, i, |times|);
      }
      StartsAppend(durs, t);
      durs, starts := durs + [t], starts + [starts[i] + t];
    }
  }

  lemma StartsAppend(ds: seq<int>, t: int)
    ensures Starts(ds + [t]) == Starts(ds) + [Starts(ds)[|ds|] + t]
  {
    forall j | 0 <= j <= |ds| ensures SumRange(ds + [t], 0, j) == SumRange(ds, 0, j) {
      SumRangeAppend(ds, t, 0, j);
    }
  }

  /** With implicit steps, the explicit durations are kept as they are, the first step
      without one lasts 0 and every later one gets the share `d`. */
  lemma ExplicitKept(times: seq<Option<int>>, hint: Option<int>, i: nat)
    requires ImplicitCount(times) > 0 && i < |times|
    ensures Allocate(times, hint)[i] == if times[i].Some? then times[i].value
                                       else if i == 0 then 0 else ImplicitDuration(times, hint)
  {
    if times[i].Some? {
      RoundRatioWhole(times[i].value);
    }
  }

  /** Without a truthy hint and with every later step explicit, `k` is 1: each step
      keeps its own duration, and a first step without one lasts 0. */
  lemma UnhintedKept(times: seq<Option<int>>, hint: Option<int>, i: nat)
    requires ImplicitCount(times) == 0 && !Truthy(hint) && i < |times|
    ensures Allocate(times, hint)[i] == if times[i].Some? then times[i].value else 0
  {
    if times[i].Some? {
      RoundRatioWhole(times[i].value);
    } else if i > 0 {
      NoImplicit(times, i);
    }
  }

  /** Durations that add the share `d` to the explicit duration of every later step
      without one add up, before `i`, to the explicit ones plus one share per implicit
      step. */
  lemma {:induction false} SharedSum(times: seq<Option<int>>, ds: seq<int>, d: int, i: nat)
    requires |ds| == |times| && i <= |times|
    requires forall j :: 0 <= j < |ds| ==>
               ds[j] == Explicits(times)[j] + (if j > 0 && times[j].None? then d else 0)
    ensures SumRange(ds, 0, i) == SumRange(Explicits(times), 0, i) + ImplicitUpTo(times, i) * d
  {
    if i > 0 {
      SharedSum(times, ds, d, i - 1);
      var c := ImplicitUpTo(times, i - 1);
      assert (c + 1) * d == c * d + d;
    }
  }

  /** With implicit steps, the durations add up to the explicit ones plus one share per
      implicit step. */
  lemma ImplicitTotal(times: seq<Option<int>>, hint: Option<int>)
    requires ImplicitCount(times) > 0
    ensures SumRange(Allocate(times, hint), 0, |times|)
            == ExplicitSum(times) + ImplicitCount(times) * ImplicitDuration(times, hint)
  {
    var ds, d := Allocate(times, hint), ImplicitDuration(times, hint);
    forall j | 0 <= j < |ds|
      ensures ds[j] == Explicits(times)[j] + (if j > 0 && times[j].None? then d else 0)
    {
      ExplicitKept(times, hint, j);
    }
    SharedSum(times, ds, d, |times|);
  }

  /** With a hint and implicit steps, the whole timeline comes to the hint, up to half a
      millisecond of rounding per implicit step, as long as the explicit durations do
      not exceed the hint already. */
  lemma ImplicitStepsMeetHint(times: seq<Option<int>>, hint: Option<int>)
    requires Truthy(hint) && ImplicitCount(times) > 0 && ExplicitSum(times) <= hint.value
    ensures var total := SumRange(Allocate(times, hint), 0, |times|);
            2 * (total - hint.value) <= ImplicitCount(times) && 2 * (hint.value - total) <= ImplicitCount(times)
  {
    ImplicitTotal(times, hint);
    RoundRatioNearest(hint.value - ExplicitSum(times), ImplicitCount(times));
  }

  /** If every `es[j]` is within half of `a` of 0, the first `i` add up to within half
      of `i * a`. */
  lemma {:induction false} BoundedSum(es: seq<int>, a: int, i: nat)
    requires i <= |es|
    requires forall j :: 0 <= j < |es| ==> -a <= 2 * es[j] <= a
    ensures -(i * a) <= 2 * SumRange(es, 0, i) <= i * a
  {
    if i > 0 {
      BoundedSum(es, a, i - 1);
      assert i * a == (i - 1) * a + a;
    }
  }

  lemma MulAdd(a: int, b: int, c: int)
    ensures a * (b + c) == a * b + a * c
  {
  }

  /** Summing `p * xs[j] - q * ys[j]` is `p` times the sum of `xs` less `q` times the
      sum of `ys`. */
  lemma {:induction false} SumLinear(es: seq<int>, xs: seq<int>, ys: seq<int>, p: int, q: int, i: nat)
    requires |es| == |xs| == |ys| && i <= |es|
    requires forall j :: 0 <= j < |es| ==> es[j] == p * xs[j] - q * ys[j]
    ensures SumRange(es, 0, i) == p * SumRange(xs, 0, i) - q * SumRange(ys, 0, i)
  {
    if i > 0 {
      SumLinear(es, xs, ys, p, q, i - 1);
      MulAdd(p, SumRange(xs, 0, i - 1), xs[i - 1]);
      MulAdd(q, SumRange(ys, 0, i - 1), ys[i - 1]);
    }
  }

  lemma MulStrict(c: int, a: int, b: int)
    requires c > 0 && a < b
    ensures c * a < c * b
  {
  }

  lemma MulCancel(c: int, a: int, b: int)
    requires c > 0 && c * a <= c * b
    ensures a <= b
  {
    if a > b {
      MulStrict(c, b, a);
    }
  }

  lemma CancelAbs(m: int, x: int, n: int)
    requires m != 0 && -(n * Abs(m)) <= 2 * (m * x) <= n * Abs(m)
    ensures -n <= 2 * x <= n
  {
    var c := Abs(m);
    assert c * (-n) == -(n * c);
    if m > 0 {
      assert c * (2 * x) == 2 * (m * x);
    } else {
      assert c * (2 * x) == -(2 * (m * x));
    }
    MulCancel(c, 2 * x, n);
    MulCancel(c, -n, 2 * x);
  }

  lemma MulSub(m: int, a: int, b: int)
    ensures m * a - b * m == m * (a - b)
  {
  }

  /** Without implicit steps, every duration is its explicit one scaled and rounded. */
  lemma ScaledStep(times: seq<Option<int>>, hint: Option<int>, j: nat)
    requires Truthy(hint) && ImplicitCount(times) == 0 && AllocationDefined(times, hint) && j < |times|
    requires HasExplicit(times)
    ensures Allocate(times, hint)[j] == RoundRatio(hint.value * Explicits(times)[j], ExplicitSum(times))
  {
    if j > 0 {
      NoImplicit(times, j);
    } else if times[j].None? {
      assert hint.value * 0 == 0;
    }
  }

  /** With a hint and no implicit steps, the explicit durations are scaled so that the
      timeline comes to the hint, up to half a millisecond of rounding per step. */
  lemma ExplicitStepsMeetHint(times: seq<Option<int>>, hint: Option<int>)
    requires Truthy(hint) && ImplicitCount(times) == 0 && AllocationDefined(times, hint)
    requires HasExplicit(times)
    ensures var total := SumRange(Allocate(times, hint), 0, |times|);
            2 * (total - hint.value) <= |times| && 2 * (hint.value - total) <= |times|
  {
    var n, h, m := |times|, hint.value, ExplicitSum(times);
    var ds, xs := Allocate(times, hint), Explicits(times);
    var es := seq(n, j requires 0 <= j < n => m * ds[j] - h * xs[j]);
    forall j | 0 <= j < n ensures -Abs(m) <= 2 * es[j] <= Abs(m) {
      ScaledStep(times, hint, j);
      RoundRatioError(h * xs[j], m);
    }
    BoundedSum(es, Abs(m), n);
    SumLinear(es, ds, xs, m, h, n);
    var total := SumRange(ds, 0, n);
    MulSub(m, total, h);
    CancelAbs(m, total - h, n);
  }

  /** With every later step explicit but no explicit duration at all, there is at most
      the first step, which lasts 0: the factor `k` multiplies nothing. */
  lemma NothingToScale(times: seq<Option<int>>, hint: Option<int>)
    requires ImplicitCount(times) == 0 && !HasExplicit(times)
    ensures |times| <= 1
    ensures forall i :: 0 <= i < |times| ==> Allocate(times, hint)[i] == 0
  {
    if |times| > 1 {
      assert false;
    }
  }

  /** Non-negative explicit durations and a non-negative hint give non-negative
      durations, and so non-decreasing start times. */
  lemma DurationsNonNegative(times: seq<Option<int>>, hint: Option<int>)
    requires AllocationDefined(times, hint)
    requires forall i :: 0 <= i < |times| && times[i].Some? ==> times[i].value >= 0
    requires hint.Some? ==> hint.value >= 0
    ensures forall i :: 0 <= i < |times| ==> Allocate(times, hint)[i] >= 0
  {
    var xs := Explicits(times);
    SumRangeNonNegative(xs, 0, |times|);
    forall i | 0 <= i < |times| ensures Allocate(times, hint)[i] >= 0 {
      if times[i].Some? {
        var t := times[i].value;
        if ImplicitCount(times) == 0 && Truthy(hint) {
          RoundRatioNearest(hint.value * t, ExplicitSum(times));
          MulNonNegative(hint.value, t);
        } else {
          RoundRatioWhole(t);
        }
      }
    }
  }

  lemma MulNonNegative(a: int, b: int)
    requires a >= 0 && b >= 0
    ensures a * b >= 0
  {
  }

  // ---------------------------------------------------------------- stages

  /** One tween of the timeline: start `t`, duration `d`, the callbacks `c` of the step it
      ends on, the easing `e` (set only for animated values), the property `p` and its
      value `v`; marker stages of steps without a snapshot have neither `p` nor `v`. */
  datatype Stage = Stage(t: int, d: int, c: seq<Callback>, e: Option<Easing>, p: Option<string>, v: Option<Diff>)

  /** The value the stage from `a[j - 1]` to `a[j]` animates: the destination text when
      the token counts differ, what the differ makes of the two token lists otherwise. */
  function PairValue(a: seq<Entry>, j: nat): Diff
    requires 0 < j < |a| && (!a[j - 1].z ==> |a[j - 1].v| == |a[j].v|)
  {
    if a[j - 1].z then Literal(a[j].t) else AnimatedVals(a[j - 1].v, a[j].v)
  }

  /** The stage of property `k` between its declarations `j - 1` and `j`. */
  function PairStage(m: Machine, ds: seq<int>, k: string, j: nat): Stage
    requires Valid(m) && |ds| == m.count && k in m.props && 0 < j < |m.props[k]|
  {
    var a := m.props[k];
    assert Linked(a, j);
    var bi, ai := a[j - 1].i, a[j].i;
    Tween(m, k, Starts(ds)[bi + 1], SumRange(ds, bi + 1, ai + 1), ai, PairValue(a, j))
  }

  /** The stage that animates `k` to `vals` from `t` for `d` ms and ends on step `ai`:
      it has the easing of that step when `vals` is a list of deltas. */
  function Tween(m: Machine, k: string, t: int, d: int, ai: nat, vals: Diff): Stage
    requires ai < |m.callbacks| && ai < |m.efuncs|
  {
    Stage(t, d, m.callbacks[ai], if vals.Deltas? then Some(m.efuncs[ai]) else None, Some(k), Some(vals))
  }

  /** The instant stage of declaration `j` of a property declared once, or of a step
      marker. */
  function MarkerStage(m: Machine, ds: seq<int>, k: string, j: nat): Stage
    requires Valid(m) && |ds| == m.count && k in m.props && j < |m.props[k]|
  {
    var e := m.props[k][j];
    Stage(Starts(ds)[e.i + 1], 0, m.callbacks[e.i], None,
          if k == "__" then None else Some(k), if k == "__" then None else Some(Literal(e.t)))
  }

  /** Whether property `k` is animated pair by pair rather than by instant stages. */
  predicate Animated(m: Machine, k: string)
    requires k in m.props
  {
    |m.props[k]| > 1 && k != "__"
  }

  /** The stages of one property, in the order compile pushes them (last pair first). */
  function PropStages(m: Machine, ds: seq<int>, k: string): seq<Stage>
    requires Valid(m) && |ds| == m.count && k in m.props
  {
    var a := m.props[k];
    if Animated(m, k) then seq(|a| - 1, n requires 0 <= n < |a| - 1 => PairStage(m, ds, k, |a| - 1 - n))
    else seq(|a|, n requires 0 <= n < |a| => MarkerStage(m, ds, k, |a| - 1 - n))
  }

  /** A stage between declarations at steps `bi < ai` starts where step `bi` ends and
      ends where step `ai` ends. */
  lemma PairStageSpan(m: Machine, ds: seq<int>, k: string, j: nat)
    requires Valid(m) && |ds| == m.count && k in m.props && 0 < j < |m.props[k]|
    ensures var a, s := m.props[k], PairStage(m, ds, k, j);
            a[j - 1].i < a[j].i && s.t == Starts(ds)[a[j - 1].i + 1] && s.t + s.d == Starts(ds)[a[j].i + 1]
  {
    PairStageTiming(m, ds, k, j);
    var a, s := m.props[k], PairStage(m, ds, k, j);
    var lo, hi := a[j - 1].i + 1, a[j].i + 1;
    StartsSpan(ds, lo, hi);
    assert s.t + s.d == Starts(ds)[lo] + SumRange(ds, lo, hi);
  }

  /** Where a pair stage starts and how long it lasts. */
  lemma PairStageTiming(m: Machine, ds: seq<int>, k: string, j: nat)
    requires Valid(m) && |ds| == m.count && k in m.props && 0 < j < |m.props[k]|
    ensures var a, s := m.props[k], PairStage(m, ds, k, j);
            a[j - 1].i < a[j].i && s.t == Starts(ds)[a[j - 1].i + 1] && s.d == SumRange(ds, a[j - 1].i + 1, a[j].i + 1)
  {
    PairStageIsTween(m, ds, k, j);
  }

  /** The steps from `lo` up to `hi` last from the start of `lo` to the start of `hi`. */
  lemma StartsSpan(ds: seq<int>, lo: nat, hi: nat)
    requires lo <= hi <= |ds|
    ensures Starts(ds)[lo] + SumRange(ds, lo, hi) == Starts(ds)[hi]
  {
    assert Starts(ds)[lo] == SumRange(ds, 0, lo) && Starts(ds)[hi] == SumRange(ds, 0, hi);
    SumRangeSplit(ds, 0, lo, hi);
  }

  /** Consecutive stages of a property abut: each ends where the next one starts. */
  lemma ConsecutiveStagesAbut(m: Machine, ds: seq<int>, k: string, j: nat)
    requires Valid(m) && |ds| == m.count && k in m.props && 0 < j && j + 1 < |m.props[k]|
    ensures PairStage(m, ds, k, j).t + PairStage(m, ds, k, j).d == PairStage(m, ds, k, j + 1).t
  {
    PairStageSpan(m, ds, k, j);
    PairStageSpan(m, ds, k, j + 1);
  }

  /** With non-negative durations the stages of a property do not overlap: a stage
      lasts no less than 0 and the next one starts no earlier than it ends. */
  lemma PairStagesInOrder(m: Machine, ds: seq<int>, k: string, j: nat)
    requires Valid(m) && |ds| == m.count && k in m.props && 0 < j < |m.props[k]|
    requires forall i :: 0 <= i < |ds| ==> ds[i] >= 0
    ensures PairStage(m, ds, k, j).d >= 0
    ensures j + 1 < |m.props[k]| ==> PairStage(m, ds, k, j).t + PairStage(m, ds, k, j).d <= PairStage(m, ds, k, j + 1).t
  {
    var a := m.props[k];
    assert Linked(a, j);
    SumRangeNonNegative(ds, a[j - 1].i + 1, a[j].i + 1);
    if j + 1 < |a| {
      ConsecutiveStagesAbut(m, ds, k, j);
    }
  }

  /** What a stage between two declared values animates: the destination text verbatim
      when the token counts differ, otherwise what parseAnimatedVals makes of the two
      token lists; it has an easing, the one of its last step, exactly when that is a
      list of deltas, and it carries the callbacks of its last step. */
  lemma PairStageValue(m: Machine, ds: seq<int>, k: string, j: nat)
    requires Valid(m) && |ds| == m.count && k in m.props && 0 < j < |m.props[k]|
    ensures var a, s := m.props[k], PairStage(m, ds, k, j);
            && s.p == Some(k) && s.v.Some?
            && (|a[j - 1].v| != |a[j].v| ==> s.v.value == Literal(Join(a[j].v)))
            && (|a[j - 1].v| == |a[j].v| ==> s.v.value == AnimatedVals(a[j - 1].v, a[j].v))
            && (s.e.Some? <==> s.v.value.Deltas?)
            && (s.e.Some? ==> s.e.value == m.efuncs[a[j].i])
            && s.c == m.callbacks[a[j].i]
  {
    var a := m.props[k];
    assert Linked(a, j);
    assert a[j].t == Join(a[j].v);
  }

  /** A marker stage is instantaneous and sits at the end of its step; one for a step
      marker carries neither a property nor a value, one for a property declared once
      carries the property and its text. */
  lemma MarkerStageShape(m: Machine, ds: seq<int>, k: string, j: nat)
    requires Valid(m) && |ds| == m.count && k in m.props && j < |m.props[k]|
    ensures var e, s := m.props[k][j], MarkerStage(m, ds, k, j);
            && s.d == 0 && s.e.None? && s.t == Starts(ds)[e.i] + ds[e.i]
            && (k == "__" ==> s.p.None? && s.v.None?)
            && (k != "__" ==> s.p == Some(k) && s.v == Some(Literal(Join(e.v))))
  {
    var e := m.props[k][j];
    assert e.i < m.count && e.t == Join(e.v);
  }

  /** The stages of the properties in `keys`, whatever order they are visited in. */
  ghost function Emitted(m: Machine, ds: seq<int>, keys: set<string>): multiset<Stage>
    requires Valid(m) && |ds| == m.count && keys <= m.props.Keys
  {
    if keys == {} then multiset{}
    else
      var k :| k in keys;
      multiset(PropStages(m, ds, k)) + Emitted(m, ds, keys - {k})
  }

  lemma {:induction false} EmittedPick(m: Machine, ds: seq<int>, keys: set<string>, k: string)
    requires Valid(m) && |ds| == m.count && keys <= m.props.Keys && k in keys
    ensures Emitted(m, ds, keys) == multiset(PropStages(m, ds, k)) + Emitted(m, ds, keys - {k})
    decreases |keys|
  {
    var k' :| k' in keys && Emitted(m, ds, keys) == multiset(PropStages(m, ds, k')) + Emitted(m, ds, keys - {k'});
    if k' != k {
      EmittedPick(m, ds, keys - {k'}, k);
      EmittedPick(m, ds, keys - {k}, k');
      assert keys - {k'} - {k} == keys - {k} - {k'};
    }
  }

  /** Appending the stages of `k` to `stages` moves them out of what is left to emit. */
  lemma EmittedMore(m: Machine, ds: seq<int>, keys: set<string>, k: string, stages: seq<Stage>, emitted: seq<Stage>)
    requires Valid(m) && |ds| == m.count && keys <= m.props.Keys && k in keys && emitted == PropStages(m, ds, k)
    ensures multiset(stages + emitted) + Emitted(m, ds, keys - {k}) == multiset(stages) + Emitted(m, ds, keys)
  {
    EmittedPick(m, ds, keys, k);
  }

  /** parseAnimatedVals throws for the pair ending at declaration `j` of `k`. */
  predicate PairThrows(m: Machine, k: string, j: nat)
    requires Valid(m) && k in m.props
  {
    && Animated(m, k) && 0 < j < |m.props[k]|
    && assert Linked(m.props[k], j); PairValue(m.props[k], j).TypeError?
  }

  /** Some pair of `k` makes parseAnimatedVals throw. */
  predicate PropThrows(m: Machine, k: string)
    requires Valid(m) && k in m.props
  {
    exists j :: 0 < j < |m.props[k]| && PairThrows(m, k, j)
  }

  /** compile throws: some animated pair has a `#` token that makes parseAnimatedVals
      throw. */
  predicate Throws(m: Machine)
    requires Valid(m)
  {
    exists k :: k in m.props && PropThrows(m, k)
  }

  /** compile's stage loop: the stages of every property, or a throw. */
  method BuildStages(m: Machine, ds: seq<int>, starts: seq<int>) returns (stages: seq<Stage>, thrown: bool)
    requires Valid(m) && |ds| == m.count && starts == Starts(ds)
    ensures thrown <==> Throws(m)
    ensures !thrown ==> multiset(stages) == Emitted(m, ds, m.props.Keys)
  {
    stages := [];
    var todo := m.props.Keys;
    while todo != {}
      invariant todo <= m.props.Keys
      invariant multiset(stages) + Emitted(m, ds, todo) == Emitted(m, ds, m.props.Keys)
      invariant forall k :: k in m.props && k !in todo ==> !PropThrows(m, k)
      decreases |todo|
    {
      var k :| k in todo;
      var emitted;
      emitted, thrown := EmitProperty(m, ds, starts, k);
      if thrown {
        return;
      }
      EmittedMore(m, ds, todo, k, stages, emitted);
      stages := stages + emitted;
      todo := todo - {k};
    }
    thrown := false;
  }

  /** The body of the stage loop for one property. */
  method EmitProperty(m: Machine, ds: seq<int>, starts: seq<int>, k: string) returns (emitted: seq<Stage>, thrown: bool)
    requires Valid(m) && |ds| == m.count && starts == Starts(ds) && k in m.props
    ensures thrown <==> PropThrows(m, k)
    ensures !thrown ==> emitted == PropStages(m, ds, k)
  {
    if Animated(m, k) {
      emitted, thrown := EmitPairs(m, ds, starts, k);
    } else {
      emitted := EmitMarkers(m, ds, starts, k);
      thrown := false;
    }
  }

  /** One stage per consecutive pair of declarations, last pair first. */
  method EmitPairs(m: Machine, ds: seq<int>, starts: seq<int>, k: string) returns (emitted: seq<Stage>, thrown: bool)
    requires Valid(m) && |ds| == m.count && starts == Starts(ds) && k in m.props && Animated(m, k)
    ensures thrown <==> PropThrows(m, k)
    ensures !thrown ==> emitted == PropStages(m, ds, k)
  {
    var n := |m.props[k]|;
    var i := n - 1;
    emitted := [];
    while i > 0
      invariant 0 <= i <= n - 1
      invariant emitted == PropStages(m, ds, k)[..n - 1 - i]
      invariant NoThrowAbove(m, k, i)
    {
      var s;
      s, thrown := EmitPair(m, ds, starts, k, i);
      if thrown {
        return;
      }
      NoThrowBelow(m, k, i);
      assert s == PropStages(m, ds, k)[n - 1 - i];
      assert PropStages(m, ds, k)[..n - i] == PropStages(m, ds, k)[..n - 1 - i] + [s];
      emitted := emitted + [s];
      i := i - 1;
    }
    thrown := false;
  }

  /** No pair of `k` after declaration `i` throws. */
  predicate NoThrowAbove(m: Machine, k: string, i: nat)
    requires Valid(m) && k in m.props
  {
    forall j :: i < j < |m.props[k]| ==> !PairThrows(m, k, j)
  }

  lemma NoThrowBelow(m: Machine, k: string, i: nat)
    requires Valid(m) && k in m.props && 0 < i
    requires NoThrowAbove(m, k, i) && !PairThrows(m, k, i)
    ensures NoThrowAbove(m, k, i - 1)
  {
    forall j | i - 1 < j < |m.props[k]| ensures !PairThrows(m, k, j) {
      if j != i {
        assert i < j;
      }
    }
  }

  /** The stage between declarations `i - 1` and `i` of `k`: it starts with the step after
      the first, lasts until the end of the second, and animates what parseAnimatedVals
      makes of the two values (or jumps to the second when the token counts differ). */
  method EmitPair(m: Machine, ds: seq<int>, starts: seq<int>, k: string, i: nat) returns (s: Stage, thrown: bool)
    requires Valid(m) && |ds| == m.count && starts == Starts(ds) && k in m.props && Animated(m, k)
    requires 0 < i < |m.props[k]|
    ensures thrown <==> PairThrows(m, k, i)
    ensures !thrown ==> s == PairStage(m, ds, k, i)
  {
    var a := m.props[k];
    assert Linked(a, i);
    var before, after := a[i - 1], a[i];
    var bi, ai := before.i, after.i;
    var d := SpanDuration(ds, bi + 1, ai + 1);
    var vals := PairVals(a, i);
    thrown := vals.TypeError?;
    s := Tween(m, k, starts[bi + 1], d, ai, vals);
    PairStageIsTween(m, ds, k, i);
  }

  lemma PairStageIsTween(m: Machine, ds: seq<int>, k: string, j: nat)
    requires Valid(m) && |ds| == m.count && k in m.props && 0 < j < |m.props[k]|
    ensures var a := m.props[k];
            && Linked(a, j)
            && PairStage(m, ds, k, j) == Tween(m, k, Starts(ds)[a[j - 1].i + 1], SumRange(ds, a[j - 1].i + 1, a[j].i + 1), a[j].i, PairValue(a, j))
  {
    var a := m.props[k];
    assert EntriesValid(a, m.count);
    assert Linked(a, j);
  }

  /** What the stage from `a[i - 1]` to `a[i]` animates. */
  method PairVals(a: seq<Entry>, i: nat) returns (vals: Diff)
    requires 0 < i < |a| && (!a[i - 1].z ==> |a[i - 1].v| == |a[i].v|)
    ensures vals == PairValue(a, i)
  {
    if a[i - 1].z {
      vals := Literal(a[i].t);
    } else {
      vals := ParseAnimatedVals(a[i - 1].v, a[i].v);
    }
  }

  /** The durations of steps `lo` up to `hi`, added one by one. */
  method SpanDuration(ds: seq<int>, lo: nat, hi: nat) returns (d: int)
    requires lo <= hi <= |ds|
    ensures d == SumRange(ds, lo, hi)
  {
    d := 0;
    for j := lo to hi
      invariant d == SumRange(ds, lo, j)
    {
      d := d + ds[j];
    }
  }

  /** One instant stage per declaration, last first. */
  method EmitMarkers(m: Machine, ds: seq<int>, starts: seq<int>, k: string) returns (emitted: seq<Stage>)
    requires Valid(m) && |ds| == m.count && starts == Starts(ds) && k in m.props && !Animated(m, k)
    ensures emitted == PropStages(m, ds, k)
  {
    var a := m.props[k];
    var i := |a| - 1;
    emitted := [];
    while i >= 0
      invariant -1 <= i <= |a| - 1
      invariant emitted == PropStages(m, ds, k)[..|a| - 1 - i]
    {
      var state := a[i];
      var si := state.i;
      var w := k == "__";
      var s := Stage(starts[si + 1], 0, m.callbacks[si], None, None, None);
      if !w {
        s := s.(p := Some(k), v := Some(Literal(state.t)));
      }
      assert s == MarkerStage(m, ds, k, i) == PropStages(m, ds, k)[|a| - 1 - i];
      assert PropStages(m, ds, k)[..|a| - i] == PropStages(m, ds, k)[..|a| - 1 - i] + [s];
      emitted := emitted + [s];
      i := i - 1;
    }
  }

  // ---------------------------------------------------------------- sort

  /** The comparator's order: by start, then by duration. */
  predicate StageLe(x: Stage, y: Stage) {
    x.t < y.t || (x.t == y.t && x.d <= y.d)
  }

  predicate SortedByTime(s: seq<Stage>) {
    forall x, y :: 0 <= x < y < |s| ==> StageLe(s[x], s[y])
  }

  /** `stages.sort(...)`: ascending by start, then by duration. */
  method SortStages(a: array<Stage>)
    modifies a
    ensures SortedByTime(a[..])
    ensures multiset(a[..]) == multiset(old(a[..]))
  {
    var i := 0;
    while i < a.Length
      invariant 0 <= i <= a.Length
      invariant forall x, y :: 0 <= x < y < i ==> StageLe(a[x], a[y])
      invariant multiset(a[..]) == multiset(old(a[..]))
    {
      var j := i;
      while j > 0 && !StageLe(a[j - 1], a[j])
        invariant 0 <= j <= i
        invariant forall x, y :: 0 <= x < y <= i && x != j && y != j ==> StageLe(a[x], a[y])
        invariant forall y :: j < y <= i ==> StageLe(a[j], a[y])
        invariant multiset(a[..]) == multiset(old(a[..]))
      {
        a[j - 1], a[j] := a[j], a[j - 1];
        j := j - 1;
      }
      i := i + 1;
    }
  }

  // ---------------------------------------------------------------- compile

  /** Flagging the last entry when the token count changes and then pushing the new
      one, as addStep does, is `Extend`. */
  lemma FlagThenPush(a: seq<Entry>, text: string, c: nat)
    requires a != []
    ensures var v := SplitWs(text);
            var l := a[|a| - 1];
            (if |l.v| != |v| then a[|a| - 1 := l.(z := true)] else a) + [Entry(v, Join(v), c, false)]
            == Extend(a, text, c)
  {
  }

  lemma UnknownPointwise(props: map<string, seq<Entry>>, q: Css.Snapshot, rest: Css.Snapshot)
    requires forall k :: k in rest ==> k in q && rest[k] == q[k]
    requires forall k :: k in q ==> (k in rest <==> !Known(props, q, k))
    ensures rest == Unknown(props, q)
  {
  }

  lemma StepPropsPointwise(props0: map<string, seq<Entry>>, q: Css.Snapshot, c: nat,
                           props1: map<string, seq<Entry>>, rest: Css.Snapshot, props2: map<string, seq<Entry>>)
    requires rest == Unknown(props0, q)
    requires forall k :: k in props1 <==> k in props0
    requires forall k :: k in props1 ==>
      props1[k] == if Known(props0, q, k) then Extend(props0[k], q[k], c) else props0[k]
    requires forall k :: k in props2 <==> k in props1 || k in rest
    requires forall k :: k in props2 ==> props2[k] == if k in rest then [NewEntry(rest[k], c)] else props1[k]
    ensures props2 == StepProps(props0, q, c)
  {
  }

  /** addStep's first loop after visiting every key of `props` outside `keys`: the
      known ones have their new value pushed in `ps`; the others are as they were. */
  ghost predicate PushedProps(props: map<string, seq<Entry>>, q: Css.Snapshot, c: nat, keys: set<string>,
                              ps: map<string, seq<Entry>>)
  {
    && (forall k :: k in ps <==> k in props)
    && (forall k :: k in props ==>
          ps[k] == if k !in keys && Known(props, q, k) then Extend(props[k], q[k], c) else props[k])
  }

  /** The same point of the loop: the known keys visited so far are deleted from `rest`,
      which otherwise is the snapshot `q`. */
  ghost predicate PushedRest(props: map<string, seq<Entry>>, q: Css.Snapshot, keys: set<string>, rest: Css.Snapshot) {
    && (forall k :: k in rest ==> k in q && rest[k] == q[k])
    && (forall k :: k in q ==> (k in rest <==> !(k !in keys && Known(props, q, k))))
  }

  predicate NonEmptyHistories(props: map<string, seq<Entry>>) {
    forall k :: k in props ==> props[k] != []
  }

  lemma ValidNonEmpty(m: Machine)
    requires Valid(m)
    ensures NonEmptyHistories(m.props)
  {
  }

  lemma PushedPropsStep(props: map<string, seq<Entry>>, q: Css.Snapshot, c: nat, keys: set<string>,
                        ps: map<string, seq<Entry>>, k: string, known: bool)
    requires PushedProps(props, q, c, keys, ps) && k in keys && keys <= props.Keys
    requires known == Known(props, q, k)
    ensures k in ps && ps[k] == props[k]
    ensures known ==> PushedProps(props, q, c, keys - {k}, ps[k := Extend(ps[k], q[k], c)])
    ensures !known ==> PushedProps(props, q, c, keys - {k}, ps)
  {
    var keys' := keys - {k};
    if known {
      var ps' := ps[k := Extend(ps[k], q[k], c)];
      forall k' | k' in props
        ensures ps'[k'] == if k' !in keys' && Known(props, q, k') then Extend(props[k'], q[k'], c) else props[k']
      {
        if k' != k {
          assert ps'[k'] == ps[k'];
        }
      }
    }
  }

  lemma PushedRestStep(props: map<string, seq<Entry>>, q: Css.Snapshot, keys: set<string>, rest: Css.Snapshot, k: string)
    requires PushedRest(props, q, keys, rest) && k in keys && keys <= props.Keys
    ensures (k in rest && rest[k] != "") == Known(props, q, k)
    ensures Known(props, q, k) ==> PushedRest(props, q, keys - {k}, rest - {k})
    ensures !Known(props, q, k) ==> PushedRest(props, q, keys - {k}, rest)
  {
  }

  /** addStep's two loops over the property histories: the new histories, and what is
      left of the snapshot `q` once the known keys are deleted from it. */
  method StepHistories(props: map<string, seq<Entry>>, q: Css.Snapshot, c: nat)
    returns (ps: map<string, seq<Entry>>, rest: Css.Snapshot)
    requires NonEmptyHistories(props)
    ensures ps == StepProps(props, q, c)
    ensures rest == Unknown(props, q)
  {
    var pushed;
    pushed, rest := PushKnown(props, q, c);
    ps := AddUnknown(pushed, rest, c);
    StepPropsPointwise(props, q, c, pushed, rest, ps);
  }

  /** addStep's first loop: every known key of `q` gets its new value pushed (and the
      previous one flagged when the token count changes); `rest` is `q` after the
      `delete`s. */
  method PushKnown(props: map<string, seq<Entry>>, q: Css.Snapshot, c: nat) returns (ps: map<string, seq<Entry>>, rest: Css.Snapshot)
    requires NonEmptyHistories(props)
    ensures rest == Unknown(props, q)
    ensures forall k :: k in ps <==> k in props
    ensures forall k :: k in props ==>
      ps[k] == if Known(props, q, k) then Extend(props[k], q[k], c) else props[k]
  {
    ps, rest := props, q;
    var keys := ps.Keys;
    while keys != {}
      invariant keys <= props.Keys
      invariant PushedProps(props, q, c, keys, ps) && PushedRest(props, q, keys, rest)
      decreases |keys|
    {
      var k :| k in keys;
      PushedRestStep(props, q, keys, rest, k);
      PushedPropsStep(props, q, c, keys, ps, k, k in rest && rest[k] != "");
      if k in rest && rest[k] != "" {
        var a := ps[k];
        var v := SplitWs(rest[k]);
        var l := a[|a| - 1];
        FlagThenPush(a, rest[k], c);
        if |l.v| != |v| {
          a := a[|a| - 1 := l.(z := true)];
        }
        ps := ps[k := a + [Entry(v, Join(v), c, false)]];
        rest := rest - {k};
      }
      keys := keys - {k};
    }
    UnknownPointwise(props, q, rest);
  }

  /** addStep's second loop: every key left in `rest` starts a fresh history. */
  method AddUnknown(props: map<string, seq<Entry>>, rest: Css.Snapshot, c: nat) returns (ps: map<string, seq<Entry>>)
    ensures forall k :: k in ps <==> k in props || k in rest
    ensures forall k :: k in ps ==> ps[k] == if k in rest then [NewEntry(rest[k], c)] else props[k]
  {
    ps := props;
    var todo := rest.Keys;
    while todo != {}
      invariant todo <= rest.Keys
      invariant forall k :: k in ps <==> k in props || (k in rest && k !in todo)
      invariant forall k :: k in ps ==> ps[k] == if k in rest && k !in todo then [NewEntry(rest[k], c)] else props[k]
      decreases |todo|
    {
      var k :| k in todo;
      var v := SplitWs(rest[k]);
      ps := ps[k := [Entry(v, Join(v), c, false)]];
      todo := todo - {k};
    }
  }

  /** The local state of one compile call, which addStep updates in place. */
  class Compilation {
    var props: map<string, seq<Entry>>
    var times: seq<Option<int>>
    var efuncs: seq<Easing>
    var callbacks: seq<seq<Callback>>
    var count: nat
    var millis: Option<int>
    var efunc: Option<Easing>
    var cb: seq<Callback>
    var dup: Dup

    function State(): Machine
      reads this
    {
      Machine(props, times, efuncs, callbacks, count, millis, efunc, cb, dup)
    }

    constructor ()
      ensures State() == Initial
    {
      props, times, efuncs, callbacks, count := map[], [], [], [], 0;
      millis, efunc, cb, dup := None, None, [], Unset;
    }

    /** addStep: closes the current step, on snapshot `p` or on a step marker. */
    method AddStep(p: Option<Css.Snapshot>)
      requires NonEmptyHistories(props)
      modifies this
      ensures State() == AfterStep(old(State()), p)
    {
      times, millis := times + [millis], None;
      efuncs, efunc := efuncs + [if efunc.Some? then efunc.value else DefaultEasing], None;
      callbacks, cb := callbacks + [cb], [];
      var q: Css.Snapshot;
      var d, sole := dup, false;
      if p.None? {
        q := Marker(count);
      } else {
        q := p.value;
        if d.Unset? {
          sole := true;
        } else {
          d := Many;
        }
      }
      var ps, rest := StepHistories(props, q, count);
      if sole {
        d := Sole(rest);
      }
      props, dup, count := ps, d, count + 1;
    }

    /** One turn of compile's switch. */
    method Feed(ins: Instr)
      requires Valid(State())
      modifies this
      ensures State() == AfterInstr(old(State()), ins)
    {
      ValidNonEmpty(State());
      match ins
      case Snapshot(css) =>
        var p := Css.ParseCssText(css);
        AddStep(Some(p));
      case Ease(e) =>
        efunc := Some(e);
      case Millis(v) =>
        if Truthy(millis) {
          AddStep(None);
        }
        millis := Some(v);
      case Call(f) =>
        cb := cb + [f];
        if !Truthy(millis) {
          AddStep(None);
        }
    }

    /** The closing step after the switch loop. */
    method Close()
      requires Valid(State())
      modifies this
      ensures State() == AfterEnd(old(State()))
    {
      ValidNonEmpty(State());
      if Truthy(millis) || cb != [] {
        AddStep(if dup.Sole? then Some(dup.snap) else None);
      } else if dup.Sole? {
        AddStep(Some(dup.snap));
      }
    }
  }

  /** What compile returns: nothing (no step at all), the sorted stages, or a throw. */
  datatype Compiled = NoStages | Stages(stages: seq<Stage>) | Thrown

  /** compile(args, millisec). */
  method Compile(args: seq<Instr>, hint: Option<int>) returns (r: Compiled)
    requires AllocationDefined(Steps(args).times, hint)
    ensures r.NoStages? <==> Steps(args).count == 0
    ensures r.Thrown? <==> Steps(args).count > 0 && Throws(Steps(args))
    ensures r.Stages? ==> SortedByTime(r.stages)
    ensures r.Stages? ==>
      multiset(r.stages) == Emitted(Steps(args), Allocate(Steps(args).times, hint), Steps(args).props.Keys)
  {
    var m := RunSteps(args);
    if m.count == 0 {
      return NoStages;
    }
    var durs, starts := AllocateTimes(m.times, hint);
    var stages, thrown := BuildStages(m, durs, starts);
    if thrown {
      return Thrown;
    }
    stages := SortedStages(stages);
    r := Stages(stages);
  }

  /** compile's pass over the instructions and its closing step, on a fresh state. */
  method RunSteps(args: seq<Instr>) returns (m: Machine)
    ensures m == Steps(args)
  {
    var c := new Compilation();
    for i := 0 to |args|
      invariant c.State() == Run(args[..i])
    {
      assert args[..i + 1][..i] == args[..i];
      c.Feed(args[i]);
    }
    assert args[..|args|] == args;
    c.Close();
    m := c.State();
  }

  /** The stages sorted in place by the comparator. */
  method SortedStages(stages: seq<Stage>) returns (sorted: seq<Stage>)
    ensures SortedByTime(sorted) && multiset(sorted) == multiset(stages)
  {
    var a := new Stage[|stages|](i requires 0 <= i < |stages| => stages[i]);
    assert a[..] == stages;
    SortStages(a);
    sorted := a[..];
  }
}

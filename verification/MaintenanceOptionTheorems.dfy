/** What the parsed configuration says, told by which options were given and
    never by their order. */
module MaintenanceOptionTheorems {
  import opened Values
  import opened MaintenanceOptions

  // ----- One option, one meaning -----

  /** No option name belongs to two steps. */
  lemma NoTwoSteps(rest: string, i: nat, j: nat)
    requires i < STEPS && j < STEPS && Matches(rest, i) && Matches(rest, j)
    ensures i == j
  {
    assert rest[0] == STEP_SPECS[i].name[0] && rest[0] == STEP_SPECS[j].name[0];
    assert STEP_SPECS[0].name[0] == 'e' && STEP_SPECS[1].name[0] == 'f' && STEP_SPECS[2].name[0] == 'm';
    assert STEP_SPECS[3].name[0] == 'r' && STEP_SPECS[4].name[0] == 'c' && STEP_SPECS[5].name[0] == 'd';
  }

  /** What an effect sets. */
  datatype Slot =
    | NoSlot
    | IntervalSlot | BatchSlot | SweepSlot | CompactSlot | SubspaceSlot | TimeoutSlot
    | StepSlot(step: nat)
    | ParameterSlot(step: nat, parameter: string)

  function SlotOf(e: Effect): Slot {
    match e
    case Ignored => NoSlot
    case Bad(_) => NoSlot
    case Interval(_) => IntervalSlot
    case BatchSize(_) => BatchSlot
    case Sweep(_) => SweepSlot
    case Compact(_) => CompactSlot
    case Subspace(_) => SubspaceSlot
    case Timeout(_) => TimeoutSlot
    case Enable(i) => StepSlot(i)
    case Disable(i) => StepSlot(i)
    case Argue(i, a) => ParameterSlot(i, a.parameter)
  }

  /** The one option that sets a slot is `maintenance_` and this. */
  function RestOf(slot: Slot): string {
    match slot
    case NoSlot => ""
    case IntervalSlot => "interval"
    case BatchSlot => "batch_size"
    case SweepSlot => "sweep_indexes"
    case CompactSlot => "compact_store"
    case SubspaceSlot => "compact_store_subspace"
    case TimeoutSlot => "compact_store_timeout"
    case StepSlot(i) => if i < STEPS then STEP_SPECS[i].name else ""
    case ParameterSlot(i, p) => if i < STEPS then STEP_SPECS[i].name + "_" + p else ""
  }

  lemma StepHasOneRest(rest: string, step: nat, spec: StepSpec, v: OptionValue)
    requires rest == spec.name || spec.name + "_" <= rest
    ensures match StepEffect(rest, step, spec, v)
            case Enable(i) => i == step && rest == spec.name
            case Disable(i) => i == step && rest == spec.name
            case Argue(i, a) => i == step && rest == spec.name + "_" + a.parameter
            case e => e.Bad?
  {
    if rest != spec.name {
      var stem := spec.name + "_";
      assert rest == stem + rest[|stem|..];
    }
  }

  lemma SlotHasOneRest(rest: string, v: OptionValue, known: string -> bool)
    ensures var slot := SlotOf(RestEffect(rest, v, known)); slot != NoSlot ==> rest == RestOf(slot)
  {
    var e := RestEffect(rest, v, known);
    if rest == "interval" {
      assert e.Interval? || e.Bad?;
    } else if rest == "batch_size" {
      assert e.BatchSize? || e.Bad?;
    } else if rest == "sweep_indexes" {
      assert e.Sweep? || e.Bad?;
    } else if rest == "compact_store" {
      assert e.Compact? || e.Bad?;
    } else if rest == "compact_store_subspace" {
      assert e.Subspace? || e.Bad?;
    } else if rest == "compact_store_timeout" {
      assert e.Timeout? || e.Bad?;
    } else {
      var step := FirstMatch(rest, 0);
      if step.Some? {
        var spec := STEP_SPECS[step.value];
        assert e == StepEffect(rest, step.value, spec, v);
        StepHasOneRest(rest, step.value, spec, v);
      }
    }
  }

  lemma SlotHasOneName(o: AttachOption, known: string -> bool)
    ensures var slot := SlotOf(EffectOf(o, known)); slot != NoSlot ==> Lower(o.name) == PREFIX + RestOf(slot)
  {
    var name := Lower(o.name);
    if PREFIX <= name {
      assert name == PREFIX + name[|PREFIX|..];
      SlotHasOneRest(name[|PREFIX|..], o.value, known);
    }
  }

  /** The other way round: an option named after a step, or after a step and one
      parameter, reaches that step, although the loop only takes the first that
      could match. An interval for `older_than` becomes a rolling window. */
  lemma StepOptionReachesItsStep(o: AttachOption, known: string -> bool, i: nat, parameter: Option<string>)
    requires i < STEPS
    requires Lower(o.name) == PREFIX + (STEP_SPECS[i].name + if parameter.None? then "" else "_" + parameter.value)
    ensures parameter.None? ==>
              EffectOf(o, known) == match o.value.asBool
                                    case None => Bad(BadCast)
                                    case Some(on) => if on then Enable(i) else Disable(i)
    ensures parameter.Some? ==>
              EffectOf(o, known) == if parameter.value !in STEP_SPECS[i].parameters then Bad(UnknownParameter(i))
                                    else Argue(i, Argument(parameter.value, Rendered(parameter.value, o.value)))
  {
    var spec := STEP_SPECS[i];
    var rest := spec.name + if parameter.None? then "" else "_" + parameter.value;
    assert Lower(o.name)[|PREFIX|..] == rest;
    MatchesItsStep(rest, i, parameter);
    StepNamesAreNotSpecial(rest, i);
    var step := FirstMatch(rest, 0);
    NoTwoSteps(rest, step.value, i);
    if parameter.Some? {
      assert rest[|spec.name| + 1..] == parameter.value && |rest| > |spec.name|;
    }
  }

  function Rendered(parameter: string, v: OptionValue): string {
    if parameter == "older_than" && v.isInterval then "now()::TIMESTAMP - " + v.sql else v.sql
  }

  lemma MatchesItsStep(rest: string, i: nat, parameter: Option<string>)
    requires i < STEPS && rest == STEP_SPECS[i].name + if parameter.None? then "" else "_" + parameter.value
    ensures Matches(rest, i)
  {
    var name := STEP_SPECS[i].name;
    if parameter.None? {
      assert rest == name;
    } else {
      assert rest == name + "_" + parameter.value;
    }
  }

  lemma StepNamesAreNotSpecial(rest: string, i: nat)
    requires i < STEPS && Matches(rest, i)
    ensures rest !in {"interval", "batch_size", "sweep_indexes", "compact_store", "compact_store_subspace",
                      "compact_store_timeout"}
  {
    var name := STEP_SPECS[i].name;
    assert |rest| >= 2 && rest[0] == name[0] && rest[1] == name[1];
    assert i == 0 ==> name[0] == 'e';
    assert i == 1 ==> name[0] == 'f';
    assert i == 2 ==> name[0] == 'm';
    assert i == 3 ==> name[0] == 'r';
    assert i == 4 ==> name[1] == 'l';
    assert i == 5 ==> name[0] == 'd';
  }

  ghost predicate DistinctNames(options: seq<AttachOption>) {
    forall i, j :: 0 <= i < j < |options| ==> Lower(options[i].name) != Lower(options[j].name)
  }

  ghost predicate DistinctSlots(effects: seq<Effect>) {
    forall i, j :: 0 <= i < j < |effects| && SlotOf(effects[i]) != NoSlot ==> SlotOf(effects[i]) != SlotOf(effects[j])
  }

  lemma DistinctNamesDistinctSlots(options: seq<AttachOption>, known: string -> bool)
    requires DistinctNames(options)
    ensures DistinctSlots(Effects(options, known))
  {
    var effects := Effects(options, known);
    forall i, j | 0 <= i < j < |effects| && SlotOf(effects[i]) != NoSlot
      ensures SlotOf(effects[i]) != SlotOf(effects[j])
    {
      SlotHasOneName(options[i], known);
      SlotHasOneName(options[j], known);
    }
  }

  // ----- Durations -----

  /** A count of seconds is read as that many milliseconds if and only if it is
      positive and the product fits in 64 bits. */
  lemma SecondsExactIff(v: OptionValue)
    requires !v.isInterval && v.asU64.Some?
    ensures Duration(v) == Ok(v.asU64.value * 1000) <==> 0 < v.asU64.value * 1000 <= U64_MAX
  {
    var product := v.asU64.value * 1000;
    assert product % (U64_MAX + 1) <= U64_MAX;
    if product <= U64_MAX {
      assert product % (U64_MAX + 1) == product;
    }
  }

  /** An INTERVAL is read as its whole milliseconds if and only if it has one; a
      shorter one, of either sign, is refused. */
  lemma IntervalExactIff(v: OptionValue)
    requires v.isInterval && -0x8000_0000_0000_0000 <= v.micros < 0x8000_0000_0000_0000
    ensures Duration(v) == Ok(v.micros / 1000) <==> v.micros >= 1000
    ensures Duration(v).Err? <==> -1000 < v.micros < 1000
  {
    var ms := TruncDiv(v.micros, 1000);
    if ms >= 0 {
      assert ms % (U64_MAX + 1) == ms;
    } else {
      NegativeWraps(ms);
    }
  }

  lemma NegativeWraps(ms: int)
    requires -(U64_MAX as int) <= ms < 0
    ensures ms % (U64_MAX + 1) == ms + U64_MAX + 1
  {
    assert ms == -1 * (U64_MAX + 1) + (ms + U64_MAX + 1);
  }

  /** The period the timer waits: the milliseconds become a `std::chrono` count, which
      is signed. A period that is not positive ends the wait at once. */
  function TimerPeriod(ms: nat): int {
    AsInt64(ms)
  }

  /** An INTERVAL's period is always its own whole milliseconds, sign and all, so the
      timer waits if and only if it has one. */
  lemma IntervalPeriodIff(v: OptionValue)
    requires v.isInterval && -0x8000_0000_0000_0000 <= v.micros < 0x8000_0000_0000_0000 && Duration(v).Ok?
    ensures TimerPeriod(Duration(v).value) == TruncDiv(v.micros, 1000)
    ensures TimerPeriod(Duration(v).value) > 0 <==> v.micros >= 1000
  {
    var ms := TruncDiv(v.micros, 1000);
    if ms >= 0 {
      assert ms % (U64_MAX + 1) == ms;
    } else {
      NegativeWraps(ms);
    }
  }

  /** A count of seconds has a positive period if and only if its milliseconds modulo
      2^64 are below 2^63, and the period is the seconds' own if and only if they are
      without the modulus. */
  lemma SecondsPeriodIff(v: OptionValue)
    requires !v.isInterval && v.asU64.Some? && Duration(v).Ok?
    ensures TimerPeriod(Duration(v).value) > 0 <==> v.asU64.value * 1000 % (U64_MAX + 1) < I64_BOUND
    ensures TimerPeriod(Duration(v).value) == v.asU64.value * 1000 <==> v.asU64.value * 1000 < I64_BOUND
  {
    var product := v.asU64.value * 1000;
    if product < I64_BOUND {
      assert product % (U64_MAX + 1) == product;
    }
  }

  /** So the positive-duration check lets a negative INTERVAL through: minus one second
      is kept as an enormous unsigned number, and the timer's period is minus a
      thousand milliseconds, which it does not wait out. */
  lemma NegativeIntervalAccepted() returns (v: OptionValue)
    ensures v.isInterval && v.micros == -1_000_000
    ensures Duration(v) == Ok(U64_MAX + 1 - 1000) && TimerPeriod(U64_MAX + 1 - 1000) == -1000
  {
    v := OptionValue(true, -1_000_000, None, None, "-00:00:01", "'-00:00:01'::INTERVAL");
    NegativeWraps(-1000);
  }

  // ----- What the parser has read -----

  /** Each value is what was given for it, or its default. */
  ghost predicate ValuesMean(c: Config, effects: seq<Effect>) {
    && TimingMeans(c, effects)
    && (forall on :: Sweep(on) in effects ==> c.sweepIndexes == on)
    && (!c.sweepIndexes ==> Sweep(false) in effects)
    && ParametersMean(c, effects)
  }

  ghost predicate TimingMeans(c: Config, effects: seq<Effect>) {
    && (forall ms :: Interval(ms) in effects ==> c.intervalMs == ms)
    && (c.intervalMs != 0 ==> Interval(c.intervalMs) in effects)
    && (forall n :: BatchSize(n) in effects ==> c.batchSize == n)
    && (c.batchSize != 0 ==> BatchSize(c.batchSize) in effects)
  }

  ghost predicate ParametersMean(c: Config, effects: seq<Effect>) {
    && (forall name :: Subspace(name) in effects ==> c.subspace == name)
    && (c.subspace != "" ==> Subspace(c.subspace) in effects)
    && (forall ms :: Timeout(ms) in effects ==> c.timeoutMs == ms)
    && (c.timeoutMs != 0 ==> Timeout(c.timeoutMs) in effects)
  }

  ghost predicate CompactGiven(effects: seq<Effect>) {
    exists e :: e in effects && (e.Subspace? || e.Timeout?)
  }

  ghost predicate CompactMeans(p: Parser, effects: seq<Effect>) {
    && (p.config.compactStore <==> Compact(true) in effects)
    && (p.compactDisabled <==> Compact(false) in effects)
    && (p.compactGiven <==> CompactGiven(effects))
  }

  ghost predicate Argued(effects: seq<Effect>, i: nat) {
    exists e :: e in effects && e.Argue? && e.step == i
  }

  ghost predicate NoRepeats(arguments: seq<Argument>) {
    forall a, b :: 0 <= a < b < |arguments| ==> arguments[a] != arguments[b]
  }

  ghost predicate PendingMeans(p: Pending, i: nat, effects: seq<Effect>) {
    && (p.enabled <==> Enable(i) in effects || Argued(effects, i))
    && (p.disabled <==> Disable(i) in effects)
    && (forall a :: a in p.arguments <==> Argue(i, a) in effects)
    && NoRepeats(p.arguments)
  }

  ghost predicate ReadMeans(p: Parser, effects: seq<Effect>) {
    && |p.pending| == STEPS
    && ValuesMean(p.config, effects) && CompactMeans(p, effects)
    && forall i :: 0 <= i < STEPS ==> PendingMeans(p.pending[i], i, effects)
  }

  /** `e` sets a slot no effect so far has set. */
  ghost predicate NewSlot(effects: seq<Effect>, e: Effect) {
    forall f :: f in effects && SlotOf(f) != NoSlot ==> SlotOf(f) != SlotOf(e)
  }

  lemma TimingOneMore(p: Parser, effects: seq<Effect>, e: Effect)
    requires |p.pending| == STEPS && TimingMeans(p.config, effects) && NewSlot(effects, e)
    ensures TimingMeans(Apply(p, e).config, effects + [e])
  {
  }

  lemma ParametersOneMore(p: Parser, effects: seq<Effect>, e: Effect)
    requires |p.pending| == STEPS && ParametersMean(p.config, effects) && NewSlot(effects, e)
    ensures ParametersMean(Apply(p, e).config, effects + [e])
  {
  }

  lemma ValuesOneMore(p: Parser, effects: seq<Effect>, e: Effect)
    requires |p.pending| == STEPS && ValuesMean(p.config, effects) && NewSlot(effects, e)
    ensures ValuesMean(Apply(p, e).config, effects + [e])
  {
    TimingOneMore(p, effects, e);
    ParametersOneMore(p, effects, e);
  }

  lemma CompactOneMore(p: Parser, effects: seq<Effect>, e: Effect)
    requires |p.pending| == STEPS && CompactMeans(p, effects) && NewSlot(effects, e)
    ensures CompactMeans(Apply(p, e), effects + [e])
  {
    var more := effects + [e];
    assert e in more;
    assert forall f :: f in effects ==> f in more;
    if CompactGiven(effects) {
      var f :| f in effects && (f.Subspace? || f.Timeout?);
      assert f in more;
    }
  }

  lemma PendingOneMore(p: Parser, i: nat, effects: seq<Effect>, e: Effect)
    requires |p.pending| == STEPS && i < STEPS && PendingMeans(p.pending[i], i, effects) && NewSlot(effects, e)
    ensures PendingMeans(Apply(p, e).pending[i], i, effects + [e])
  {
    var more := effects + [e];
    assert e in more;
    if Argued(effects, i) {
      var f :| f in effects && f.Argue? && f.step == i;
      assert f in more;
    }
    if e.Argue? && e.step == i {
      assert e.argument !in p.pending[i].arguments;
    }
  }

  lemma {:induction false} WhatWasRead(effects: seq<Effect>)
    requires DistinctSlots(effects) && Read(effects).Ok?
    ensures ReadMeans(Read(effects).value, effects)
  {
    if effects != [] {
      var n := |effects| - 1;
      var before, e := effects[..n], effects[n];
      WhatWasRead(before);
      assert effects == before + [e];
      assert NewSlot(before, e);
      var p := Read(before).value;
      ValuesOneMore(p, before, e);
      CompactOneMore(p, before, e);
      forall i | 0 <= i < STEPS
        ensures PendingMeans(Apply(p, e).pending[i], i, effects)
      {
        PendingOneMore(p, i, before, e);
      }
    }
  }

  lemma {:induction false} ReadsIff(effects: seq<Effect>)
    ensures Read(effects).Ok? <==> forall e :: e in effects ==> !e.Bad?
  {
    if effects != [] {
      var n := |effects| - 1;
      ReadsIff(effects[..n]);
      assert effects == effects[..n] + [effects[n]];
    }
  }

  // ----- When options are accepted, and what they configure -----

  ghost predicate Wants(effects: seq<Effect>, i: nat) {
    (Enable(i) in effects || Argued(effects, i)) && Disable(i) !in effects
  }

  /** The names of the wanted steps among the first `n`, in spec order. */
  ghost function WantedNames(effects: seq<Effect>, n: nat): seq<string>
    requires n <= STEPS
  {
    if n == 0 then []
    else WantedNames(effects, n - 1) + if Wants(effects, n - 1) then [STEP_SPECS[n - 1].name] else []
  }

  function NamesOf(steps: seq<DuckLakeStep>): seq<string> {
    seq(|steps|, k requires 0 <= k < |steps| => steps[k].name)
  }

  /** Every option is good by itself, and no step is both switched off and
      parameterized. */
  ghost predicate Acceptable(effects: seq<Effect>) {
    && (forall e :: e in effects ==> !e.Bad?)
    && !(CompactGiven(effects) && Compact(false) in effects)
    && forall i :: 0 <= i < STEPS ==> !(Disable(i) in effects && Argued(effects, i))
  }

  /** A step's arguments are exactly the parameters given for it, each once. */
  ghost predicate ArgumentsMean(steps: seq<DuckLakeStep>, effects: seq<Effect>) {
    forall k :: 0 <= k < |steps| ==> IsConfigured(steps[k], effects)
  }

  ghost predicate IsConfigured(step: DuckLakeStep, effects: seq<Effect>) {
    exists i :: 0 <= i < STEPS && Configures(step, i, effects)
  }

  ghost predicate Configures(step: DuckLakeStep, i: nat, effects: seq<Effect>)
    requires i < STEPS
  {
    && step.name == STEP_SPECS[i].name && NoRepeats(step.arguments)
    && forall a :: a in step.arguments <==> Argue(i, a) in effects
  }

  ghost predicate ConfigMeans(c: Config, effects: seq<Effect>) {
    && ValuesMean(c, effects)
    && (c.compactStore <==> Compact(true) in effects || CompactGiven(effects))
    && NamesOf(c.steps) == WantedNames(effects, STEPS)
    && ArgumentsMean(c.steps, effects)
  }

  lemma ArguedMeans(p: Pending, i: nat, effects: seq<Effect>)
    requires PendingMeans(p, i, effects)
    ensures p.arguments != [] <==> Argued(effects, i)
  {
    if p.arguments != [] {
      assert p.arguments[0] in p.arguments;
      assert Argue(i, p.arguments[0]) in effects;
    }
    if Argued(effects, i) {
      var e :| e in effects && e.Argue? && e.step == i;
      assert Argue(i, e.argument) == e;
    }
  }

  lemma {:induction false} StepsMean(pending: seq<Pending>, effects: seq<Effect>, n: nat)
    requires |pending| == STEPS && n <= STEPS
    requires forall i :: 0 <= i < STEPS ==> PendingMeans(pending[i], i, effects)
    ensures Steps(pending, n).Ok? <==> forall i :: 0 <= i < n ==> !(Disable(i) in effects && Argued(effects, i))
    ensures Steps(pending, n).Ok? ==>
              NamesOf(Steps(pending, n).value) == WantedNames(effects, n) && ArgumentsMean(Steps(pending, n).value, effects)
  {
    if n > 0 {
      StepsMean(pending, effects, n - 1);
      var p := pending[n - 1];
      ArguedMeans(p, n - 1, effects);
      var before := Steps(pending, n - 1);
      if before.Ok? && Steps(pending, n).Ok? && Wanted(p) {
        StepMore(before.value, DuckLakeStep(STEP_SPECS[n - 1].name, p.arguments), n - 1, effects);
      }
    }
  }

  lemma StepMore(steps: seq<DuckLakeStep>, step: DuckLakeStep, i: nat, effects: seq<Effect>)
    requires i < STEPS && Configures(step, i, effects) && ArgumentsMean(steps, effects)
    ensures ArgumentsMean(steps + [step], effects)
    ensures NamesOf(steps + [step]) == NamesOf(steps) + [step.name]
  {
    assert IsConfigured(step, effects);
  }

  /** For options with distinct names: accepted exactly when each is good and no
      step is contradicted, and the configuration is told by which options were
      given, steps in spec order. */
  lemma ParsedMeans(options: seq<AttachOption>, known: string -> bool)
    requires DistinctNames(options)
    ensures var effects, r := Effects(options, known), Parsed(options, known);
            && (r.Ok? <==> Acceptable(effects))
            && (r.Ok? ==> ConfigMeans(r.value, effects))
  {
    var effects := Effects(options, known);
    DistinctNamesDistinctSlots(options, known);
    ReadsIff(effects);
    if Read(effects).Ok? {
      WhatWasRead(effects);
      StepsMean(Read(effects).value.pending, effects, STEPS);
    }
  }

  // ----- Order does not matter -----

  ghost predicate SameMembers<T(!new)>(a: seq<T>, b: seq<T>) {
    forall x :: x in a <==> x in b
  }

  ghost predicate SameStep(a: DuckLakeStep, b: DuckLakeStep) {
    a.name == b.name && SameMembers(a.arguments, b.arguments) && NoRepeats(a.arguments) && NoRepeats(b.arguments)
  }

  /** Equal, up to the order of arguments inside each step. */
  ghost predicate SameConfig(a: Config, b: Config) {
    && a.(steps := []) == b.(steps := [])
    && |a.steps| == |b.steps|
    && forall k :: 0 <= k < |a.steps| ==> SameStep(a.steps[k], b.steps[k])
  }

  lemma SameEffects(a: seq<AttachOption>, b: seq<AttachOption>, known: string -> bool)
    requires SameMembers(a, b)
    ensures SameMembers(Effects(a, known), Effects(b, known))
  {
    forall e
      ensures e in Effects(a, known) <==> e in Effects(b, known)
    {
      EffectFrom(a, e, known);
      EffectFrom(b, e, known);
    }
  }

  lemma EffectFrom(options: seq<AttachOption>, e: Effect, known: string -> bool)
    ensures e in Effects(options, known) <==> exists o :: o in options && EffectOf(o, known) == e
  {
    var effects := Effects(options, known);
    if e in effects {
      var i :| 0 <= i < |effects| && effects[i] == e;
      assert options[i] in options;
    }
    if o :| o in options && EffectOf(o, known) == e {
      var i :| 0 <= i < |options| && options[i] == o;
      assert effects[i] == e;
    }
  }

  lemma {:induction false} SameNames(a: seq<Effect>, b: seq<Effect>, n: nat)
    requires SameMembers(a, b) && n <= STEPS
    ensures WantedNames(a, n) == WantedNames(b, n)
  {
    if n > 0 {
      SameNames(a, b, n - 1);
      SameArgued(a, b, n - 1);
    }
  }

  lemma SameArgued(a: seq<Effect>, b: seq<Effect>, i: nat)
    requires SameMembers(a, b)
    ensures Argued(a, i) <==> Argued(b, i)
    ensures CompactGiven(a) <==> CompactGiven(b)
  {
  }

  lemma SameMeaning(c: Config, d: Config, a: seq<Effect>, b: seq<Effect>)
    requires SameMembers(a, b) && ConfigMeans(c, a) && ConfigMeans(d, b)
    ensures SameConfig(c, d)
  {
    SameArgued(a, b, 0);
    SameNames(a, b, STEPS);
    SameValues(c, d, a, b);
    assert |c.steps| == |NamesOf(c.steps)| && |d.steps| == |NamesOf(d.steps)|;
    forall k | 0 <= k < |c.steps|
      ensures SameStep(c.steps[k], d.steps[k])
    {
      assert NamesOf(c.steps)[k] == NamesOf(d.steps)[k];
      assert IsConfigured(c.steps[k], a) && IsConfigured(d.steps[k], b);
      var i :| 0 <= i < STEPS && Configures(c.steps[k], i, a);
      var j :| 0 <= j < STEPS && Configures(d.steps[k], j, b);
      NoTwoSteps(STEP_SPECS[i].name, i, j);
    }
  }

  lemma SameValues(c: Config, d: Config, a: seq<Effect>, b: seq<Effect>)
    requires SameMembers(a, b) && ValuesMean(c, a) && ValuesMean(d, b)
    ensures c.intervalMs == d.intervalMs && c.batchSize == d.batchSize && c.sweepIndexes == d.sweepIndexes
    ensures c.subspace == d.subspace && c.timeoutMs == d.timeoutMs
  {
  }

  /** Any two listings of the same options with distinct names are accepted or
      refused alike and configure the same. */
  lemma OrderDoesNotMatter(options: seq<AttachOption>, options': seq<AttachOption>, known: string -> bool)
    requires DistinctNames(options) && DistinctNames(options') && SameMembers(options, options')
    ensures var r, r' := Parsed(options, known), Parsed(options', known);
            (r.Ok? <==> r'.Ok?) && (r.Ok? ==> SameConfig(r.value, r'.value))
  {
    var effects, effects' := Effects(options, known), Effects(options', known);
    ParsedMeans(options, known);
    ParsedMeans(options', known);
    SameEffects(options, options', known);
    forall i | 0 <= i < STEPS
      ensures Argued(effects, i) <==> Argued(effects', i)
    {
      SameArgued(effects, effects', i);
    }
    SameArgued(effects, effects', 0);
    if Parsed(options, known).Ok? && Parsed(options', known).Ok? {
      SameMeaning(Parsed(options, known).value, Parsed(options', known).value, effects, effects');
    }
  }
}

/** The options that set one value each, by their names written out: what each is
    refused for, and what it configures. */
module MaintenanceOptionNames {
  import opened Values
  import opened MaintenanceOptions
  import opened MaintenanceOptionTheorems

  // ----- What a name asks for -----

  lemma PrefixedRest(name: string, rest: string)
    requires Lower(name) == "maintenance_" + rest
    ensures PREFIX <= Lower(name) && Lower(name)[|PREFIX|..] == rest
  {
  }

  lemma SwitchEffects(o: AttachOption, known: string -> bool)
    ensures Lower(o.name) == "maintenance_sweep_indexes" ==>
              EffectOf(o, known) == match o.value.asBool case None => Bad(BadCast) case Some(on) => Sweep(on)
    ensures Lower(o.name) == "maintenance_compact_store" ==>
              EffectOf(o, known) == match o.value.asBool case None => Bad(BadCast) case Some(on) => Compact(on)
  {
    if Lower(o.name) == "maintenance_sweep_indexes" {
      PrefixedRest(o.name, "sweep_indexes");
    } else if Lower(o.name) == "maintenance_compact_store" {
      PrefixedRest(o.name, "compact_store");
    }
  }

  lemma BatchEffect(o: AttachOption, known: string -> bool)
    requires Lower(o.name) == "maintenance_batch_size"
    ensures EffectOf(o, known) == match o.value.asU64
                                  case None => Bad(BadCast)
                                  case Some(n) => if n == 0 then Bad(NotPositive) else BatchSize(n)
  {
    PrefixedRest(o.name, "batch_size");
  }

  lemma SubspaceEffect(o: AttachOption, known: string -> bool)
    requires Lower(o.name) == "maintenance_compact_store_subspace"
    ensures EffectOf(o, known) == if known(o.value.text) then Subspace(o.value.text) else Bad(UnknownSubspace)
  {
    PrefixedRest(o.name, "compact_store_subspace");
  }

  /** The milliseconds a duration is kept as: an INTERVAL's whole ones, modulo 2^64 when
      it is negative, or a count of seconds times a thousand, modulo 2^64. */
  function Milliseconds(v: OptionValue): int {
    if v.isInterval then
      if v.micros >= 0 then v.micros / 1000
      else if v.micros > -1000 then 0
      else 0x1_0000_0000_0000_0000 - (-v.micros) / 1000
    else if v.asU64.None? then 0
    else v.asU64.value * 1000 % 0x1_0000_0000_0000_0000
  }

  predicate InRange(v: OptionValue) {
    v.isInterval ==> -0x8000_0000_0000_0000 <= v.micros < 0x8000_0000_0000_0000
  }

  lemma DurationIs(v: OptionValue)
    requires InRange(v)
    ensures Duration(v) == if Milliseconds(v) > 0 then Ok(Milliseconds(v))
                           else if !v.isInterval && v.asU64.None? then Err(BadCast) else Err(NotPositive)
  {
    if v.isInterval {
      var ms := TruncDiv(v.micros, 1000);
      if ms >= 0 {
        assert ms % (U64_MAX + 1) == ms;
      } else {
        NegativeWraps(ms);
      }
    }
  }

  lemma DurationEffects(o: AttachOption, known: string -> bool)
    requires InRange(o.value)
    ensures Lower(o.name) == "maintenance_interval" ==>
              if Milliseconds(o.value) > 0 then EffectOf(o, known) == Interval(Milliseconds(o.value)) else EffectOf(o, known).Bad?
    ensures Lower(o.name) == "maintenance_compact_store_timeout" ==>
              if Milliseconds(o.value) > 0 then EffectOf(o, known) == Timeout(Milliseconds(o.value)) else EffectOf(o, known).Bad?
  {
    DurationIs(o.value);
    if Lower(o.name) == "maintenance_interval" {
      PrefixedRest(o.name, "interval");
    } else if Lower(o.name) == "maintenance_compact_store_timeout" {
      PrefixedRest(o.name, "compact_store_timeout");
    }
  }

  /** Any other option is passed over if it does not begin with `maintenance_`, and refused
      as unknown if what follows is neither one of these names nor a step's, alone or
      followed by an underscore. */
  lemma OtherNames(o: AttachOption, known: string -> bool)
    ensures !("maintenance_" <= Lower(o.name)) <==> EffectOf(o, known) == Ignored
    ensures EffectOf(o, known) == Bad(UnknownOption) <==>
            && "maintenance_" <= Lower(o.name)
            && (var rest := Lower(o.name)[|PREFIX|..]; !IsValueName(rest) && !IsStepName(rest))
  {
    if PREFIX <= Lower(o.name) {
      var rest := Lower(o.name)[|PREFIX|..];
      if IsValueName(rest) {
        ValueRests(rest, o.value, known);
      } else {
        StepRests(rest, o.value, known);
      }
    }
  }

  predicate IsValueName(rest: string) {
    || rest == "interval" || rest == "batch_size" || rest == "sweep_indexes"
    || rest == "compact_store" || rest == "compact_store_subspace" || rest == "compact_store_timeout"
  }

  predicate NamesStep(rest: string, name: string) {
    rest == name || name + "_" <= rest
  }

  ghost predicate IsStepName(rest: string) {
    exists i :: 0 <= i < STEPS && NamesStep(rest, STEP_SPECS[i].name)
  }

  lemma ValueRests(rest: string, v: OptionValue, known: string -> bool)
    requires IsValueName(rest)
    ensures RestEffect(rest, v, known) != Ignored && RestEffect(rest, v, known) != Bad(UnknownOption)
  {
  }

  lemma RestIsStep(rest: string, v: OptionValue, known: string -> bool)
    requires !IsValueName(rest)
    ensures var step := FirstMatch(rest, 0);
            RestEffect(rest, v, known) ==
            if step.None? then Bad(UnknownOption) else StepEffect(rest, step.value, STEP_SPECS[step.value], v)
  {
  }

  lemma StepEffectKnown(rest: string, step: nat, spec: StepSpec, v: OptionValue)
    requires rest == spec.name || spec.name + "_" <= rest
    ensures StepEffect(rest, step, spec, v) != Ignored && StepEffect(rest, step, spec, v) != Bad(UnknownOption)
  {
  }

  lemma FirstMatchIff(rest: string)
    ensures FirstMatch(rest, 0).Some? <==> IsStepName(rest)
  {
    var step := FirstMatch(rest, 0);
    if step.Some? {
      assert NamesStep(rest, STEP_SPECS[step.value].name);
    } else if IsStepName(rest) {
      var i :| 0 <= i < STEPS && NamesStep(rest, STEP_SPECS[i].name);
      assert Matches(rest, i);
    }
  }

  lemma StepRests(rest: string, v: OptionValue, known: string -> bool)
    requires !IsValueName(rest)
    ensures RestEffect(rest, v, known) != Ignored
    ensures RestEffect(rest, v, known) == Bad(UnknownOption) <==> !IsStepName(rest)
  {
    RestIsStep(rest, v, known);
    FirstMatchIff(rest);
    var step := FirstMatch(rest, 0);
    if step.Some? {
      StepEffectKnown(rest, step.value, STEP_SPECS[step.value], v);
    }
  }

  // ----- What the parser makes of it -----

  predicate IsValue(slot: Slot) {
    slot.IntervalSlot? || slot.BatchSlot? || slot.SweepSlot? || slot.CompactSlot? || slot.SubspaceSlot? || slot.TimeoutSlot?
  }

  /** The option that sets `slot` is among the given ones. */
  ghost predicate Given(options: seq<AttachOption>, slot: Slot) {
    exists o :: o in options && Names(o, slot)
  }

  predicate Names(o: AttachOption, slot: Slot) {
    Lower(o.name) == "maintenance_" + RestOf(slot)
  }

  lemma ReachesItsSlot(o: AttachOption, known: string -> bool, slot: Slot)
    requires IsValue(slot) && Names(o, slot)
    ensures EffectOf(o, known).Bad? || SlotOf(EffectOf(o, known)) == slot
  {
    PrefixedRest(o.name, RestOf(slot));
  }

  /** An accepted option of its own value has the effect of its slot. */
  lemma GivenEffect(options: seq<AttachOption>, known: string -> bool, o: AttachOption)
    requires DistinctNames(options) && Parsed(options, known).Ok? && o in options
    ensures EffectOf(o, known) in Effects(options, known) && !EffectOf(o, known).Bad?
    ensures ConfigMeans(Parsed(options, known).value, Effects(options, known))
  {
    ParsedMeans(options, known);
    EffectFrom(options, EffectOf(o, known), known);
  }

  lemma EffectGiven(options: seq<AttachOption>, known: string -> bool, e: Effect)
    requires e in Effects(options, known) && SlotOf(e) != NoSlot
    ensures Given(options, SlotOf(e))
  {
    EffectFrom(options, e, known);
    var o :| o in options && EffectOf(o, known) == e;
    SlotHasOneName(o, known);
    assert Names(o, SlotOf(e));
  }

  /** The options of an accepted list that set a value: the value is the one given. */
  lemma GivenValues(options: seq<AttachOption>, known: string -> bool, o: AttachOption)
    requires DistinctNames(options) && Parsed(options, known).Ok? && o in options
    ensures var c, v := Parsed(options, known).value, o.value;
            && (Lower(o.name) == "maintenance_sweep_indexes" ==> v.asBool == Some(c.sweepIndexes))
            && (Lower(o.name) == "maintenance_batch_size" ==> v.asU64 == Some(c.batchSize) && c.batchSize > 0)
            && (Lower(o.name) == "maintenance_compact_store_subspace" ==> known(v.text) && c.subspace == v.text)
            && (Lower(o.name) == "maintenance_interval" && InRange(v) ==> c.intervalMs == Milliseconds(v) > 0)
            && (Lower(o.name) == "maintenance_compact_store_timeout" && InRange(v) ==> c.timeoutMs == Milliseconds(v) > 0)
  {
    GivenEffect(options, known, o);
    SwitchEffects(o, known);
    if Lower(o.name) == "maintenance_batch_size" {
      BatchEffect(o, known);
    }
    if Lower(o.name) == "maintenance_compact_store_subspace" {
      SubspaceEffect(o, known);
    }
    if InRange(o.value) {
      DurationEffects(o, known);
    }
  }

  // From here on the effects stand for themselves: each was asked for by an option
  // that names its slot, and each option that names a slot has one.

  ghost predicate AllNamed(options: seq<AttachOption>, effects: seq<Effect>) {
    forall e :: e in effects && IsValue(SlotOf(e)) ==> Given(options, SlotOf(e))
  }

  ghost predicate Sets(effects: seq<Effect>, slot: Slot) {
    exists e :: e in effects && SlotOf(e) == slot
  }

  ghost predicate AllSet(options: seq<AttachOption>, effects: seq<Effect>) {
    forall slot :: IsValue(slot) && Given(options, slot) ==> Sets(effects, slot)
  }

  lemma EffectsNamed(options: seq<AttachOption>, known: string -> bool)
    ensures AllNamed(options, Effects(options, known))
  {
    forall e | e in Effects(options, known) && IsValue(SlotOf(e))
      ensures Given(options, SlotOf(e))
    {
      EffectGiven(options, known, e);
    }
  }

  lemma EffectsSet(options: seq<AttachOption>, known: string -> bool)
    requires DistinctNames(options) && Parsed(options, known).Ok?
    ensures AllSet(options, Effects(options, known))
  {
    forall slot | IsValue(slot) && Given(options, slot)
      ensures Sets(Effects(options, known), slot)
    {
      var o :| o in options && Names(o, slot);
      GivenEffect(options, known, o);
      ReachesItsSlot(o, known, slot);
    }
  }

  /** And a value no option was given for is the default. */
  lemma DefaultValues(options: seq<AttachOption>, known: string -> bool)
    requires DistinctNames(options) && Parsed(options, known).Ok?
    ensures var c := Parsed(options, known).value;
            && (!Given(options, SweepSlot) ==> c.sweepIndexes)
            && (!Given(options, BatchSlot) ==> c.batchSize == 0)
            && (!Given(options, SubspaceSlot) ==> c.subspace == "")
            && (!Given(options, IntervalSlot) ==> c.intervalMs == 0)
            && (!Given(options, TimeoutSlot) ==> c.timeoutMs == 0)
  {
    ParsedMeans(options, known);
    EffectsNamed(options, known);
    DefaultsFrom(options, Effects(options, known), Parsed(options, known).value);
  }

  lemma DefaultsFrom(options: seq<AttachOption>, effects: seq<Effect>, c: Config)
    requires AllNamed(options, effects) && ValuesMean(c, effects)
    ensures !Given(options, SweepSlot) ==> c.sweepIndexes
    ensures !Given(options, BatchSlot) ==> c.batchSize == 0
    ensures !Given(options, SubspaceSlot) ==> c.subspace == ""
    ensures !Given(options, IntervalSlot) ==> c.intervalMs == 0
    ensures !Given(options, TimeoutSlot) ==> c.timeoutMs == 0
  {
    assert SlotOf(Sweep(false)) == SweepSlot && SlotOf(BatchSize(c.batchSize)) == BatchSlot;
    assert SlotOf(Subspace(c.subspace)) == SubspaceSlot && SlotOf(Interval(c.intervalMs)) == IntervalSlot;
    assert SlotOf(Timeout(c.timeoutMs)) == TimeoutSlot;
  }

  /** The store is compacted as `maintenance_compact_store` says, and without it if and
      only if a subspace or a timeout is given for it. */
  lemma CompactionIs(options: seq<AttachOption>, known: string -> bool)
    requires DistinctNames(options) && Parsed(options, known).Ok?
    ensures var c := Parsed(options, known).value;
            && (forall o :: o in options && Lower(o.name) == "maintenance_compact_store" ==> o.value.asBool == Some(c.compactStore))
            && (!Given(options, CompactSlot) ==>
                  (c.compactStore <==> Given(options, SubspaceSlot) || Given(options, TimeoutSlot)))
  {
    var c, effects := Parsed(options, known).value, Effects(options, known);
    ParsedMeans(options, known);
    EffectsNamed(options, known);
    EffectsSet(options, known);
    CompactionFrom(options, effects, c);
    DistinctNamesDistinctSlots(options, known);
    forall o | o in options && Lower(o.name) == "maintenance_compact_store"
      ensures o.value.asBool == Some(c.compactStore)
    {
      GivenEffect(options, known, o);
      SwitchEffects(o, known);
      CompactedAs(effects, c, o.value.asBool.value);
    }
  }

  lemma CompactionFrom(options: seq<AttachOption>, effects: seq<Effect>, c: Config)
    requires AllNamed(options, effects) && AllSet(options, effects) && ConfigMeans(c, effects)
    ensures !Given(options, CompactSlot) ==> (c.compactStore <==> Given(options, SubspaceSlot) || Given(options, TimeoutSlot))
  {
    assert SlotOf(Compact(true)) == CompactSlot;
    assert CompactGiven(effects) <==> Sets(effects, SubspaceSlot) || Sets(effects, TimeoutSlot);
  }

  lemma CompactedAs(effects: seq<Effect>, c: Config, on: bool)
    requires DistinctSlots(effects) && ConfigMeans(c, effects) && Acceptable(effects) && Compact(on) in effects
    ensures c.compactStore == on
  {
    if !on && Compact(true) in effects {
      assert false;
    }
  }
}

/** Parsing the `MAINTENANCE_*` attach options, in whatever order they arrive. */
module MaintenanceOptions {
  import opened Values

  /** An attach option's value, by what the parser asks of it: whether it is an
      INTERVAL and how long, its casts, which may fail, and its renderings. */
  datatype OptionValue = OptionValue(
    isInterval: bool, micros: int, asBool: Option<bool>, asU64: Option<nat>, text: string, sql: string)

  datatype AttachOption = AttachOption(name: string, value: OptionValue)

  datatype StepSpec = StepSpec(name: string, parameters: seq<string>)

  const STEP_SPECS: seq<StepSpec> := [
    StepSpec("expire_snapshots", ["older_than", "versions"]),
    StepSpec("flush_inlined_data", []),
    StepSpec("merge_adjacent_files", []),
    StepSpec("rewrite_data_files", ["delete_threshold"]),
    StepSpec("cleanup_old_files", ["older_than", "cleanup_all"]),
    StepSpec("delete_orphaned_files", ["older_than", "cleanup_all"])]

  const STEPS: nat := 6

  const PREFIX: string := "maintenance_"

  datatype OptionError =
    | BadCast
    | NotPositive
    | UnknownSubspace
    | UnknownParameter(step: nat)
    | UnknownOption
    | CompactContradicted
    | StepContradicted(step: nat)

  /** A rendered `parameter => literal`. */
  datatype Argument = Argument(parameter: string, literal: string)

  /** What one option asks for. */
  datatype Effect =
    | Ignored
    | Interval(ms: nat)
    | BatchSize(count: nat)
    | Sweep(on: bool)
    | Compact(on: bool)
    | Subspace(name: string)
    | Timeout(ms: nat)
    | Enable(step: nat)
    | Disable(step: nat)
    | Argue(step: nat, argument: Argument)
    | Bad(error: OptionError)

  // ----- One option -----

  /** C++ division of integers: toward zero. */
  function TruncDiv(a: int, b: int): int
    requires b > 0
  {
    if a >= 0 then a / b else -((-a) / b)
  }

  /** A duration in milliseconds, as unsigned 64-bit arithmetic gives it: an
      INTERVAL's microseconds divided by 1000 and cast, or a count of seconds
      multiplied by 1000; zero is refused. */
  function Duration(v: OptionValue): Result<nat, OptionError> {
    if !v.isInterval && v.asU64.None? then Err(BadCast)
    else
      var ms := if v.isInterval then TruncDiv(v.micros, 1000) % (U64_MAX + 1) else v.asU64.value * 1000 % (U64_MAX + 1);
      if ms == 0 then Err(NotPositive) else Ok(ms)
  }

  predicate Matches(rest: string, step: nat)
    requires step < STEPS
  {
    rest == STEP_SPECS[step].name || STEP_SPECS[step].name + "_" <= rest
  }

  /** The first step an option name could belong to. */
  function FirstMatch(rest: string, from: nat): (r: Option<nat>)
    requires from <= STEPS
    ensures r.Some? ==> from <= r.value < STEPS && Matches(rest, r.value)
    ensures r.None? ==> forall i :: from <= i < STEPS ==> !Matches(rest, i)
    decreases STEPS - from
  {
    if from == STEPS then None else if Matches(rest, from) then Some(from) else FirstMatch(rest, from + 1)
  }

  /** What `rest` asks of the step it belongs to. */
  function StepEffect(rest: string, step: nat, spec: StepSpec, v: OptionValue): Effect
    requires rest == spec.name || spec.name + "_" <= rest
  {
    if rest == spec.name then
      if v.asBool.None? then Bad(BadCast) else if v.asBool.value then Enable(step) else Disable(step)
    else
      var parameter := rest[|spec.name| + 1..];
      if parameter !in spec.parameters then Bad(UnknownParameter(step))
      else if parameter == "older_than" && v.isInterval then
        Argue(step, Argument(parameter, "now()::TIMESTAMP - " + v.sql))
      else Argue(step, Argument(parameter, v.sql))
  }

  /** What the option `maintenance_<rest>` asks for; `known` is the core's
      subspace vocabulary. */
  function RestEffect(rest: string, v: OptionValue, known: string -> bool): Effect {
    if rest == "interval" then
      match Duration(v) case Ok(ms) => Interval(ms) case Err(e) => Bad(e)
    else if rest == "batch_size" then
      if v.asU64.None? then Bad(BadCast) else if v.asU64.value == 0 then Bad(NotPositive) else BatchSize(v.asU64.value)
    else if rest == "sweep_indexes" then
      if v.asBool.None? then Bad(BadCast) else Sweep(v.asBool.value)
    else if rest == "compact_store" then
      if v.asBool.None? then Bad(BadCast) else Compact(v.asBool.value)
    else if rest == "compact_store_subspace" then
      if !known(v.text) then Bad(UnknownSubspace) else Subspace(v.text)
    else if rest == "compact_store_timeout" then
      match Duration(v) case Ok(ms) => Timeout(ms) case Err(e) => Bad(e)
    else
      var step := FirstMatch(rest, 0);
      if step.None? then Bad(UnknownOption) else StepEffect(rest, step.value, STEP_SPECS[step.value], v)
  }

  /** What an attach option asks for; other options are not the parser's. */
  function EffectOf(o: AttachOption, known: string -> bool): Effect {
    var name := Lower(o.name);
    if PREFIX <= name then RestEffect(name[|PREFIX|..], o.value, known) else Ignored
  }

  // ----- All options -----

  datatype Pending = Pending(enabled: bool, disabled: bool, arguments: seq<Argument>)

  datatype DuckLakeStep = DuckLakeStep(name: string, arguments: seq<Argument>)

  datatype Config = Config(
    intervalMs: nat, batchSize: nat, sweepIndexes: bool, compactStore: bool, subspace: string, timeoutMs: nat,
    steps: seq<DuckLakeStep>)

  /** The parser's variables. */
  datatype Parser = Parser(config: Config, pending: seq<Pending>, compactGiven: bool, compactDisabled: bool)

  function Fresh(): (p: Parser)
    ensures |p.pending| == STEPS
  {
    Parser(Config(0, 0, true, false, "", 0, []), seq(STEPS, _ => Pending(false, false, [])), false, false)
  }

  function Apply(p: Parser, e: Effect): (p': Parser)
    requires |p.pending| == STEPS
    ensures |p'.pending| == STEPS
  {
    match e
    case Interval(ms) => p.(config := p.config.(intervalMs := ms))
    case BatchSize(count) => p.(config := p.config.(batchSize := count))
    case Sweep(on) => p.(config := p.config.(sweepIndexes := on))
    case Compact(on) => p.(config := p.config.(compactStore := on), compactDisabled := !on)
    case Subspace(name) => p.(config := p.config.(subspace := name), compactGiven := true)
    case Timeout(ms) => p.(config := p.config.(timeoutMs := ms), compactGiven := true)
    case Enable(i) => if i < STEPS then p.(pending := p.pending[i := p.pending[i].(enabled := true)]) else p
    case Disable(i) => if i < STEPS then p.(pending := p.pending[i := p.pending[i].(disabled := true)]) else p
    case Argue(i, a) =>
      if i < STEPS then
        p.(pending := p.pending[i := p.pending[i].(enabled := true, arguments := p.pending[i].arguments + [a])])
      else p
    case _ => p
  }

  function Effects(options: seq<AttachOption>, known: string -> bool): seq<Effect> {
    seq(|options|, i requires 0 <= i < |options| => EffectOf(options[i], known))
  }

  /** The parser after the options, or the first one's refusal. */
  function Read(effects: seq<Effect>): (r: Result<Parser, OptionError>)
    ensures r.Ok? ==> |r.value.pending| == STEPS
  {
    if effects == [] then Ok(Fresh())
    else
      var n := |effects| - 1;
      var before, e := Read(effects[..n]), effects[n];
      if before.Err? then before
      else if e.Bad? then Err(e.error)
      else Ok(Apply(before.value, e))
  }

  predicate Wanted(p: Pending) {
    p.enabled && !p.disabled
  }

  /** The steps of the first `n` specs that are wanted, in spec order, or the
      first that is both disabled and parameterized. */
  function Steps(pending: seq<Pending>, n: nat): Result<seq<DuckLakeStep>, OptionError>
    requires |pending| == STEPS && n <= STEPS
  {
    if n == 0 then Ok([])
    else
      var before, p := Steps(pending, n - 1), pending[n - 1];
      if before.Err? then before
      else if p.disabled && p.arguments != [] then Err(StepContradicted(n - 1))
      else if !Wanted(p) then before
      else Ok(before.value + [DuckLakeStep(STEP_SPECS[n - 1].name, p.arguments)])
  }

  function Finish(p: Parser): Result<Config, OptionError>
    requires |p.pending| == STEPS
  {
    if p.compactGiven && p.compactDisabled then Err(CompactContradicted)
    else
      var steps := Steps(p.pending, STEPS);
      if steps.Err? then Err(steps.error)
      else Ok(p.config.(compactStore := p.config.compactStore || p.compactGiven, steps := steps.value))
  }

  /** What the parser returns. */
  function Parsed(options: seq<AttachOption>, known: string -> bool): Result<Config, OptionError> {
    var read := Read(Effects(options, known));
    if read.Err? then Err(read.error) else Finish(read.value)
  }

  lemma {:induction false} RefusalStands(effects: seq<Effect>, k: nat)
    requires k <= |effects| && Read(effects[..k]).Err?
    ensures Read(effects) == Read(effects[..k])
    decreases |effects|
  {
    if k == |effects| {
      assert effects[..k] == effects;
    } else {
      var n := |effects| - 1;
      assert effects[..n][..k] == effects[..k];
      RefusalStands(effects[..n], k);
    }
  }

  lemma {:induction false} ContradictionStands(pending: seq<Pending>, k: nat, n: nat)
    requires |pending| == STEPS && k <= n <= STEPS && Steps(pending, k).Err?
    ensures Steps(pending, n) == Steps(pending, k)
  {
    if k < n {
      ContradictionStands(pending, k, n - 1);
    }
  }

  /** The loop over step specs: the first step `rest` names, or none. */
  method MatchStep(rest: string) returns (r: Option<nat>)
    ensures r == FirstMatch(rest, 0)
  {
    for i := 0 to STEPS
      invariant FirstMatch(rest, 0) == FirstMatch(rest, i)
    {
      if rest == STEP_SPECS[i].name || STEP_SPECS[i].name + "_" <= rest {
        return Some(i);
      }
    }
    return None;
  }

  /** One option's branch of the parser. */
  method ReadOption(o: AttachOption, known: string -> bool) returns (e: Effect)
    ensures e == EffectOf(o, known)
  {
    var name := Lower(o.name);
    if !(PREFIX <= name) {
      return Ignored;
    }
    var rest, v := name[|PREFIX|..], o.value;
    if rest == "interval" || rest == "compact_store_timeout" {
      var ms := Duration(v);
      if ms.Err? {
        return Bad(ms.error);
      }
      return if rest == "interval" then Interval(ms.value) else Timeout(ms.value);
    }
    if rest == "batch_size" {
      return if v.asU64.None? then Bad(BadCast) else if v.asU64.value == 0 then Bad(NotPositive) else BatchSize(v.asU64.value);
    }
    if rest == "sweep_indexes" {
      return if v.asBool.None? then Bad(BadCast) else Sweep(v.asBool.value);
    }
    if rest == "compact_store" {
      return if v.asBool.None? then Bad(BadCast) else Compact(v.asBool.value);
    }
    if rest == "compact_store_subspace" {
      return if known(v.text) then Subspace(v.text) else Bad(UnknownSubspace);
    }
    var step := MatchStep(rest);
    if step.None? {
      return Bad(UnknownOption);
    }
    return StepEffect(rest, step.value, STEP_SPECS[step.value], v);
  }

  method CollectSteps(pending: seq<Pending>) returns (r: Result<seq<DuckLakeStep>, OptionError>)
    requires |pending| == STEPS
    ensures r == Steps(pending, STEPS)
    ensures r.Err? <==> exists i :: 0 <= i < STEPS && pending[i].disabled && pending[i].arguments != []
  {
    var steps := [];
    for i := 0 to STEPS
      invariant Steps(pending, i) == Ok(steps)
      invariant forall j :: 0 <= j < i ==> !(pending[j].disabled && pending[j].arguments != [])
    {
      if pending[i].disabled && pending[i].arguments != [] {
        ContradictionStands(pending, i + 1, STEPS);
        return Err(StepContradicted(i));
      }
      if pending[i].enabled && !pending[i].disabled {
        steps := steps + [DuckLakeStep(STEP_SPECS[i].name, pending[i].arguments)];
      }
    }
    return Ok(steps);
  }

  method ParseMaintenanceOptions(options: seq<AttachOption>, known: string -> bool) returns (r: Result<Config, OptionError>)
    ensures r == Parsed(options, known)
  {
    var p := Fresh();
    ghost var effects := Effects(options, known);
    for i := 0 to |options|
      invariant |p.pending| == STEPS && Read(effects[..i]) == Ok(p)
    {
      assert effects[..i + 1][..i] == effects[..i];
      var e := ReadOption(options[i], known);
      if e.Bad? {
        RefusalStands(effects, i + 1);
        return Err(e.error);
      }
      p := Apply(p, e);
    }
    assert effects[..|options|] == effects;
    if p.compactGiven {
      if p.compactDisabled {
        return Err(CompactContradicted);
      }
      p := p.(config := p.config.(compactStore := true));
    }
    var steps := CollectSteps(p.pending);
    if steps.Err? {
      return Err(steps.error);
    }
    return Ok(p.config.(steps := steps.value));
  }
}

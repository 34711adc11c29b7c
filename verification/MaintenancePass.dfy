/** One maintenance pass, and the passes kept. */
module MaintenancePass {
  import opened Values
  import opened MaintenanceOptions

  datatype Status = Ran | Skipped | Failed

  datatype StepReport = StepReport(step: string, status: Status, detail: string)

  /** How a step that is run turns out. */
  datatype Outcome = Outcome(failed: bool, detail: string)

  function Reported(name: string, outcome: Outcome): StepReport {
    StepReport(name, if outcome.failed then Failed else Ran, outcome.detail)
  }

  predicate Configured(config: Config, i: nat)
    requires i < STEPS
  {
    exists k :: 0 <= k < |config.steps| && config.steps[k].name == STEP_SPECS[i].name
  }

  /** The DuckLake step whose failure ends the sequence: the first configured one
      that fails when run. `outcomes[i]` is how step `i` turns out if it is run. */
  ghost predicate Aborts(config: Config, outcomes: seq<Outcome>, i: nat)
    requires |outcomes| == STEPS
  {
    && i < STEPS && Configured(config, i) && outcomes[i].failed
    && forall j :: 0 <= j < i && Configured(config, j) ==> !outcomes[j].failed
  }

  ghost predicate AbortedBefore(config: Config, outcomes: seq<Outcome>, i: nat)
    requires |outcomes| == STEPS
  {
    exists a :: 0 <= a < i && Aborts(config, outcomes, a)
  }

  /** What the pass says of DuckLake step `i`. */
  ghost predicate StepMeans(config: Config, outcomes: seq<Outcome>, i: nat, report: StepReport)
    requires |outcomes| == STEPS && i < STEPS
  {
    && report.step == STEP_SPECS[i].name
    && (AbortedBefore(config, outcomes, i) ==>
          exists a :: 0 <= a < i && Aborts(config, outcomes, a)
                      && report == StepReport(STEP_SPECS[i].name, Skipped, "not attempted: " + STEP_SPECS[a].name + " failed"))
    && (!AbortedBefore(config, outcomes, i) ==>
          report == if Configured(config, i) then Reported(STEP_SPECS[i].name, outcomes[i])
                    else StepReport(STEP_SPECS[i].name, Skipped, "not configured at attach"))
  }

  method IsConfigured(config: Config, i: nat) returns (found: bool)
    requires i < STEPS
    ensures found <==> Configured(config, i)
  {
    for k := 0 to |config.steps|
      invariant forall j :: 0 <= j < k ==> config.steps[j].name != STEP_SPECS[i].name
    {
      if config.steps[k].name == STEP_SPECS[i].name {
        return true;
      }
    }
    return false;
  }

  /** `abortedBy` names the step that ended the sequence before step `i`, if any. */
  ghost predicate AbortState(config: Config, outcomes: seq<Outcome>, i: nat, abortedBy: Option<nat>)
    requires |outcomes| == STEPS && i <= STEPS
  {
    && (abortedBy.Some? ==> abortedBy.value < i && Aborts(config, outcomes, abortedBy.value))
    && (abortedBy.None? ==> forall j :: 0 <= j < i && Configured(config, j) ==> !outcomes[j].failed)
  }

  lemma AbortStateMeans(config: Config, outcomes: seq<Outcome>, i: nat, abortedBy: Option<nat>)
    requires |outcomes| == STEPS && i <= STEPS && AbortState(config, outcomes, i, abortedBy)
    ensures abortedBy.Some? <==> AbortedBefore(config, outcomes, i)
  {
    if a: nat :| a < i && Aborts(config, outcomes, a) {
      assert Configured(config, a);
    }
  }

  /** One turn of the pass's loop. */
  method TakeStep(config: Config, outcomes: seq<Outcome>, i: nat, abortedBy: Option<nat>)
    returns (entry: StepReport, abortedBy': Option<nat>, ran: bool)
    requires |outcomes| == STEPS && i < STEPS && AbortState(config, outcomes, i, abortedBy)
    ensures StepMeans(config, outcomes, i, entry) && AbortState(config, outcomes, i + 1, abortedBy')
    ensures ran <==> Configured(config, i) && !AbortedBefore(config, outcomes, i)
  {
    AbortStateMeans(config, outcomes, i, abortedBy);
    var name := STEP_SPECS[i].name;
    if abortedBy.Some? {
      var detail := "not attempted: " + STEP_SPECS[abortedBy.value].name + " failed";
      return StepReport(name, Skipped, detail), abortedBy, false;
    }
    var configured := IsConfigured(config, i);
    if !configured {
      return StepReport(name, Skipped, "not configured at attach"), abortedBy, false;
    }
    return Reported(name, outcomes[i]), if outcomes[i].failed then Some(i) else None, true;
  }

  /** The report of one pass, and which DuckLake steps it ran, in order. Every pass
      reports the same eight steps in the same order; DuckLake steps run until
      one fails and none after; the sweep and the store merge do not look at how
      the DuckLake steps went. */
  method RunSteps(config: Config, outcomes: seq<Outcome>, sweep: Outcome, merge: Outcome)
    returns (report: seq<StepReport>, ran: seq<nat>)
    requires |outcomes| == STEPS
    ensures |report| == STEPS + 2
    ensures forall i :: 0 <= i < STEPS ==> StepMeans(config, outcomes, i, report[i])
    ensures forall i, j :: 0 <= i < j < STEPS && report[i].status.Failed? ==> !report[j].status.Failed?
    ensures forall i :: 0 <= i < STEPS ==> (report[i].status.Failed? <==> Aborts(config, outcomes, i))
    ensures forall i :: 0 <= i < STEPS ==> (report[i].status.Skipped? <==> i !in ran)
    ensures forall i :: 0 <= i < STEPS && i in ran ==> report[i].detail == outcomes[i].detail
    ensures forall i :: i in ran <==> 0 <= i < STEPS && Configured(config, i) && !AbortedBefore(config, outcomes, i)
    ensures forall a, b :: 0 <= a < b < |ran| ==> ran[a] < ran[b]
    ensures report[STEPS] == if config.sweepIndexes then Reported("sweep_indexes", sweep)
                             else StepReport("sweep_indexes", Skipped, "disabled at attach")
    ensures report[STEPS + 1] == if config.compactStore then Reported("compact_store", merge)
                                 else StepReport("compact_store", Skipped, "not configured at attach")
    ensures report[STEPS].status == if !config.sweepIndexes then Skipped else if sweep.failed then Failed else Ran
    ensures report[STEPS + 1].status == if !config.compactStore then Skipped else if merge.failed then Failed else Ran
  {
    report, ran := [], [];
    var abortedBy: Option<nat> := None;
    for i := 0 to STEPS
      invariant |report| == i && AbortState(config, outcomes, i, abortedBy)
      invariant forall j :: 0 <= j < i ==> StepMeans(config, outcomes, j, report[j])
      invariant forall j :: j in ran <==> 0 <= j < i && Configured(config, j) && !AbortedBefore(config, outcomes, j)
      invariant forall a, b :: 0 <= a < b < |ran| ==> ran[a] < ran[b]
    {
      var entry, abortedBy', runs := TakeStep(config, outcomes, i, abortedBy);
      report, abortedBy := report + [entry], abortedBy';
      assert forall a :: 0 <= a < |ran| ==> ran[a] in ran;
      if runs {
        ran := ran + [i];
      }
    }
    OneFailure(config, outcomes, report);
    forall i | 0 <= i < STEPS
      ensures report[i].status.Failed? <==> Aborts(config, outcomes, i)
      ensures report[i].status.Skipped? <==> i !in ran
      ensures i in ran ==> report[i].detail == outcomes[i].detail
    {
      StatusMeans(config, outcomes, i, report[i]);
    }
    report := report + [if config.sweepIndexes then Reported("sweep_indexes", sweep)
                        else StepReport("sweep_indexes", Skipped, "disabled at attach")];
    report := report + [if config.compactStore then Reported("compact_store", merge)
                        else StepReport("compact_store", Skipped, "not configured at attach")];
  }

  /** A step is reported failed exactly when it is the one that ends the sequence. */
  lemma StatusMeans(config: Config, outcomes: seq<Outcome>, i: nat, entry: StepReport)
    requires |outcomes| == STEPS && i < STEPS && StepMeans(config, outcomes, i, entry)
    ensures entry.status.Failed? <==> Aborts(config, outcomes, i)
    ensures entry.status.Skipped? <==> !(Configured(config, i) && !AbortedBefore(config, outcomes, i))
    ensures !entry.status.Skipped? ==> entry.detail == outcomes[i].detail
  {
    if entry.status.Failed? {
      FirstOfFailures(config, outcomes, i);
    }
    if Aborts(config, outcomes, i) {
      forall a | 0 <= a < i
        ensures !Aborts(config, outcomes, a)
      {
      }
    }
  }

  /** The first failure is the only one. */
  lemma OneFailure(config: Config, outcomes: seq<Outcome>, report: seq<StepReport>)
    requires |outcomes| == STEPS && |report| == STEPS
    requires forall i :: 0 <= i < STEPS ==> StepMeans(config, outcomes, i, report[i])
    ensures forall i, j :: 0 <= i < j < STEPS && report[i].status.Failed? ==> !report[j].status.Failed?
  {
    forall i, j | 0 <= i < j < STEPS && report[i].status.Failed?
      ensures !report[j].status.Failed?
    {
      assert StepMeans(config, outcomes, i, report[i]) && StepMeans(config, outcomes, j, report[j]);
      FirstOfFailures(config, outcomes, i);
    }
  }

  lemma FirstOfFailures(config: Config, outcomes: seq<Outcome>, i: nat)
    requires |outcomes| == STEPS && i < STEPS && Configured(config, i) && outcomes[i].failed
    requires !AbortedBefore(config, outcomes, i)
    ensures Aborts(config, outcomes, i)
  {
    var j := 0;
    while j < i
      invariant 0 <= j <= i
      invariant forall k :: 0 <= k < j && Configured(config, k) ==> !outcomes[k].failed
    {
      if Configured(config, j) && outcomes[j].failed {
        assert Aborts(config, outcomes, j);
      }
      j := j + 1;
    }
  }

  // ----- The passes kept -----

  const RETAINED_PASSES: nat := 16

  datatype Pass = Pass(startedAt: int, trigger: string, steps: seq<StepReport>)

  function LastOf(passes: seq<Pass>): seq<Pass> {
    if |passes| <= RETAINED_PASSES then passes else passes[|passes| - RETAINED_PASSES..]
  }

  /** The pass history; `all` lists every pass ever recorded. */
  class PassHistory {
    var passes: seq<Pass>
    ghost var all: seq<Pass>

    ghost predicate Valid()
      reads this
    {
      passes == LastOf(all)
    }

    constructor ()
      ensures Valid() && all == []
    {
      passes, all := [], [];
    }

    method Record(pass: Pass)
      requires Valid()
      modifies this
      ensures Valid() && all == old(all) + [pass]
    {
      all := all + [pass];
      passes := passes + [pass];
      while |passes| > RETAINED_PASSES
        invariant RETAINED_PASSES <= |passes| <= |all| || passes == all
        invariant passes == all[|all| - |passes|..] && all == old(all) + [pass]
        decreases |passes|
      {
        passes := passes[1..];
      }
    }

    /** Newest first: entry `k` is the `k`-th newest of all passes, as far as they
        are kept. */
    method RecentPasses() returns (recent: seq<Pass>)
      requires Valid()
      ensures |recent| == if |all| < 16 then |all| else 16
      ensures forall k :: 0 <= k < |recent| ==> recent[k] == all[|all| - 1 - k]
    {
      recent := [];
      for i := 0 to |passes|
        invariant |recent| == i
        invariant forall k :: 0 <= k < i ==> recent[k] == passes[|passes| - 1 - k]
      {
        recent := recent + [passes[|passes| - 1 - i]];
      }
    }
  }
}

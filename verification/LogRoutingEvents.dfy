/** What the steps of a run alone say: which events there were, which sink a handle
    has, where each record was handed over, and what a drain hands over. */
module LogRoutingEvents {
  import opened Values
  import opened LogBuffer
  import opened LogRouting
  import opened LogRoutingSafety

  // ----- The events -----

  /** One record per emitting step, numbered in step order, with what the step carried. */
  function Events(steps: seq<Step>): seq<Record> {
    if steps == [] then []
    else
      var n := |steps| - 1;
      var before := Events(steps[..n]);
      if steps[n].Emit? then
        before + [Record(|before|, steps[n].thread, steps[n].tag, steps[n].level, steps[n].message)]
      else before
  }

  lemma {:induction false} EmittedAreTheEvents(init: Sys, steps: seq<Step>, s: Sys)
    requires Init(init) && Run(init, steps) == Some(s)
    ensures s.emitted == Events(steps)
  {
    if steps != [] {
      EmittedAreTheEvents(init, steps[..|steps| - 1], Run(init, steps[..|steps| - 1]).value);
    }
  }

  // ----- The sinks -----

  datatype Asked = Nothing | Registers(handle: nat, sink: nat) | Drains(sink: nat)

  /** What thread `t` last set out to do with a sink. */
  function AskedBy(steps: seq<Step>, t: nat): Asked {
    if steps == [] then Nothing
    else
      var n := |steps| - 1;
      match steps[n]
      case BeginRegister(u, handle, sink) => if u == t then Registers(handle, sink) else AskedBy(steps[..n], t)
      case BeginDrain(u, sink) => if u == t then Drains(sink) else AskedBy(steps[..n], t)
      case _ => AskedBy(steps[..n], t)
  }

  /** The sink `handle` has: the one of the registration that ended last, unless the
      handle was unregistered since. */
  function SinkAfter(steps: seq<Step>, handle: nat): Option<nat> {
    if steps == [] then None
    else
      var n := |steps| - 1;
      var before := SinkAfter(steps[..n], handle);
      match steps[n]
      case EndRegister(t) =>
        var asked := AskedBy(steps[..n], t);
        if asked.Registers? && asked.handle == handle then Some(asked.sink) else before
      case Unregister(_, other) => if other == handle then None else before
      case _ => before
  }

  ghost predicate DoesAsAsked(pc: Pc, asked: Asked) {
    match pc
    case Registering(handle, sink) => asked == Registers(handle, sink)
    case Flushing(handle, sink, _) => asked == Registers(handle, sink)
    case Draining(sink, _, _) => asked == Drains(sink)
    case _ => true
  }

  ghost predicate AsAsked(s: Sys, steps: seq<Step>) {
    forall t: nat :: t < |s.threads| ==> DoesAsAsked(s.threads[t], AskedBy(steps, t))
  }

  lemma StepAsAsked(s: Sys, steps: seq<Step>, s': Sys)
    requires steps != [] && AsAsked(s, steps[..|steps| - 1]) && Next(s, steps[|steps| - 1]) == Some(s')
    ensures AsAsked(s', steps)
  {
    OthersUnmoved(s, steps[|steps| - 1]);
  }

  lemma {:induction false} RunAsAsked(init: Sys, steps: seq<Step>, s: Sys)
    requires Init(init) && Run(init, steps) == Some(s)
    ensures AsAsked(s, steps)
  {
    if steps != [] {
      var n := |steps| - 1;
      RunAsAsked(init, steps[..n], Run(init, steps[..n]).value);
      StepAsAsked(Run(init, steps[..n]).value, steps, s);
    }
  }

  /** In every run the registry has for each handle exactly the sink the steps say. */
  lemma {:induction false} SinkIsTheRegistered(init: Sys, steps: seq<Step>, s: Sys, handle: nat)
    requires Init(init) && Run(init, steps) == Some(s)
    ensures Lookup(s.sinks, handle) == SinkAfter(steps, handle)
  {
    if steps != [] {
      var n := |steps| - 1;
      var before := Run(init, steps[..n]).value;
      SinkIsTheRegistered(init, steps[..n], before, handle);
      RunAsAsked(init, steps[..n], before);
      match steps[n]
      case EndRegister(t) =>
        var pc := before.threads[t];
        RegisteredLookup(before.sinks, pc.handle, pc.sink, handle);
      case Unregister(_, other) => UnregisteredLookup(before.sinks, other, handle);
      case _ =>
    }
  }

  /** Every hand-over of every run: an event's own call goes to the sink its handle has,
      a flush to the sink being registered, a drain to the drain's. */
  lemma HandedWhereAsked(init: Sys, steps: seq<Step>, s: Sys, step: Step, s': Sys)
    requires Init(init) && Run(init, steps) == Some(s) && Next(s, step) == Some(s') && s'.delivered != s.delivered
    ensures |s'.delivered| == |s.delivered| + 1 && s.delivered <= s'.delivered
    ensures var d := s'.delivered[|s.delivered|];
            match d.channel
            case ToDrain => step.DrainOne? && AskedBy(steps, step.thread) == Drains(d.sink)
            case ToHandle(handle) =>
              && d.record.handle == Some(handle)
              && if step.EndCall? then SinkAfter(steps, handle) == Some(d.sink)
                 else step.HandOver? && AskedBy(steps, step.thread) == Registers(handle, d.sink)
  {
    InitInv(init);
    RunKeepsInv(init, steps);
    RunAsAsked(init, steps, s);
    var pc := s.threads[step.thread];
    assert PcOk(s.sinks, pc);
    if step.EndCall? {
      SinkIsTheRegistered(init, steps, s, pc.record.handle.value);
    }
  }

  // ----- A drain -----

  function Handed(sink: nat, records: seq<Record>): seq<Delivery> {
    seq(|records|, i requires 0 <= i < |records| => Delivery(ToDrain, sink, records[i]))
  }

  /** A drain of a buffer with `dropped` drops to report, up to its `k`-th record. */
  function DrainSteps(t: nat, sink: nat, dropped: nat, k: nat): seq<Step> {
    if k > 0 then DrainSteps(t, sink, dropped, k - 1) + [DrainOne(t)]
    else if dropped > 0 then [BeginDrain(t, sink), Warn(t)]
    else [BeginDrain(t, sink)]
  }

  lemma RunSnoc(s: Sys, steps: seq<Step>, step: Step)
    ensures Run(s, steps + [step]) == if Run(s, steps).None? then None else Next(Run(s, steps).value, step)
  {
    assert (steps + [step])[..|steps|] == steps;
  }

  function Warned(s: Sys): seq<nat> {
    if s.dropped > 0 then s.warnings + [s.dropped] else s.warnings
  }

  /** A drain that has handed over `k` records. */
  function DrainedTo(s: Sys, t: nat, sink: nat, k: nat): Sys
    requires t < |s.threads| && k <= |s.records|
  {
    s.(threads := s.threads[t := Draining(sink, 0, s.records[k..])], records := [], dropped := 0,
       delivered := s.delivered + Handed(sink, s.records[..k]), warnings := Warned(s))
  }

  lemma DrainBegins(s: Sys, t: nat, sink: nat)
    requires t < |s.threads| && s.threads[t].Idle?
    ensures Run(s, DrainSteps(t, sink, s.dropped, 0)) == Some(DrainedTo(s, t, sink, 0))
  {
    var first, begun := BeginDrain(t, sink), Draining(sink, s.dropped, s.records);
    RunSnoc(s, [], first);
    assert [] + [first] == [first];
    assert s.records[0..] == s.records && s.delivered + Handed(sink, s.records[..0]) == s.delivered;
    if s.dropped > 0 {
      RunSnoc(s, [first], Warn(t));
      assert [first] + [Warn(t)] == [first, Warn(t)];
      assert s.threads[t := begun][t := Draining(sink, 0, s.records)] == s.threads[t := Draining(sink, 0, s.records)];
    }
  }

  lemma DrainGoesOn(s: Sys, t: nat, sink: nat, k: nat)
    requires t < |s.threads| && k < |s.records|
    ensures Next(DrainedTo(s, t, sink, k), DrainOne(t)) == Some(DrainedTo(s, t, sink, k + 1))
  {
    var rest := s.records[k..];
    assert rest[1..] == s.records[k + 1..] && rest[0] == s.records[k];
    assert Handed(sink, s.records[..k + 1]) == Handed(sink, s.records[..k]) + [Delivery(ToDrain, sink, s.records[k])];
    assert s.delivered + (Handed(sink, s.records[..k]) + [Delivery(ToDrain, sink, s.records[k])]) ==
           s.delivered + Handed(sink, s.records[..k]) + [Delivery(ToDrain, sink, s.records[k])];
    assert s.threads[t := Draining(sink, 0, rest)][t := Draining(sink, 0, rest[1..])] == s.threads[t := Draining(sink, 0, rest[1..])];
  }

  lemma {:induction false} DrainRuns(s: Sys, t: nat, sink: nat, k: nat)
    requires t < |s.threads| && s.threads[t].Idle? && k <= |s.records|
    ensures Run(s, DrainSteps(t, sink, s.dropped, k)) == Some(DrainedTo(s, t, sink, k))
  {
    if k == 0 {
      DrainBegins(s, t, sink);
    } else {
      DrainRuns(s, t, sink, k - 1);
      RunSnoc(s, DrainSteps(t, sink, s.dropped, k - 1), DrainOne(t));
      DrainGoesOn(s, t, sink, k - 1);
    }
  }

  lemma DrainEnds(s: Sys, t: nat, sink: nat)
    requires t < |s.threads| && s.threads[t].Idle?
    ensures Next(DrainedTo(s, t, sink, |s.records|), EndDrain(t)) ==
            Some(s.(records := [], dropped := 0, delivered := s.delivered + Handed(sink, s.records), warnings := Warned(s)))
  {
    var n := |s.records|;
    assert s.records[..n] == s.records && s.records[n..] == [];
    assert s.threads[t := Draining(sink, 0, [])][t := Idle] == s.threads;
  }

  /** An undisturbed drain from any state warns once of what was dropped, if anything was,
      then hands over the whole buffer oldest first, and leaves it empty and everything
      else as it was; and no drain hands anything over before it has warned. */
  lemma DrainHandsOverAll(s: Sys, t: nat, sink: nat)
    requires t < |s.threads| && s.threads[t].Idle?
    ensures Run(s, DrainSteps(t, sink, s.dropped, |s.records|) + [EndDrain(t)]) ==
            Some(s.(records := [], dropped := 0, delivered := s.delivered + Handed(sink, s.records), warnings := Warned(s)))
    ensures s.dropped > 0 ==>
              Next(s, BeginDrain(t, sink)).Some? && Next(Next(s, BeginDrain(t, sink)).value, DrainOne(t)).None?
  {
    DrainRuns(s, t, sink, |s.records|);
    RunSnoc(s, DrainSteps(t, sink, s.dropped, |s.records|), EndDrain(t));
    DrainEnds(s, t, sink);
  }
}

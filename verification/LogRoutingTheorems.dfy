/** The main results about log routing, over every run of any number of
    threads. */
module LogRoutingTheorems {
  import opened Values
  import opened LogBuffer
  import opened LogRouting
  import opened LogRoutingSafety

  // ----- Conservation -----

  lemma {:induction false} NumberedCount(emitted: seq<Record>, offset: nat, r: Record)
    requires forall i :: 0 <= i < |emitted| ==> emitted[i].id == offset + i
    ensures Count(emitted, r) == if r in emitted then 1 else 0
  {
    if emitted != [] {
      NumberedCount(emitted[1..], offset + 1, r);
      if emitted[0] == r {
        assert forall x :: x in emitted[1..] ==> x.id > offset;
      }
    }
  }

  /** In every run each event is in exactly one place: handed to a sink,
      buffered, evicted, or in the hands of the one thread carrying it. Nothing
      that was not emitted is anywhere. */
  lemma EveryRecordInOnePlace(init: Sys, steps: seq<Step>, s: Sys, r: Record)
    requires Init(init) && Run(init, steps) == Some(s)
    ensures Places(s, r) == if r in s.emitted then 1 else 0
  {
    InitInv(init);
    RunKeepsInv(init, steps);
    NumberedCount(s.emitted, 0, r);
    assert Places(s, r) == Count(s.emitted, r);
  }

  /** The buffer never exceeds its capacity. */
  lemma BufferBounded(init: Sys, steps: seq<Step>, s: Sys)
    requires Init(init) && Run(init, steps) == Some(s)
    ensures |s.records| <= CAPACITY
  {
    InitInv(init);
    RunKeepsInv(init, steps);
  }

  /** Evictions are exactly the drops warned of, the counts drains are about to
      warn of, and the standing counter; past `u64` saturation the three can
      only fall short. */
  lemma DropsAccounted(init: Sys, steps: seq<Step>, s: Sys)
    requires Init(init) && Run(init, steps) == Some(s)
    ensures s.dropped + Sum(s.warnings) + AllUnreported(s.threads) <= |s.evicted|
    ensures |s.evicted| <= U64_MAX ==> s.dropped + Sum(s.warnings) + AllUnreported(s.threads) == |s.evicted|
  {
    InitInv(init);
    RunKeepsInv(init, steps);
  }

  // ----- Who a sink hears from -----

  /** A registered sink only ever receives records tagged with its own handle. */
  lemma SinkHearsOnlyItsHandle(init: Sys, steps: seq<Step>, s: Sys, d: Delivery)
    requires Init(init) && Run(init, steps) == Some(s) && d in s.delivered && d.channel.ToHandle?
    ensures d.record.handle == Some(d.channel.handle)
  {
    InitInv(init);
    RunKeepsInv(init, steps);
  }

  /** A call into a sink registered, or being registered, for `handle`. */
  predicate CallsFor(pc: Pc, handle: nat) {
    || (pc.Calling? && pc.record.handle == Some(handle))
    || (pc.Registering? && pc.handle == handle)
    || (pc.Flushing? && pc.handle == handle)
  }

  ghost predicate Quiet(s: Sys, handle: nat) {
    && Lookup(s.sinks, handle).None?
    && (forall t :: 0 <= t < |s.threads| ==> !CallsFor(s.threads[t], handle))
  }

  lemma StepStaysQuiet(s: Sys, step: Step, handle: nat)
    requires Inv(s) && Quiet(s, handle) && Next(s, step).Some?
    requires !(step.BeginRegister? && step.handle == handle)
    ensures Quiet(Next(s, step).value, handle)
    ensures Sent(Next(s, step).value.delivered, handle) == Sent(s.delivered, handle)
  {
    var s', t := Next(s, step).value, step.thread;
    OthersUnmoved(s, step);
    assert !CallsFor(s.threads[t], handle);
    if step.EndRegister? {
      RegisteredLookup(s.sinks, s.threads[t].handle, s.threads[t].sink, handle);
    } else if step.Unregister? {
      UnregisteredLookup(s.sinks, step.handle, handle);
    } else if step.EndCall? || step.HandOver? || step.DrainOne? {
      SentSnoc(s.delivered, s'.delivered[|s.delivered|], handle);
    }
  }

  lemma SentSnoc(delivered: seq<Delivery>, d: Delivery, handle: nat)
    ensures Sent(delivered + [d], handle) == Sent(delivered, handle) + (if d.channel == ToHandle(handle) then [d.record] else [])
  {
    var isFor := (d: Delivery) => d.channel == ToHandle(handle);
    FilterAppend(delivered, [d], isFor);
    FilterOne(d, isFor);
    if isFor(d) {
      RecordsOfSnoc(Filter(delivered, isFor), d);
    } else {
      assert Filter(delivered + [d], isFor) == Filter(delivered, isFor);
    }
  }

  predicate NoRegistration(steps: seq<Step>, handle: nat) {
    forall i :: 0 <= i < |steps| ==> !(steps[i].BeginRegister? && steps[i].handle == handle)
  }

  lemma {:induction false} StaysQuiet(s: Sys, steps: seq<Step>, handle: nat)
    requires Inv(s) && Quiet(s, handle) && Run(s, steps).Some? && NoRegistration(steps, handle)
    ensures Quiet(Run(s, steps).value, handle)
    ensures Sent(Run(s, steps).value.delivered, handle) == Sent(s.delivered, handle)
  {
    if steps != [] {
      var n := |steps| - 1;
      RunKeepsInv(s, steps[..n]);
      StaysQuiet(s, steps[..n], handle);
      StepStaysQuiet(Run(s, steps[..n]).value, steps[n], handle);
    }
  }

  /** When `unregister_sink(h)` returns no call to `h`'s sink is in flight, and
      until `h` is registered again none starts and nothing more is handed to it. */
  lemma UnregisterIsFinal(init: Sys, before: seq<Step>, s: Sys, t: nat, handle: nat, after: seq<Step>)
    requires Init(init) && Run(init, before) == Some(s)
    requires Next(s, Unregister(t, handle)).Some?
    requires var s1 := Next(s, Unregister(t, handle)).value; Run(s1, after).Some? && NoRegistration(after, handle)
    ensures var s1 := Next(s, Unregister(t, handle)).value;
            var s2 := Run(s1, after).value;
            Quiet(s1, handle) && Quiet(s2, handle) && Sent(s2.delivered, handle) == Sent(s1.delivered, handle)
  {
    InitInv(init);
    RunKeepsInv(init, before);
    StepKeepsInv(s, Unregister(t, handle));
    var s1 := Next(s, Unregister(t, handle)).value;
    UnregisteredLookup(s.sinks, handle, handle);
    forall u | 0 <= u < |s1.threads|
      ensures !CallsFor(s1.threads[u], handle)
    {
      assert !HoldsLock(s.threads[u]);
    }
    StaysQuiet(s1, after, handle);
  }

  // ----- Registration and order -----

  ghost predicate NoGap(s: Sys, handle: nat) {
    forall t :: 0 <= t < |s.threads| && s.threads[t].Gap? ==> s.threads[t].record.handle != Some(handle)
  }

  /** No record of `handle` waits in the buffer or on its way there. */
  ghost predicate Clean(s: Sys, handle: nat) {
    NoGap(s, handle) && forall r :: r in s.records ==> r.handle != Some(handle)
  }

  /** `handle` has a sink, or its registration is past taking the backlog. */
  predicate Live(s: Sys, handle: nat) {
    || Lookup(s.sinks, handle).Some?
    || (s.lock.Some? && s.lock.value < |s.threads| && s.threads[s.lock.value].Flushing? && s.threads[s.lock.value].handle == handle)
  }

  /** `handle`'s records that the holder of the registry lock is handing over. */
  function Pending(s: Sys, handle: nat): seq<Record> {
    if s.lock.Some? && s.lock.value < |s.threads| then
      var pc := s.threads[s.lock.value];
      if pc.Calling? && pc.record.handle == Some(handle) then [pc.record]
      else if pc.Flushing? && pc.handle == handle then pc.rest
      else []
    else []
  }

  predicate NoUnregistration(steps: seq<Step>, handle: nat) {
    forall i :: 0 <= i < |steps| ==> !(steps[i].Unregister? && steps[i].handle == handle)
  }

  lemma StepStaysClean(s: Sys, step: Step, handle: nat)
    requires Inv(s) && Live(s, handle) && Clean(s, handle) && Next(s, step).Some?
    requires !(step.Unregister? && step.handle == handle)
    ensures Clean(Next(s, step).value, handle)
  {
    var s', t := Next(s, step).value, step.thread;
    OthersUnmoved(s, step);
    if step.TakeBacklog? {
      FilterMembers(s.records, (r: Record) => r.handle != Some(s.threads[t].handle));
    } else if step.PushGap? {
      PushKeepsOrder(s.records, s.threads[t].record);
    }
  }

  lemma StepStaysLive(s: Sys, step: Step, handle: nat)
    requires Inv(s) && Live(s, handle) && Next(s, step).Some?
    requires !(step.Unregister? && step.handle == handle)
    ensures Live(Next(s, step).value, handle)
  {
    var s', t := Next(s, step).value, step.thread;
    OthersUnmoved(s, step);
    if step.EndRegister? {
      RegisteredLookup(s.sinks, s.threads[t].handle, s.threads[t].sink, handle);
      assert s.lock == Some(t);
    } else if step.Unregister? {
      UnregisteredLookup(s.sinks, step.handle, handle);
    } else if s.lock.Some? {
      assert HoldsLock(s.threads[s.lock.value]);
    }
  }

  /** One step moves `handle`'s records along without reordering them. */
  lemma StepKeepsSequence(s: Sys, step: Step, handle: nat)
    requires Inv(s) && Live(s, handle) && Clean(s, handle) && Next(s, step).Some?
    requires !(step.Unregister? && step.handle == handle)
    ensures var s' := Next(s, step).value;
            Sent(s'.delivered, handle) + Pending(s', handle) ==
            Sent(s.delivered, handle) + Pending(s, handle) + OfHandle(handle, s'.emitted[|s.emitted|..])
  {
    var s' := Next(s, step).value;
    if step.Emit? {
      EmitKeepsSequence(s, step, handle);
    } else {
      assert s'.emitted[|s.emitted|..] == [];
      if step.EndCall? || step.HandOver? || step.DrainOne? {
        DeliveryKeepsSequence(s, step, handle);
      } else {
        QuietKeepsPending(s, step, handle);
      }
    }
  }

  /** A step that neither emits nor delivers. */
  lemma QuietKeepsPending(s: Sys, step: Step, handle: nat)
    requires Inv(s) && Live(s, handle) && Clean(s, handle) && Next(s, step).Some?
    requires !(step.Emit? || step.EndCall? || step.HandOver? || step.DrainOne?)
    ensures Next(s, step).value.delivered == s.delivered && Pending(Next(s, step).value, handle) == Pending(s, handle)
  {
    var t := step.thread;
    OthersUnmoved(s, step);
    if step.TakeBacklog? {
      assert s.lock == Some(t);
      FilterNone(s.records, (r: Record) => r.handle == Some(handle));
    } else if step.EndRegister? || step.BeginRegister? {
      assert HoldsLock(s.threads[t]) <==> s.lock == Some(t);
    } else if s.lock.Some? {
      assert HoldsLock(s.threads[s.lock.value]);
    }
  }

  lemma DeliveryKeepsSequence(s: Sys, step: Step, handle: nat)
    requires Inv(s) && Next(s, step).Some? && (step.EndCall? || step.HandOver? || step.DrainOne?)
    ensures var s' := Next(s, step).value;
            Sent(s'.delivered, handle) + Pending(s', handle) == Sent(s.delivered, handle) + Pending(s, handle)
  {
    var s', t := Next(s, step).value, step.thread;
    var d := s'.delivered[|s.delivered|];
    SentSnoc(s.delivered, d, handle);
    assert HoldsLock(s.threads[t]) <==> s.lock == Some(t);
    if step.HandOver? && s.threads[t].handle == handle {
      var rest := s.threads[t].rest;
      assert rest == [rest[0]] + rest[1..];
      assert Sent(s.delivered, handle) + [rest[0]] + rest[1..] == Sent(s.delivered, handle) + rest;
    }
  }

  lemma EmitKeepsSequence(s: Sys, step: Step, handle: nat)
    requires Inv(s) && Live(s, handle) && Next(s, step).Some? && step.Emit?
    ensures var s' := Next(s, step).value;
            Sent(s'.delivered, handle) + Pending(s', handle) ==
            Sent(s.delivered, handle) + Pending(s, handle) + OfHandle(handle, s'.emitted[|s.emitted|..])
  {
    var s', t := Next(s, step).value, step.thread;
    var record := s'.emitted[|s.emitted|];
    assert s'.emitted[|s.emitted|..] == [record];
    FilterOne(record, (r: Record) => r.handle == Some(handle));
    if step.tag.None? {
      PendingUnmoved(s, s', t, handle);
    } else {
      TaggedPending(s, step, handle, record);
    }
  }

  /** A tagged event goes to its sink under the lock, or past it to the buffer. */
  lemma TaggedPending(s: Sys, step: Step, handle: nat, record: Record)
    requires Inv(s) && Live(s, handle) && Next(s, step).Some? && step.Emit? && step.tag.Some?
    requires |Next(s, step).value.emitted| > |s.emitted| && Next(s, step).value.emitted[|s.emitted|] == record
    ensures Pending(s, handle) == []
    ensures Pending(Next(s, step).value, handle) == if step.tag == Some(handle) then [record] else []
  {
  }

  lemma PendingUnmoved(s: Sys, s': Sys, t: nat, handle: nat)
    requires Inv(s) && t < |s.threads| && !HoldsLock(s.threads[t])
    requires s'.lock == s.lock && |s'.threads| == |s.threads|
    requires forall u :: 0 <= u < |s.threads| && u != t ==> s'.threads[u] == s.threads[u]
    ensures Pending(s', handle) == Pending(s, handle)
  {
    if s.lock.Some? {
      assert HoldsLock(s.threads[s.lock.value]);
    }
  }

  /** Between `s` and `s'` the handle's sinks got, or are about to get, exactly
      what was pending at `s` and then the events of the handle since. */
  ghost predicate Continues(s: Sys, s': Sys, handle: nat) {
    && s.emitted <= s'.emitted
    && Sent(s'.delivered, handle) + Pending(s', handle) ==
       Sent(s.delivered, handle) + Pending(s, handle) + OfHandle(handle, s'.emitted[|s.emitted|..])
  }

  lemma AppendTwice(records: seq<Record>, early: seq<Record>, late: seq<Record>)
    ensures records + early + late == records + (early + late)
  {
  }

  lemma ContinuesTrans(s: Sys, m: Sys, s': Sys, handle: nat)
    requires Continues(s, m, handle) && Continues(m, s', handle)
    ensures Continues(s, s', handle)
  {
    var early, late := m.emitted[|s.emitted|..], s'.emitted[|m.emitted|..];
    assert s'.emitted[|s.emitted|..] == early + late;
    FilterAppend(early, late, (r: Record) => r.handle == Some(handle));
    AppendTwice(Sent(s.delivered, handle) + Pending(s, handle), OfHandle(handle, early), OfHandle(handle, late));
  }

  lemma StepContinues(s: Sys, step: Step, handle: nat)
    requires Inv(s) && Live(s, handle) && Clean(s, handle) && Next(s, step).Some?
    requires !(step.Unregister? && step.handle == handle)
    ensures var s' := Next(s, step).value; Continues(s, s', handle) && Live(s', handle) && Clean(s', handle)
  {
    StepStaysLive(s, step, handle);
    StepStaysClean(s, step, handle);
    StepKeepsSequence(s, step, handle);
  }

  /** From a registration that took its backlog with no event of the handle in
      the gap: the sink gets exactly the surviving backlog, oldest first, and
      then exactly the handle's events since, in the order they passed the
      registry check; nothing of the handle is left waiting anywhere. */
  lemma {:induction false} BacklogThenLive(s: Sys, steps: seq<Step>, handle: nat)
    requires Inv(s) && Live(s, handle) && Clean(s, handle)
    requires Run(s, steps).Some? && NoUnregistration(steps, handle)
    ensures var s' := Run(s, steps).value; Continues(s, s', handle) && Live(s', handle) && Clean(s', handle)
  {
    if steps == [] {
      assert s.emitted[|s.emitted|..] == [];
    } else {
      var n := |steps| - 1;
      BacklogThenLive(s, steps[..n], handle);
      RunKeepsInv(s, steps[..n]);
      var m := Run(s, steps[..n]).value;
      StepContinues(m, steps[n], handle);
      ContinuesTrans(s, m, Run(s, steps).value, handle);
    }
  }

  /** The same, told from the step that takes the backlog. */
  lemma RegistrationDeliversInOrder(init: Sys, before: seq<Step>, s: Sys, t: nat, after: seq<Step>)
    requires Init(init) && Run(init, before) == Some(s)
    requires t < |s.threads| && s.threads[t].Registering? && NoGap(s, s.threads[t].handle)
    requires var h := s.threads[t].handle;
             Run(Next(s, TakeBacklog(t)).value, after).Some? && NoUnregistration(after, h)
    ensures var h := s.threads[t].handle;
            var s' := Run(Next(s, TakeBacklog(t)).value, after).value;
            && s.emitted <= s'.emitted
            && Sent(s'.delivered, h) + Pending(s', h) ==
               Sent(s.delivered, h) + OfHandle(h, s.records) + OfHandle(h, s'.emitted[|s.emitted|..])
            && ThreadOrdered(OfHandle(h, s.records) + OfHandle(h, s'.emitted[|s.emitted|..]))
            && Clean(s', h)
  {
    var h := s.threads[t].handle;
    InitInv(init);
    RunKeepsInv(init, before);
    StepKeepsInv(s, TakeBacklog(t));
    var s1 := Next(s, TakeBacklog(t)).value;
    BacklogTaken(s, t);
    BacklogThenLive(s1, after, h);
    RunKeepsInv(s1, after);
    var s' := Run(s1, after).value;
    BacklogOrdered(s, s', h);
  }

  lemma BacklogTaken(s: Sys, t: nat)
    requires Inv(s) && t < |s.threads| && s.threads[t].Registering? && NoGap(s, s.threads[t].handle)
    ensures var h, s1 := s.threads[t].handle, Next(s, TakeBacklog(t)).value;
            && Live(s1, h) && Clean(s1, h) && s1.emitted == s.emitted && s1.delivered == s.delivered
            && Pending(s1, h) == OfHandle(h, s.records)
  {
    var h := s.threads[t].handle;
    FilterMembers(s.records, (r: Record) => r.handle != Some(h));
    assert s.lock == Some(t);
  }

  /** Backlog and later events together respect every thread's own order. */
  lemma BacklogOrdered(s: Sys, s': Sys, h: nat)
    requires Inv(s) && Inv(s') && s.emitted <= s'.emitted
    ensures ThreadOrdered(OfHandle(h, s.records) + OfHandle(h, s'.emitted[|s.emitted|..]))
  {
    var isMine := (r: Record) => r.handle == Some(h);
    var late := s'.emitted[|s.emitted|..];
    FilterKeepsOrder(s.records, isMine);
    assert ThreadOrdered(late);
    FilterKeepsOrder(late, isMine);
    FilterMembers(s.records, isMine);
    FilterMembers(late, isMine);
    forall r | r in late
      ensures r.id >= |s.emitted|
    {
      var i :| 0 <= i < |late| && late[i] == r;
      assert late[i] == s'.emitted[|s.emitted| + i];
    }
  }

  /** The side condition is exact: once the backlog is taken, nothing of the
      handle is ever stranded in the buffer behind its sink exactly when no
      event of the handle stood in the gap. */
  lemma NothingStrandedIff(init: Sys, before: seq<Step>, s: Sys, t: nat)
    requires Init(init) && Run(init, before) == Some(s)
    requires t < |s.threads| && s.threads[t].Registering?
    ensures var h, s1 := s.threads[t].handle, Next(s, TakeBacklog(t)).value;
            NoGap(s, h) <==>
            forall after :: NoUnregistration(after, h) && Run(s1, after).Some? ==>
              forall r :: r in Run(s1, after).value.records ==> r.handle != Some(h)
  {
    var h, s1 := s.threads[t].handle, Next(s, TakeBacklog(t)).value;
    InitInv(init);
    RunKeepsInv(init, before);
    StepKeepsInv(s, TakeBacklog(t));
    if NoGap(s, h) {
      BacklogTaken(s, t);
      forall after | NoUnregistration(after, h) && Run(s1, after).Some?
        ensures forall r :: r in Run(s1, after).value.records ==> r.handle != Some(h)
      {
        BacklogThenLive(s1, after, h);
      }
    } else {
      GapStrands(s, t);
    }
  }

  lemma GapStrands(s: Sys, t: nat)
    requires t < |s.threads| && s.threads[t].Registering? && !NoGap(s, s.threads[t].handle)
    ensures var h, s1 := s.threads[t].handle, Next(s, TakeBacklog(t)).value;
            exists after ::
              && NoUnregistration(after, h) && Run(s1, after).Some?
              && exists r :: r in Run(s1, after).value.records && r.handle == Some(h)
  {
    var h, s1 := s.threads[t].handle, Next(s, TakeBacklog(t)).value;
    var u :| 0 <= u < |s.threads| && s.threads[u].Gap? && s.threads[u].record.handle == Some(h);
    var after := [PushGap(u)];
    assert Run(s1, after[..0]) == Some(s1);
    var s2 := Run(s1, after).value;
    assert s2.records[|s2.records| - 1] == s.threads[u].record;
    assert NoUnregistration(after, h);
  }
}

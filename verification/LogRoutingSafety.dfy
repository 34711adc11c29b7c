/** What every run of log routing keeps: conservation of records, the buffer
    bound, the accounting of drops, and who a sink hears from. */
module LogRoutingSafety {
  import opened Values
  import opened LogBuffer
  import opened LogRouting

  // ----- Bookkeeping over all threads -----

  lemma {:induction false} InHandsUpdate(threads: seq<Pc>, t: nat, pc: Pc, r: Record)
    requires t < |threads|
    ensures InHands(threads[t := pc], r) + Count(InHand(threads[t]), r) == InHands(threads, r) + Count(InHand(pc), r)
  {
    if t == 0 {
      assert threads[0 := pc][1..] == threads[1..];
    } else {
      InHandsUpdate(threads[1..], t - 1, pc, r);
      assert threads[t := pc][1..] == threads[1..][t - 1 := pc];
    }
  }

  lemma {:induction false} UnreportedUpdate(threads: seq<Pc>, t: nat, pc: Pc)
    requires t < |threads|
    ensures AllUnreported(threads[t := pc]) + Unreported(threads[t]) == AllUnreported(threads) + Unreported(pc)
  {
    if t == 0 {
      assert threads[0 := pc][1..] == threads[1..];
    } else {
      UnreportedUpdate(threads[1..], t - 1, pc);
      assert threads[t := pc][1..] == threads[1..][t - 1 := pc];
    }
  }

  lemma {:induction false} IdleHands(threads: seq<Pc>, r: Record)
    requires forall t :: 0 <= t < |threads| ==> threads[t].Idle?
    ensures InHands(threads, r) == 0 && AllUnreported(threads) == 0
  {
    if threads != [] {
      assert threads[0].Idle?;
      IdleHands(threads[1..], r);
    }
  }

  lemma RecordsOfSnoc(delivered: seq<Delivery>, d: Delivery)
    ensures RecordsOf(delivered + [d]) == RecordsOf(delivered) + [d.record]
  {
  }

  lemma SumSnoc(counts: seq<nat>, n: nat)
    ensures Sum(counts + [n]) == Sum(counts) + n
  {
    assert (counts + [n])[..|counts|] == counts;
  }

  lemma CountOne(record: Record, r: Record)
    ensures Count([record], r) == if record == r then 1 else 0
  {
    assert [record][1..] == [];
  }

  // ----- The invariant -----

  /** Every record is in as many places as it was emitted times. */
  ghost predicate Conserved(s: Sys) {
    forall r :: Places(s, r) == Count(s.emitted, r)
  }

  ghost predicate DropsCounted(s: Sys) {
    var counted := s.dropped + Sum(s.warnings) + AllUnreported(s.threads);
    s.dropped <= U64_MAX && counted <= |s.evicted| && (|s.evicted| <= U64_MAX ==> counted == |s.evicted|)
  }

  ghost predicate LockOk(s: Sys) {
    && (s.lock.Some? ==> s.lock.value < |s.threads|)
    && (forall t :: 0 <= t < |s.threads| ==> (HoldsLock(s.threads[t]) <==> s.lock == Some(t)))
  }

  /** Threads route only what is theirs to route. */
  predicate PcOk(sinks: seq<RegisteredSink>, pc: Pc) {
    match pc
    case Calling(record, sink) => record.handle.Some? && Lookup(sinks, record.handle.value) == Some(sink)
    case Flushing(handle, _, rest) => forall r :: r in rest ==> r.handle == Some(handle)
    case _ => true
  }

  ghost predicate RoutedOk(s: Sys) {
    && (forall t :: 0 <= t < |s.threads| ==> PcOk(s.sinks, s.threads[t]))
    && (forall d :: d in s.delivered && d.channel.ToHandle? ==> d.record.handle == Some(d.channel.handle))
  }

  ghost predicate Numbered(emitted: seq<Record>) {
    forall i :: 0 <= i < |emitted| ==> emitted[i].id == i
  }

  /** The records of any one thread stand in the order it emitted them. */
  ghost predicate ThreadOrdered(records: seq<Record>) {
    forall i, j :: 0 <= i < j < |records| && records[i].emitter == records[j].emitter ==> records[i].id < records[j].id
  }

  /** Everything a thread has in the buffer is older than what it is about to
      push there. */
  ghost predicate GapsLater(s: Sys) {
    && (forall r :: r in s.records ==> r.id < |s.emitted|)
    && (forall t :: 0 <= t < |s.threads| && s.threads[t].Gap? ==>
          s.threads[t].record.emitter == t && s.threads[t].record.id < |s.emitted|)
    && (forall t, r :: 0 <= t < |s.threads| && s.threads[t].Gap? && r in s.records && r.emitter == t ==>
          r.id < s.threads[t].record.id)
  }

  ghost predicate Inv(s: Sys) {
    && Conserved(s)
    && DropsCounted(s)
    && LockOk(s)
    && RoutedOk(s)
    && Numbered(s.emitted)
    && |s.records| <= CAPACITY
    && ThreadOrdered(s.records)
    && GapsLater(s)
  }

  // ----- One step -----

  /** What thread `t` has in hand together with everything outside hands. */
  function Near(s: Sys, t: nat, r: Record): nat
    requires t < |s.threads|
  {
    Count(RecordsOf(s.delivered), r) + Count(s.records, r) + Count(s.evicted, r) + Count(InHand(s.threads[t]), r)
  }

  /** Steps that hand one record to a sink. */
  lemma DeliveryBalances(s: Sys, step: Step, r: Record)
    requires step.EndCall? || step.HandOver? || step.DrainOne?
    requires Next(s, step).Some?
    ensures Near(Next(s, step).value, step.thread, r) == Near(s, step.thread, r)
  {
    var s', t := Next(s, step).value, step.thread;
    var d := s'.delivered[|s.delivered|];
    RecordsOfSnoc(s.delivered, d);
    CountAppend(RecordsOf(s.delivered), [d.record], r);
    CountOne(d.record, r);
    if !step.EndCall? {
      CountOne(s.threads[t].rest[0], r);
    }
  }

  lemma PushBalances(s: Sys, step: Step, r: Record)
    requires step.PushGap? && Next(s, step).Some?
    ensures Near(Next(s, step).value, step.thread, r) == Near(s, step.thread, r)
  {
    var record := s.threads[step.thread].record;
    CountAppend(s.evicted, Evicted(s.records), r);
    if |s.records| >= CAPACITY {
      CountOne(s.records[0], r);
      CountAppend(s.records[1..], [record], r);
    } else {
      CountAppend(s.records, [record], r);
    }
  }

  lemma TakeBalances(s: Sys, step: Step, r: Record)
    requires (step.TakeBacklog? || step.BeginDrain?) && Next(s, step).Some?
    ensures Near(Next(s, step).value, step.thread, r) == Near(s, step.thread, r)
  {
    if step.TakeBacklog? {
      SplitKeepsRecords(s.threads[step.thread].handle, s.records, r);
    }
  }

  lemma StepBalances(s: Sys, step: Step, r: Record)
    requires Next(s, step).Some?
    ensures var s' := Next(s, step).value;
            Near(s', step.thread, r) + Count(s.emitted, r) == Near(s, step.thread, r) + Count(s'.emitted, r)
  {
    if step.Emit? {
      var s' := Next(s, step).value;
      CountAppend(s.emitted, [s'.emitted[|s.emitted|]], r);
    } else if step.EndCall? || step.HandOver? || step.DrainOne? {
      DeliveryBalances(s, step, r);
    } else if step.PushGap? {
      PushBalances(s, step, r);
    } else if step.TakeBacklog? || step.BeginDrain? {
      TakeBalances(s, step, r);
    }
  }

  lemma OthersUnmoved(s: Sys, step: Step)
    requires Next(s, step).Some?
    ensures var s', t := Next(s, step).value, step.thread;
            t < |s.threads| == |s'.threads| && s'.threads == s.threads[t := s'.threads[t]]
  {
  }

  lemma StepConserves(s: Sys, step: Step)
    requires Conserved(s)
    ensures var s' := Next(s, step); s'.Some? ==> Conserved(s'.value)
  {
    if Next(s, step).Some? {
      var s', t := Next(s, step).value, step.thread;
      OthersUnmoved(s, step);
      forall r
        ensures Places(s', r) == Count(s'.emitted, r)
      {
        StepBalances(s, step, r);
        InHandsUpdate(s.threads, t, s'.threads[t], r);
        assert Places(s, r) == Count(s.emitted, r);
      }
    }
  }

  lemma StepCountsDrops(s: Sys, step: Step)
    requires DropsCounted(s)
    ensures var s' := Next(s, step); s'.Some? ==> DropsCounted(s'.value)
  {
    var s' := Next(s, step);
    var t := step.thread;
    if s'.Some? {
      OthersUnmoved(s, step);
      UnreportedUpdate(s.threads, t, s'.value.threads[t]);
      if step.Warn? {
        SumSnoc(s.warnings, s.threads[t].dropped);
      }
    }
  }

  lemma StepKeepsLock(s: Sys, step: Step)
    requires LockOk(s)
    ensures var s' := Next(s, step); s'.Some? ==> LockOk(s'.value)
  {
  }

  lemma StepRoutes(s: Sys, step: Step)
    requires LockOk(s) && RoutedOk(s)
    ensures var s' := Next(s, step); s'.Some? ==> RoutedOk(s'.value)
  {
    var s' := Next(s, step);
    var t := step.thread;
    if s'.None? { return; }
    match step
    case TakeBacklog(_) =>
      FilterMembers(s.records, (r: Record) => r.handle == Some(s.threads[t].handle));
    case Unregister(_, handle) =>
      // The lock is free, so no thread is calling a sink.
      forall u | 0 <= u < |s.threads|
        ensures PcOk(s'.value.sinks, s.threads[u])
      {
        assert !HoldsLock(s.threads[u]);
      }
    case EndRegister(_) =>
      // This thread holds the lock, so no other is calling a sink.
      forall u | 0 <= u < |s.threads| && u != t
        ensures PcOk(s'.value.sinks, s.threads[u])
      {
        assert !HoldsLock(s.threads[u]);
      }
    case _ =>
  }

  lemma StepBounds(s: Sys, step: Step)
    requires |s.records| <= CAPACITY && Numbered(s.emitted)
    ensures var s' := Next(s, step); s'.Some? ==> |s'.value.records| <= CAPACITY && Numbered(s'.value.emitted)
  {
    if step.TakeBacklog? && Next(s, step).Some? {
      SplitKeepsRecords(s.threads[step.thread].handle, s.records, Record(0, 0, None, 0, ""));
    }
  }

  lemma {:induction false} FilterKeepsOrder(records: seq<Record>, p: Record -> bool)
    requires ThreadOrdered(records)
    ensures ThreadOrdered(Filter(records, p))
  {
    if records != [] {
      FilterKeepsOrder(records[1..], p);
      FilterMembers(records[1..], p);
      forall r | r in Filter(records[1..], p) && r.emitter == records[0].emitter
        ensures records[0].id < r.id
      {
        assert r in records[1..];
      }
    }
  }

  lemma StepKeepsOrder(s: Sys, step: Step)
    requires ThreadOrdered(s.records) && GapsLater(s)
    ensures var s' := Next(s, step); s'.Some? ==> ThreadOrdered(s'.value.records)
  {
    if Next(s, step).Some? {
      if step.TakeBacklog? {
        FilterKeepsOrder(s.records, (r: Record) => r.handle != Some(s.threads[step.thread].handle));
      } else if step.PushGap? {
        PushKeepsOrder(s.records, s.threads[step.thread].record);
      }
    }
  }

  lemma PushKeepsOrder(records: seq<Record>, record: Record)
    requires ThreadOrdered(records) && forall r :: r in records && r.emitter == record.emitter ==> r.id < record.id
    ensures ThreadOrdered(Pushed(records, record))
    ensures forall r :: r in Pushed(records, record) ==> r in records || r == record
  {
  }

  lemma StepKeepsGapsLater(s: Sys, step: Step)
    requires ThreadOrdered(s.records) && GapsLater(s)
    ensures var s' := Next(s, step); s'.Some? ==> GapsLater(s'.value)
  {
    var s', t := Next(s, step), step.thread;
    if s'.Some? {
      OthersUnmoved(s, step);
      if step.TakeBacklog? {
        FilterMembers(s.records, (r: Record) => r.handle != Some(s.threads[t].handle));
      } else if step.PushGap? {
        PushKeepsOrder(s.records, s.threads[t].record);
      }
      assert forall r :: r in s'.value.records ==> r in s.records || (step.PushGap? && r == s.threads[t].record);
    }
  }

  lemma StepKeepsInv(s: Sys, step: Step)
    requires Inv(s)
    ensures var s' := Next(s, step); s'.Some? ==> Inv(s'.value)
  {
    StepConserves(s, step);
    StepCountsDrops(s, step);
    StepKeepsLock(s, step);
    StepRoutes(s, step);
    StepBounds(s, step);
    StepKeepsOrder(s, step);
    StepKeepsGapsLater(s, step);
  }

  /** From any state in order, every run stays in order. */
  lemma {:induction false} RunKeepsInv(s: Sys, steps: seq<Step>)
    requires Inv(s)
    ensures var s' := Run(s, steps); s'.Some? ==> Inv(s'.value)
  {
    if steps != [] {
      var n := |steps| - 1;
      RunKeepsInv(s, steps[..n]);
      var before := Run(s, steps[..n]);
      if before.Some? {
        StepKeepsInv(before.value, steps[n]);
      }
    }
  }

  lemma InitInv(s: Sys)
    requires Init(s)
    ensures Inv(s)
  {
    forall r
      ensures Places(s, r) == Count(s.emitted, r)
    {
      IdleHands(s.threads, r);
    }
    IdleHands(s.threads, Record(0, 0, None, 0, ""));
  }
}

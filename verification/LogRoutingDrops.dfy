/** Which records the full buffer drops: over every run, always the oldest pushed. */
module LogRoutingDrops {
  import opened Values
  import opened LogBuffer
  import opened LogRouting
  import opened LogRoutingSafety

  /** Thread `t` stands between registry check and buffer push. */
  predicate Pushes(s: Sys, t: nat) {
    t < |s.threads| && s.threads[t].Gap?
  }

  function PushedBy(s: Sys, step: Step, pushed: seq<Record>): seq<Record> {
    if step.PushGap? && Pushes(s, step.thread) then pushed + [s.threads[step.thread].record] else pushed
  }

  /** The records pushed into the buffer, in the order of their pushes. */
  function PushedIn(init: Sys, steps: seq<Step>): seq<Record> {
    if steps == [] then []
    else
      var n := |steps| - 1;
      var before := Run(init, steps[..n]);
      if before.None? then PushedIn(init, steps[..n]) else PushedBy(before.value, steps[n], PushedIn(init, steps[..n]))
  }

  // ----- No record is pushed twice -----

  ghost predicate Distinct(records: seq<Record>) {
    forall i, j :: 0 <= i < j < |records| ==> records[i] != records[j]
  }

  ghost predicate PushedOnce(s: Sys, pushed: seq<Record>) {
    && Distinct(pushed) && (forall r :: r in pushed ==> r.id < |s.emitted|)
    && (forall t: nat :: Pushes(s, t) ==> s.threads[t].record.id < |s.emitted| && s.threads[t].record !in pushed)
    && (forall t: nat, u: nat :: Pushes(s, t) && Pushes(s, u) && t != u ==> s.threads[t].record != s.threads[u].record)
  }

  /** Who stands in the gap after a step. */
  lemma GapsAfter(s: Sys, step: Step, t: nat)
    requires Next(s, step).Some? && Pushes(Next(s, step).value, t)
    ensures var s' := Next(s, step).value;
            || (Pushes(s, t) && s'.threads[t] == s.threads[t] && (step.PushGap? ==> step.thread != t))
            || (step.Emit? && t == step.thread && s'.threads[t].record.id == |s.emitted| && |s'.emitted| == |s.emitted| + 1)
  {
    OthersUnmoved(s, step);
  }

  lemma StepPushesOnce(s: Sys, step: Step, pushed: seq<Record>)
    requires PushedOnce(s, pushed) && Next(s, step).Some?
    ensures PushedOnce(Next(s, step).value, PushedBy(s, step, pushed))
  {
    var s', pushed' := Next(s, step).value, PushedBy(s, step, pushed);
    forall t: nat | Pushes(s', t)
      ensures s'.threads[t].record.id < |s'.emitted| && s'.threads[t].record !in pushed'
      ensures forall u: nat :: Pushes(s', u) && t != u ==> s'.threads[t].record != s'.threads[u].record
    {
      GapsAfter(s, step, t);
      forall u: nat | Pushes(s', u) && t != u
        ensures s'.threads[t].record != s'.threads[u].record
      {
        GapsAfter(s, step, u);
      }
    }
  }

  lemma {:induction false} RunPushesOnce(init: Sys, steps: seq<Step>, s: Sys)
    requires Init(init) && Run(init, steps) == Some(s)
    ensures PushedOnce(s, PushedIn(init, steps))
  {
    if steps != [] {
      var n := |steps| - 1;
      var before := Run(init, steps[..n]).value;
      RunPushesOnce(init, steps[..n], before);
      StepPushesOnce(before, steps[n], PushedIn(init, steps[..n]));
    }
  }

  // ----- Dropped before kept -----

  /** `a` was pushed before `b`. */
  ghost predicate Before(pushed: seq<Record>, a: Record, b: Record) {
    exists p, q :: 0 <= p < q < |pushed| && pushed[p] == a && pushed[q] == b
  }

  ghost predicate Ordered(pushed: seq<Record>, records: seq<Record>) {
    forall i, j :: 0 <= i < j < |records| ==> Before(pushed, records[i], records[j])
  }

  ghost predicate DroppedFirst(pushed: seq<Record>, evicted: seq<Record>, records: seq<Record>) {
    && Ordered(pushed, records)
    && (forall e, r :: e in evicted && r in records ==> Before(pushed, e, r))
    && (forall r :: r in evicted || r in records ==> r in pushed)
  }

  lemma BeforeGrows(pushed: seq<Record>, record: Record)
    ensures forall a, b :: Before(pushed, a, b) ==> Before(pushed + [record], a, b)
    ensures forall a :: a in pushed ==> Before(pushed + [record], a, record)
  {
    var more := pushed + [record];
    forall a, b | Before(pushed, a, b)
      ensures Before(more, a, b)
    {
      var p, q :| 0 <= p < q < |pushed| && pushed[p] == a && pushed[q] == b;
      assert more[p] == a && more[q] == b;
    }
    forall a | a in pushed
      ensures Before(more, a, record)
    {
      var p :| 0 <= p < |pushed| && pushed[p] == a;
      assert more[p] == a && more[|pushed|] == record;
    }
  }

  lemma FirstBeforeRest(pushed: seq<Record>, records: seq<Record>)
    requires Ordered(pushed, records) && records != []
    ensures forall r :: r in records[1..] ==> Before(pushed, records[0], r)
  {
    forall r | r in records[1..]
      ensures Before(pushed, records[0], r)
    {
      var j :| 0 < j < |records| && records[j] == r;
    }
  }

  lemma OrderedTail(pushed: seq<Record>, records: seq<Record>)
    requires Ordered(pushed, records) && records != []
    ensures Ordered(pushed, records[1..])
  {
  }

  lemma OrderedCons(pushed: seq<Record>, first: Record, rest: seq<Record>)
    requires Ordered(pushed, rest) && forall r :: r in rest ==> Before(pushed, first, r)
    ensures Ordered(pushed, [first] + rest)
  {
    assert forall j :: 0 <= j < |rest| ==> rest[j] in rest;
  }

  lemma {:induction false} FilterOrdered(pushed: seq<Record>, records: seq<Record>, p: Record -> bool)
    requires Ordered(pushed, records)
    ensures Ordered(pushed, Filter(records, p))
  {
    if records != [] {
      OrderedTail(pushed, records);
      FilterOrdered(pushed, records[1..], p);
      FilterMembers(records[1..], p);
      FirstBeforeRest(pushed, records);
      OrderedCons(pushed, records[0], Filter(records[1..], p));
    }
  }

  lemma PushDropsFirst(pushed: seq<Record>, evicted: seq<Record>, records: seq<Record>, record: Record)
    requires DroppedFirst(pushed, evicted, records)
    ensures DroppedFirst(pushed + [record], evicted + Evicted(records), Pushed(records, record))
  {
    BeforeGrows(pushed, record);
    if |records| >= CAPACITY {
      FirstBeforeRest(pushed, records);
    }
    assert forall i :: 0 <= i < |records| ==> records[i] in pushed;
  }

  lemma StepDropsFirst(s: Sys, step: Step, pushed: seq<Record>)
    requires Next(s, step).Some? && DroppedFirst(pushed, s.evicted, s.records)
    ensures var s' := Next(s, step).value; DroppedFirst(PushedBy(s, step, pushed), s'.evicted, s'.records)
  {
    if step.PushGap? {
      PushDropsFirst(pushed, s.evicted, s.records, s.threads[step.thread].record);
    } else if step.TakeBacklog? {
      var p := (r: Record) => r.handle != Some(s.threads[step.thread].handle);
      FilterOrdered(pushed, s.records, p);
      FilterMembers(s.records, p);
    }
  }

  lemma {:induction false} RunDropsFirst(init: Sys, steps: seq<Step>, s: Sys)
    requires Init(init) && Run(init, steps) == Some(s)
    ensures DroppedFirst(PushedIn(init, steps), s.evicted, s.records)
  {
    if steps != [] {
      var n := |steps| - 1;
      var before := Run(init, steps[..n]).value;
      RunDropsFirst(init, steps[..n], before);
      StepDropsFirst(before, steps[n], PushedIn(init, steps[..n]));
    }
  }

  /** In every run each record is pushed at most once, the buffer keeps the order of
      pushes, and every record dropped was pushed before every record still there. */
  lemma OldestIsDropped(init: Sys, steps: seq<Step>, s: Sys)
    requires Init(init) && Run(init, steps) == Some(s)
    ensures var pushed := PushedIn(init, steps);
            && Distinct(pushed)
            && (forall i, j :: 0 <= i < j < |s.records| ==> Before(pushed, s.records[i], s.records[j]))
            && (forall e, r :: e in s.evicted && r in s.records ==> Before(pushed, e, r))
  {
    RunPushesOnce(init, steps, s);
    RunDropsFirst(init, steps, s);
  }

  // ----- While nothing is taken out -----

  ghost predicate NothingTaken(steps: seq<Step>) {
    forall i :: 0 <= i < |steps| ==> !steps[i].BeginDrain? && !steps[i].TakeBacklog?
  }

  /** `records` are the last 512 pushed, or all of them, and `evicted` the ones before. */
  ghost predicate AreLatest(records: seq<Record>, evicted: seq<Record>, pushed: seq<Record>) {
    var k := if |pushed| < 512 then 0 else |pushed| - 512;
    records == pushed[k..] && evicted == pushed[..k]
  }

  lemma PushKeepsLatest(records: seq<Record>, evicted: seq<Record>, pushed: seq<Record>, record: Record)
    requires AreLatest(records, evicted, pushed)
    ensures AreLatest(Pushed(records, record), evicted + Evicted(records), pushed + [record])
  {
  }

  lemma StepKeepsLatest(s: Sys, step: Step, pushed: seq<Record>)
    requires Next(s, step).Some? && AreLatest(s.records, s.evicted, pushed) && !step.BeginDrain? && !step.TakeBacklog?
    ensures var s' := Next(s, step).value; AreLatest(s'.records, s'.evicted, PushedBy(s, step, pushed))
  {
    if step.PushGap? {
      PushKeepsLatest(s.records, s.evicted, pushed, s.threads[step.thread].record);
      PushIs(s, step);
    } else {
      BufferStays(s, step);
    }
  }

  lemma PushIs(s: Sys, step: Step)
    requires Next(s, step).Some? && step.PushGap?
    ensures var s' := Next(s, step).value;
            && Pushes(s, step.thread) && s'.records == Pushed(s.records, s.threads[step.thread].record)
            && s'.evicted == s.evicted + Evicted(s.records)
  {
  }

  lemma BufferStays(s: Sys, step: Step)
    requires Next(s, step).Some? && !step.PushGap? && !step.BeginDrain? && !step.TakeBacklog?
    ensures Next(s, step).value.records == s.records && Next(s, step).value.evicted == s.evicted
  {
  }

  /** Then the buffer is exactly the last 512 records pushed, or all of them, and the
      ones before were dropped. */
  lemma {:induction false} BufferIsTheLatest(init: Sys, steps: seq<Step>, s: Sys)
    requires Init(init) && Run(init, steps) == Some(s) && NothingTaken(steps)
    ensures AreLatest(s.records, s.evicted, PushedIn(init, steps))
  {
    if steps != [] {
      var n := |steps| - 1;
      var before := Run(init, steps[..n]).value;
      BufferIsTheLatest(init, steps[..n], before);
      StepKeepsLatest(before, steps[n], PushedIn(init, steps[..n]));
    }
  }
}

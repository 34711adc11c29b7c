/** When a registration keeps the order of its handle's events: exactly when no
    event of the handle stands between registry check and buffer push as the
    backlog is taken. */
module LogRoutingOrder {
  import opened Values
  import opened LogBuffer
  import opened LogRouting
  import opened LogRoutingSafety
  import opened LogRoutingTheorems

  /** What `steps` add to what `handle`'s sinks were sent. */
  function Added(s: Sys, steps: seq<Step>, handle: nat): seq<Record>
    requires Run(s, steps).Some?
  {
    var before, after := Sent(s.delivered, handle), Sent(Run(s, steps).value.delivered, handle);
    if |before| <= |after| then after[|before|..] else []
  }

  lemma SentGrows(a: seq<Delivery>, b: seq<Delivery>, handle: nat)
    requires a <= b
    ensures Sent(a, handle) <= Sent(b, handle)
  {
    var isFor := (d: Delivery) => d.channel == ToHandle(handle);
    assert b == a + b[|a|..];
    FilterAppend(a, b[|a|..], isFor);
  }

  lemma {:induction false} DeliveredGrows(s: Sys, steps: seq<Step>)
    requires Run(s, steps).Some?
    ensures s.delivered <= Run(s, steps).value.delivered
  {
    if steps != [] {
      DeliveredGrows(s, steps[..|steps| - 1]);
    }
  }

  // ----- Without the gap -----

  lemma OrderedWithoutGap(init: Sys, before: seq<Step>, s: Sys, t: nat, after: seq<Step>)
    requires Init(init) && Run(init, before) == Some(s)
    requires t < |s.threads| && s.threads[t].Registering? && NoGap(s, s.threads[t].handle)
    requires var h := s.threads[t].handle;
             Run(Next(s, TakeBacklog(t)).value, after).Some? && NoUnregistration(after, h)
    ensures ThreadOrdered(Added(Next(s, TakeBacklog(t)).value, after, s.threads[t].handle))
  {
    var h, s1 := s.threads[t].handle, Next(s, TakeBacklog(t)).value;
    var s' := Run(s1, after).value;
    RegistrationDeliversInOrder(init, before, s, t, after);
    DeliveredGrows(s1, after);
    SentGrows(s1.delivered, s'.delivered, h);
    PrefixOrdered(Sent(s1.delivered, h), Sent(s'.delivered, h), Pending(s', h),
                  OfHandle(h, s.records), OfHandle(h, s'.emitted[|s.emitted|..]));
  }

  /** What was sent after `sent` is the beginning of the backlog and then the live
      events. */
  lemma PrefixOrdered(sent: seq<Record>, sent': seq<Record>, pending: seq<Record>, backlog: seq<Record>, live: seq<Record>)
    requires sent <= sent' && sent' + pending == sent + backlog + live && ThreadOrdered(backlog + live)
    ensures ThreadOrdered(sent'[|sent|..])
  {
    var added, ordered := sent'[|sent|..], backlog + live;
    assert sent + backlog + live == sent + ordered;
    assert |sent' + pending| == |sent + ordered|;
    forall i | 0 <= i < |added|
      ensures added[i] == ordered[i]
    {
      assert (sent' + pending)[|sent| + i] == (sent + ordered)[|sent| + i];
    }
  }

  // ----- With it -----

  /** `s'` can be reached from `s` without unregistering `handle`. */
  ghost predicate Leads(s: Sys, s': Sys, handle: nat) {
    exists steps :: NoUnregistration(steps, handle) && Run(s, steps) == Some(s')
  }

  lemma LeadsNowhere(s: Sys, handle: nat)
    ensures Leads(s, s, handle)
  {
    assert NoUnregistration([], handle) && Run(s, []) == Some(s);
  }

  lemma LeadsOn(s: Sys, m: Sys, step: Step, handle: nat)
    requires Leads(s, m, handle) && Next(m, step).Some? && !step.Unregister?
    ensures Leads(s, Next(m, step).value, handle)
  {
    var steps :| NoUnregistration(steps, handle) && Run(s, steps) == Some(m);
    var more := steps + [step];
    assert more[..|steps|] == steps;
    assert NoUnregistration(more, handle) && Run(s, more) == Next(m, step);
  }

  /** A registration past its backlog runs to its end. */
  lemma {:induction false} FinishFlush(s: Sys, m: Sys, t: nat, handle: nat) returns (s': Sys)
    requires Leads(s, m, handle) && t < |m.threads| && m.threads[t].Flushing? && m.threads[t].handle == handle
    ensures Leads(s, s', handle) && m.delivered <= s'.delivered
    ensures s'.threads == m.threads[t := Idle] && s'.lock.None? && s'.sinks == Registered(m.sinks, handle, m.threads[t].sink)
    ensures s'.records == m.records && s'.emitted == m.emitted
    decreases |m.threads[t].rest|
  {
    if m.threads[t].rest == [] {
      LeadsOn(s, m, EndRegister(t), handle);
      s' := Next(m, EndRegister(t)).value;
    } else {
      LeadsOn(s, m, HandOver(t), handle);
      var m' := Next(m, HandOver(t)).value;
      s' := FinishFlush(s, m', t, handle);
      assert m'.threads[t := Idle] == m.threads[t := Idle];
    }
  }

  /** Once the backlog is gone, only the record from the gap is the handle's. */
  lemma OnlyFromTheGap(records: seq<Record>, record: Record, handle: nat)
    requires record.handle == Some(handle)
    ensures OfHandle(handle, Pushed(NotOfHandle(handle, records), record)) == [record]
  {
    var isMine := (r: Record) => r.handle == Some(handle);
    var others := NotOfHandle(handle, records);
    var kept := if |others| >= CAPACITY then others[1..] else others;
    FilterMembers(records, (r: Record) => r.handle != Some(handle));
    assert forall r :: r in kept ==> r in others;
    FilterNone(kept, isMine);
    FilterAppend(kept, [record], isMine);
    FilterOne(record, isMine);
  }

  /** An event of a registered handle goes straight to the sink. */
  lemma SendsLive(s: Sys, m: Sys, u: nat, handle: nat, sink: nat) returns (s': Sys)
    requires Leads(s, m, handle) && u < |m.threads| && m.threads[u].Idle? && m.lock.None?
    requires Lookup(m.sinks, handle) == Some(sink)
    ensures Leads(s, s', handle)
    ensures s'.threads == m.threads && s'.lock.None? && s'.records == m.records
    ensures s'.delivered == m.delivered + [Delivery(ToHandle(handle), sink, Record(|m.emitted|, u, Some(handle), 0, ""))]
  {
    LeadsOn(s, m, Emit(u, Some(handle), 0, ""), handle);
    var m1 := Next(m, Emit(u, Some(handle), 0, "")).value;
    LeadsOn(s, m1, EndCall(u), handle);
    s' := Next(m1, EndCall(u)).value;
    assert s'.threads == m.threads;
  }

  /** A registration hands over the one record buffered for its handle. */
  lemma HandsOver(s: Sys, m: Sys, t: nat, handle: nat, sink: nat, record: Record) returns (s': Sys)
    requires Leads(s, m, handle) && t < |m.threads| && m.threads[t].Idle? && m.lock.None?
    requires OfHandle(handle, m.records) == [record]
    ensures Leads(s, s', handle) && s'.delivered == m.delivered + [Delivery(ToHandle(handle), sink, record)]
  {
    LeadsOn(s, m, BeginRegister(t, handle, sink), handle);
    var m1 := Next(m, BeginRegister(t, handle, sink)).value;
    LeadsOn(s, m1, TakeBacklog(t), handle);
    var m2 := Next(m1, TakeBacklog(t)).value;
    assert m2.threads[t] == Flushing(handle, sink, [record]);
    LeadsOn(s, m2, HandOver(t), handle);
    s' := Next(m2, HandOver(t)).value;
  }

  /** The last two deliveries: one sink of `handle`, one thread, the younger event
      first. */
  predicate EndsReversed(delivered: seq<Delivery>, handle: nat, sink: nat, thread: nat) {
    && |delivered| >= 2
    && var x, y := delivered[|delivered| - 2], delivered[|delivered| - 1];
       && x.channel == y.channel == ToHandle(handle) && x.sink == y.sink == sink
       && x.record.emitter == y.record.emitter == thread && y.record.id < x.record.id
  }

  /** An event in the gap can be overtaken, on its way to the one sink, by the same
      thread's next event. */
  lemma ReversedThroughGap(s: Sys, t: nat, u: nat) returns (after: seq<Step>)
    requires Inv(s) && t < |s.threads| && s.threads[t].Registering?
    requires u < |s.threads| && s.threads[u].Gap? && s.threads[u].record.handle == Some(s.threads[t].handle)
    ensures var h, s1 := s.threads[t].handle, Next(s, TakeBacklog(t)).value;
            && NoUnregistration(after, h) && Run(s1, after).Some?
            && EndsReversed(Run(s1, after).value.delivered, h, s.threads[t].sink, u)
            && !ThreadOrdered(Added(s1, after, h))
  {
    var h, sink, record := s.threads[t].handle, s.threads[t].sink, s.threads[u].record;
    var s1 := Next(s, TakeBacklog(t)).value;
    LeadsNowhere(s1, h);
    LeadsOn(s1, s1, PushGap(u), h);
    var s2 := Next(s1, PushGap(u)).value;
    OnlyFromTheGap(s.records, record, h);
    var s3 := FinishFlush(s1, s2, t, h);
    RegisteredLookup(s2.sinks, h, sink, h);
    var s4 := SendsLive(s1, s3, u, h, sink);
    var s5 := HandsOver(s1, s4, t, h, sink, record);
    after :| NoUnregistration(after, h) && Run(s1, after) == Some(s5);
    var late := Record(|s3.emitted|, u, Some(h), 0, "");
    TwoMore(s1.delivered, s3.delivered, Delivery(ToHandle(h), sink, late), Delivery(ToHandle(h), sink, record), h);
    assert record.emitter == u && record.id < |s.emitted|;
  }

  lemma TwoMore(a: seq<Delivery>, b: seq<Delivery>, x: Delivery, y: Delivery, handle: nat)
    requires a <= b && x.channel == y.channel == ToHandle(handle)
    requires x.record.emitter == y.record.emitter && y.record.id < x.record.id
    ensures var sent, sent' := Sent(a, handle), Sent(b + [x] + [y], handle);
            |sent| <= |sent'| && !ThreadOrdered(sent'[|sent|..])
  {
    SentGrows(a, b, handle);
    SentSnoc(b, x, handle);
    SentSnoc(b + [x], y, handle);
    var sent, sent' := Sent(a, handle), Sent(b + [x] + [y], handle);
    var added := sent'[|sent|..];
    var n := |added|;
    assert added[n - 2] == x.record && added[n - 1] == y.record;
  }

  /** For every registration in every run: whatever happens after it takes its
      backlog, short of unregistering, its handle's sinks are sent each thread's
      events in that thread's order, if and only if no event of the handle stood in
      the gap. */
  lemma InOrderIff(init: Sys, before: seq<Step>, s: Sys, t: nat)
    requires Init(init) && Run(init, before) == Some(s)
    requires t < |s.threads| && s.threads[t].Registering?
    ensures var h, s1 := s.threads[t].handle, Next(s, TakeBacklog(t)).value;
            NoGap(s, h) <==>
            forall after :: NoUnregistration(after, h) && Run(s1, after).Some? ==> ThreadOrdered(Added(s1, after, h))
  {
    var h, s1 := s.threads[t].handle, Next(s, TakeBacklog(t)).value;
    if NoGap(s, h) {
      forall after | NoUnregistration(after, h) && Run(s1, after).Some?
        ensures ThreadOrdered(Added(s1, after, h))
      {
        OrderedWithoutGap(init, before, s, t, after);
      }
    } else {
      InitInv(init);
      RunKeepsInv(init, before);
      var u :| 0 <= u < |s.threads| && s.threads[u].Gap? && s.threads[u].record.handle == Some(h);
      var after := ReversedThroughGap(s, t, u);
    }
  }

  /** The smallest such run. A worker's event passes the registry check, a
      registration runs in the gap, and the worker's second event goes straight to
      the sink; the first follows when the same sink is registered again. */
  lemma GapReversesOneThread() returns (init: Sys, before: seq<Step>, s: Sys, after: seq<Step>)
    ensures Init(init) && Run(init, before) == Some(s) && s.threads == [Gap(Record(0, 0, Some(1), 30, "event")), Registering(1, 7)]
    ensures var s1 := Next(s, TakeBacklog(1)).value;
            NoUnregistration(after, 1) && Run(s1, after).Some? && EndsReversed(Run(s1, after).value.delivered, 1, 7, 0)
  {
    var event := Record(0, 0, Some(1), 30, "event");
    init := Sys([], None, [], 0, [Idle, Idle], [], [], [], []);
    s := Sys([], Some(1), [], 0, [Gap(event), Registering(1, 7)], [event], [], [], []);
    before := ReachesGap(init, event, s);
    InitInv(init);
    RunKeepsInv(init, before);
    after := ReversedThroughGap(s, 1, 0);
  }

  lemma ReachesGap(init: Sys, event: Record, s: Sys) returns (before: seq<Step>)
    requires event == Record(0, 0, Some(1), 30, "event") && init == Sys([], None, [], 0, [Idle, Idle], [], [], [], [])
    requires s == Sys([], Some(1), [], 0, [Gap(event), Registering(1, 7)], [event], [], [], [])
    ensures Run(init, before) == Some(s)
  {
    var emit, register := Emit(0, Some(1), 30, "event"), BeginRegister(1, 1, 7);
    var mid := init.(threads := [Gap(event), Idle], emitted := [event]);
    assert [] + [event] == [event] && [Idle, Idle][0 := Gap(event)] == [Gap(event), Idle];
    assert Next(init, emit) == Some(mid);
    assert [Gap(event), Idle][1 := Registering(1, 7)] == [Gap(event), Registering(1, 7)];
    assert Next(mid, register) == Some(s);
    before := [emit, register];
    assert before[..1] == [emit] && [emit][..0] == [];
    assert Run(init, [emit]) == Some(mid);
  }
}

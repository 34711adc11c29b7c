/** Log routing as a state machine: any number of threads emitting events,
    registering and unregistering sinks and draining the buffer, under two
    separate locks. The registry lock is held across sink calls, so holding it
    is part of the state; a critical section on the buffer lock is one step.

    `on_event` releases the registry lock before it takes the buffer lock: a
    thread stands in `Gap` between the two. */
module LogRouting {
  import opened Values
  import opened LogBuffer

  /** Where a record was handed over: a handle's registered sink (from the event
      itself or from the flush at registration), or a boundary drain. */
  datatype Channel = ToHandle(handle: nat) | ToDrain

  datatype Delivery = Delivery(channel: Channel, sink: nat, record: Record)

  datatype Pc =
    | Idle
    /** `on_event`: inside the sink call, registry lock held. */
    | Calling(record: Record, sink: nat)
    /** `on_event`: found no sink, registry lock released, buffer lock not yet taken. */
    | Gap(record: Record)
    /** `register_sink`: registry lock held, backlog not yet taken. */
    | Registering(handle: nat, sink: nat)
    /** `register_sink`: handing over the backlog, registry lock held. */
    | Flushing(handle: nat, sink: nat, rest: seq<Record>)
    /** `drain_buffer_into`: handing over, no lock held. */
    | Draining(sink: nat, dropped: nat, rest: seq<Record>)

  datatype Sys = Sys(
    sinks: seq<RegisteredSink>,
    lock: Option<nat>,
    records: seq<Record>,
    dropped: nat,
    threads: seq<Pc>,
    // What has happened so far.
    emitted: seq<Record>,
    delivered: seq<Delivery>,
    evicted: seq<Record>,
    warnings: seq<nat>)

  datatype Step =
    | Emit(thread: nat, tag: Option<nat>, level: int, message: string)
    | EndCall(thread: nat)
    | PushGap(thread: nat)
    | BeginRegister(thread: nat, handle: nat, sink: nat)
    | TakeBacklog(thread: nat)
    | HandOver(thread: nat)
    | EndRegister(thread: nat)
    | Unregister(thread: nat, handle: nat)
    | BeginDrain(thread: nat, sink: nat)
    | Warn(thread: nat)
    | DrainOne(thread: nat)
    | EndDrain(thread: nat)

  predicate Init(s: Sys) {
    && s.sinks == [] && s.lock.None? && s.records == [] && s.dropped == 0
    && (forall t :: 0 <= t < |s.threads| ==> s.threads[t].Idle?)
    && s.emitted == [] && s.delivered == [] && s.evicted == [] && s.warnings == []
  }

  function At(s: Sys, t: nat, pc: Pc): Sys
    requires t < |s.threads|
  {
    s.(threads := s.threads[t := pc])
  }

  /** `on_event` up to the release of the registry lock. An unattributed event
      never takes that lock. */
  function OnEmit(s: Sys, t: nat, handle: Option<nat>, level: int, message: string): Option<Sys>
    requires t < |s.threads|
  {
    var record := Record(|s.emitted|, t, handle, level, message);
    var s' := s.(emitted := s.emitted + [record]);
    if !s.threads[t].Idle? then None
    else if handle.None? then Some(At(s', t, Gap(record)))
    else if s.lock.Some? then None
    else
      match Lookup(s.sinks, handle.value)
      case Some(sink) => Some(At(s', t, Calling(record, sink)).(lock := Some(t)))
      case None => Some(At(s', t, Gap(record)))
  }

  function Next(s: Sys, step: Step): Option<Sys> {
    var t := step.thread;
    if |s.threads| <= t then None
    else
      var pc := s.threads[t];
      match step
      case Emit(_, handle, level, message) => OnEmit(s, t, handle, level, message)
      case EndCall(_) =>
        if pc.Calling? && pc.record.handle.Some? then
          Some(At(s, t, Idle).(lock := None,
                               delivered := s.delivered + [Delivery(ToHandle(pc.record.handle.value), pc.sink, pc.record)]))
        else None
      case PushGap(_) =>
        if pc.Gap? then
          Some(At(s, t, Idle).(records := Pushed(s.records, pc.record),
                               dropped := DroppedAfter(s.records, s.dropped),
                               evicted := s.evicted + Evicted(s.records)))
        else None
      case BeginRegister(_, handle, sink) =>
        if pc.Idle? && s.lock.None? then Some(At(s, t, Registering(handle, sink)).(lock := Some(t))) else None
      case TakeBacklog(_) =>
        if pc.Registering? then
          Some(At(s, t, Flushing(pc.handle, pc.sink, OfHandle(pc.handle, s.records)))
               .(records := NotOfHandle(pc.handle, s.records)))
        else None
      case HandOver(_) =>
        if pc.Flushing? && pc.rest != [] then
          Some(At(s, t, Flushing(pc.handle, pc.sink, pc.rest[1..]))
               .(delivered := s.delivered + [Delivery(ToHandle(pc.handle), pc.sink, pc.rest[0])]))
        else None
      case EndRegister(_) =>
        if pc.Flushing? && pc.rest == [] then
          Some(At(s, t, Idle).(lock := None, sinks := Registered(s.sinks, pc.handle, pc.sink)))
        else None
      case Unregister(_, handle) =>
        if pc.Idle? && s.lock.None? then Some(s.(sinks := Unregistered(s.sinks, handle))) else None
      case BeginDrain(_, sink) =>
        if pc.Idle? then Some(At(s, t, Draining(sink, s.dropped, s.records)).(dropped := 0, records := [])) else None
      case Warn(_) =>
        if pc.Draining? && pc.dropped > 0 then
          Some(At(s, t, Draining(pc.sink, 0, pc.rest)).(warnings := s.warnings + [pc.dropped]))
        else None
      case DrainOne(_) =>
        if pc.Draining? && pc.dropped == 0 && pc.rest != [] then
          Some(At(s, t, Draining(pc.sink, 0, pc.rest[1..]))
               .(delivered := s.delivered + [Delivery(ToDrain, pc.sink, pc.rest[0])]))
        else None
      case EndDrain(_) =>
        if pc.Draining? && pc.dropped == 0 && pc.rest == [] then Some(At(s, t, Idle)) else None
  }

  /** The state after `steps`, or `None` when some step is impossible where it
      comes. */
  function Run(s: Sys, steps: seq<Step>): Option<Sys> {
    if steps == [] then Some(s)
    else
      var n := |steps| - 1;
      var before := Run(s, steps[..n]);
      if before.None? then None else Next(before.value, steps[n])
  }

  // ----- What the properties speak of -----

  function RecordsOf(delivered: seq<Delivery>): seq<Record> {
    seq(|delivered|, i requires 0 <= i < |delivered| => delivered[i].record)
  }

  /** Records a thread has in hand: in a sink call, in the gap, or left over
      from what a flush or a drain took. */
  function InHand(pc: Pc): seq<Record> {
    match pc
    case Idle => []
    case Calling(record, _) => [record]
    case Gap(record) => [record]
    case Registering(_, _) => []
    case Flushing(_, _, rest) => rest
    case Draining(_, _, rest) => rest
  }

  function InHands(threads: seq<Pc>, r: Record): nat {
    if threads == [] then 0 else Count(InHand(threads[0]), r) + InHands(threads[1..], r)
  }

  /** How many places hold `r`: handed over, buffered, evicted, or in the hands
      of some thread. */
  function Places(s: Sys, r: Record): nat {
    Count(RecordsOf(s.delivered), r) + Count(s.records, r) + Count(s.evicted, r) + InHands(s.threads, r)
  }

  /** Drop counts a drain has taken and not yet reported. */
  function Unreported(pc: Pc): nat {
    if pc.Draining? then pc.dropped else 0
  }

  function AllUnreported(threads: seq<Pc>): nat {
    if threads == [] then 0 else Unreported(threads[0]) + AllUnreported(threads[1..])
  }

  function Sum(counts: seq<nat>): nat {
    if counts == [] then 0 else Sum(counts[..|counts| - 1]) + counts[|counts| - 1]
  }

  predicate HoldsLock(pc: Pc) {
    pc.Calling? || pc.Registering? || pc.Flushing?
  }

  /** What has been handed to `handle`'s registered sinks, in order. */
  function Sent(delivered: seq<Delivery>, handle: nat): seq<Record> {
    RecordsOf(Filter(delivered, (d: Delivery) => d.channel == ToHandle(handle)))
  }
}

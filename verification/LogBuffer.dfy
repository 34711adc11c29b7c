/** The two pieces of process-wide state log routing works on: the bounded
    drop-oldest record buffer and the registry of push sinks. Each class method
    is one critical section of the code; the functions beside them say what it
    does to the state. */
module LogBuffer {
  import opened Values

  /** One event. `id` is its position among all events and `emitter` the thread
      it fired on; the code keeps neither, they only tell records apart. */
  datatype Record = Record(id: nat, emitter: nat, handle: Option<nat>, level: int, message: string)

  const CAPACITY: nat := 512

  function OfHandle(handle: nat, records: seq<Record>): seq<Record> {
    Filter(records, (r: Record) => r.handle == Some(handle))
  }

  function NotOfHandle(handle: nat, records: seq<Record>): seq<Record> {
    Filter(records, (r: Record) => r.handle != Some(handle))
  }

  /** What a push drops from a buffer holding `records`. */
  function Evicted(records: seq<Record>): seq<Record> {
    if |records| >= CAPACITY then [records[0]] else []
  }

  function Pushed(records: seq<Record>, record: Record): seq<Record> {
    (if |records| >= CAPACITY then records[1..] else records) + [record]
  }

  function DroppedAfter(records: seq<Record>, dropped: nat): nat {
    if |records| >= CAPACITY then SaturatingSucc(dropped) else dropped
  }

  class LogBuffer {
    var records: seq<Record>
    var dropped: nat

    constructor ()
      ensures records == [] && dropped == 0
    {
      records, dropped := [], 0;
    }

    /** The tail of `on_event`: drop the oldest when full, then append. */
    method Push(record: Record)
      modifies this
      ensures records == Pushed(old(records), record)
      ensures dropped == DroppedAfter(old(records), old(dropped))
    {
      if |records| >= CAPACITY {
        records := records[1..];
        dropped := SaturatingSucc(dropped);
      }
      records := records + [record];
    }

    /** The locked part of `drain_buffer_into`. */
    method TakeAll() returns (count: nat, taken: seq<Record>)
      modifies this
      ensures count == old(dropped) && taken == old(records)
      ensures dropped == 0 && records == []
    {
      count, taken := dropped, records;
      dropped, records := 0, [];
    }

    /** The locked part of `flush_handle_backlog`: takes one handle's records out,
        oldest first, and puts the others back in order. */
    method TakeHandle(handle: nat) returns (matching: seq<Record>)
      modifies this
      ensures matching == OfHandle(handle, old(records))
      ensures records == NotOfHandle(handle, old(records))
      ensures dropped == old(dropped)
    {
      var taken := records;
      var isMine := (r: Record) => r.handle == Some(handle);
      var isOther := (r: Record) => r.handle != Some(handle);
      records, matching := [], [];
      for i := 0 to |taken|
        invariant matching == Filter(taken[..i], isMine)
        invariant records == Filter(taken[..i], isOther)
        invariant dropped == old(dropped)
      {
        FilterSnoc(taken, i, isMine);
        FilterSnoc(taken, i, isOther);
        if taken[i].handle == Some(handle) {
          matching := matching + [taken[i]];
        } else {
          records := records + [taken[i]];
        }
      }
      assert taken[..|taken|] == taken;
    }
  }

  datatype RegisteredSink = RegisteredSink(handle: nat, sink: nat)

  /** At most one sink per handle. */
  ghost predicate OnePerHandle(sinks: seq<RegisteredSink>) {
    forall i, j :: 0 <= i < j < |sinks| ==> sinks[i].handle != sinks[j].handle
  }

  function Lookup(sinks: seq<RegisteredSink>, handle: nat): Option<nat> {
    if sinks == [] then None
    else if sinks[0].handle == handle then Some(sinks[0].sink)
    else Lookup(sinks[1..], handle)
  }

  function Registered(sinks: seq<RegisteredSink>, handle: nat, sink: nat): seq<RegisteredSink> {
    if sinks == [] then [RegisteredSink(handle, sink)]
    else if sinks[0].handle == handle then [RegisteredSink(handle, sink)] + sinks[1..]
    else [sinks[0]] + Registered(sinks[1..], handle, sink)
  }

  function Unregistered(sinks: seq<RegisteredSink>, handle: nat): seq<RegisteredSink> {
    Filter(sinks, (s: RegisteredSink) => s.handle != handle)
  }

  lemma {:induction false} LookupNone(sinks: seq<RegisteredSink>, handle: nat)
    ensures Lookup(sinks, handle).None? <==> forall i :: 0 <= i < |sinks| ==> sinks[i].handle != handle
  {
    if sinks != [] {
      LookupNone(sinks[1..], handle);
      if sinks[0].handle != handle {
        assert forall i :: 0 < i < |sinks| ==> sinks[i] == sinks[1..][i - 1];
      }
    }
  }

  /** Registering sets one handle's sink and no other's. */
  lemma {:induction false} RegisteredLookup(sinks: seq<RegisteredSink>, handle: nat, sink: nat, other: nat)
    ensures Lookup(Registered(sinks, handle, sink), other) == if other == handle then Some(sink) else Lookup(sinks, other)
  {
    if sinks != [] {
      var tail := Registered(sinks[1..], handle, sink);
      RegisteredLookup(sinks[1..], handle, sink, other);
      assert ([sinks[0]] + tail)[1..] == tail;
      assert ([RegisteredSink(handle, sink)] + sinks[1..])[1..] == sinks[1..];
    }
  }

  /** Unregistering clears one handle's sink and no other's. */
  lemma {:induction false} UnregisteredLookup(sinks: seq<RegisteredSink>, handle: nat, other: nat)
    ensures Lookup(Unregistered(sinks, handle), other) == if other == handle then None else Lookup(sinks, other)
  {
    if sinks != [] {
      UnregisteredLookup(sinks[1..], handle, other);
      var tail := Unregistered(sinks[1..], handle);
      assert ([sinks[0]] + tail)[1..] == tail;
    }
  }

  lemma {:induction false} RegisteredInPlace(sinks: seq<RegisteredSink>, i: nat, handle: nat, sink: nat)
    requires i < |sinks| && sinks[i].handle == handle && forall j :: 0 <= j < i ==> sinks[j].handle != handle
    ensures Registered(sinks, handle, sink) == sinks[i := RegisteredSink(handle, sink)]
  {
    if i > 0 {
      assert sinks[0].handle != handle;
      RegisteredInPlace(sinks[1..], i - 1, handle, sink);
    }
  }

  lemma {:induction false} RegisteredAtEnd(sinks: seq<RegisteredSink>, handle: nat, sink: nat)
    requires forall j :: 0 <= j < |sinks| ==> sinks[j].handle != handle
    ensures Registered(sinks, handle, sink) == sinks + [RegisteredSink(handle, sink)]
  {
    if sinks != [] {
      assert sinks[0].handle != handle;
      RegisteredAtEnd(sinks[1..], handle, sink);
    }
  }

  class SinkRegistry {
    var sinks: seq<RegisteredSink>

    constructor ()
      ensures sinks == []
    {
      sinks := [];
    }

    /** `sinks.iter().find(...)`. */
    method Find(handle: nat) returns (found: Option<nat>)
      ensures found == Lookup(sinks, handle)
      ensures found.None? <==> forall i :: 0 <= i < |sinks| ==> sinks[i].handle != handle
    {
      LookupNone(sinks, handle);
      for i := 0 to |sinks|
        invariant Lookup(sinks, handle) == Lookup(sinks[i..], handle)
      {
        if sinks[i].handle == handle {
          return Some(sinks[i].sink);
        }
        assert sinks[i..][1..] == sinks[i + 1..];
      }
      return None;
    }

    /** The registry half of `register_sink`: replace the handle's sink in place,
        or append one. */
    method Register(handle: nat, sink: nat)
      requires OnePerHandle(sinks)
      modifies this
      ensures sinks == Registered(old(sinks), handle, sink) && OnePerHandle(sinks)
    {
      for i := 0 to |sinks|
        invariant sinks == old(sinks)
        invariant forall j :: 0 <= j < i ==> sinks[j].handle != handle
      {
        if sinks[i].handle == handle {
          RegisteredInPlace(sinks, i, handle, sink);
          sinks := sinks[i := RegisteredSink(handle, sink)];
          return;
        }
      }
      RegisteredAtEnd(sinks, handle, sink);
      sinks := sinks + [RegisteredSink(handle, sink)];
    }

    /** `unregister_sink`: `Vec::retain`. */
    method Unregister(handle: nat)
      modifies this
      ensures sinks == Unregistered(old(sinks), handle)
      ensures Lookup(sinks, handle).None?
    {
      var kept: seq<RegisteredSink> := [];
      var isOther := (s: RegisteredSink) => s.handle != handle;
      for i := 0 to |sinks|
        invariant sinks == old(sinks)
        invariant kept == Filter(sinks[..i], isOther)
      {
        FilterSnoc(sinks, i, isOther);
        if sinks[i].handle != handle {
          kept := kept + [sinks[i]];
        }
      }
      assert sinks[..|sinks|] == sinks;
      UnregisteredLookup(sinks, handle, handle);
      sinks := kept;
    }
  }

  /** How often `r` stands in `records`. */
  function Count(records: seq<Record>, r: Record): nat {
    if records == [] then 0 else (if records[0] == r then 1 else 0) + Count(records[1..], r)
  }

  lemma {:induction false} CountAppend(a: seq<Record>, b: seq<Record>, r: Record)
    ensures Count(a + b, r) == Count(a, r) + Count(b, r)
  {
    if a == [] {
      assert a + b == b;
    } else {
      CountAppend(a[1..], b, r);
      assert (a + b)[1..] == a[1..] + b;
    }
  }

  /** Splitting a buffer by handle loses nothing and invents nothing. */
  lemma {:induction false} SplitKeepsRecords(handle: nat, records: seq<Record>, r: Record)
    ensures Count(OfHandle(handle, records), r) + Count(NotOfHandle(handle, records), r) == Count(records, r)
    ensures |OfHandle(handle, records)| + |NotOfHandle(handle, records)| == |records|
  {
    if records != [] {
      SplitKeepsRecords(handle, records[1..], r);
      var mine, others := OfHandle(handle, records[1..]), NotOfHandle(handle, records[1..]);
      assert ([records[0]] + mine)[1..] == mine;
      assert ([records[0]] + others)[1..] == others;
    }
  }
}

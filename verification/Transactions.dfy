/** The transaction manager's state: the active transactions, each owning a
    snapshot handle and, once it has written, a staged-transaction handle. */
module Transactions {
  import opened Values

  datatype Handle = SnapshotHandle(n: nat) | TxHandle(n: nat)

  /** What happens to handles, in order. */
  datatype Event =
    | Opened(handle: Handle)
    | Used(handle: Handle)
    | Freed(handle: Handle)
    | Committed(handle: Handle)
    | RolledBack(handle: Handle)

  /** A `MoraineTransaction`. */
  datatype Tx = Tx(id: nat, snapshot: Option<nat>, staged: Option<nat>)

  /** The destructor: what is still owned is released. */
  function Destroyed(tx: Tx): seq<Event> {
    (if tx.snapshot.Some? then [Freed(SnapshotHandle(tx.snapshot.value))] else [])
    + (if tx.staged.Some? then [RolledBack(TxHandle(tx.staged.value))] else [])
  }

  /** `ReleaseSnapshot`. */
  function Released(tx: Tx): seq<Event> {
    if tx.snapshot.Some? then [Freed(SnapshotHandle(tx.snapshot.value))] else []
  }

  function Find(active: seq<Tx>, id: nat): (r: Option<nat>)
    ensures r.Some? ==> r.value < |active| && active[r.value].id == id
    ensures r.None? ==> forall i :: 0 <= i < |active| ==> active[i].id != id
  {
    if active == [] then None
    else if active[|active| - 1].id == id && Find(active[..|active| - 1], id).None? then Some(|active| - 1)
    else Find(active[..|active| - 1], id)
  }

  lemma {:induction false} FindFirst(active: seq<Tx>, id: nat, i: nat)
    requires i < |active| && active[i].id == id && forall j :: 0 <= j < i ==> active[j].id != id
    ensures Find(active, id) == Some(i)
  {
    var n := |active| - 1;
    if i < n {
      FindFirst(active[..n], id, i);
    }
  }

  function Without(active: seq<Tx>, i: nat): seq<Tx>
    requires i < |active|
  {
    active[..i] + active[i + 1..]
  }

  /** The staged handle `TakeOut` hands to its caller. */
  function StagedOf(active: seq<Tx>, id: nat): Option<nat> {
    var at := Find(active, id);
    if at.None? then None else active[at.value].staged
  }

  function ActiveAfter(active: seq<Tx>, id: nat): seq<Tx> {
    var at := Find(active, id);
    if at.None? then active else Without(active, at.value)
  }

  function EventsOf(active: seq<Tx>, id: nat): seq<Event> {
    var at := Find(active, id);
    if at.None? then [] else Released(active[at.value])
  }

  class TransactionManager {
    var active: seq<Tx>
    var log: seq<Event>

    constructor ()
      ensures active == [] && log == []
    {
      active, log := [], [];
    }

    /** The locked part of `CommitTransaction` and of `RollbackTransaction`: takes
        the staged handle out, frees the snapshot, and destroys the transaction,
        which by then owns neither. An unknown transaction changes nothing. */
    method TakeOut(id: nat) returns (staged: Option<nat>)
      modifies this
      ensures staged == StagedOf(old(active), id)
      ensures active == ActiveAfter(old(active), id)
      ensures log == old(log) + EventsOf(old(active), id)
    {
      staged := None;
      for i := 0 to |active|
        invariant unchanged(this) && staged.None?
        invariant forall j :: 0 <= j < i ==> active[j].id != id
      {
        if active[i].id == id {
          FindFirst(active, id, i);
          var tx := active[i];
          staged, tx := tx.staged, tx.(staged := None);
          log, tx := log + Released(tx), tx.(snapshot := None);
          log := log + Destroyed(tx);
          active := active[..i] + active[i + 1..];
          return;
        }
      }
    }
  }

  // ----- Counting -----

  function Opens(log: seq<Event>, h: Handle): nat {
    if log == [] then 0
    else Opens(log[..|log| - 1], h) + if log[|log| - 1] == Opened(h) then 1 else 0
  }

  predicate Closing(e: Event) {
    e.Freed? || e.Committed? || e.RolledBack?
  }

  function Closes(log: seq<Event>, h: Handle): nat {
    if log == [] then 0
    else Closes(log[..|log| - 1], h) + if Closing(log[|log| - 1]) && log[|log| - 1].handle == h then 1 else 0
  }

  /** `e` may follow `log`: a handle is opened once, then used and closed while
      open, a snapshot by freeing it and a staged transaction by committing or
      rolling it back; nothing follows its close. */
  predicate EventOk(log: seq<Event>, e: Event) {
    && (e.Opened? ==> Opens(log, e.handle) == 0)
    && (!e.Opened? ==> Opens(log, e.handle) == 1)
    && Closes(log, e.handle) == 0
    && (e.Freed? ==> e.handle.SnapshotHandle?)
    && (e.Committed? || e.RolledBack? ==> e.handle.TxHandle?)
  }

  predicate LifecycleOk(log: seq<Event>) {
    log == [] || (LifecycleOk(log[..|log| - 1]) && EventOk(log[..|log| - 1], log[|log| - 1]))
  }

  lemma Extended(log: seq<Event>, e: Event, h: Handle)
    ensures Opens(log + [e], h) == Opens(log, h) + if e == Opened(h) then 1 else 0
    ensures Closes(log + [e], h) == Closes(log, h) + if Closing(e) && e.handle == h then 1 else 0
    ensures LifecycleOk(log + [e]) <==> LifecycleOk(log) && EventOk(log, e)
  {
    assert (log + [e])[..|log|] == log;
  }

  function HeldBy(tx: Tx, h: Handle): nat {
    (if h.SnapshotHandle? && tx.snapshot == Some(h.n) then 1 else 0)
    + (if h.TxHandle? && tx.staged == Some(h.n) then 1 else 0)
  }

  function HeldActive(active: seq<Tx>, h: Handle): nat {
    if active == [] then 0 else HeldActive(active[..|active| - 1], h) + HeldBy(active[|active| - 1], h)
  }

  lemma {:induction false} HeldAppend(a: seq<Tx>, b: seq<Tx>, h: Handle)
    ensures HeldActive(a + b, h) == HeldActive(a, h) + HeldActive(b, h)
  {
    if b == [] {
      assert a + b == a;
    } else {
      var n := |b| - 1;
      assert (a + b)[..|a + b| - 1] == a + b[..n];
      HeldAppend(a, b[..n], h);
    }
  }

  lemma HeldOne(tx: Tx, h: Handle)
    ensures HeldActive([tx], h) == HeldBy(tx, h)
  {
    assert HeldActive([tx][..0], h) == 0;
  }

  /** The rest of the list holds what is left when one transaction changes or goes. */
  lemma HeldAt(active: seq<Tx>, i: nat, tx: Tx, h: Handle)
    requires i < |active|
    ensures HeldActive(active, h) == HeldActive(Without(active, i), h) + HeldBy(active[i], h)
    ensures HeldActive(active[i := tx], h) == HeldActive(Without(active, i), h) + HeldBy(tx, h)
  {
    var before, after := active[..i], active[i + 1..];
    assert active == before + ([active[i]] + after);
    assert active[i := tx] == before + ([tx] + after);
    HeldAppend(before, [active[i]] + after, h);
    HeldAppend(before, [tx] + after, h);
    HeldAppend([active[i]], after, h);
    HeldAppend([tx], after, h);
    HeldAppend(before, after, h);
    HeldOne(active[i], h);
    HeldOne(tx, h);
  }
}

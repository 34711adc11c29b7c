/** Transactions as a state machine: any number of clients starting, reading,
    writing, committing and rolling back, and the manager's destruction. The
    manager's lock protects single steps; a snapshot is taken before the
    transaction is listed, and a staged transaction is committed or rolled back
    after it was taken out, both outside the lock. */
module TransactionRuns {
  import opened Values
  import opened Transactions

  datatype Pc =
    | Idle
    /** `StartTransaction`: the transaction exists and is not yet listed. */
    | Constructed(tx: Tx)
    | Open(id: nat)
    /** A write between `StagedTx()` and staging its operation. */
    | Staging(id: nat, handle: nat)
    /** `CommitTransaction` after the lock, holding the staged handle. */
    | Committing(handle: nat)
    | RollingBack(handle: nat)

  datatype Sys = Sys(active: seq<Tx>, clients: seq<Pc>, nextTx: nat, nextHandle: nat, down: bool, log: seq<Event>)

  datatype Step =
    | Start(client: nat)
    | Push(client: nat)
    | Read(client: nat)
    | Acquire(client: nat, succeeds: bool)
    | Stage(client: nat)
    | Commit(client: nat)
    | FinishCommit(client: nat)
    | Rollback(client: nat)
    | FinishRollback(client: nat)
    /** A commit or rollback naming a transaction no longer listed. */
    | Stale(client: nat, id: nat)
    | Shutdown
    | DestroyFirst

  predicate Init(s: Sys) {
    && s.active == [] && !s.down && s.log == []
    && forall c :: 0 <= c < |s.clients| ==> s.clients[c].Idle?
  }

  function At(s: Sys, c: nat, pc: Pc): Sys
    requires c < |s.clients|
  {
    s.(clients := s.clients[c := pc])
  }

  /** The first write opens the staged transaction, which may fail; later writes
      reuse it. */
  function Acquired(s: Sys, c: nat, id: nat, succeeds: bool): Option<Sys>
    requires c < |s.clients|
  {
    var at := Find(s.active, id);
    if at.None? then None
    else
      var tx := s.active[at.value];
      if tx.staged.Some? then Some(At(s, c, Staging(id, tx.staged.value)))
      else if !succeeds then Some(s)
      else
        var h := s.nextHandle;
        Some(At(s, c, Staging(id, h)).(active := s.active[at.value := tx.(staged := Some(h))], nextHandle := h + 1,
                                       log := s.log + [Opened(TxHandle(h))]))
  }

  /** The locked part of commit and rollback; `pc` is where the caller goes with
      a staged handle. */
  function TakenOut(s: Sys, c: nat, id: nat, pc: Option<nat> -> Pc): Sys
    requires c < |s.clients|
  {
    At(s, c, pc(StagedOf(s.active, id))).(active := ActiveAfter(s.active, id), log := s.log + EventsOf(s.active, id))
  }

  function ToCommit(staged: Option<nat>): Pc {
    if staged.None? then Idle else Committing(staged.value)
  }

  function ToRollBack(staged: Option<nat>): Pc {
    if staged.None? then Idle else RollingBack(staged.value)
  }

  function ClientNext(s: Sys, step: Step): Option<Sys>
    requires !step.Shutdown? && !step.DestroyFirst?
  {
    var c := step.client;
    if c >= |s.clients| || s.down then None
    else
      var pc := s.clients[c];
      match step
      case Start(_) =>
        if pc.Idle? then
          Some(At(s, c, Constructed(Tx(s.nextTx, Some(s.nextHandle), None)))
               .(nextTx := s.nextTx + 1, nextHandle := s.nextHandle + 1,
                 log := s.log + [Opened(SnapshotHandle(s.nextHandle))]))
        else None
      case Push(_) =>
        if pc.Constructed? then Some(At(s, c, Open(pc.tx.id)).(active := s.active + [pc.tx])) else None
      case Read(_) =>
        if pc.Open? && Find(s.active, pc.id).Some? && s.active[Find(s.active, pc.id).value].snapshot.Some? then
          Some(s.(log := s.log + [Used(SnapshotHandle(s.active[Find(s.active, pc.id).value].snapshot.value))]))
        else None
      case Acquire(_, succeeds) => if pc.Open? then Acquired(s, c, pc.id, succeeds) else None
      case Stage(_) =>
        if pc.Staging? then Some(At(s, c, Open(pc.id)).(log := s.log + [Used(TxHandle(pc.handle))])) else None
      case Commit(_) => if pc.Open? then Some(TakenOut(s, c, pc.id, ToCommit)) else None
      case FinishCommit(_) =>
        if pc.Committing? then Some(At(s, c, Idle).(log := s.log + [Committed(TxHandle(pc.handle))])) else None
      case Rollback(_) => if pc.Open? then Some(TakenOut(s, c, pc.id, ToRollBack)) else None
      case FinishRollback(_) =>
        if pc.RollingBack? then Some(At(s, c, Idle).(log := s.log + [RolledBack(TxHandle(pc.handle))])) else None
      case Stale(_, id) => if pc.Idle? && Find(s.active, id).None? then Some(s) else None
  }

  predicate OutsideCalls(clients: seq<Pc>) {
    forall c :: 0 <= c < |clients| ==> clients[c].Idle? || clients[c].Open?
  }

  function Next(s: Sys, step: Step): Option<Sys> {
    match step
    case Shutdown =>
      // The manager goes away with no call running; its clients' transactions go with it.
      if !s.down && OutsideCalls(s.clients) then
        Some(s.(down := true, clients := seq(|s.clients|, _ => Idle)))
      else None
    case DestroyFirst =>
      if s.down && s.active != [] then
        Some(s.(active := s.active[1..], log := s.log + Destroyed(s.active[0])))
      else None
    case _ => ClientNext(s, step)
  }

  function Run(s: Sys, steps: seq<Step>): Option<Sys> {
    if steps == [] then Some(s)
    else
      var n := |steps| - 1;
      var before := Run(s, steps[..n]);
      if before.None? then None else Next(before.value, steps[n])
  }

  // ----- Who holds what -----

  function HeldPc(pc: Pc, h: Handle): nat {
    match pc
    case Constructed(tx) => HeldBy(tx, h)
    case Committing(n) => if h == TxHandle(n) then 1 else 0
    case RollingBack(n) => if h == TxHandle(n) then 1 else 0
    case _ => 0
  }

  function HeldClients(clients: seq<Pc>, h: Handle): nat {
    if clients == [] then 0 else HeldClients(clients[1..], h) + HeldPc(clients[0], h)
  }

  lemma {:induction false} HeldClientsAt(clients: seq<Pc>, c: nat, pc: Pc, h: Handle)
    requires c < |clients|
    ensures HeldClients(clients[c := pc], h) + HeldPc(clients[c], h) == HeldClients(clients, h) + HeldPc(pc, h)
    ensures HeldClients(clients, h) >= HeldPc(clients[c], h)
  {
    if c == 0 {
      assert clients[c := pc][1..] == clients[1..];
    } else {
      assert clients[c := pc][1..] == clients[1..][c - 1 := pc];
      HeldClientsAt(clients[1..], c - 1, pc, h);
    }
  }

  lemma {:induction false} OutsideHoldNothing(clients: seq<Pc>, h: Handle)
    requires OutsideCalls(clients)
    ensures HeldClients(clients, h) == 0
  {
    if clients != [] {
      OutsideHoldNothing(clients[1..], h);
    }
  }

  predicate Balanced(log: seq<Event>, active: seq<Tx>, clients: seq<Pc>, h: Handle) {
    Opens(log, h) == Closes(log, h) + HeldActive(active, h) + HeldClients(clients, h) <= 1
  }

  ghost predicate Books(s: Sys) {
    && LifecycleOk(s.log)
    && (forall h :: Balanced(s.log, s.active, s.clients, h))
    && (forall h: Handle :: h.n >= s.nextHandle ==> Opens(s.log, h) == 0)
  }

  /** A write's handle is still its own transaction's. */
  ghost predicate StagingOk(active: seq<Tx>, clients: seq<Pc>) {
    forall c :: 0 <= c < |clients| && clients[c].Staging? ==>
      var at := Find(active, clients[c].id);
      at.Some? && active[at.value].staged == Some(clients[c].handle)
  }

  function Owned(pc: Pc): Option<nat> {
    match pc
    case Constructed(tx) => Some(tx.id)
    case Open(id) => Some(id)
    case Staging(id, _) => Some(id)
    case _ => None
  }

  ghost predicate OwnersOk(clients: seq<Pc>, nextTx: nat) {
    && (forall c :: 0 <= c < |clients| && Owned(clients[c]).Some? ==> Owned(clients[c]).value < nextTx)
    && (forall c, d :: 0 <= c < d < |clients| && Owned(clients[c]).Some? ==> Owned(clients[c]) != Owned(clients[d]))
  }

  ghost predicate Inv(s: Sys) {
    && Books(s) && StagingOk(s.active, s.clients) && OwnersOk(s.clients, s.nextTx)
    && (s.down ==> forall c :: 0 <= c < |s.clients| ==> s.clients[c].Idle?)
  }

  // ----- Each step keeps the books -----

  lemma HeldMeansOpen(s: Sys, h: Handle)
    requires Books(s) && HeldActive(s.active, h) + HeldClients(s.clients, h) > 0
    ensures Opens(s.log, h) == 1 && Closes(s.log, h) == 0
  {
    assert Balanced(s.log, s.active, s.clients, h);
  }

  /** A new handle is opened and given to `active'` or `clients'`. */
  lemma OpenKeepsBooks(s: Sys, h: Handle, s': Sys)
    requires Books(s) && h.n == s.nextHandle && s'.nextHandle == s.nextHandle + 1 && s'.log == s.log + [Opened(h)]
    requires forall g :: HeldActive(s'.active, g) + HeldClients(s'.clients, g) ==
                         HeldActive(s.active, g) + HeldClients(s.clients, g) + (if g == h then 1 else 0)
    ensures Books(s')
  {
    forall g
      ensures Balanced(s'.log, s'.active, s'.clients, g)
      ensures g.n >= s'.nextHandle ==> Opens(s'.log, g) == 0
    {
      Extended(s.log, Opened(h), g);
      assert Balanced(s.log, s.active, s.clients, g);
    }
    assert Balanced(s.log, s.active, s.clients, h);
    Extended(s.log, Opened(h), h);
  }

  lemma UseKeepsBooks(s: Sys, h: Handle, s': Sys)
    requires Books(s) && HeldActive(s.active, h) + HeldClients(s.clients, h) > 0
    requires s'.nextHandle == s.nextHandle && s'.log == s.log + [Used(h)]
    requires forall g :: HeldActive(s'.active, g) + HeldClients(s'.clients, g) ==
                         HeldActive(s.active, g) + HeldClients(s.clients, g)
    ensures Books(s')
  {
    HeldMeansOpen(s, h);
    forall g
      ensures Balanced(s'.log, s'.active, s'.clients, g)
      ensures g.n >= s'.nextHandle ==> Opens(s'.log, g) == 0
    {
      Extended(s.log, Used(h), g);
      assert Balanced(s.log, s.active, s.clients, g);
    }
    Extended(s.log, Used(h), h);
  }

  lemma CloseKeepsBooks(s: Sys, e: Event, s': Sys)
    requires Books(s) && Closing(e) && (e.Freed? <==> e.handle.SnapshotHandle?)
    requires s'.nextHandle == s.nextHandle && s'.log == s.log + [e]
    requires forall g :: HeldActive(s'.active, g) + HeldClients(s'.clients, g) + (if g == e.handle then 1 else 0) ==
                         HeldActive(s.active, g) + HeldClients(s.clients, g)
    ensures Books(s')
  {
    HeldMeansOpen(s, e.handle);
    forall g
      ensures Balanced(s'.log, s'.active, s'.clients, g)
      ensures g.n >= s'.nextHandle ==> Opens(s'.log, g) == 0
    {
      Extended(s.log, e, g);
      assert Balanced(s.log, s.active, s.clients, g);
    }
    Extended(s.log, e, e.handle);
  }

  lemma MoveKeepsBooks(s: Sys, s': Sys)
    requires Books(s) && s'.nextHandle == s.nextHandle && s'.log == s.log
    requires forall g :: HeldActive(s'.active, g) + HeldClients(s'.clients, g) ==
                         HeldActive(s.active, g) + HeldClients(s.clients, g)
    ensures Books(s')
  {
    forall g
      ensures Balanced(s'.log, s'.active, s'.clients, g)
    {
      assert Balanced(s.log, s.active, s.clients, g);
    }
  }

  /** Committing and rolling back move the staged handle to the client and free
      the snapshot. */
  lemma TakenOutKeepsBooks(s: Sys, c: nat, id: nat, pc: Option<nat> -> Pc)
    requires Books(s) && c < |s.clients| && s.clients[c].Open?
    requires forall staged, h :: HeldPc(pc(staged), h) == if staged.Some? && h == TxHandle(staged.value) then 1 else 0
    ensures Books(TakenOut(s, c, id, pc))
  {
    var s', at := TakenOut(s, c, id, pc), Find(s.active, id);
    forall g
      ensures at.None? ==>
                HeldActive(s'.active, g) + HeldClients(s'.clients, g) ==
                HeldActive(s.active, g) + HeldClients(s.clients, g)
      ensures at.Some? ==>
                HeldActive(s'.active, g) + HeldClients(s'.clients, g)
                + (if s.active[at.value].snapshot.Some? && g == SnapshotHandle(s.active[at.value].snapshot.value) then 1 else 0) ==
                HeldActive(s.active, g) + HeldClients(s.clients, g)
    {
      HeldClientsAt(s.clients, c, s'.clients[c], g);
      if at.Some? {
        HeldAt(s.active, at.value, s.active[at.value], g);
      }
    }
    if at.Some? && s.active[at.value].snapshot.Some? {
      CloseKeepsBooks(s, Freed(SnapshotHandle(s.active[at.value].snapshot.value)), s');
    } else {
      assert s'.log == s.log;
      MoveKeepsBooks(s, s');
    }
  }

  lemma ActiveMoves(active: seq<Tx>, at: nat, tx: Tx)
    requires at < |active|
    ensures forall g :: HeldActive(active[at := tx], g) == HeldActive(active, g) + HeldBy(tx, g) - HeldBy(active[at], g)
  {
    forall g
      ensures HeldActive(active[at := tx], g) == HeldActive(active, g) + HeldBy(tx, g) - HeldBy(active[at], g)
    {
      HeldAt(active, at, tx, g);
    }
  }

  lemma AcquireKeepsBooks(s: Sys, c: nat, id: nat, succeeds: bool)
    requires Books(s) && c < |s.clients| && s.clients[c].Open? && Acquired(s, c, id, succeeds).Some?
    ensures Books(Acquired(s, c, id, succeeds).value)
  {
    var s', at := Acquired(s, c, id, succeeds).value, Find(s.active, id).value;
    ClientMoves(s, s', c);
    ActiveMoves(s.active, at, s'.active[at]);
    assert s.active[at := s.active[at]] == s.active;
    if s'.log == s.log {
      MoveKeepsBooks(s, s');
    } else {
      OpenKeepsBooks(s, TxHandle(s.nextHandle), s');
    }
  }

  /** What the clients hold after one of them moves. */
  lemma ClientMoves(s: Sys, s': Sys, c: nat)
    requires c < |s.clients| == |s'.clients| && s'.clients == s.clients[c := s'.clients[c]]
    ensures forall g :: HeldClients(s'.clients, g) + HeldPc(s.clients[c], g) ==
                        HeldClients(s.clients, g) + HeldPc(s'.clients[c], g)
  {
    forall g
      ensures HeldClients(s'.clients, g) + HeldPc(s.clients[c], g) == HeldClients(s.clients, g) + HeldPc(s'.clients[c], g)
    {
      HeldClientsAt(s.clients, c, s'.clients[c], g);
    }
  }

  lemma ActivePushed(active: seq<Tx>, tx: Tx)
    ensures forall g :: HeldActive(active + [tx], g) == HeldActive(active, g) + HeldBy(tx, g)
  {
    forall g
      ensures HeldActive(active + [tx], g) == HeldActive(active, g) + HeldBy(tx, g)
    {
      HeldAppend(active, [tx], g);
      HeldOne(tx, g);
    }
  }

  lemma StartKeepsBooks(s: Sys, step: Step)
    requires Inv(s) && Next(s, step).Some? && (step.Start? || step.Push?)
    ensures Books(Next(s, step).value)
  {
    var s', c := Next(s, step).value, step.client;
    ClientMoves(s, s', c);
    if step.Start? {
      OpenKeepsBooks(s, SnapshotHandle(s.nextHandle), s');
    } else {
      ActivePushed(s.active, s.clients[c].tx);
      MoveKeepsBooks(s, s');
    }
  }

  lemma UseStepKeepsBooks(s: Sys, step: Step)
    requires Inv(s) && Next(s, step).Some? && (step.Read? || step.Stage?)
    ensures Books(Next(s, step).value)
  {
    var s', c := Next(s, step).value, step.client;
    var at := Find(s.active, s.clients[c].id).value;
    var h := if step.Read? then SnapshotHandle(s.active[at].snapshot.value) else TxHandle(s.clients[c].handle);
    if step.Stage? {
      ClientMoves(s, s', c);
    }
    HeldAt(s.active, at, s.active[at], h);
    UseKeepsBooks(s, h, s');
  }

  lemma FinishKeepsBooks(s: Sys, step: Step)
    requires Inv(s) && Next(s, step).Some? && (step.FinishCommit? || step.FinishRollback?)
    ensures Books(Next(s, step).value)
  {
    var s', c := Next(s, step).value, step.client;
    ClientMoves(s, s', c);
    var h := TxHandle(s.clients[c].handle);
    CloseKeepsBooks(s, if step.FinishCommit? then Committed(h) else RolledBack(h), s');
  }

  /** The destructor's first half: the snapshot goes. */
  lemma FreeKeepsBooks(s: Sys, tx: Tx, freed: Sys)
    requires Books(s) && s.active != [] && s.active[0] == tx
    requires freed == s.(active := s.active[0 := tx.(snapshot := None)], log := s.log + Released(tx))
    ensures Books(freed)
  {
    forall g
      ensures HeldActive(freed.active, g) + HeldBy(tx, g) == HeldActive(s.active, g) + HeldBy(freed.active[0], g)
    {
      HeldAt(s.active, 0, freed.active[0], g);
    }
    if tx.snapshot.Some? {
      CloseKeepsBooks(s, Freed(SnapshotHandle(tx.snapshot.value)), freed);
    } else {
      assert freed.log == s.log;
      MoveKeepsBooks(s, freed);
    }
  }

  lemma HeldByFirst(active: seq<Tx>)
    requires active != []
    ensures forall g :: HeldActive(active[1..], g) + HeldBy(active[0], g) == HeldActive(active, g)
  {
    forall g
      ensures HeldActive(active[1..], g) + HeldBy(active[0], g) == HeldActive(active, g)
    {
      HeldAt(active, 0, active[0], g);
      assert Without(active, 0) == active[1..];
    }
  }

  lemma DestroyKeepsBooks(s: Sys)
    requires Books(s) && s.active != []
    ensures Books(s.(active := s.active[1..], log := s.log + Destroyed(s.active[0])))
  {
    var tx := s.active[0];
    var freed := s.(active := s.active[0 := tx.(snapshot := None)], log := s.log + Released(tx));
    FreeKeepsBooks(s, tx, freed);
    var gone := s.(active := s.active[1..], log := s.log + Destroyed(tx));
    HeldByFirst(freed.active);
    if tx.staged.Some? {
      assert gone.log == freed.log + [RolledBack(TxHandle(tx.staged.value))];
      CloseKeepsBooks(freed, RolledBack(TxHandle(tx.staged.value)), gone);
    } else {
      assert gone.log == freed.log;
      MoveKeepsBooks(freed, gone);
    }
  }

  lemma StepKeepsBooks(s: Sys, step: Step)
    requires Inv(s) && Next(s, step).Some?
    ensures Books(Next(s, step).value)
  {
    match step
    case Shutdown =>
      var s' := Next(s, step).value;
      forall g
        ensures HeldClients(s'.clients, g) == HeldClients(s.clients, g)
      {
        OutsideHoldNothing(s.clients, g);
        OutsideHoldNothing(s'.clients, g);
      }
      MoveKeepsBooks(s, s');
    case DestroyFirst => DestroyKeepsBooks(s);
    case Commit(c) => TakenOutKeepsBooks(s, c, s.clients[c].id, ToCommit);
    case Rollback(c) => TakenOutKeepsBooks(s, c, s.clients[c].id, ToRollBack);
    case Acquire(c, succeeds) => AcquireKeepsBooks(s, c, s.clients[c].id, succeeds);
    case Stale(_, _) =>
    case Start(_) => StartKeepsBooks(s, step);
    case Push(_) => StartKeepsBooks(s, step);
    case Read(_) => UseStepKeepsBooks(s, step);
    case Stage(_) => UseStepKeepsBooks(s, step);
    case FinishCommit(_) => FinishKeepsBooks(s, step);
    case FinishRollback(_) => FinishKeepsBooks(s, step);
  }

  // ----- Each step keeps the handles in use valid -----

  lemma {:induction false} FindOther(active: seq<Tx>, i: nat, id: nat)
    requires i < |active| && active[i].id != id
    ensures var gone := Without(active, i);
            && Find(gone, id).Some? == Find(active, id).Some?
            && (Find(active, id).Some? ==> gone[Find(gone, id).value] == active[Find(active, id).value])
    decreases |active|
  {
    var n := |active| - 1;
    if i == n {
      assert Without(active, i) == active[..n];
    } else {
      FindOther(active[..n], i, id);
      var gone := Without(active, i);
      assert gone[..n - 1] == Without(active[..n], i) && gone[n - 1] == active[n] && |gone| == n;
    }
  }

  lemma {:induction false} FindUpdated(active: seq<Tx>, i: nat, tx: Tx, id: nat)
    requires i < |active| && tx.id == active[i].id
    ensures Find(active[i := tx], id) == Find(active, id)
  {
    var n := |active| - 1;
    if i == n {
      assert active[i := tx][..n] == active[..n];
    } else {
      assert active[i := tx][..n] == active[..n][i := tx];
      FindUpdated(active[..n], i, tx, id);
    }
  }

  lemma FindAppended(active: seq<Tx>, tx: Tx, id: nat)
    requires Find(active, id).Some?
    ensures Find(active + [tx], id) == Find(active, id)
  {
    assert (active + [tx])[..|active|] == active;
  }

  lemma PushKeepsStaging(s: Sys, step: Step)
    requires Inv(s) && Next(s, step).Some? && step.Push?
    ensures StagingOk(Next(s, step).value.active, Next(s, step).value.clients)
  {
    var s', d := Next(s, step).value, step.client;
    forall c | 0 <= c < |s.clients| && s.clients[c].Staging?
      ensures Find(s'.active, s.clients[c].id) == Find(s.active, s.clients[c].id)
    {
      FindAppended(s.active, s.clients[d].tx, s.clients[c].id);
    }
  }

  lemma StepKeepsStaging(s: Sys, step: Step)
    requires Inv(s) && Next(s, step).Some?
    ensures StagingOk(Next(s, step).value.active, Next(s, step).value.clients)
  {
    var s' := Next(s, step).value;
    match step
    case Push(_) => PushKeepsStaging(s, step);
    case Acquire(d, _) => AcquireKeepsStaging(s, step);
    case Commit(d) => OthersFind(s, d);
    case Rollback(d) => OthersFind(s, d);
    case _ =>
  }

  lemma AcquireKeepsStaging(s: Sys, step: Step)
    requires Inv(s) && Next(s, step).Some? && step.Acquire?
    ensures StagingOk(Next(s, step).value.active, Next(s, step).value.clients)
  {
    var s', d := Next(s, step).value, step.client;
    var at := Find(s.active, s.clients[d].id).value;
    forall c | 0 <= c < |s'.clients| && s'.clients[c].Staging?
      ensures var at := Find(s'.active, s'.clients[c].id);
              at.Some? && s'.active[at.value].staged == Some(s'.clients[c].handle)
    {
      assert s.active[at := s.active[at]] == s.active;
      FindUpdated(s.active, at, s'.active[at], s'.clients[c].id);
      if c != d {
        assert Owned(s.clients[c]) != Owned(s.clients[d]);
      }
    }
  }

  /** Taking one client's transaction out leaves the others' where they find them. */
  lemma OthersFind(s: Sys, d: nat)
    requires Inv(s) && d < |s.clients| && s.clients[d].Open?
    ensures forall c :: 0 <= c < |s.clients| && s.clients[c].Staging? ==>
              var after, at := ActiveAfter(s.active, s.clients[d].id), Find(s.active, s.clients[c].id);
              var at' := Find(after, s.clients[c].id);
              at.Some? && at'.Some? && after[at'.value] == s.active[at.value]
  {
    var gone := Find(s.active, s.clients[d].id);
    forall c | 0 <= c < |s.clients| && s.clients[c].Staging?
      ensures var after, at := ActiveAfter(s.active, s.clients[d].id), Find(s.active, s.clients[c].id);
              var at' := Find(after, s.clients[c].id);
              at.Some? && at'.Some? && after[at'.value] == s.active[at.value]
    {
      assert Owned(s.clients[c]) != Owned(s.clients[d]);
      if gone.Some? {
        FindOther(s.active, gone.value, s.clients[c].id);
      }
    }
  }

  lemma OwnersAt(clients: seq<Pc>, c: nat, pc: Pc, nextTx: nat, nextTx': nat)
    requires OwnersOk(clients, nextTx) && c < |clients|
    requires || (nextTx' == nextTx && (Owned(pc).None? || Owned(pc) == Owned(clients[c])))
             || (nextTx' == nextTx + 1 && Owned(pc) == Some(nextTx))
    ensures OwnersOk(clients[c := pc], nextTx')
  {
  }

  lemma StepKeepsOwners(s: Sys, step: Step)
    requires Inv(s) && Next(s, step).Some?
    ensures OwnersOk(Next(s, step).value.clients, Next(s, step).value.nextTx)
  {
    var s' := Next(s, step).value;
    if !step.Shutdown? && !step.DestroyFirst? && s'.clients != s.clients {
      var c := step.client;
      assert s'.clients == s.clients[c := s'.clients[c]];
      OwnersAt(s.clients, c, s'.clients[c], s.nextTx, s'.nextTx);
    }
  }

  lemma StepKeepsInv(s: Sys, step: Step)
    requires Inv(s) && Next(s, step).Some?
    ensures Inv(Next(s, step).value)
  {
    StepKeepsBooks(s, step);
    StepKeepsStaging(s, step);
    StepKeepsOwners(s, step);
  }

  lemma {:induction false} RunKeepsInv(s: Sys, steps: seq<Step>)
    requires Inv(s) && Run(s, steps).Some?
    ensures Inv(Run(s, steps).value)
  {
    if steps != [] {
      var n := |steps| - 1;
      RunKeepsInv(s, steps[..n]);
      StepKeepsInv(Run(s, steps[..n]).value, steps[n]);
    }
  }

  lemma InitInv(s: Sys)
    requires Init(s)
    ensures Inv(s)
  {
    forall h
      ensures HeldClients(s.clients, h) == 0
    {
      OutsideHoldNothing(s.clients, h);
    }
  }

  // ----- Over every run -----

  /** Every handle is opened once, used only while open, and closed at most once,
      a snapshot by freeing it, a staged transaction by exactly one of commit and
      rollback; nothing follows its close. */
  lemma HandlesFollowTheirLifecycle(init: Sys, steps: seq<Step>, s: Sys)
    requires Init(init) && Run(init, steps) == Some(s)
    ensures LifecycleOk(s.log)
  {
    InitInv(init);
    RunKeepsInv(init, steps);
  }

  /** An open handle is in exactly one place: a listed transaction, or the call
      that is starting, committing or rolling one back. */
  lemma OpenHandlesHeldOnce(init: Sys, steps: seq<Step>, s: Sys, h: Handle)
    requires Init(init) && Run(init, steps) == Some(s)
    ensures HeldActive(s.active, h) + HeldClients(s.clients, h) ==
            if Opens(s.log, h) == 1 && Closes(s.log, h) == 0 then 1 else 0
  {
    InitInv(init);
    RunKeepsInv(init, steps);
    assert Balanced(s.log, s.active, s.clients, h);
  }

  /** Nothing leaks: once no transaction is listed and no call runs, whether the
      transactions ended or the manager was destroyed, every opened handle has
      been closed exactly once. */
  lemma NothingLeaks(init: Sys, steps: seq<Step>, s: Sys, h: Handle)
    requires Init(init) && Run(init, steps) == Some(s)
    requires s.active == [] && OutsideCalls(s.clients)
    ensures Closes(s.log, h) == Opens(s.log, h) <= 1
  {
    InitInv(init);
    RunKeepsInv(init, steps);
    assert Balanced(s.log, s.active, s.clients, h);
    OutsideHoldNothing(s.clients, h);
  }

  predicate NotBy(steps: seq<Step>, c: nat) {
    forall i :: 0 <= i < |steps| ==> steps[i].Shutdown? || steps[i].DestroyFirst? || steps[i].client != c
  }

  lemma {:induction false} OthersLeave(s: Sys, steps: seq<Step>, c: nat)
    requires c < |s.clients| && (s.clients[c].Committing? || s.clients[c].RollingBack?) && !s.down
    requires Run(s, steps).Some? && NotBy(steps, c)
    ensures var s' := Run(s, steps).value; c < |s'.clients| && s'.clients[c] == s.clients[c] && !s'.down
  {
    if steps != [] {
      OthersLeave(s, steps[..|steps| - 1], c);
    }
  }

  /** A commit that took a staged handle out can still commit it whatever the
      others do meanwhile, and then has. */
  lemma CommitReachesItsEnd(s: Sys, c: nat, h: nat, others: seq<Step>)
    requires c < |s.clients| && !s.down && s.clients[c].Open? && StagedOf(s.active, s.clients[c].id) == Some(h)
    requires NotBy(others, c) && Run(TakenOut(s, c, s.clients[c].id, ToCommit), others).Some?
    ensures Next(s, Commit(c)) == Some(TakenOut(s, c, s.clients[c].id, ToCommit))
    ensures var m := Run(TakenOut(s, c, s.clients[c].id, ToCommit), others).value;
            var s' := Next(m, FinishCommit(c));
            s'.Some? && s'.value.log == m.log + [Committed(TxHandle(h))]
  {
    var taken := TakenOut(s, c, s.clients[c].id, ToCommit);
    assert taken.clients[c] == Committing(h) && !taken.down;
    OthersLeave(taken, others, c);
    assert Run(taken, others).value.clients[c] == Committing(h);
  }

  /** A rollback likewise rolls it back. */
  lemma RollbackReachesItsEnd(s: Sys, c: nat, h: nat, others: seq<Step>)
    requires c < |s.clients| && !s.down && s.clients[c].Open? && StagedOf(s.active, s.clients[c].id) == Some(h)
    requires NotBy(others, c) && Run(TakenOut(s, c, s.clients[c].id, ToRollBack), others).Some?
    ensures Next(s, Rollback(c)) == Some(TakenOut(s, c, s.clients[c].id, ToRollBack))
    ensures var m := Run(TakenOut(s, c, s.clients[c].id, ToRollBack), others).value;
            var s' := Next(m, FinishRollback(c));
            s'.Some? && s'.value.log == m.log + [RolledBack(TxHandle(h))]
  {
    var taken := TakenOut(s, c, s.clients[c].id, ToRollBack);
    assert taken.clients[c] == RollingBack(h) && !taken.down;
    OthersLeave(taken, others, c);
    assert Run(taken, others).value.clients[c] == RollingBack(h);
  }
}

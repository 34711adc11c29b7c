/** Whose handles a client touches: told by the steps alone, only the ones its own
    transaction opened, whatever all others do. */
module TransactionOwners {
  import opened Values
  import opened Transactions
  import opened TransactionRuns

  /** The handles a client's transaction has opened since it started. */
  datatype Session = Session(snapshot: Option<nat>, staged: Option<nat>)

  /** What one step does to what `c` has opened: a start opens a snapshot, and the first
      write after it that succeeds a staged transaction, each under the next number. */
  function SessionAfter(s: Sys, step: Step, c: nat, session: Session): Session {
    if step == Start(c) then Session(Some(s.nextHandle), None)
    else if step == Acquire(c, true) && session.staged.None? then session.(staged := Some(s.nextHandle))
    else session
  }

  function SessionOf(init: Sys, steps: seq<Step>, c: nat): Session {
    if steps == [] then Session(None, None)
    else
      var n := |steps| - 1;
      var before, session := Run(init, steps[..n]), SessionOf(init, steps[..n], c);
      if before.None? then session else SessionAfter(before.value, steps[n], c, session)
  }

  ghost predicate OwnsAt(active: seq<Tx>, id: nat, session: Session) {
    var at := Find(active, id);
    && at.Some? && session.snapshot.Some?
    && active[at.value].snapshot == session.snapshot && active[at.value].staged == session.staged
  }

  ghost predicate Owns(s: Sys, c: nat, session: Session)
    requires c < |s.clients|
  {
    match s.clients[c]
    case Idle => true
    case Constructed(tx) => session.snapshot.Some? && tx.snapshot == session.snapshot && tx.staged == session.staged == None
    case Open(id) => OwnsAt(s.active, id, session)
    case Staging(id, h) => OwnsAt(s.active, id, session) && session.staged == Some(h)
    case Committing(h) => session.staged == Some(h)
    case RollingBack(h) => session.staged == Some(h)
  }

  // ----- One step -----

  /** A step of another client leaves `c`'s transaction where it finds it. */
  lemma OthersKeepListed(s: Sys, step: Step, c: nat, id: nat)
    requires Inv(s) && Next(s, step).Some? && !step.Shutdown? && !step.DestroyFirst? && step.client != c
    requires c < |s.clients| && (s.clients[c].Open? || s.clients[c].Staging?) && s.clients[c].id == id
    requires Find(s.active, id).Some?
    ensures var s', at := Next(s, step).value, Find(s.active, id).value;
            var at' := Find(s'.active, id);
            at'.Some? && s'.active[at'.value] == s.active[at]
  {
    var d := step.client;
    assert Owned(s.clients[c]) == Some(id);
    assert Owned(s.clients[d]).Some? ==> Owned(s.clients[d]) != Some(id);
    if step.Push? {
      FindAppended(s.active, s.clients[d].tx, id);
    } else if step.Acquire? {
      var at := Find(s.active, s.clients[d].id).value;
      FindUpdated(s.active, at, Next(s, step).value.active[at], id);
    } else if step.Commit? || step.Rollback? {
      var gone := Find(s.active, s.clients[d].id);
      if gone.Some? {
        FindOther(s.active, gone.value, id);
      }
    }
  }

  /** Ids are used up in order, and a transaction being constructed is not yet listed. */
  ghost predicate ListedOk(s: Sys) {
    && (forall tx :: tx in s.active ==> tx.id < s.nextTx)
    && (forall c :: 0 <= c < |s.clients| && s.clients[c].Constructed? ==> Unlisted(s.active, s.clients[c].tx.id))
  }

  ghost predicate Unlisted(active: seq<Tx>, id: nat) {
    forall tx :: tx in active ==> tx.id != id
  }

  lemma PushKeepsListed(s: Sys, step: Step)
    requires Inv(s) && ListedOk(s) && Next(s, step).Some? && step.Push?
    ensures ListedOk(Next(s, step).value)
  {
    var s' := Next(s, step).value;
    forall c | 0 <= c < |s'.clients| && s'.clients[c].Constructed?
      ensures Unlisted(s'.active, s'.clients[c].tx.id)
    {
      assert c != step.client && Owned(s.clients[c]) != Owned(s.clients[step.client]);
      assert Unlisted(s.active, s.clients[c].tx.id);
    }
    assert Owned(s.clients[step.client]).Some?;
  }

  lemma StepKeepsListed(s: Sys, step: Step)
    requires Inv(s) && ListedOk(s) && Next(s, step).Some?
    ensures ListedOk(Next(s, step).value)
  {
    if step.Push? {
      PushKeepsListed(s, step);
    } else if step.Start? {
      assert Unlisted(s.active, s.nextTx);
    } else if step.Acquire? {
      AcquireKeepsListed(s, step);
    } else {
      var s' := Next(s, step).value;
      assert forall tx :: tx in s'.active ==> tx in s.active;
    }
  }

  lemma AcquireKeepsListed(s: Sys, step: Step)
    requires ListedOk(s) && Next(s, step).Some? && step.Acquire?
    ensures ListedOk(Next(s, step).value)
  {
    var s', at := Next(s, step).value, Find(s.active, s.clients[step.client].id).value;
    assert s.active[at] in s.active;
    assert forall tx :: tx in s'.active ==> tx in s.active || tx.id == s.active[at].id;
  }

  lemma FindPushed(active: seq<Tx>, tx: Tx)
    requires Unlisted(active, tx.id)
    ensures Find(active + [tx], tx.id) == Some(|active|)
  {
    FindFirst(active + [tx], tx.id, |active|);
  }

  lemma OwnStepOwns(s: Sys, step: Step, c: nat, session: Session)
    requires Inv(s) && ListedOk(s) && Next(s, step).Some? && !step.Shutdown? && !step.DestroyFirst? && step.client == c
    requires c < |s.clients| && Owns(s, c, session)
    ensures c < |Next(s, step).value.clients| && Owns(Next(s, step).value, c, SessionAfter(s, step, c, session))
  {
    if step.Push? {
      FindPushed(s.active, s.clients[c].tx);
    } else if step.Acquire? {
      var at := Find(s.active, s.clients[c].id).value;
      FindUpdated(s.active, at, Next(s, step).value.active[at], s.clients[c].id);
    }
  }

  lemma OtherStepOwns(s: Sys, step: Step, c: nat, session: Session)
    requires Inv(s) && Next(s, step).Some? && !step.Shutdown? && !step.DestroyFirst? && step.client != c
    requires c < |s.clients| && Owns(s, c, session)
    ensures c < |Next(s, step).value.clients| && Owns(Next(s, step).value, c, session)
  {
    assert Next(s, step).value.clients[c] == s.clients[c];
    if s.clients[c].Open? || s.clients[c].Staging? {
      OthersKeepListed(s, step, c, s.clients[c].id);
    }
  }

  lemma ShutdownOwns(s: Sys, step: Step, c: nat, session: Session)
    requires Inv(s) && Next(s, step).Some? && (step.Shutdown? || step.DestroyFirst?) && c < |s.clients|
    ensures c < |Next(s, step).value.clients| && Owns(Next(s, step).value, c, session)
  {
    assert Next(s, step).value.clients[c].Idle?;
  }

  lemma StepOwns(s: Sys, step: Step, c: nat, session: Session)
    requires Inv(s) && ListedOk(s) && Next(s, step).Some? && c < |s.clients| && Owns(s, c, session)
    ensures c < |Next(s, step).value.clients| && Owns(Next(s, step).value, c, SessionAfter(s, step, c, session))
  {
    if step.Shutdown? || step.DestroyFirst? {
      ShutdownOwns(s, step, c, session);
    } else if step.client == c {
      OwnStepOwns(s, step, c, session);
    } else {
      OtherStepOwns(s, step, c, session);
    }
  }

  lemma ClientsStay(s: Sys, step: Step)
    requires Next(s, step).Some?
    ensures |Next(s, step).value.clients| == |s.clients|
  {
  }

  // ----- Every run -----

  ghost predicate InOrder(s: Sys, c: nat, session: Session) {
    Inv(s) && ListedOk(s) && (c < |s.clients| ==> Owns(s, c, session))
  }

  lemma StepInOrder(s: Sys, step: Step, s': Sys, c: nat, session: Session)
    requires InOrder(s, c, session) && Next(s, step) == Some(s')
    ensures InOrder(s', c, SessionAfter(s, step, c, session))
  {
    StepKeepsInv(s, step);
    StepKeepsListed(s, step);
    ClientsStay(s, step);
    if c < |s.clients| {
      StepOwns(s, step, c, session);
    }
  }

  lemma {:induction false} RunOwns(init: Sys, steps: seq<Step>, s: Sys, c: nat)
    requires Init(init) && Run(init, steps) == Some(s)
    ensures InOrder(s, c, SessionOf(init, steps, c))
  {
    if steps == [] {
      InitInv(init);
    } else {
      var n := |steps| - 1;
      RunOwns(init, steps[..n], Run(init, steps[..n]).value, c);
      StepInOrder(Run(init, steps[..n]).value, steps[n], s, c, SessionOf(init, steps[..n], c));
    }
  }

  /** What a step logs, if it is possible. */
  function Logs(s: Sys, step: Step): Option<seq<Event>> {
    var s' := Next(s, step);
    if s'.None? || |s'.value.log| < |s.log| then None else Some(s'.value.log[|s.log|..])
  }

  /** An open transaction can read, write, commit and roll back, and touches its own. */
  ghost predicate OpenTouches(s: Sys, c: nat, own: Session) {
    && own.snapshot.Some?
    && Logs(s, Read(c)) == Some([Used(SnapshotHandle(own.snapshot.value))])
    && Logs(s, Acquire(c, true)) == Some(if own.staged.None? then [Opened(TxHandle(s.nextHandle))] else [])
    && Logs(s, Acquire(c, false)) == Some([])
    && Logs(s, Commit(c)) == Logs(s, Rollback(c)) == Some([Freed(SnapshotHandle(own.snapshot.value))])
  }

  ghost predicate EndTouches(s: Sys, c: nat, own: Session)
    requires c < |s.clients|
  {
    match s.clients[c]
    case Staging(_, _) => own.staged.Some? && Logs(s, Stage(c)) == Some([Used(TxHandle(own.staged.value))])
    case Committing(_) => own.staged.Some? && Logs(s, FinishCommit(c)) == Some([Committed(TxHandle(own.staged.value))])
    case RollingBack(_) => own.staged.Some? && Logs(s, FinishRollback(c)) == Some([RolledBack(TxHandle(own.staged.value))])
    case Open(_) =>
      && Next(s, Commit(c)).Some? && Next(s, Rollback(c)).Some?
      && Next(s, Commit(c)).value.clients == s.clients[c := if own.staged.None? then Idle else Committing(own.staged.value)]
      && Next(s, Rollback(c)).value.clients == s.clients[c := if own.staged.None? then Idle else RollingBack(own.staged.value)]
    case _ => true
  }

  lemma OpenTouchesOwn(s: Sys, c: nat, own: Session)
    requires c < |s.clients| && !s.down && s.clients[c].Open? && Owns(s, c, own)
    ensures OpenTouches(s, c, own)
  {
    assert s.log + [] == s.log;
  }

  lemma EndTouchesOwn(s: Sys, c: nat, own: Session)
    requires c < |s.clients| && !s.down && Owns(s, c, own)
    ensures EndTouches(s, c, own)
  {
  }

  /** In every run, every handle a client touches is one its own transaction opened: reads
      use its snapshot, writes its staged transaction, the end frees that snapshot and
      commits or rolls back that staged transaction, if it opened one. */
  lemma TouchesOnlyItsOwn(init: Sys, steps: seq<Step>, s: Sys, c: nat)
    requires Init(init) && Run(init, steps) == Some(s) && c < |s.clients| && !s.down
    ensures s.clients[c].Open? ==> OpenTouches(s, c, SessionOf(init, steps, c))
    ensures EndTouches(s, c, SessionOf(init, steps, c))
  {
    RunOwns(init, steps, s, c);
    if s.clients[c].Open? {
      OpenTouchesOwn(s, c, SessionOf(init, steps, c));
    }
    EndTouchesOwn(s, c, SessionOf(init, steps, c));
  }
}

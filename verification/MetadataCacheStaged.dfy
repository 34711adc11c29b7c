/** What a call was asked, when it ran, and what a transaction reads once it writes,
    told by the steps of the run alone: the store as it stood when its staged
    transaction opened, with every row it has staged since, in order. */
module MetadataCacheStaged {
  import opened Values
  import opened MetadataRows
  import opened MetadataCache
  import opened MetadataCacheSafety

  // ----- What the steps say -----

  /** The head after `steps`, when `first` was the head before them. */
  function HeadAfter(first: Store, steps: seq<Step>): Store {
    if steps == [] then first
    else
      var n := |steps| - 1;
      if steps[n].StoreBatch? then steps[n].next else HeadAfter(first, steps[..n])
  }

  /** The head at the step where transaction `id` opened its staged transaction, if
      it has since it began. */
  function OpenedAt(first: Store, steps: seq<Step>, id: nat): Option<Store> {
    if steps == [] then None
    else
      var n := |steps| - 1;
      if steps[n] == Begin(id) then None
      else if steps[n] == Act(id, OpenStaged) then Some(HeadAfter(first, steps[..n]))
      else OpenedAt(first, steps[..n], id)
  }

  /** The rows `id` has staged since it opened it, in step order. */
  function StagedSince(steps: seq<Step>, id: nat): seq<StagedOp> {
    if steps == [] then []
    else
      var n := |steps| - 1;
      if steps[n] == Begin(id) || steps[n] == Act(id, OpenStaged) then []
      else if steps[n].Act? && steps[n].id == id && steps[n].action.Stage? then StagedSince(steps[..n], id) + [steps[n].action.op]
      else StagedSince(steps[..n], id)
  }

  /** How many batches have landed, which is where the head stands in the history. */
  function Batches(steps: seq<Step>): nat {
    if steps == [] then 0 else Batches(steps[..|steps| - 1]) + if steps[|steps| - 1].StoreBatch? then 1 else 0
  }

  predicate StartsCall(step: Step, id: nat) {
    step.Act? && step.id == id && (step.action.StartScan? || step.action.StartDml? || step.action.StartPin?)
  }

  /** The step that started the latest call of `id`. */
  function CalledAt(steps: seq<Step>, id: nat): (n: nat)
    ensures n <= |steps|
  {
    if steps == [] then 0
    else if StartsCall(steps[|steps| - 1], id) then |steps| - 1
    else CalledAt(steps[..|steps| - 1], id)
  }

  /** The table of the latest UPDATE or DELETE of `id`. */
  function DmlTable(steps: seq<Step>, id: nat): Option<Table> {
    if steps == [] then None
    else
      var n := |steps| - 1;
      if steps[n].Act? && steps[n].id == id && steps[n].action.StartDml? then Some(steps[n].action.table)
      else DmlTable(steps[..n], id)
  }

  /** The table the latest call of `id` asked for; a sink's pin asks for its
      statement's. */
  function AskedTable(steps: seq<Step>, id: nat): Option<Table> {
    if steps == [] then None
    else
      var n := |steps| - 1;
      if !StartsCall(steps[n], id) then AskedTable(steps[..n], id)
      else if steps[n].action.StartPin? then DmlTable(steps[..n], id)
      else Some(steps[n].action.table)
  }

  /** An answer over a staged transaction opened at `base` with `ops` staged: the
      overlay of its table's kind, `ducklake_metadata` below the facts of heads of
      the call, and the registry from a head of the call. */
  ghost predicate Shows(env: Env, h: seq<Store>, e: Served, base: Store, ops: seq<StagedOp>) {
    && e.lo <= e.hi < |h|
    && match e.table
       case Dumped(kind) => e.rows == env.overlay(kind, base, ops)
       case Options => exists a, b :: e.lo <= a <= b <= e.hi && ShowsOptions(e.rows, h[a], h[b], env.overlay(25, base, ops))
       case Registry => exists a :: e.lo <= a <= e.hi && e.rows == h[a].registry
       case Empty => e.rows == []
  }

  predicate ShowsOptions(rows: Rows, flags: Store, paths: Store, stored: Rows) {
    rows == Merged(FixedRows(flags.encrypted, paths.dataPath), stored)
  }

  // ----- The state keeps what the steps say -----

  ghost predicate StagedAs(first: Store, steps: seq<Step>, s: Sys) {
    && s.history != [] && Head(s.history) == HeadAfter(first, steps)
    && forall id :: id in s.txs ==> s.txs[id].staged == StagedBy(first, steps, id)
  }

  function StagedBy(first: Store, steps: seq<Step>, id: nat): Option<StagedTx> {
    match OpenedAt(first, steps, id)
    case None => None
    case Some(base) => Some(StagedTx(base, StagedSince(steps, id)))
  }

  lemma ActionStages(env: Env, h: seq<Store>, held: map<Table, Held>, tx: Tx, action: Action)
    requires h != [] && TxNext(env, h, held, tx, action).Some?
    ensures var after := TxNext(env, h, held, tx, action).value.tx.staged;
            match action
            case OpenStaged => tx.staged.None? && after == Some(StagedTx(h[|h| - 1], []))
            case Stage(op) => tx.staged.Some? && after == Some(StagedTx(tx.staged.value.readPoint, tx.staged.value.ops + [op]))
            case _ => after == tx.staged
  {
  }

  lemma StepStages(env: Env, first: Store, steps: seq<Step>, before: Sys, s: Sys, id: nat)
    requires steps != [] && StagedAs(first, steps[..|steps| - 1], before)
    requires Next(env, before, steps[|steps| - 1]) == Some(s) && id in s.txs
    ensures s.txs[id].staged == StagedBy(first, steps, id)
  {
    var step := steps[|steps| - 1];
    if step.Act? && step.id == id {
      ActionStages(env, before.history, before.held, before.txs[id], step.action);
    }
  }

  lemma {:induction false} RunStages(env: Env, init: Sys, steps: seq<Step>, s: Sys)
    requires Init(init) && Run(env, init, steps) == Some(s)
    ensures StagedAs(init.history[0], steps, s)
  {
    if steps != [] {
      var n := |steps| - 1;
      var before := Run(env, init, steps[..n]).value;
      RunStages(env, init, steps[..n], before);
      forall id | id in s.txs
        ensures s.txs[id].staged == StagedBy(init.history[0], steps, id)
      {
        StepStages(env, init.history[0], steps, before, s, id);
      }
    }
  }

  ghost predicate CallAs(steps: seq<Step>, id: nat, tx: Tx) {
    && (!tx.dml.NoDml? ==> DmlTable(steps, id) == Some(tx.dml.target))
    && (tx.read.Some? ==> IsCall(steps, id, tx.read.value.table, tx.read.value.lo))
  }

  /** The latest call of `id` asked for `t` when `lo` batches had landed. */
  ghost predicate IsCall(steps: seq<Step>, id: nat, t: Table, lo: nat) {
    AskedTable(steps, id) == Some(t) && lo == Batches(steps[..CalledAt(steps, id)])
  }

  ghost predicate CallsAs(steps: seq<Step>, s: Sys) {
    |s.history| == Batches(steps) + 1 && forall id :: id in s.txs ==> CallAs(steps, id, s.txs[id])
  }

  /** What an action makes of the statement's table and of the call. */
  lemma ActionCalls(env: Env, h: seq<Store>, held: map<Table, Held>, tx: Tx, action: Action)
    requires h != [] && TxNext(env, h, held, tx, action).Some?
    ensures var tx' := TxNext(env, h, held, tx, action).value.tx;
            if action.StartDml? then !tx'.dml.NoDml? && tx'.dml.target == action.table
            else tx'.dml.NoDml? || (!tx.dml.NoDml? && tx'.dml.target == tx.dml.target)
    ensures var tx' := TxNext(env, h, held, tx, action).value.tx;
            var starts := action.StartScan? || action.StartDml? || action.StartPin?;
            && (action.StartPin? ==> !tx.dml.NoDml?)
            && (tx'.read.Some? && !starts ==>
                  tx.read.Some? && tx'.read.value.table == tx.read.value.table && tx'.read.value.lo == tx.read.value.lo)
            && (tx'.read.Some? && starts ==>
                  && tx'.read.value.lo == |h| - 1
                  && tx'.read.value.table == if action.StartPin? then tx.dml.target else action.table)
  {
  }

  lemma StepCalls(env: Env, steps: seq<Step>, before: Sys, s: Sys, id: nat)
    requires steps != [] && CallsAs(steps[..|steps| - 1], before) && Next(env, before, steps[|steps| - 1]) == Some(s)
    requires id in s.txs
    ensures CallAs(steps, id, s.txs[id])
  {
    var n := |steps| - 1;
    var c := CalledAt(steps[..n], id);
    assert steps[..n][..c] == steps[..c];
    if steps[n].Act? && steps[n].id == id {
      ActionCalls(env, before.history, before.held, before.txs[id], steps[n].action);
    }
  }

  lemma {:induction false} RunCalls(env: Env, init: Sys, steps: seq<Step>, s: Sys)
    requires Init(init) && Run(env, init, steps) == Some(s)
    ensures CallsAs(steps, s)
  {
    if steps != [] {
      var n := |steps| - 1;
      var before := Run(env, init, steps[..n]).value;
      RunCalls(env, init, steps[..n], before);
      forall id | id in s.txs
        ensures CallAs(steps, id, s.txs[id])
      {
        StepCalls(env, steps, before, s, id);
      }
    }
  }

  /** An answer is the call's: its table and the span it ran over. */
  lemma AnswerIsTheCalls(env: Env, h: seq<Store>, held: map<Table, Held>, tx: Tx, action: Action)
    requires h != [] && TxNext(env, h, held, tx, action).Some?
    requires TxNext(env, h, held, tx, action).value.tx.served != tx.served
    ensures var served := TxNext(env, h, held, tx, action).value.tx.served;
            var starts := action.StartScan? || action.StartDml? || action.StartPin?;
            && |served| == |tx.served| + 1 && served[|tx.served|].hi == |h| - 1
            && (!starts ==> tx.read.Some? && served[|tx.served|].table == tx.read.value.table && served[|tx.served|].lo == tx.read.value.lo)
            && (starts ==> && (action.StartPin? ==> !tx.dml.NoDml?)
                           && served[|tx.served|].lo == |h| - 1
                           && served[|tx.served|].table == if action.StartPin? then tx.dml.target else action.table)
  {
  }

  lemma AnswerSpans(env: Env, steps: seq<Step>, before: Sys, s: Sys, id: nat)
    requires steps != [] && CallsAs(steps[..|steps| - 1], before) && Next(env, before, steps[|steps| - 1]) == Some(s)
    requires id in before.txs && id in s.txs && steps[|steps| - 1].Act? && steps[|steps| - 1].id == id
    requires |s.txs[id].served| == |before.txs[id].served| + 1
    ensures var e := s.txs[id].served[|before.txs[id].served|];
            IsCall(steps, id, e.table, e.lo) && e.hi == Batches(steps[..|steps| - 1])
  {
    var n := |steps| - 1;
    var c := CalledAt(steps[..n], id);
    assert steps[..n][..c] == steps[..c];
    AnswerIsTheCalls(env, before.history, before.held, before.txs[id], steps[n].action);
  }

  // ----- One answer -----

  lemma StagedListShows(env: Env, h: seq<Store>, staged: StagedTx, e: Served, at: seq<nat>)
    requires e.lo <= e.hi < |h| && |at| == FetchCount(e.table) && Within(at, e.lo, e.hi)
    requires e.rows == StagedAcross(env, staged, h, e.table, at)
    ensures Shows(env, h, e, staged.readPoint, staged.ops)
  {
    if e.table.Options? {
      assert ShowsOptions(e.rows, h[at[0]], h[at[1]], env.overlay(25, staged.readPoint, staged.ops));
    } else if e.table.Registry? {
      assert e.rows == h[at[0]].registry;
    }
  }

  /** The one action that answers inside a staged transaction. */
  lemma OnlyFinishAnswers(env: Env, h: seq<Store>, held: map<Table, Held>, tx: Tx, action: Action)
    requires HistoryOk(h) && TxOk(env, h, tx) && tx.staged.Some? && TxNext(env, h, held, tx, action).Some?
    requires TxNext(env, h, held, tx, action).value.tx.served != tx.served
    ensures action.FinishFetch? && tx.read.Some? && |tx.read.value.pieces| == FetchCount(tx.read.value.table)
    ensures var r := tx.read.value;
            TxNext(env, h, held, tx, action).value.tx.served ==
            tx.served + [Served(r.table, Assemble(r.table, r.pieces), FromStaged, r.lo, |h| - 1)]
  {
  }

  lemma AnswerShows(env: Env, h: seq<Store>, held: map<Table, Held>, tx: Tx, action: Action)
    requires HistoryOk(h) && TxOk(env, h, tx) && tx.staged.Some? && TxNext(env, h, held, tx, action).Some?
    requires TxNext(env, h, held, tx, action).value.tx.served != tx.served
    ensures var served := TxNext(env, h, held, tx, action).value.tx.served;
            && |served| == |tx.served| + 1 && served[..|tx.served|] == tx.served && served[|tx.served|].how.FromStaged?
            && Shows(env, h, served[|tx.served|], tx.staged.value.readPoint, tx.staged.value.ops)
  {
    OnlyFinishAnswers(env, h, held, tx, action);
    var r := tx.read.value;
    PiecesAcross(env, h, tx.staged, r);
    StagedListShows(env, h, tx.staged.value, Served(r.table, Assemble(r.table, r.pieces), FromStaged, r.lo, |h| - 1), r.at);
  }

  lemma ShowsGrows(env: Env, h: seq<Store>, h': seq<Store>, e: Served, base: Store, ops: seq<StagedOp>)
    requires Shows(env, h, e, base, ops) && h <= h'
    ensures Shows(env, h', e, base, ops)
  {
    if e.table.Options? {
      var a, b :| e.lo <= a <= b <= e.hi && ShowsOptions(e.rows, h[a], h[b], env.overlay(25, base, ops));
      assert h'[a] == h[a] && h'[b] == h[b];
    } else if e.table.Registry? {
      var a :| e.lo <= a <= e.hi && e.rows == h[a].registry;
      assert h'[a] == h[a];
    }
  }

  /** One action gives at most one answer and takes none back. */
  lemma ActionAnswersOnce(env: Env, h: seq<Store>, held: map<Table, Held>, tx: Tx, action: Action)
    requires h != [] && TxNext(env, h, held, tx, action).Some?
    ensures var served := TxNext(env, h, held, tx, action).value.tx.served;
            tx.served <= served && |served| <= |tx.served| + 1
  {
  }

  lemma ReaderAnswers(env: Env, h: seq<Store>, held: map<Table, Held>, tx: Tx, action: Action)
    requires h != [] && TxNext(env, h, held, tx, action).Some? && tx.staged.None?
    ensures var served := TxNext(env, h, held, tx, action).value.tx.served;
            |served| == |tx.served| + 1 ==> !served[|tx.served|].how.FromStaged?
  {
  }

  lemma StepKeepsAnswers(env: Env, s: Sys, step: Step, s': Sys, id: nat)
    requires Next(env, s, step) == Some(s') && id in s.txs && id in s'.txs && step != Begin(id)
    ensures s.history <= s'.history && s.txs[id].served <= s'.txs[id].served
  {
    if step.Act? && step.id == id {
      ActionAnswersOnce(env, s.history, s.held, s.txs[id], step.action);
    }
  }

  /** A step after which `id` has an answer it had not before. */
  lemma StepAnswersOnce(env: Env, s: Sys, step: Step, s': Sys, id: nat)
    requires Inv(env, s) && Next(env, s, step) == Some(s') && id in s'.txs
    requires |s'.txs[id].served| > if id in s.txs && step != Begin(id) then |s.txs[id].served| else 0
    ensures step.Act? && step.id == id && id in s.txs && s'.history == s.history
    ensures var tx, k := s.txs[id], |s.txs[id].served|;
            && |s'.txs[id].served| == k + 1
            && (s'.txs[id].served[k].how.FromStaged? <==> tx.staged.Some?)
            && (tx.staged.Some? ==> Shows(env, s.history, s'.txs[id].served[k], tx.staged.value.readPoint, tx.staged.value.ops))
  {
    var tx := s.txs[id];
    ActionAnswersOnce(env, s.history, s.held, tx, step.action);
    if tx.staged.Some? {
      AnswerShows(env, s.history, s.held, tx, step.action);
    } else {
      ReaderAnswers(env, s.history, s.held, tx, step.action);
    }
  }

  // ----- Every answer of every run -----

  /** Step `n` of the run gave transaction `id` its answer number `k`, and `id` has not
      begun again since. */
  ghost predicate GivenAt(env: Env, init: Sys, steps: seq<Step>, id: nat, k: nat, n: nat) {
    && n < |steps| && (forall m :: n < m < |steps| ==> steps[m] != Begin(id))
    && steps[n].Act? && steps[n].id == id
    && (var before, after := Run(env, init, steps[..n]), Run(env, init, steps[..n + 1]);
        && before.Some? && id in before.value.txs && |before.value.txs[id].served| == k
        && after.Some? && id in after.value.txs && |after.value.txs[id].served| == k + 1)
  }

  /** What the steps up to step `n`, which gave it, make of answer `e`: the table it was
      asked for, the span of history its call ran over, and what it shows. */
  ghost predicate DecidedBy(env: Env, first: Store, steps: seq<Step>, h: seq<Store>, id: nat, e: Served, n: nat)
    requires n < |steps|
  {
    var base := OpenedAt(first, steps[..n], id);
    && IsCall(steps[..n + 1], id, e.table, e.lo) && e.hi == Batches(steps[..n])
    && (e.how.FromStaged? <==> base.Some?)
    && (base.Some? ==> Shows(env, h, e, base.value, StagedSince(steps[..n], id)))
  }

  /** An earlier answer, one step on. */
  lemma AnswerStays(env: Env, init: Sys, steps: seq<Step>, before: Sys, s: Sys, id: nat, k: nat, n: nat)
    requires Init(init) && steps != [] && id in before.txs && id in s.txs && k < |before.txs[id].served|
    requires n < |steps| - 1
    requires before.history <= s.history && before.txs[id].served <= s.txs[id].served
    requires var last := |steps| - 1;
             && steps[last] != Begin(id) && GivenAt(env, init, steps[..last], id, k, n)
             && DecidedBy(env, init.history[0], steps[..last], before.history, id, before.txs[id].served[k], n)
    ensures GivenAt(env, init, steps, id, k, n)
    ensures DecidedBy(env, init.history[0], steps, s.history, id, s.txs[id].served[k], n)
  {
    var last := |steps| - 1;
    assert steps[..last][..n] == steps[..n] && steps[..last][..n + 1] == steps[..n + 1];
    assert forall m :: n < m < last ==> steps[m] == steps[..last][m];
    var base := OpenedAt(init.history[0], steps[..n], id);
    if base.Some? {
      ShowsGrows(env, before.history, s.history, before.txs[id].served[k], base.value, StagedSince(steps[..n], id));
    }
  }

  /** The answer of the last step. */
  lemma AnswerGiven(env: Env, init: Sys, steps: seq<Step>, before: Sys, s: Sys, id: nat, k: nat)
    requires Init(init) && steps != [] && Run(env, init, steps[..|steps| - 1]) == Some(before)
    requires Next(env, before, steps[|steps| - 1]) == Some(s) && Run(env, init, steps) == Some(s)
    requires id in s.txs && k < |s.txs[id].served|
    requires id in before.txs && steps[|steps| - 1] != Begin(id) ==> k >= |before.txs[id].served|
    ensures GivenAt(env, init, steps, id, k, |steps| - 1)
    ensures DecidedBy(env, init.history[0], steps, s.history, id, s.txs[id].served[k], |steps| - 1)
  {
    var last := |steps| - 1;
    RunKeepsInv(env, init, steps[..last]);
    RunStages(env, init, steps[..last], before);
    RunCalls(env, init, steps[..last], before);
    StepAnswersOnce(env, before, steps[last], s, id);
    AnswerSpans(env, steps, before, s, id);
    assert steps[..last + 1] == steps;
  }

  /** In every run, every answer was given at some step, and the steps up to it decide
      it: it is of the table its call asked for, and its span of history is from the
      head when the call started to the head when it was given; it is the staged
      transaction's if and only if one had been opened, and then it shows the head it
      opened at with exactly the rows staged since. */
  lemma {:induction false} WriterReadsItsRows(env: Env, init: Sys, steps: seq<Step>, s: Sys, id: nat, k: nat)
      returns (n: nat)
    requires Init(init) && Run(env, init, steps) == Some(s)
    requires id in s.txs && k < |s.txs[id].served|
    ensures GivenAt(env, init, steps, id, k, n)
    ensures DecidedBy(env, init.history[0], steps, s.history, id, s.txs[id].served[k], n)
  {
    var last := |steps| - 1;
    var before := Run(env, init, steps[..last]).value;
    if id in before.txs && k < |before.txs[id].served| && steps[last] != Begin(id) {
      n := WriterReadsItsRows(env, init, steps[..last], before, id, k);
      StepKeepsAnswers(env, before, steps[last], s, id);
      AnswerStays(env, init, steps, before, s, id, k, n);
    } else {
      n := last;
      AnswerGiven(env, init, steps, before, s, id, k);
    }
  }

  // ----- What fills the cache -----

  /** Whether the stamp read of `id`'s latest call succeeded, if it made one. */
  function StampOk(steps: seq<Step>, id: nat): bool {
    if steps == [] then false
    else
      var n := |steps| - 1;
      if StartsCall(steps[n], id) then false
      else if steps[n].Act? && steps[n].id == id && steps[n].action.ReadStamp? then steps[n].action.ok
      else StampOk(steps[..n], id)
  }

  function RecheckOk(steps: seq<Step>, id: nat): bool {
    if steps == [] then false
    else
      var n := |steps| - 1;
      if StartsCall(steps[n], id) then false
      else if steps[n].Act? && steps[n].id == id && steps[n].action.Recheck? then steps[n].action.ok
      else RecheckOk(steps[..n], id)
  }

  ghost predicate StampsAs(steps: seq<Step>, s: Sys) {
    forall id :: id in s.txs && s.txs[id].read.Some? ==>
      && (s.txs[id].read.value.before.Some? ==> StampOk(steps, id))
      && (s.txs[id].read.value.phase.Holding? ==> RecheckOk(steps, id))
  }

  lemma ActionStamps(env: Env, h: seq<Store>, held: map<Table, Held>, tx: Tx, action: Action)
    requires h != [] && TxNext(env, h, held, tx, action).Some? && TxNext(env, h, held, tx, action).value.tx.read.Some?
    requires tx.read.Some? && tx.read.value.phase.Stamping? ==> tx.read.value.before.None?
    ensures var r := TxNext(env, h, held, tx, action).value.tx.read.value;
            if action.StartScan? || action.StartDml? || action.StartPin? then r.before.None? && !r.phase.Holding?
            else
              && tx.read.Some?
              && (r.before.Some? ==> if action.ReadStamp? then action.ok else tx.read.value.before.Some?)
              && (r.phase.Holding? ==> if action.Recheck? then action.ok else tx.read.value.phase.Holding?)
  {
  }

  lemma {:induction false} RunStamps(env: Env, init: Sys, steps: seq<Step>, s: Sys)
    requires Init(init) && Run(env, init, steps) == Some(s)
    ensures StampsAs(steps, s)
  {
    if steps != [] {
      var n := |steps| - 1;
      var before := Run(env, init, steps[..n]).value;
      RunStamps(env, init, steps[..n], before);
      if steps[n].Act? && s.txs[steps[n].id].read.Some? {
        RunKeepsInv(env, init, steps[..n]);
        assert TxOk(env, before.history, before.txs[steps[n].id]);
        ActionStamps(env, before.history, before.held, before.txs[steps[n].id], steps[n].action);
      }
    }
  }

  lemma OnlyHoldFills(env: Env, h: seq<Store>, held: map<Table, Held>, tx: Tx, action: Action)
    requires h != [] && TxNext(env, h, held, tx, action).Some? && TxNext(env, h, held, tx, action).value.held != held
    ensures action.Hold? && tx.read.Some? && tx.read.value.phase.Holding? && tx.read.value.before.Some?
    ensures var r := tx.read.value;
            TxNext(env, h, held, tx, action).value.held == held[r.table := Held(r.before.value, r.rows, r.stampAt)]
  {
  }

  /** In every run the cache changes only where a call holds what it dumped: one entry, of
      the table that call asked for, and only if both its stamp reads succeeded. */
  lemma FilledOnlyBetweenStamps(env: Env, init: Sys, steps: seq<Step>, s: Sys, step: Step, s': Sys)
    requires Init(init) && Run(env, init, steps) == Some(s) && Next(env, s, step) == Some(s') && s'.held != s.held
    ensures step.Act? && step.action.Hold? && StampOk(steps, step.id) && RecheckOk(steps, step.id)
    ensures AskedTable(steps, step.id).Some?
    ensures var t := AskedTable(steps, step.id).value; t in s'.held && s'.held == s.held[t := s'.held[t]]
  {
    RunStamps(env, init, steps, s);
    RunCalls(env, init, steps, s);
    OnlyHoldFills(env, s.history, s.held, s.txs[step.id], step.action);
    assert CallAs(steps, step.id, s.txs[step.id]);
  }
}

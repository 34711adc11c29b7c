/** The main results about the metadata-row cache, over every run, and the runs
    that show where each of them stops. */
module MetadataCacheTheorems {
  import opened Values
  import opened MetadataRows
  import opened MetadataCache
  import opened MetadataCacheSafety

  // ----- The cache agrees with the store -----

  /** What state `store` has of table `t`. */
  predicate Stands(t: Table, store: Store, rows: Rows) {
    match t
    case Dumped(kind) => rows == if kind in store.dumps then store.dumps[kind] else []
    case Options => rows == Merged(FixedRows(store.encrypted, store.dataPath), store.options)
    case Registry => rows == store.registry
    case Empty => rows == []
  }

  /** In every run, whatever the interleaving, a cache entry under a settled
      stamp holds exactly the dump of its table at the state carrying that
      stamp: the state exists, and every state with that stamp agrees. */
  lemma HeldRowsStandAtTheirStamp(env: Env, init: Sys, steps: seq<Step>, s: Sys, t: Table)
    requires Init(init) && Run(env, init, steps) == Some(s)
    requires t in s.held && Settled(s.held[t].stamp)
    ensures exists j :: 0 <= j < |s.history| && s.history[j].stamp == s.held[t].stamp
    ensures forall j :: 0 <= j < |s.history| && s.history[j].stamp == s.held[t].stamp ==>
              s.held[t].rows == CommittedDump(t, s.history[j]) && Stands(t, s.history[j], s.held[t].rows)
  {
    RunKeepsInv(env, init, steps);
    var e := s.held[t];
    assert EntryOk(s.history, t, e);
    forall j | 0 <= j < |s.history| && s.history[j].stamp == e.stamp
      ensures e.rows == CommittedDump(t, s.history[j]) && Stands(t, s.history[j], e.rows)
    {
      SettledStampIsUnique(s.history, e.at, j);
    }
  }

  /** Two states of a run share a stamp only at the count's saturation point,
      and only if no snapshot was minted between them. */
  lemma SharedStampMeansSaturation(env: Env, init: Sys, steps: seq<Step>, s: Sys, i: nat, j: nat)
    requires Init(init) && Run(env, init, steps) == Some(s) && i < j < |s.history|
    ensures s.history[i].stamp == s.history[j].stamp <==>
            s.history[i].stamp.batchSeq == U64_MAX && s.history[i].stamp.snapshotId == s.history[j].stamp.snapshotId
  {
    RunKeepsInv(env, init, steps);
    assert Earlier(s.history[i].stamp, s.history[j].stamp);
  }

  /** Over all runs, whatever is held under `stamp` equals the dump of every state
      carrying it. */
  ghost predicate HeldAgrees(stamp: Stamp) {
    forall env, init, steps, t, j: nat ::
      Init(init) && Run(env, init, steps).Some? && t in Run(env, init, steps).value.held
      && Run(env, init, steps).value.held[t].stamp == stamp
      && j < |Run(env, init, steps).value.history| && Run(env, init, steps).value.history[j].stamp == stamp ==>
        Run(env, init, steps).value.held[t].rows == CommittedDump(t, Run(env, init, steps).value.history[j])
  }

  /** The cache agrees with the store under a stamp, in every run, exactly when the
      stamp's batch count is below saturation. */
  lemma HeldAgreesIff(stamp: Stamp)
    requires stamp.batchSeq <= U64_MAX
    ensures HeldAgrees(stamp) <==> stamp.batchSeq < U64_MAX
  {
    if Settled(stamp) {
      forall env, init, steps, t, j: nat |
        Init(init) && Run(env, init, steps).Some? && t in Run(env, init, steps).value.held
        && Run(env, init, steps).value.held[t].stamp == stamp
        && j < |Run(env, init, steps).value.history| && Run(env, init, steps).value.history[j].stamp == stamp
        ensures Run(env, init, steps).value.held[t].rows == CommittedDump(t, Run(env, init, steps).value.history[j])
      {
        HeldRowsStandAtTheirStamp(env, init, steps, Run(env, init, steps).value, t);
      }
    } else {
      var env, init, steps, s := SaturatedStampServesStaleRows(stamp.snapshotId);
      assert Run(env, init, steps).value.held[Dumped(0)].stamp == stamp;
      assert Run(env, init, steps).value.history[1].stamp == stamp;
    }
  }

  // ----- What a reader is served -----

  /** A read of a single-fetch table that went outside the transaction, hit or
      miss, returns the dump of a state that was head during the call. A hit
      needs the stamp it matched to be below saturation; a miss needs nothing. */
  lemma FirstReadIsAHeadDuringTheCall(env: Env, init: Sys, steps: seq<Step>, s: Sys, id: nat, k: nat)
    requires Init(init) && Run(env, init, steps) == Some(s)
    requires id in s.txs && k < |s.txs[id].served|
    requires var e := s.txs[id].served[k];
             && FetchCount(e.table) == 1
             && (|| e.how.FromDump?
                 || (e.how.FromHeld? && e.how.stateAt < |s.history| && Settled(s.history[e.how.stateAt].stamp)))
    ensures var e := s.txs[id].served[k];
            exists j :: e.lo <= j <= e.hi < |s.history| && Stands(e.table, s.history[j], e.rows)
  {
    RunKeepsInv(env, init, steps);
    assert TxOk(env, s.history, s.txs[id]);
    var e := s.txs[id].served[k];
    assert ServedOk(s.history, e);
    match e.how
    case FromDump(at) =>
      AssembledFromOneState(s.history, e.table, at, at[0]);
      assert Stands(e.table, s.history[at[0]], e.rows);
    case FromHeld(a) =>
      assert Stands(e.table, s.history[a], e.rows);
  }

  /** A provider of several reads returns what its reads, in order, found at
      states that were head during the call; when the stamp did not move it is
      one state's dump. */
  lemma DumpReadsStatesInOrder(env: Env, init: Sys, steps: seq<Step>, s: Sys, id: nat, k: nat)
    requires Init(init) && Run(env, init, steps) == Some(s)
    requires id in s.txs && k < |s.txs[id].served| && s.txs[id].served[k].how.FromDump?
    ensures var e := s.txs[id].served[k];
            && |e.how.readsAt| == FetchCount(e.table)
            && e.lo <= e.hi < |s.history|
            && Within(e.how.readsAt, e.lo, e.hi)
            && e.rows == DumpAcross(s.history, e.table, e.how.readsAt)
            && (s.history[e.lo].stamp == s.history[e.hi].stamp && Settled(s.history[e.lo].stamp) ==>
                  e.rows == CommittedDump(e.table, s.history[e.lo]))
  {
    RunKeepsInv(env, init, steps);
    assert TxOk(env, s.history, s.txs[id]);
    var e := s.txs[id].served[k];
    assert ServedOk(s.history, e);
    if s.history[e.lo].stamp == s.history[e.hi].stamp && Settled(s.history[e.lo].stamp) {
      UnmovedStampMeansOneState(s.history, e.table, e.how.readsAt, e.lo, e.hi);
    }
  }

  /** When a list of `ducklake_metadata` assembled from three reads is one state's:
      exactly when that state serves the first read's encryption flag, the second's
      data root and the third's user settings alike. */
  lemma OptionsDumpIff(env: Env, init: Sys, steps: seq<Step>, s: Sys, id: nat, k: nat, j: nat)
    requires Init(init) && Run(env, init, steps) == Some(s)
    requires id in s.txs && k < |s.txs[id].served| && j < |s.history|
    requires s.txs[id].served[k].how.FromDump? && s.txs[id].served[k].table.Options?
    ensures var e, h := s.txs[id].served[k], s.history;
            var at := e.how.readsAt;
            && |at| == 3 && Within(at, e.lo, e.hi) && e.lo <= e.hi < |h|
            && e.rows == Merged(FixedRows(h[at[0]].encrypted, h[at[1]].dataPath), h[at[2]].options)
            && (e.rows == CommittedDump(Options, h[j]) <==>
                && h[j].encrypted == h[at[0]].encrypted
                && ServedPathOf(h[j].dataPath) == ServedPathOf(h[at[1]].dataPath)
                && UserSettings(h[j].options) == UserSettings(h[at[2]].options))
  {
    DumpReadsStatesInOrder(env, init, steps, s, id, k);
    var e, h := s.txs[id].served[k], s.history;
    var at := e.how.readsAt;
    assert e.rows == Merged(FixedRows(h[at[0]].encrypted, h[at[1]].dataPath), h[at[2]].options);
    assert CommittedDump(Options, h[j]) == Merged(FixedRows(h[j].encrypted, h[j].dataPath), h[j].options);
    SameListIff(h[at[0]].encrypted, h[at[1]].dataPath, h[at[2]].options, h[j].encrypted, h[j].dataPath, h[j].options);
  }

  /** `e` is the dump of a state that was head during the call. */
  ghost predicate IsAHeadsDump(h: seq<Store>, e: Served) {
    exists j :: e.lo <= j <= e.hi < |h| && e.rows == CommittedDump(e.table, h[j])
  }

  /** Over all runs, every dump of `t` is some head's. */
  ghost predicate DumpsAreHeads(t: Table) {
    forall env, init, steps, id, k: nat ::
      Init(init) && Run(env, init, steps).Some? && id in Run(env, init, steps).value.txs
      && k < |Run(env, init, steps).value.txs[id].served| ==>
        var s := Run(env, init, steps).value;
        var e := s.txs[id].served[k];
        e.table == t && e.how.FromDump? ==> IsAHeadsDump(s.history, e)
  }

  /** Every dump is one head's dump, in every run, exactly for the tables whose
      provider makes at most one read. */
  lemma DumpsAreHeadsIff(t: Table)
    ensures DumpsAreHeads(t) <==> FetchCount(t) <= 1
  {
    if FetchCount(t) <= 1 {
      forall env, init, steps, id, k: nat |
        Init(init) && Run(env, init, steps).Some? && id in Run(env, init, steps).value.txs
        && k < |Run(env, init, steps).value.txs[id].served|
        ensures var s := Run(env, init, steps).value;
                var e := s.txs[id].served[k];
                e.table == t && e.how.FromDump? ==> IsAHeadsDump(s.history, e)
      {
        var s := Run(env, init, steps).value;
        if s.txs[id].served[k].table == t && s.txs[id].served[k].how.FromDump? {
          OneReadIsAHeads(env, init, steps, s, id, k);
        }
      }
    } else {
      var env, init, steps, s := OptionsReadStraddles();
      assert !IsAHeadsDump(Run(env, init, steps).value.history, Run(env, init, steps).value.txs[0].served[0]);
    }
  }

  lemma OneReadIsAHeads(env: Env, init: Sys, steps: seq<Step>, s: Sys, id: nat, k: nat)
    requires Init(init) && Run(env, init, steps) == Some(s) && id in s.txs && k < |s.txs[id].served|
    requires s.txs[id].served[k].how.FromDump? && FetchCount(s.txs[id].served[k].table) <= 1
    ensures IsAHeadsDump(s.history, s.txs[id].served[k])
  {
    var e := s.txs[id].served[k];
    DumpReadsStatesInOrder(env, init, steps, s, id, k);
    if FetchCount(e.table) == 1 {
      FirstReadIsAHeadDuringTheCall(env, init, steps, s, id, k);
    } else {
      assert e.rows == CommittedDump(e.table, s.history[e.lo]);
    }
  }

  /** Until it becomes a writer a transaction is served one list per table,
      whatever commits land: every reader-side answer is the list some read
      before or at it took from outside. */
  lemma LaterReadsRepeatTheFirst(env: Env, init: Sys, steps: seq<Step>, s: Sys, id: nat, k: nat)
    requires Init(init) && Run(env, init, steps) == Some(s)
    requires id in s.txs && k < |s.txs[id].served| && AsReader(s.txs[id].served[k])
    ensures var served := s.txs[id].served;
            && (forall i :: 0 <= i < |served| && AsReader(served[i]) && served[i].table == served[k].table ==>
                  served[i].rows == served[k].rows)
            && TakenBefore(served, served[k].table, k + 1)
  {
    RunKeepsInv(env, init, steps);
    var tx := s.txs[id];
    assert TxOk(env, s.history, tx);
    forall i | 0 <= i < |tx.served| && AsReader(tx.served[i]) && tx.served[i].table == tx.served[k].table
      ensures tx.served[i].rows == tx.served[k].rows
    {
      assert Agree(tx.served[i], tx.served[k]);
    }
    if tx.served[k].how.FromPin? {
      var i :| 0 <= i < k && Took(tx.served[i], tx.served[k].table);
    } else {
      assert Took(tx.served[k], tx.served[k].table);
    }
  }

  // ----- Rowids -----

  /** The sink of every statement resolves rowid `i` to row `i` of the list its
      scan emitted, and refuses NULL and everything else: for every table when the scan bound before the staged
      transaction opened, this statement opening it or not, and for every table
      with a staged dump of its own when it bound after. */
  lemma RowidsResolve(env: Env, init: Sys, steps: seq<Step>, s: Sys, id: nat, rowid: Cell)
    requires Init(init) && Run(env, init, steps) == Some(s)
    requires id in s.txs && s.txs[id].dml.Sinking?
    requires var d := s.txs[id].dml; !d.staged || d.target.Dumped? || d.target.Empty?
    ensures var d := s.txs[id].dml;
            ResolveRow(d.pinned, rowid) ==
            if rowid.Null? then Err(NullRowid)
            else if rowid.Num? && 0 <= rowid.n < |d.scanned| then Ok(d.scanned[rowid.n])
            else Err(RowidOutOfRange)
  {
    RunKeepsInv(env, init, steps);
    assert TxOk(env, s.history, s.txs[id]);
  }

  /** `ducklake_metadata` inside an open staged transaction takes its fixed rows
      from the committed head: the sink's list is the scan's exactly when the
      facts it re-read are served as they were. */
  lemma OptionsRowidsResolveIff(env: Env, init: Sys, steps: seq<Step>, s: Sys, id: nat)
    requires Init(init) && Run(env, init, steps) == Some(s)
    requires id in s.txs && s.txs[id].dml.Sinking? && s.txs[id].dml.staged && s.txs[id].dml.target.Options?
    ensures var d := s.txs[id].dml;
            && |d.scanAt| == |d.pinAt| == 3
            && Within(d.scanAt, 0, |s.history| - 1) && Within(d.pinAt, 0, |s.history| - 1)
            && (d.pinned == d.scanned <==> SameFacts(s.history, d.scanAt, d.pinAt))
  {
    RunKeepsInv(env, init, steps);
    assert TxOk(env, s.history, s.txs[id]);
  }

  /** Over all runs, the sink's list of `t` is the one its scan emitted. */
  ghost predicate AlwaysResolves(t: Table) {
    forall env, init, steps, id ::
      Init(init) && Run(env, init, steps).Some? && id in Run(env, init, steps).value.txs ==>
        var d := Run(env, init, steps).value.txs[id].dml;
        d.Sinking? && d.target == t ==> d.pinned == d.scanned
  }

  /** Rowids are safe in every run exactly for the tables whose staged dump
      answers alone. */
  lemma AlwaysResolvesIff(t: Table)
    ensures AlwaysResolves(t) <==> t.Dumped? || t.Empty?
  {
    if t.Dumped? || t.Empty? {
      forall env, init, steps, id |
        Init(init) && Run(env, init, steps).Some? && id in Run(env, init, steps).value.txs
        ensures var d := Run(env, init, steps).value.txs[id].dml;
                d.Sinking? && d.target == t ==> d.pinned == d.scanned
      {
        RunKeepsInv(env, init, steps);
        assert TxOk(env, Run(env, init, steps).value.history, Run(env, init, steps).value.txs[id]);
      }
    } else if t.Options? {
      var env, init, steps, s := OptionsRowidMisresolves();
      assert Run(env, init, steps).value.txs[0].dml.pinned != Run(env, init, steps).value.txs[0].dml.scanned;
    } else {
      var env, init, steps, s := RegistryRowidMisresolves();
      assert Run(env, init, steps).value.txs[0].dml.pinned != Run(env, init, steps).value.txs[0].dml.scanned;
    }
  }

  // ----- Runs that show the limits -----

  lemma Extend(env: Env, init: Sys, steps: seq<Step>, s: Sys, step: Step) returns (steps': seq<Step>, s': Sys)
    requires Run(env, init, steps) == Some(s) && Next(env, s, step).Some?
    ensures steps' == steps + [step] && Run(env, init, steps') == Some(s') && Next(env, s, step) == Some(s')
  {
    steps' := steps + [step];
    s' := Next(env, s, step).value;
    assert steps'[..|steps|] == steps;
  }

  function PlainStore(batchSeq: nat, rows: Rows, dataPath: Option<string>): Store {
    Store(Stamp(1, batchSeq), map[0 := rows], rows, [], false, dataPath)
  }

  function PlainEnv(): Env {
    Env((k, store, ops) => [GlobalRow("limit", "10")])
  }

  function Fresh(store: Store): Sys {
    Sys([store], map[], map[])
  }

  const A: Rows := [[Num(1)]]
  const B: Rows := [[Num(2)]]

  /** Several actions of one transaction while nothing else moves. */
  function TxRun(env: Env, history: seq<Store>, start: Outcome, actions: seq<Action>): Option<Outcome>
    requires history != []
  {
    if actions == [] then Some(start)
    else
      var n := |actions| - 1;
      var before := TxRun(env, history, start, actions[..n]);
      if before.None? then None else TxNext(env, history, before.value.held, before.value.tx, actions[n])
  }

  /** One more action, with its outcome written out. */
  lemma Take(env: Env, h: seq<Store>, start: Outcome, actions: seq<Action>, out: Outcome, action: Action, out': Outcome)
    returns (actions': seq<Action>)
    requires h != [] && TxRun(env, h, start, actions) == Some(out)
    requires TxNext(env, h, out.held, out.tx, action) == Some(out')
    ensures TxRun(env, h, start, actions') == Some(out')
  {
    actions' := actions + [action];
    assert actions'[..|actions|] == actions;
  }

  /** The actions of one transaction, taken as steps of the whole system. */
  lemma {:induction false} Lift(env: Env, init: Sys, steps: seq<Step>, s: Sys, id: nat, actions: seq<Action>, out: Outcome)
    returns (steps': seq<Step>, s': Sys)
    requires Run(env, init, steps) == Some(s) && s.history != [] && id in s.txs
    requires TxRun(env, s.history, Outcome(s.txs[id], s.held), actions) == Some(out)
    ensures Run(env, init, steps') == Some(s')
    ensures s' == Sys(s.history, out.held, s.txs[id := out.tx])
    decreases |actions|
  {
    if actions == [] {
      steps', s' := steps, s;
      assert s.txs == s.txs[id := s.txs[id]];
    } else {
      var n := |actions| - 1;
      var before := TxRun(env, s.history, Outcome(s.txs[id], s.held), actions[..n]).value;
      steps', s' := Lift(env, init, steps, s, id, actions[..n], before);
      steps', s' := Extend(env, init, steps', s', Act(id, actions[n]));
      assert s'.txs == s.txs[id := out.tx];
    }
  }

  /** One provider read, with the call's new state written out. */
  lemma TakeFetch(env: Env, h: seq<Store>, start: Outcome, actions: seq<Action>, out: Outcome, r: Read, piece: Piece, r': Read)
    returns (actions': seq<Action>)
    requires h != [] && TxRun(env, h, start, actions) == Some(out) && out.tx.read == Some(r)
    requires r.phase.Fetching? && |r.pieces| < FetchCount(r.table)
    requires piece == if out.tx.staged.Some? then StagedFetch(env, out.tx.staged.value, r.table, |r.pieces|, Head(h))
                      else CommittedFetch(r.table, |r.pieces|, Head(h))
    requires r'.pieces == r.pieces + [piece] && r'.at == r.at + [|h| - 1]
    requires r' == r.(pieces := r'.pieces, at := r'.at)
    ensures TxRun(env, h, start, actions') == Some(out.(tx := out.tx.(read := Some(r'))))
  {
    actions' := Take(env, h, start, actions, out, Fetch, out.(tx := out.tx.(read := Some(r'))));
  }

  /** A whole single-fetch read inside a staged transaction. */
  lemma TakeStagedRead(env: Env, h: seq<Store>, start: Outcome, actions: seq<Action>, out: Outcome, r: Read, rows: Rows)
    returns (actions': seq<Action>)
    requires h != [] && TxRun(env, h, start, actions) == Some(out) && out.tx.read == Some(r)
    requires r.phase.Fetching? && r.pieces == [] && r.at == [] && FetchCount(r.table) == 1 && out.tx.staged.Some?
    requires StagedFetch(env, out.tx.staged.value, r.table, 0, Head(h)) == List(rows)
    ensures var now := |h| - 1;
            TxRun(env, h, start, actions') == Some(out.(tx := Return(out.tx, r.table, rows, FromStaged, [now], r.lo, now)))
  {
    var now := |h| - 1;
    var r1 := r.(pieces := [List(rows)], at := [now]);
    var out1 := out.(tx := out.tx.(read := Some(r1)));
    actions' := TakeFetch(env, h, start, actions, out, r, List(rows), r1);
    actions' := Take(env, h, start, actions', out1, FinishFetch,
                     out.(tx := Return(out.tx, r.table, rows, FromStaged, [now], r.lo, now)));
  }

  /** A whole read of `ducklake_metadata` inside a staged transaction. */
  lemma TakeStagedOptions(env: Env, h: seq<Store>, start: Outcome, actions: seq<Action>, out: Outcome, r: Read, stored: Rows)
    returns (actions': seq<Action>)
    requires h != [] && TxRun(env, h, start, actions) == Some(out) && out.tx.read == Some(r)
    requires r.table == Options && r.phase.Fetching? && r.pieces == [] && r.at == [] && out.tx.staged.Some?
    requires stored == env.overlay(OPTIONS_KIND, out.tx.staged.value.readPoint, out.tx.staged.value.ops)
    ensures var now, head := |h| - 1, Head(h);
            var rows := Merged(FixedRows(head.encrypted, head.dataPath), stored);
            TxRun(env, h, start, actions') ==
              Some(out.(tx := Return(out.tx, Options, rows, FromStaged, [now, now, now], r.lo, now)))
  {
    var now, head := |h| - 1, Head(h);
    var pieces := [Fact(head.encrypted), Path(head.dataPath), List(stored)];
    var r1 := r.(pieces := [pieces[0]], at := [now]);
    var r2 := r.(pieces := [pieces[0], pieces[1]], at := [now, now]);
    var r3 := r.(pieces := pieces, at := [now, now, now]);
    actions' := TakeFetch(env, h, start, actions, out, r, pieces[0], r1);
    actions' := TakeFetch(env, h, start, actions', out.(tx := out.tx.(read := Some(r1))), r1, pieces[1], r2);
    actions' := TakeFetch(env, h, start, actions', out.(tx := out.tx.(read := Some(r2))), r2, pieces[2], r3);
    var rows := Merged(FixedRows(head.encrypted, head.dataPath), stored);
    actions' := Take(env, h, start, actions', out.(tx := out.tx.(read := Some(r3))), FinishFetch,
                     out.(tx := Return(out.tx, Options, rows, FromStaged, [now, now, now], r.lo, now)));
  }

  function Writer(readPoint: Store): Tx {
    Tx(Some(StagedTx(readPoint, [])), map[], None, NoDml, [])
  }

  function Reader(): Tx {
    Tx(None, map[], None, NoDml, [])
  }

  /** A writer whose UPDATE on `t` is binding its scan. */
  lemma BindingWriter(env: Env, store: Store, t: Table) returns (actions: seq<Action>)
    ensures TxRun(env, [store], Outcome(Reader(), map[]), actions) ==
            Some(Outcome(Writer(store).(read := Some(Read(t, true, Fetching, None, [], [], 0, 0, [])), dml := Scanning(t)), map[]))
  {
    var start := Outcome(Reader(), map[]);
    actions := Take(env, [store], start, [], start, OpenStaged, Outcome(Writer(store), map[]));
    var call := Read(t, true, Fetching, None, [], [], 0, 0, []);
    actions := Take(env, [store], start, actions, Outcome(Writer(store), map[]), StartDml(t),
                    Outcome(Writer(store).(read := Some(call), dml := Scanning(t)), map[]));
  }

  /** Two stretches of one transaction, with one batch landing between them. */
  lemma BatchBetween(env: Env, s0: Store, s1: Store, bind: seq<Action>, bound: Tx, pin: seq<Action>, pinned: Tx)
    returns (steps: seq<Step>, s: Sys)
    requires NextStamp(s0.stamp, s1.stamp)
    requires TxRun(env, [s0], Outcome(Reader(), map[]), bind) == Some(Outcome(bound, map[]))
    requires TxRun(env, [s0, s1], Outcome(bound, map[]), pin) == Some(Outcome(pinned, map[]))
    ensures Run(env, Fresh(s0), steps) == Some(s) && s == Sys([s0, s1], map[], map[0 := pinned])
  {
    var init := Fresh(s0);
    steps, s := Extend(env, init, [], init, Begin(0));
    steps, s := Lift(env, init, steps, s, 0, bind, Outcome(bound, map[]));
    steps, s := Extend(env, init, steps, s, StoreBatch(s1));
    assert s.history == [s0, s1];
    steps, s := Lift(env, init, steps, s, 0, pin, Outcome(pinned, map[]));
    assert s.txs == map[0 := pinned];
  }

  /** The sink of a bound statement starts to pin, at state 1. */
  lemma StartsPinning(env: Env, h: seq<Store>, bound: Tx) returns (actions: seq<Action>)
    requires |h| == 2 && bound.read.None? && bound.staged.Some? && bound.dml.Scanned?
    ensures var d := bound.dml;
            var call := Read(d.target, true, Fetching, None, [], [], 1, 1, []);
            TxRun(env, h, Outcome(bound, map[]), actions) ==
              Some(Outcome(bound.(read := Some(call), dml := Pinning(d.target, d.staged, d.scanned, d.scanAt)), map[]))
  {
    var d := bound.dml;
    var call := Read(d.target, true, Fetching, None, [], [], 1, 1, []);
    actions := Take(env, h, Outcome(bound, map[]), [], Outcome(bound, map[]), StartPin,
                    Outcome(bound.(read := Some(call), dml := Pinning(d.target, d.staged, d.scanned, d.scanAt)), map[]));
  }

  /** A writer whose UPDATE on `ducklake_metadata` has bound its scan. */
  function OptionsBound(s0: Store, scanned: Rows): Tx {
    Writer(s0).(dml := Scanned(Options, true, scanned, [0, 0, 0]), served := [Served(Options, scanned, FromStaged, 0, 0)])
  }

  lemma BindsOptions(env: Env, s0: Store, stored: Rows) returns (bind: seq<Action>)
    requires stored == env.overlay(OPTIONS_KIND, s0, [])
    ensures TxRun(env, [s0], Outcome(Reader(), map[]), bind) ==
            Some(Outcome(OptionsBound(s0, Merged(FixedRows(s0.encrypted, s0.dataPath), stored)), map[]))
  {
    var start, call := Outcome(Reader(), map[]), Read(Options, true, Fetching, None, [], [], 0, 0, []);
    var binding := Writer(s0).(read := Some(call), dml := Scanning(Options));
    bind := BindingWriter(env, s0, Options);
    bind := TakeStagedOptions(env, [s0], start, bind, Outcome(binding, map[]), call, stored);
    var scanned := Merged(FixedRows(s0.encrypted, s0.dataPath), stored);
    var bound := Return(binding, Options, scanned, FromStaged, [0, 0, 0], 0, 0);
    assert bound.served == OptionsBound(s0, scanned).served;
  }

  lemma PinsOptions(env: Env, s0: Store, s1: Store, stored: Rows, scanned: Rows) returns (pin: seq<Action>, pinned: Tx)
    requires stored == env.overlay(OPTIONS_KIND, s0, [])
    ensures TxRun(env, [s0, s1], Outcome(OptionsBound(s0, scanned), map[]), pin) == Some(Outcome(pinned, map[]))
    ensures pinned.dml == Sinking(Options, true, scanned, [0, 0, 0], Merged(FixedRows(s1.encrypted, s1.dataPath), stored), [1, 1, 1])
  {
    var bound, again := OptionsBound(s0, scanned), Read(Options, true, Fetching, None, [], [], 1, 1, []);
    var pinning := bound.(read := Some(again), dml := Pinning(Options, true, scanned, [0, 0, 0]));
    pin := StartsPinning(env, [s0, s1], bound);
    pin := TakeStagedOptions(env, [s0, s1], Outcome(bound, map[]), pin, Outcome(pinning, map[]), again, stored);
    pinned := Return(pinning, Options, Merged(FixedRows(s1.encrypted, s1.dataPath), stored), FromStaged, [1, 1, 1], 1, 1);
  }

  /** A commit that records a data root between bind and pin shifts the fixed
      rows: rowid 3 names the user's setting in the scan and the data root in
      the sink. */
  lemma OptionsRowidMisresolves() returns (env: Env, init: Sys, steps: seq<Step>, s: Sys)
    ensures Init(init) && Run(env, init, steps) == Some(s) && 0 in s.txs
    ensures var d := s.txs[0].dml;
            d.Sinking? && d.target == Options && d.pinned != d.scanned && |d.scanned| == 4 &&
            ResolveRow(d.pinned, Num(3)) == Ok(GlobalRow("data_path", ServedPath("p"))) &&
            d.scanned[3] == GlobalRow("limit", "10")
  {
    var s0, s1 := PlainStore(1, [], None), PlainStore(2, [], Some("p"));
    env, init := PlainEnv(), Fresh(s0);
    var stored := [GlobalRow("limit", "10")];
    var scanned := Merged(FixedRows(false, None), stored);
    var bind := BindsOptions(env, s0, stored);
    var pin, pinned := PinsOptions(env, s0, s1, stored, scanned);
    steps, s := BatchBetween(env, s0, s1, bind, OptionsBound(s0, scanned), pin, pinned);
    OneSetting(stored[0]);
    FixedRowsSurvive(false, None, stored);
    FixedRowsSurvive(false, Some("p"), stored);
  }

  lemma OneSetting(row: Row)
    requires !IsServedFact(row)
    ensures Merged([], [row]) == [row]
  {
    assert [row][..0] == [];
    assert Merged([], [row][..0]) == [];
  }

  /** `ducklake_inlined_data_tables` has no staged dump: a commit between bind
      and pin changes what a rowid names. */
  lemma RegistryRowidMisresolves() returns (env: Env, init: Sys, steps: seq<Step>, s: Sys)
    ensures Init(init) && Run(env, init, steps) == Some(s) && 0 in s.txs
    ensures var d := s.txs[0].dml;
            d.Sinking? && d.target == Registry && d.scanned == A && d.pinned == B
  {
    var s0, s1 := PlainStore(1, A, None), PlainStore(2, B, None);
    env, init := PlainEnv(), Fresh(s0);
    var start, call := Outcome(Reader(), map[]), Read(Registry, true, Fetching, None, [], [], 0, 0, []);
    var binding := Writer(s0).(read := Some(call), dml := Scanning(Registry));
    var bind := BindingWriter(env, s0, Registry);
    bind := TakeStagedRead(env, [s0], start, bind, Outcome(binding, map[]), call, A);
    var bound := Return(binding, Registry, A, FromStaged, [0], 0, 0);
    var pin := StartsPinning(env, [s0, s1], bound);
    var d, again := bound.dml, Read(Registry, true, Fetching, None, [], [], 1, 1, []);
    var pinning := bound.(read := Some(again), dml := Pinning(Registry, d.staged, d.scanned, d.scanAt));
    pin := TakeStagedRead(env, [s0, s1], Outcome(bound, map[]), pin, Outcome(pinning, map[]), again, B);
    var pinned := Return(pinning, Registry, B, FromStaged, [1], 1, 1);
    steps, s := BatchBetween(env, s0, s1, bind, bound, pin, pinned);
  }

  /** A reader of `t` that has read the head stamp. */
  function Stamped(t: Table, stamp: Stamp, now: nat): Tx {
    Reader().(read := Some(Read(t, false, Looking, Some(stamp), [], [], now, now, [])))
  }

  lemma StampsHead(env: Env, h: seq<Store>, held: map<Table, Held>, t: Table) returns (actions: seq<Action>)
    requires h != []
    ensures TxRun(env, h, Outcome(Reader(), held), actions) == Some(Outcome(Stamped(t, Head(h).stamp, |h| - 1), held))
  {
    var start, now := Outcome(Reader(), held), |h| - 1;
    var call := Read(t, false, Stamping, None, [], [], now, now, []);
    var called := Outcome(Reader().(read := Some(call)), held);
    actions := Take(env, h, start, [], start, StartScan(t), called);
    actions := Take(env, h, start, actions, called, ReadStamp(true), Outcome(Stamped(t, Head(h).stamp, now), held));
  }

  /** A first reader dumps table kind 0 and leaves its rows held. */
  /** What the first reader's call holds once it has fetched the rows. */
  function FetchedRead(store: Store, rows: Rows): Read {
    Stamped(Dumped(0), store.stamp, 0).read.value.(phase := Fetching, pieces := [List(rows)], at := [0])
  }

  lemma FirstReaderFetches(env: Env, store: Store, rows: Rows) returns (actions: seq<Action>)
    requires 0 in store.dumps && store.dumps[0] == rows
    ensures TxRun(env, [store], Outcome(Reader(), map[]), actions) ==
            Some(Outcome(Reader().(read := Some(FetchedRead(store, rows))), map[]))
  {
    var h, start := [store], Outcome(Reader(), map[]);
    var looking := Stamped(Dumped(0), store.stamp, 0);
    var fetching := looking.read.value.(phase := Fetching);
    actions := StampsHead(env, h, map[], Dumped(0));
    actions := Take(env, h, start, actions, Outcome(looking, map[]), LookUp, Outcome(Reader().(read := Some(fetching)), map[]));
    actions := TakeFetch(env, h, start, actions, Outcome(Reader().(read := Some(fetching)), map[]), fetching, List(rows),
                         FetchedRead(store, rows));
  }

  /** And once it has put them together and pinned them. */
  function PinnedReader(store: Store, rows: Rows): Tx {
    Reader().(pins := map[Dumped(0) := rows], read := Some(FetchedRead(store, rows).(phase := Rechecking, rows := rows)))
  }

  lemma FirstReaderPins(env: Env, store: Store, rows: Rows) returns (actions: seq<Action>)
    requires 0 in store.dumps && store.dumps[0] == rows
    ensures TxRun(env, [store], Outcome(Reader(), map[]), actions) == Some(Outcome(PinnedReader(store, rows), map[]))
  {
    actions := FirstReaderFetches(env, store, rows);
    actions := Take(env, [store], Outcome(Reader(), map[]), actions,
                    Outcome(Reader().(read := Some(FetchedRead(store, rows))), map[]), FinishFetch,
                    Outcome(PinnedReader(store, rows), map[]));
  }

  lemma FirstReaderHolds(env: Env, store: Store, rows: Rows) returns (actions: seq<Action>, done: Tx)
    requires 0 in store.dumps && store.dumps[0] == rows
    ensures TxRun(env, [store], Outcome(Reader(), map[]), actions) ==
            Some(Outcome(done, map[Dumped(0) := Held(store.stamp, rows, 0)]))
  {
    var h, start, pinned := [store], Outcome(Reader(), map[]), PinnedReader(store, rows);
    var holding := pinned.(read := Some(pinned.read.value.(phase := Holding)));
    done := Return(holding, Dumped(0), rows, FromDump([0]), [0], 0, 0);
    actions := FirstReaderPins(env, store, rows);
    actions := Take(env, h, start, actions, Outcome(pinned, map[]), Recheck(true), Outcome(holding, map[]));
    actions := Take(env, h, start, actions, Outcome(holding, map[]), Hold,
                    Outcome(done, map[Dumped(0) := Held(store.stamp, rows, 0)]));
  }

  /** At the saturation point the stamp stops moving, whatever the snapshot id: a
      maintenance batch lands, the entry no longer agrees with the state that
      carries its stamp, and a later transaction is still served, as a hit, rows
      that were at no moment of its call the head's. */
  lemma SaturatedStampServesStaleRows(snapshotId: nat) returns (env: Env, init: Sys, steps: seq<Step>, s: Sys)
    ensures Init(init) && Run(env, init, steps) == Some(s) && 1 in s.txs && |s.txs[1].served| == 1
    ensures var e := s.txs[1].served[0];
            e.table == Dumped(0) && e.how.FromHeld? && e.hi < |s.history| &&
            forall j :: e.lo <= j <= e.hi ==> e.rows != CommittedDump(Dumped(0), s.history[j])
    ensures Dumped(0) in s.held && |s.history| == 2
    ensures s.held[Dumped(0)].stamp == s.history[1].stamp == Stamp(snapshotId, U64_MAX)
    ensures s.held[Dumped(0)].rows != CommittedDump(Dumped(0), s.history[1])
  {
    var stamp := Stamp(snapshotId, U64_MAX);
    var s0, s1 := PlainStore(0, A, None).(stamp := stamp), PlainStore(0, B, None).(stamp := stamp);
    env, init := PlainEnv(), Fresh(s0);
    var actions, done := FirstReaderHolds(env, s0, A);
    var held := map[Dumped(0) := Held(s0.stamp, A, 0)];
    steps, s := Extend(env, init, [], init, Begin(0));
    steps, s := Lift(env, init, steps, s, 0, actions, Outcome(done, held));
    steps, s := Extend(env, init, steps, s, StoreBatch(s1));
    steps, s := Extend(env, init, steps, s, Begin(1));
    assert s.history == [s0, s1];
    var hit;
    actions, hit := SecondReaderHits(env, [s0, s1], held, A);
    steps, s := Lift(env, init, steps, s, 1, actions, Outcome(hit, held));
  }

  lemma SecondReaderHits(env: Env, h: seq<Store>, held: map<Table, Held>, rows: Rows) returns (actions: seq<Action>, done: Tx)
    requires |h| == 2 && Dumped(0) in held && held[Dumped(0)].stamp == h[1].stamp && held[Dumped(0)].rows == rows
    ensures TxRun(env, h, Outcome(Reader(), held), actions) == Some(Outcome(done, held))
    ensures done.served == [Served(Dumped(0), rows, FromHeld(1), 1, 1)]
  {
    actions := StampsHead(env, h, held, Dumped(0));
    var looking := Stamped(Dumped(0), h[1].stamp, 1);
    done := Return(looking.(pins := map[Dumped(0) := rows]), Dumped(0), rows, FromHeld(1), [], 1, 1);
    actions := Take(env, h, Outcome(Reader(), held), actions, Outcome(looking, held), LookUp, Outcome(done, held));
  }

  /** `ProvideMetadata` makes three reads: a commit between them yields a list
      that is the dump of no state at all. It is served, and it is not held. */
  lemma OptionsReadStraddles() returns (env: Env, init: Sys, steps: seq<Step>, s: Sys)
    ensures Init(init) && Run(env, init, steps) == Some(s) && 0 in s.txs && |s.txs[0].served| == 1
    ensures s.txs[0].served[0].table == Options && s.txs[0].served[0].how.FromDump? && s.held == map[]
    ensures forall j :: 0 <= j < |s.history| ==> s.txs[0].served[0].rows != CommittedDump(Options, s.history[j])
  {
    var s0 := PlainStore(1, [], None);
    var s1 := s0.(stamp := Stamp(2, 2), encrypted := true, dataPath := Some("p"));
    env, init := PlainEnv(), Fresh(s0);
    var start := Outcome(Reader(), map[]);
    var looking := Stamped(Options, s0.stamp, 0);
    var fetching := looking.read.value.(phase := Fetching);
    var fetched := fetching.(pieces := [Fact(false)], at := [0]);
    var first := StampsHead(env, [s0], map[], Options);
    first := Take(env, [s0], start, first, Outcome(looking, map[]), LookUp, Outcome(Reader().(read := Some(fetching)), map[]));
    first := TakeFetch(env, [s0], start, first, Outcome(Reader().(read := Some(fetching)), map[]), fetching, Fact(false), fetched);
    var rest, done := LateFetches(env, [s0, s1], fetched);
    steps, s := BatchBetween(env, s0, s1, first, Reader().(read := Some(fetched)), rest, done);
    SameListIffSameFacts(false, Some("p"), false, None, []);
    SameListIffSameFacts(false, Some("p"), true, Some("p"), []);
  }

  /** The two remaining reads of `ducklake_metadata`, one state later. */
  lemma LateFetches(env: Env, h: seq<Store>, r1: Read) returns (actions: seq<Action>, done: Tx)
    requires |h| == 2 && h[1].options == [] && h[1].dataPath == Some("p") && h[1].stamp != h[0].stamp
    requires r1 == Read(Options, false, Fetching, Some(h[0].stamp), [Fact(false)], [], 0, 0, [0])
    ensures TxRun(env, h, Outcome(Reader().(read := Some(r1)), map[]), actions) == Some(Outcome(done, map[]))
    ensures done.served == [Served(Options, Merged(FixedRows(false, Some("p")), []), FromDump([0, 1, 1]), 0, 1)]
  {
    var start := Outcome(Reader().(read := Some(r1)), map[]);
    var rows := Merged(FixedRows(false, Some("p")), []);
    var r2 := r1.(pieces := [Fact(false), Path(Some("p"))], at := [0, 1]);
    var r3 := r1.(pieces := [Fact(false), Path(Some("p")), List([])], at := [0, 1, 1]);
    var dumped := r3.(phase := Rechecking, rows := rows);
    var pinned := Reader().(pins := map[Options := rows], read := Some(dumped));
    done := Return(pinned, Options, rows, FromDump([0, 1, 1]), [0, 1, 1], 0, 1);
    actions := TakeFetch(env, h, start, [], start, r1, Path(Some("p")), r2);
    actions := TakeFetch(env, h, start, actions, start.(tx := Reader().(read := Some(r2))), r2, List([]), r3);
    actions := Take(env, h, start, actions, start.(tx := Reader().(read := Some(r3))), FinishFetch, Outcome(pinned, map[]));
    actions := Take(env, h, start, actions, Outcome(pinned, map[]), Recheck(true), Outcome(done, map[]));
  }
}

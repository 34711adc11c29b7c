/** What every run of the metadata-row cache keeps, and what follows for the
    readers and for the UPDATE/DELETE sinks. */
module MetadataCacheSafety {
  import opened Values
  import opened MetadataRows
  import opened MetadataCache

  /** A stamp below the count's saturation point names at most one state. */
  predicate Settled(stamp: Stamp) {
    stamp.batchSeq < U64_MAX
  }

  predicate Earlier(a: Stamp, b: Stamp) {
    a.snapshotId <= b.snapshotId && a.batchSeq <= b.batchSeq && (a.batchSeq == b.batchSeq ==> a.batchSeq == U64_MAX)
  }

  ghost predicate HistoryOk(h: seq<Store>) {
    && h != []
    && (forall i :: 0 <= i < |h| ==> h[i].stamp.batchSeq <= U64_MAX)
    && (forall i, j :: 0 <= i < j < |h| ==> Earlier(h[i].stamp, h[j].stamp))
  }

  /** The rows a provider assembles when its `k`-th read observes state `at[k]`. */
  function DumpAcross(h: seq<Store>, t: Table, at: seq<nat>): Rows
    requires forall k :: 0 <= k < |at| ==> at[k] < |h|
  {
    Assemble(t, seq(|at|, k requires 0 <= k < |at| => CommittedFetch(t, k, h[at[k]])))
  }

  function StagedAcross(env: Env, staged: StagedTx, h: seq<Store>, t: Table, at: seq<nat>): Rows
    requires forall k :: 0 <= k < |at| ==> at[k] < |h|
  {
    Assemble(t, seq(|at|, k requires 0 <= k < |at| => StagedFetch(env, staged, t, k, h[at[k]])))
  }

  /** The reads of one call: within `[lo, hi]`, in order. */
  ghost predicate Within(at: seq<nat>, lo: int, hi: int) {
    && (forall k :: 0 <= k < |at| ==> lo <= at[k] <= hi)
    && (forall k, m :: 0 <= k < m < |at| ==> at[k] <= at[m])
  }

  ghost predicate HeldOk(h: seq<Store>, held: map<Table, Held>) {
    forall t :: t in held ==> EntryOk(h, t, held[t])
  }

  ghost predicate EntryOk(h: seq<Store>, t: Table, e: Held) {
    && e.at < |h| && h[e.at].stamp == e.stamp
    && (Settled(e.stamp) ==> e.rows == CommittedDump(t, h[e.at]))
  }

  /** A call in progress: where its reads stand in the history, what they
      found, and what the recheck has established. */
  ghost predicate ReadOk(env: Env, h: seq<Store>, staged: Option<StagedTx>, r: Read) {
    && r.staged == staged.Some?
    && r.lo <= r.stampAt < |h|
    && (r.before.Some? ==> h[r.stampAt].stamp == r.before.value)
    && Within(r.at, r.stampAt, |h| - 1)
    && |r.at| == |r.pieces| <= FetchCount(r.table)
    && PiecesOk(env, h, staged, r)
    && (r.staged ==> r.phase.Fetching?)
    && (r.phase.Stamping? ==> r.before.None?)
    && (r.phase.Stamping? || r.phase.Looking? ==> r.pieces == [])
    && (r.phase.Rechecking? || r.phase.Holding? ==>
          |r.pieces| == FetchCount(r.table) && r.rows == Assemble(r.table, r.pieces) && r.before.Some?)
    && (r.phase.Holding? && Settled(h[r.stampAt].stamp) ==> r.rows == CommittedDump(r.table, h[r.stampAt]))
  }

  ghost predicate PiecesOk(env: Env, h: seq<Store>, staged: Option<StagedTx>, r: Read)
    requires |r.at| == |r.pieces| && Within(r.at, r.stampAt, |h| - 1)
  {
    forall k :: 0 <= k < |r.pieces| ==>
      r.pieces[k] == if staged.Some? then StagedFetch(env, staged.value, r.table, k, h[r.at[k]])
                     else CommittedFetch(r.table, k, h[r.at[k]])
  }

  /** What a finished call's record is worth. */
  ghost predicate ServedOk(h: seq<Store>, e: Served) {
    && e.lo <= e.hi < |h|
    && match e.how
       case FromDump(at) => |at| == FetchCount(e.table) && Within(at, e.lo, e.hi) && e.rows == DumpAcross(h, e.table, at)
       case FromHeld(a) => e.lo <= a <= e.hi && (Settled(h[a].stamp) ==> e.rows == CommittedDump(e.table, h[a]))
       case FromPin => true
       case FromStaged => true
  }

  ghost predicate LogOk(h: seq<Store>, served: seq<Served>) {
    forall i :: 0 <= i < |served| ==> ServedOk(h, served[i])
  }

  /** Reads made before the transaction became a writer. */
  predicate AsReader(e: Served) {
    !e.how.FromStaged?
  }

  /** Two reads of one table made as a reader returned one list. */
  predicate Agree(a: Served, b: Served) {
    AsReader(a) && AsReader(b) && a.table == b.table ==> a.rows == b.rows
  }

  ghost predicate AllAgree(served: seq<Served>) {
    forall i, j :: 0 <= i < |served| && 0 <= j < |served| ==> Agree(served[i], served[j])
  }

  /** While no staged transaction is open, every answer given stands pinned. */
  ghost predicate PinsHold(writer: bool, pins: map<Table, Rows>, served: seq<Served>) {
    if writer then pins == map[]
    else forall i :: 0 <= i < |served| ==> PinnedAs(pins, served[i])
  }

  predicate PinnedAs(pins: map<Table, Rows>, e: Served) {
    AsReader(e) && e.table in pins && pins[e.table] == e.rows
  }

  /** A read that took `t` from the store or from the cache. */
  predicate Took(e: Served, t: Table) {
    e.table == t && (e.how.FromDump? || e.how.FromHeld?)
  }

  /** Some read before position `k` took `t` from outside the transaction. */
  ghost predicate TakenBefore(served: seq<Served>, t: Table, k: int) {
    exists i :: 0 <= i < k && i < |served| && Took(served[i], t)
  }

  /** A read answered by a pin goes back to one that took the table from outside. */
  ghost predicate PinAnswersTaken(served: seq<Served>) {
    forall k :: 0 <= k < |served| && served[k].how.FromPin? ==> TakenBefore(served, served[k].table, k)
  }

  /** So does every pin, but for the table being read right now. */
  ghost predicate PinsTaken(pins: map<Table, Rows>, served: seq<Served>, reading: Option<Table>) {
    forall t :: t in pins && reading != Some(t) ==> TakenBefore(served, t, |served|)
  }

  /** All that is kept of a transaction's log of answers and of its pins. */
  ghost predicate BookOk(h: seq<Store>, writer: bool, pins: map<Table, Rows>, served: seq<Served>, reading: Option<Table>) {
    && LogOk(h, served)
    && AllAgree(served)
    && PinsHold(writer, pins, served)
    && PinAnswersTaken(served)
    && PinsTaken(pins, served, reading)
  }

  /** The call in progress and the pin it will make or has just made. */
  predicate ReadPins(writer: bool, pins: map<Table, Rows>, r: Read) {
    !writer ==>
      if r.phase.Rechecking? || r.phase.Holding? then r.table in pins && pins[r.table] == r.rows
      else r.table !in pins
  }

  /** What a scan bound at `scanAt` handed out, while its statement has not yet
      pinned: the transaction's pin, or a staged dump of the current overlay. */
  ghost predicate ScanOk(env: Env, h: seq<Store>, staged: Option<StagedTx>, pins: map<Table, Rows>,
                         t: Table, rows: Rows, at: seq<nat>) {
    if staged.None? then t in pins && pins[t] == rows
    else |at| == FetchCount(t) && Within(at, 0, |h| - 1) && rows == StagedAcross(env, staged.value, h, t, at)
  }

  /** Whether two materializations of `ducklake_metadata` read facts that are
      served alike. */
  predicate SameFacts(h: seq<Store>, a: seq<nat>, b: seq<nat>)
    requires |a| == |b| == 3
    requires forall k :: 0 <= k < 3 ==> a[k] < |h| && b[k] < |h|
  {
    h[a[0]].encrypted == h[b[0]].encrypted && ServedPathOf(h[a[1]].dataPath) == ServedPathOf(h[b[1]].dataPath)
  }

  ghost predicate SinkOk(h: seq<Store>, d: Dml)
    requires d.Sinking?
  {
    && (!d.staged || d.target.Dumped? || d.target.Empty? ==> d.pinned == d.scanned)
    && (d.staged ==>
          && |d.scanAt| == |d.pinAt| == FetchCount(d.target)
          && Within(d.scanAt, 0, |h| - 1) && Within(d.pinAt, 0, |h| - 1))
    && (d.staged && d.target.Options? ==> (d.pinned == d.scanned <==> SameFacts(h, d.scanAt, d.pinAt)))
    && (d.staged && d.target.Registry? ==>
          d.scanned == h[d.scanAt[0]].registry && d.pinned == h[d.pinAt[0]].registry)
  }

  /** The statement, given which table the transaction is reading right now. */
  ghost predicate DmlOk(env: Env, h: seq<Store>, staged: Option<StagedTx>, pins: map<Table, Rows>, dml: Dml, reading: Option<Table>) {
    match dml
    case NoDml => true
    case Scanning(t) => reading == Some(t)
    case Scanned(t, writer, scanned, scanAt) => writer == staged.Some? && ScanOk(env, h, staged, pins, t, scanned, scanAt)
    case Pinning(t, writer, scanned, scanAt) =>
      reading == Some(t) && writer == staged.Some? && ScanOk(env, h, staged, pins, t, scanned, scanAt)
    case Sinking(_, _, _, _, _, _) => reading.None? && SinkOk(h, dml)
  }

  function ReadingOf(tx: Tx): Option<Table> {
    if tx.read.Some? then Some(tx.read.value.table) else None
  }

  ghost predicate TxOk(env: Env, h: seq<Store>, tx: Tx) {
    && BookOk(h, tx.staged.Some?, tx.pins, tx.served, ReadingOf(tx))
    && DmlOk(env, h, tx.staged, tx.pins, tx.dml, ReadingOf(tx))
    && (tx.read.Some? ==> ReadOk(env, h, tx.staged, tx.read.value) && ReadPins(tx.staged.Some?, tx.pins, tx.read.value))
  }

  ghost predicate Inv(env: Env, s: Sys) {
    && HistoryOk(s.history)
    && HeldOk(s.history, s.held)
    && (forall id :: id in s.txs ==> TxOk(env, s.history, s.txs[id]))
  }

  // ----- Store history -----

  lemma AppendKeepsHistory(h: seq<Store>, next: Store)
    requires HistoryOk(h) && NextStamp(Head(h).stamp, next.stamp)
    ensures HistoryOk(h + [next])
  {
    var h' := h + [next];
    forall i, j | 0 <= i < j < |h'|
      ensures Earlier(h'[i].stamp, h'[j].stamp)
    {
      if j == |h| && i < |h| - 1 {
        assert Earlier(h[i].stamp, Head(h).stamp);
      }
    }
  }

  /** Two positions carry one settled stamp only if they are the same position. */
  lemma SettledStampIsUnique(h: seq<Store>, i: nat, j: nat)
    requires HistoryOk(h) && i < |h| && j < |h|
    requires h[i].stamp == h[j].stamp && Settled(h[i].stamp)
    ensures i == j
  {
  }

  // ----- Reads that saw one state -----

  lemma AssembledFromOneState(h: seq<Store>, t: Table, at: seq<nat>, j: nat)
    requires j < |h| && |at| == FetchCount(t) && forall k :: 0 <= k < |at| ==> at[k] == j
    ensures DumpAcross(h, t, at) == CommittedDump(t, h[j])
  {
    assert seq(|at|, k requires 0 <= k < |at| => CommittedFetch(t, k, h[at[k]]))
        == seq(FetchCount(t), k requires 0 <= k => CommittedFetch(t, k, h[j]));
  }

  lemma PiecesAcross(env: Env, h: seq<Store>, staged: Option<StagedTx>, r: Read)
    requires |r.at| == |r.pieces| && Within(r.at, r.stampAt, |h| - 1) && PiecesOk(env, h, staged, r)
    ensures Assemble(r.table, r.pieces) ==
            if staged.Some? then StagedAcross(env, staged.value, h, r.table, r.at) else DumpAcross(h, r.table, r.at)
  {
    if staged.Some? {
      assert r.pieces == seq(|r.at|, k requires 0 <= k < |r.at| => StagedFetch(env, staged.value, r.table, k, h[r.at[k]]));
    } else {
      assert r.pieces == seq(|r.at|, k requires 0 <= k < |r.at| => CommittedFetch(r.table, k, h[r.at[k]]));
    }
  }

  /** An unmoved settled stamp means no batch landed, so every read in between
      observed one state. */
  lemma UnmovedStampMeansOneState(h: seq<Store>, t: Table, at: seq<nat>, lo: nat, hi: nat)
    requires HistoryOk(h) && lo < |h| && hi < |h| && |at| == FetchCount(t) && Within(at, lo, hi) && lo <= hi
    requires h[lo].stamp == h[hi].stamp && Settled(h[lo].stamp)
    ensures DumpAcross(h, t, at) == CommittedDump(t, h[lo])
  {
    SettledStampIsUnique(h, lo, hi);
    AssembledFromOneState(h, t, at, lo);
  }

  // ----- Growth of the history keeps every per-transaction fact -----

  lemma AcrossGrows(env: Env, h: seq<Store>, next: Store, t: Table, at: seq<nat>)
    requires forall k :: 0 <= k < |at| ==> at[k] < |h|
    ensures DumpAcross(h + [next], t, at) == DumpAcross(h, t, at)
    ensures forall staged :: StagedAcross(env, staged, h + [next], t, at) == StagedAcross(env, staged, h, t, at)
  {
    var h' := h + [next];
    assert seq(|at|, k requires 0 <= k < |at| => CommittedFetch(t, k, h[at[k]]))
        == seq(|at|, k requires 0 <= k < |at| => CommittedFetch(t, k, h'[at[k]]));
    forall staged
      ensures StagedAcross(env, staged, h', t, at) == StagedAcross(env, staged, h, t, at)
    {
      assert seq(|at|, k requires 0 <= k < |at| => StagedFetch(env, staged, t, k, h[at[k]]))
          == seq(|at|, k requires 0 <= k < |at| => StagedFetch(env, staged, t, k, h'[at[k]]));
    }
  }

  lemma ServedGrows(env: Env, h: seq<Store>, next: Store, e: Served)
    requires ServedOk(h, e)
    ensures ServedOk(h + [next], e)
  {
    if e.how.FromDump? {
      AcrossGrows(env, h, next, e.table, e.how.readsAt);
    }
  }

  lemma DmlGrows(env: Env, h: seq<Store>, next: Store, staged: Option<StagedTx>, pins: map<Table, Rows>, dml: Dml, reading: Option<Table>)
    requires DmlOk(env, h, staged, pins, dml, reading)
    ensures DmlOk(env, h + [next], staged, pins, dml, reading)
  {
    if staged.Some? && (dml.Scanned? || dml.Pinning?) {
      AcrossGrows(env, h, next, dml.target, dml.scanAt);
    }
  }

  lemma TxGrows(env: Env, h: seq<Store>, next: Store, tx: Tx)
    requires TxOk(env, h, tx)
    ensures TxOk(env, h + [next], tx)
  {
    forall i | 0 <= i < |tx.served|
      ensures ServedOk(h + [next], tx.served[i])
    {
      ServedGrows(env, h, next, tx.served[i]);
    }
    DmlGrows(env, h, next, tx.staged, tx.pins, tx.dml, ReadingOf(tx));
    if tx.read.Some? {
      assert PiecesOk(env, h + [next], tx.staged, tx.read.value);
    }
  }

  // ----- Answering a scan or a pin -----

  /** One more answer in the log. */
  lemma AnswerKeepsBook(h: seq<Store>, writer: bool, pins: map<Table, Rows>, served: seq<Served>, e: Served)
    requires BookOk(h, writer, pins, served, Some(e.table)) && ServedOk(h, e)
    requires e.how.FromStaged? == writer && (!writer ==> PinnedAs(pins, e))
    requires e.how.FromPin? ==> TakenBefore(served, e.table, |served|)
    ensures BookOk(h, writer, pins, served + [e], None)
  {
    var served' := served + [e];
    var n := |served|;
    assert forall i :: 0 <= i < n ==> served'[i] == served[i];
    assert served'[n] == e;
    forall i, j | 0 <= i <= n && 0 <= j <= n
      ensures Agree(served'[i], served'[j])
    {
      if !writer {
        assert i < n ==> PinnedAs(pins, served[i]);
        assert j < n ==> PinnedAs(pins, served[j]);
      }
    }
    AnswerKeepsTaken(pins, served, e);
  }

  lemma AnswerKeepsTaken(pins: map<Table, Rows>, served: seq<Served>, e: Served)
    requires PinAnswersTaken(served) && PinsTaken(pins, served, Some(e.table))
    requires e.how.FromPin? ==> TakenBefore(served, e.table, |served|)
    requires e.how.FromStaged? ==> pins == map[]
    ensures PinAnswersTaken(served + [e]) && PinsTaken(pins, served + [e], None)
  {
    var served' := served + [e];
    var n := |served|;
    forall k, u | k <= n && TakenBefore(served, u, k)
      ensures TakenBefore(served', u, k) && TakenBefore(served', u, n + 1)
    {
      var i :| 0 <= i < k && i < n && Took(served[i], u);
      assert Took(served'[i], u);
    }
    assert e.how.FromDump? || e.how.FromHeld? ==> Took(served'[n], e.table);
  }

  /** The statement an answer goes to. */
  lemma AnswerKeepsDml(env: Env, h: seq<Store>, tx: Tx, t: Table, rows: Rows, how: How, at: seq<nat>, lo: nat, hi: nat)
    requires DmlOk(env, h, tx.staged, tx.pins, tx.dml, Some(t)) && ScanOk(env, h, tx.staged, tx.pins, t, rows, at)
    ensures DmlOk(env, h, tx.staged, tx.pins, Return(tx, t, rows, how, at, lo, hi).dml, None)
  {
    if tx.dml.Pinning? && tx.staged.Some? {
      PinnedAgain(env, tx.staged.value, h, t, tx.dml.scanAt, at);
    }
  }

  /** Two materializations of one table over the same staged operations: equal
      where the staged dump answers alone, else equal exactly when what they
      read from the head agrees. */
  lemma PinnedAgain(env: Env, staged: StagedTx, h: seq<Store>, t: Table, a: seq<nat>, b: seq<nat>)
    requires |a| == |b| == FetchCount(t)
    requires Within(a, 0, |h| - 1) && Within(b, 0, |h| - 1)
    ensures t.Dumped? || t.Empty? ==> StagedAcross(env, staged, h, t, a) == StagedAcross(env, staged, h, t, b)
    ensures t.Options? ==>
              (StagedAcross(env, staged, h, t, a) == StagedAcross(env, staged, h, t, b) <==> SameFacts(h, a, b))
    ensures t.Registry? ==>
              StagedAcross(env, staged, h, t, a) == h[a[0]].registry && StagedAcross(env, staged, h, t, b) == h[b[0]].registry
  {
    if t.Options? {
      var stored := env.overlay(OPTIONS_KIND, staged.readPoint, staged.ops);
      SameListIffSameFacts(h[a[0]].encrypted, h[a[1]].dataPath, h[b[0]].encrypted, h[b[1]].dataPath, stored);
    }
  }

  /** Any way of answering keeps the transaction in order. */
  lemma ReturnKeepsTx(env: Env, h: seq<Store>, tx: Tx, t: Table, rows: Rows, how: How, at: seq<nat>, lo: nat, hi: nat)
    requires BookOk(h, tx.staged.Some?, tx.pins, tx.served, Some(t))
    requires DmlOk(env, h, tx.staged, tx.pins, tx.dml, Some(t))
    requires ServedOk(h, Served(t, rows, how, lo, hi)) && ScanOk(env, h, tx.staged, tx.pins, t, rows, at)
    requires how.FromStaged? == tx.staged.Some?
    requires how.FromPin? ==> TakenBefore(tx.served, t, |tx.served|)
    ensures TxOk(env, h, Return(tx, t, rows, how, at, lo, hi))
  {
    AnswerKeepsBook(h, tx.staged.Some?, tx.pins, tx.served, Served(t, rows, how, lo, hi));
    AnswerKeepsDml(env, h, tx, t, rows, how, at, lo, hi);
  }

  // ----- Starting a call -----

  /** What a transaction between calls has to satisfy for one to start. */
  ghost predicate Ready(env: Env, h: seq<Store>, tx: Tx, t: Table) {
    && h != [] && tx.read.None?
    && BookOk(h, tx.staged.Some?, tx.pins, tx.served, None)
    && DmlOk(env, h, tx.staged, tx.pins, tx.dml, Some(t))
  }

  lemma PinAnswers(env: Env, h: seq<Store>, tx: Tx, t: Table)
    requires Ready(env, h, tx, t) && tx.staged.None? && t in tx.pins
    ensures TxOk(env, h, Return(tx, t, tx.pins[t], FromPin, [], |h| - 1, |h| - 1))
  {
    ReturnKeepsTx(env, h, tx, t, tx.pins[t], FromPin, [], |h| - 1, |h| - 1);
  }

  lemma CallStarts(env: Env, h: seq<Store>, tx: Tx, t: Table, phase: Phase)
    requires Ready(env, h, tx, t)
    requires if tx.staged.Some? then phase.Fetching? else t !in tx.pins && phase.Stamping?
    ensures TxOk(env, h, tx.(read := Some(Read(t, tx.staged.Some?, phase, None, [], [], |h| - 1, |h| - 1, []))))
  {
    var r := Read(t, tx.staged.Some?, phase, None, [], [], |h| - 1, |h| - 1, []);
    assert ReadOk(env, h, tx.staged, r);
  }

  lemma EnterKeepsTx(env: Env, h: seq<Store>, tx: Tx, t: Table)
    requires Ready(env, h, tx, t)
    ensures TxOk(env, h, Enter(tx, t, |h| - 1))
  {
    if tx.staged.Some? {
      CallStarts(env, h, tx, t, Fetching);
    } else if t in tx.pins {
      PinAnswers(env, h, tx, t);
    } else {
      CallStarts(env, h, tx, t, Stamping);
    }
  }

  // ----- One action -----

  lemma StagedActionKeepsTx(env: Env, h: seq<Store>, held: map<Table, Held>, tx: Tx, action: Action)
    requires HistoryOk(h) && TxOk(env, h, tx)
    requires action.EndDml? || action.OpenStaged? || action.Stage?
    ensures var out := TxNext(env, h, held, tx, action);
            out.Some? ==> TxOk(env, h, out.value.tx) && out.value.held == held
  {
  }

  lemma StartKeepsTx(env: Env, h: seq<Store>, held: map<Table, Held>, tx: Tx, action: Action)
    requires HistoryOk(h) && TxOk(env, h, tx)
    requires action.StartScan? || action.StartDml? || action.StartPin?
    ensures var out := TxNext(env, h, held, tx, action);
            out.Some? ==> TxOk(env, h, out.value.tx) && out.value.held == held
  {
    if TxNext(env, h, held, tx, action).None? { return; }
    match action
    case StartScan(t) =>
      EnterKeepsTx(env, h, tx, t);
    case StartDml(t) =>
      EnterKeepsTx(env, h, tx.(dml := Scanning(t)), t);
    case StartPin =>
      var d := tx.dml;
      EnterKeepsTx(env, h, tx.(dml := Pinning(d.target, d.staged, d.scanned, d.scanAt)), d.target);
  }

  lemma ReadStampKeepsTx(env: Env, h: seq<Store>, held: map<Table, Held>, tx: Tx, r: Read, ok: bool)
    requires HistoryOk(h) && TxOk(env, h, tx) && tx.read == Some(r)
    ensures var out := OnReadStamp(h, held, tx, r, ok);
            out.Some? ==> TxOk(env, h, out.value.tx) && out.value.held == held
  {
  }

  /** Pinning freshly taken rows, before anything is returned. */
  lemma PinningKeepsRest(env: Env, h: seq<Store>, tx: Tx, t: Table, rows: Rows)
    requires BookOk(h, false, tx.pins, tx.served, Some(t)) && t !in tx.pins && tx.staged.None?
    requires DmlOk(env, h, tx.staged, tx.pins, tx.dml, Some(t))
    ensures BookOk(h, false, tx.pins[t := rows], tx.served, Some(t))
    ensures DmlOk(env, h, tx.staged, tx.pins[t := rows], tx.dml, Some(t))
  {
    forall i | 0 <= i < |tx.served|
      ensures PinnedAs(tx.pins[t := rows], tx.served[i])
    {
      assert PinnedAs(tx.pins, tx.served[i]);
    }
  }

  lemma PinnedReturn(env: Env, h: seq<Store>, pinned: Tx, t: Table, rows: Rows, how: How, at: seq<nat>, lo: nat)
    requires pinned.staged.None? && t in pinned.pins && pinned.pins[t] == rows
    requires BookOk(h, false, pinned.pins, pinned.served, Some(t)) && DmlOk(env, h, None, pinned.pins, pinned.dml, Some(t))
    requires |h| > 0 && ServedOk(h, Served(t, rows, how, lo, |h| - 1)) && !how.FromStaged? && !how.FromPin?
    ensures TxOk(env, h, Return(pinned, t, rows, how, at, lo, |h| - 1))
  {
    ReturnKeepsTx(env, h, pinned, t, rows, how, at, lo, |h| - 1);
  }

  lemma PinThenReturn(env: Env, h: seq<Store>, tx: Tx, t: Table, rows: Rows, how: How, at: seq<nat>, lo: nat)
    requires tx.staged.None? && t !in tx.pins && BookOk(h, false, tx.pins, tx.served, Some(t))
    requires DmlOk(env, h, None, tx.pins, tx.dml, Some(t))
    requires |h| > 0 && ServedOk(h, Served(t, rows, how, lo, |h| - 1)) && !how.FromStaged? && !how.FromPin?
    ensures TxOk(env, h, Return(tx.(pins := tx.pins[t := rows]), t, rows, how, at, lo, |h| - 1))
  {
    PinningKeepsRest(env, h, tx, t, rows);
    PinnedReturn(env, h, tx.(pins := tx.pins[t := rows]), t, rows, how, at, lo);
  }

  lemma HitServedOk(env: Env, h: seq<Store>, e: Held, r: Read)
    requires HistoryOk(h) && ReadOk(env, h, None, r) && EntryOk(h, r.table, e) && r.before == Some(e.stamp)
    ensures ServedOk(h, Served(r.table, e.rows, FromHeld(r.stampAt), r.lo, |h| - 1))
  {
    if Settled(e.stamp) {
      SettledStampIsUnique(h, e.at, r.stampAt);
    }
  }

  lemma HitAnswers(env: Env, h: seq<Store>, e: Held, tx: Tx, r: Read)
    requires HistoryOk(h) && TxOk(env, h, tx) && tx.read == Some(r)
    requires EntryOk(h, r.table, e) && r.phase.Looking? && r.before == Some(e.stamp)
    ensures TxOk(env, h, Return(tx.(pins := tx.pins[r.table := e.rows]), r.table, e.rows, FromHeld(r.stampAt), [], r.lo, |h| - 1))
  {
    HitServedOk(env, h, e, r);
    PinThenReturn(env, h, tx, r.table, e.rows, FromHeld(r.stampAt), [], r.lo);
  }

  lemma LookUpKeepsTx(env: Env, h: seq<Store>, held: map<Table, Held>, tx: Tx, r: Read)
    requires HistoryOk(h) && HeldOk(h, held) && TxOk(env, h, tx) && tx.read == Some(r)
    ensures var out := OnLookUp(h, held, tx, r);
            out.Some? ==> TxOk(env, h, out.value.tx) && out.value.held == held
  {
    if r.phase.Looking? && r.before.Some? && r.table in held && held[r.table].stamp == r.before.value {
      HitAnswers(env, h, held[r.table], tx, r);
    }
  }

  lemma FetchKeepsTx(env: Env, h: seq<Store>, held: map<Table, Held>, tx: Tx, r: Read)
    requires HistoryOk(h) && TxOk(env, h, tx) && tx.read == Some(r)
    ensures var out := OnFetch(env, h, held, tx, r);
            out.Some? ==> TxOk(env, h, out.value.tx) && out.value.held == held
  {
    var out := OnFetch(env, h, held, tx, r);
    if out.Some? {
      var r' := out.value.tx.read.value;
      assert Within(r'.at, r'.stampAt, |h| - 1);
      assert PiecesOk(env, h, tx.staged, r');
    }
  }

  lemma RecheckingReadOk(env: Env, h: seq<Store>, tx: Tx, r: Read)
    requires HistoryOk(h) && TxOk(env, h, tx) && tx.read == Some(r) && tx.staged.None?
    requires r.phase.Fetching? && |r.pieces| == FetchCount(r.table) && r.before.Some?
    ensures var rows := Assemble(r.table, r.pieces);
            TxOk(env, h, tx.(pins := tx.pins[r.table := rows], read := Some(r.(phase := Rechecking, rows := rows))))
  {
    var rows := Assemble(r.table, r.pieces);
    PinningKeepsRest(env, h, tx, r.table, rows);
    var r' := r.(phase := Rechecking, rows := rows);
    assert PiecesOk(env, h, tx.staged, r');
  }

  lemma DumpServedOk(env: Env, h: seq<Store>, r: Read, rows: Rows)
    requires ReadOk(env, h, None, r) && |r.pieces| == FetchCount(r.table) && rows == Assemble(r.table, r.pieces)
    ensures ServedOk(h, Served(r.table, rows, FromDump(r.at), r.lo, |h| - 1))
  {
    PiecesAcross(env, h, None, r);
  }

  lemma UnstampedFinishOk(env: Env, h: seq<Store>, tx: Tx, r: Read)
    requires HistoryOk(h) && TxOk(env, h, tx) && tx.read == Some(r) && tx.staged.None?
    requires r.phase.Fetching? && |r.pieces| == FetchCount(r.table)
    ensures var rows := Assemble(r.table, r.pieces);
            var tx' := tx.(pins := tx.pins[r.table := rows]);
            TxOk(env, h, Return(tx', r.table, rows, FromDump(r.at), r.at, r.lo, |h| - 1))
  {
    var rows := Assemble(r.table, r.pieces);
    DumpServedOk(env, h, r, rows);
    PinThenReturn(env, h, tx, r.table, rows, FromDump(r.at), r.at, r.lo);
  }

  lemma StagedFinishOk(env: Env, h: seq<Store>, tx: Tx, r: Read)
    requires HistoryOk(h) && TxOk(env, h, tx) && tx.read == Some(r) && tx.staged.Some?
    requires r.phase.Fetching? && |r.pieces| == FetchCount(r.table)
    ensures TxOk(env, h, Return(tx, r.table, Assemble(r.table, r.pieces), FromStaged, r.at, r.lo, |h| - 1))
  {
    PiecesAcross(env, h, tx.staged, r);
    ReturnKeepsTx(env, h, tx, r.table, Assemble(r.table, r.pieces), FromStaged, r.at, r.lo, |h| - 1);
  }

  lemma FinishFetchKeepsTx(env: Env, h: seq<Store>, held: map<Table, Held>, tx: Tx, r: Read)
    requires HistoryOk(h) && TxOk(env, h, tx) && tx.read == Some(r)
    ensures var out := OnFinishFetch(h, held, tx, r);
            out.Some? ==> TxOk(env, h, out.value.tx) && out.value.held == held
  {
    if r.phase.Fetching? && |r.pieces| == FetchCount(r.table) {
      if tx.staged.Some? {
        StagedFinishOk(env, h, tx, r);
      } else if r.before.Some? {
        RecheckingReadOk(env, h, tx, r);
      } else {
        UnstampedFinishOk(env, h, tx, r);
      }
    }
  }

  /** A recheck that found the stamp unmoved has the rows of one state in hand. */
  lemma HoldingReadOk(env: Env, h: seq<Store>, staged: Option<StagedTx>, r: Read)
    requires HistoryOk(h) && ReadOk(env, h, staged, r)
    requires r.phase.Rechecking? && r.before == Some(Head(h).stamp)
    ensures ReadOk(env, h, staged, r.(phase := Holding))
  {
    PiecesAcross(env, h, staged, r);
    if Settled(h[r.stampAt].stamp) {
      UnmovedStampMeansOneState(h, r.table, r.at, r.stampAt, |h| - 1);
    }
    assert PiecesOk(env, h, staged, r.(phase := Holding));
  }

  /** The dumped rows go back to the caller, held or not. */
  lemma DumpAnswers(env: Env, h: seq<Store>, tx: Tx, r: Read)
    requires HistoryOk(h) && TxOk(env, h, tx) && tx.read == Some(r) && (r.phase.Rechecking? || r.phase.Holding?)
    ensures TxOk(env, h, Return(tx, r.table, r.rows, FromDump(r.at), r.at, r.lo, |h| - 1))
  {
    DumpServedOk(env, h, r, r.rows);
    PinnedReturn(env, h, tx, r.table, r.rows, FromDump(r.at), r.at, r.lo);
  }

  lemma RecheckKeepsTx(env: Env, h: seq<Store>, held: map<Table, Held>, tx: Tx, r: Read, ok: bool)
    requires HistoryOk(h) && TxOk(env, h, tx) && tx.read == Some(r)
    ensures var out := OnRecheck(h, held, tx, r, ok);
            out.Some? ==> TxOk(env, h, out.value.tx) && out.value.held == held
  {
    if r.phase.Rechecking? {
      if ok && r.before == Some(Head(h).stamp) {
        HoldingReadOk(env, h, tx.staged, r);
      } else {
        DumpAnswers(env, h, tx, r);
      }
    }
  }

  lemma HoldKeepsTx(env: Env, h: seq<Store>, held: map<Table, Held>, tx: Tx, r: Read)
    requires HistoryOk(h) && HeldOk(h, held) && TxOk(env, h, tx) && tx.read == Some(r)
    ensures var out := OnHold(h, held, tx, r);
            out.Some? ==> TxOk(env, h, out.value.tx) && HeldOk(h, out.value.held)
  {
    if r.phase.Holding? && r.before.Some? {
      DumpAnswers(env, h, tx, r);
      assert EntryOk(h, r.table, Held(r.before.value, r.rows, r.stampAt));
    }
  }

  lemma ActionKeepsTx(env: Env, h: seq<Store>, held: map<Table, Held>, tx: Tx, action: Action)
    requires HistoryOk(h) && HeldOk(h, held) && TxOk(env, h, tx)
    ensures var out := TxNext(env, h, held, tx, action);
            out.Some? ==> TxOk(env, h, out.value.tx) && HeldOk(h, out.value.held)
  {
    match action
    case ReadStamp(ok) => if tx.read.Some? { ReadStampKeepsTx(env, h, held, tx, tx.read.value, ok); }
    case LookUp => if tx.read.Some? { LookUpKeepsTx(env, h, held, tx, tx.read.value); }
    case Fetch => if tx.read.Some? { FetchKeepsTx(env, h, held, tx, tx.read.value); }
    case FinishFetch => if tx.read.Some? { FinishFetchKeepsTx(env, h, held, tx, tx.read.value); }
    case Recheck(ok) => if tx.read.Some? { RecheckKeepsTx(env, h, held, tx, tx.read.value, ok); }
    case Hold => if tx.read.Some? { HoldKeepsTx(env, h, held, tx, tx.read.value); }
    case EndDml => StagedActionKeepsTx(env, h, held, tx, action);
    case OpenStaged => StagedActionKeepsTx(env, h, held, tx, action);
    case Stage(_) => StagedActionKeepsTx(env, h, held, tx, action);
    case _ => StartKeepsTx(env, h, held, tx, action);
  }

  lemma StepKeepsInv(env: Env, s: Sys, step: Step)
    requires Inv(env, s)
    ensures var s' := Next(env, s, step); s'.Some? ==> Inv(env, s'.value)
  {
    match step
    case StoreBatch(next) =>
      if NextStamp(Head(s.history).stamp, next.stamp) {
        AppendKeepsHistory(s.history, next);
        forall id | id in s.txs
          ensures TxOk(env, s.history + [next], s.txs[id])
        {
          TxGrows(env, s.history, next, s.txs[id]);
        }
      }
    case Begin(id) =>
    case End(id) =>
    case Act(id, action) =>
      if id in s.txs {
        ActionKeepsTx(env, s.history, s.held, s.txs[id], action);
      }
  }

  /** Every state of every run is in order. */
  lemma {:induction false} RunKeepsInv(env: Env, init: Sys, steps: seq<Step>)
    requires Init(init)
    ensures var s := Run(env, init, steps); s.Some? ==> Inv(env, s.value)
  {
    if steps != [] {
      var n := |steps| - 1;
      RunKeepsInv(env, init, steps[..n]);
      var before := Run(env, init, steps[..n]);
      if before.Some? {
        StepKeepsInv(env, before.value, steps[n]);
      }
    }
  }
}

/** The stamped metadata-row cache as a state machine: any number of DuckDB
    transactions reading `ducklake_*` tables through `MetadataRowsFor`, while
    commits and maintenance batches land in the store, an attach-wide cache of
    dumped rows is consulted and filled, and UPDATE/DELETE statements resolve
    the rowids their scans emitted.

    Every step below is one indivisible action of the code: one store read, one
    critical section on the held-row lock, or one update of transaction-local
    state. Steps of different transactions interleave freely. */
module MetadataCache {
  import opened Values
  import opened MetadataRows

  /** What `moraine_head_stamp` reports. */
  datatype Stamp = Stamp(snapshotId: nat, batchSeq: nat)

  /** One committed store state, as far as the dumps can tell states apart.
      `dumps` holds the rows of the tables with a staged dump, by table kind. */
  datatype Store = Store(
    stamp: Stamp,
    dumps: map<nat, Rows>,
    registry: Rows,
    options: Rows,
    encrypted: bool,
    dataPath: Option<string>)

  /** The synthesized tables, by how they are read.
      `Dumped(k)`: kinds 0..24, one dump call, and a staged dump of the same kind.
      `Options`: `ducklake_metadata`, three store reads merged.
      `Registry`: `ducklake_inlined_data_tables`, one dump and no staged dump.
      `Empty`: an always-empty stand-in. */
  datatype Table = Dumped(kind: nat) | Options | Registry | Empty

  /** What one store read of a provider returns. */
  datatype Piece = List(rows: Rows) | Fact(encrypted: bool) | Path(path: Option<string>)

  function FetchCount(t: Table): nat {
    match t
    case Dumped(_) => 1
    case Options => 3
    case Registry => 1
    case Empty => 0
  }

  function DumpOf(store: Store, kind: nat): Rows {
    if kind in store.dumps then store.dumps[kind] else []
  }

  /** The provider's `k`-th read, answered by the committed state `store`. */
  function CommittedFetch(t: Table, k: nat, store: Store): Piece {
    match t
    case Dumped(kind) => List(DumpOf(store, kind))
    case Options => if k == 0 then Fact(store.encrypted) else if k == 1 then Path(store.dataPath) else List(store.options)
    case Registry => List(store.registry)
    case Empty => List([])
  }

  /** The rows a provider shapes from the reads it made. */
  function Assemble(t: Table, pieces: seq<Piece>): Rows {
    match t
    case Empty => []
    case Options =>
      if |pieces| == 3 && pieces[0].Fact? && pieces[1].Path? && pieces[2].List? then
        Merged(FixedRows(pieces[0].encrypted, pieces[1].path), pieces[2].rows)
      else []
    case _ => if |pieces| == 1 && pieces[0].List? then pieces[0].rows else []
  }

  /** The provider's rows had every one of its reads observed `store`. */
  function CommittedDump(t: Table, store: Store): Rows {
    Assemble(t, seq(FetchCount(t), k requires 0 <= k => CommittedFetch(t, k, store)))
  }

  /** An open staged transaction: the state it pinned at begin, and the rows
      staged so far. */
  datatype StagedTx = StagedTx(readPoint: Store, ops: seq<StagedOp>)

  /** The core's staged dump: some function of table kind, read point and
      staged operations. Nothing else is assumed of it. */
  datatype Env = Env(overlay: (nat, Store, seq<StagedOp>) -> Rows)

  /** `TxAwareRows`' kind for `ducklake_metadata`. */
  const OPTIONS_KIND: nat := 25

  /** The `k`-th read of a scan made while a staged transaction is open: the
      staged dump where one exists, the committed head otherwise. */
  function StagedFetch(env: Env, staged: StagedTx, t: Table, k: nat, head: Store): Piece {
    match t
    case Dumped(kind) => List(env.overlay(kind, staged.readPoint, staged.ops))
    case Options =>
      if k == 2 then List(env.overlay(OPTIONS_KIND, staged.readPoint, staged.ops)) else CommittedFetch(t, k, head)
    case _ => CommittedFetch(t, k, head)
  }

  /** An attach-wide cache entry. `at` records which state the rows were dumped
      from; the code keeps only the stamp and the rows. */
  datatype Held = Held(stamp: Stamp, rows: Rows, at: nat)

  datatype Phase = Stamping | Looking | Fetching | Rechecking | Holding

  /** One `MetadataRowsFor` call in progress. `lo`, `stampAt` and `at` record,
      as positions in the store history, when the call began, when it read
      `before`, and when it made each of its reads. */
  datatype Read = Read(
    table: Table,
    staged: bool,
    phase: Phase,
    before: Option<Stamp>,
    pieces: seq<Piece>,
    rows: Rows,
    lo: nat,
    stampAt: nat,
    at: seq<nat>)

  datatype How = FromPin | FromHeld(stateAt: nat) | FromDump(readsAt: seq<nat>) | FromStaged

  /** A finished call: what it returned, how, and the span of history it ran over. */
  datatype Served = Served(table: Table, rows: Rows, how: How, lo: nat, hi: nat)

  /** The transaction's UPDATE/DELETE statement, if one is running: binding its
      scan, bound, pinning in the Sink, or staging rows. `staged` says whether
      a staged transaction was open when the scan bound. */
  datatype Dml =
    | NoDml
    | Scanning(target: Table)
    | Scanned(target: Table, staged: bool, scanned: Rows, scanAt: seq<nat>)
    | Pinning(target: Table, staged: bool, scanned: Rows, scanAt: seq<nat>)
    | Sinking(target: Table, staged: bool, scanned: Rows, scanAt: seq<nat>, pinned: Rows, pinAt: seq<nat>)

  /** One DuckDB transaction. `pins` is `metadata_rows_`. */
  datatype Tx = Tx(staged: Option<StagedTx>, pins: map<Table, Rows>, read: Option<Read>, dml: Dml, served: seq<Served>)

  /** `history` is every committed state so far, the head last. */
  datatype Sys = Sys(history: seq<Store>, held: map<Table, Held>, txs: map<nat, Tx>)

  datatype Action =
    | StartScan(table: Table)
    | StartDml(table: Table)
    | StartPin
    | EndDml
    | ReadStamp(ok: bool)
    | LookUp
    | Fetch
    | FinishFetch
    | Recheck(ok: bool)
    | Hold
    | OpenStaged
    | Stage(op: StagedOp)

  datatype Step =
    | StoreBatch(next: Store)
    | Begin(id: nat)
    | End(id: nat)
    | Act(id: nat, action: Action)

  predicate Init(s: Sys) {
    |s.history| == 1 && s.history[0].stamp.batchSeq <= U64_MAX && s.held == map[] && s.txs == map[]
  }

  function Head(history: seq<Store>): Store
    requires history != []
  {
    history[|history| - 1]
  }

  /** A batch writes the head with the count one above the one standing; a
      commit mints a later snapshot id, a maintenance batch reuses the id. */
  predicate NextStamp(standing: Stamp, next: Stamp) {
    next.batchSeq == SaturatingSucc(standing.batchSeq) && standing.snapshotId <= next.snapshotId
  }

  /** The call returns `rows` to whoever asked: a scan, or the Sink's pin. */
  function Return(tx: Tx, t: Table, rows: Rows, how: How, at: seq<nat>, lo: nat, hi: nat): Tx {
    var dml := match tx.dml
      case Scanning(target) => Scanned(target, tx.staged.Some?, rows, at)
      case Pinning(target, staged, scanned, scanAt) => Sinking(target, staged, scanned, scanAt, rows, at)
      case other => other;
    tx.(read := None, dml := dml, served := tx.served + [Served(t, rows, how, lo, hi)])
  }

  /** Entry of `MetadataRowsFor`: the staged transaction if one is open, else
      the transaction's own pin, else the store. */
  function Enter(tx: Tx, t: Table, now: nat): Tx {
    var call := Read(t, tx.staged.Some?, Fetching, None, [], [], now, now, []);
    if tx.staged.Some? then tx.(read := Some(call))
    else if t in tx.pins then Return(tx, t, tx.pins[t], FromPin, [], now, now)
    else tx.(read := Some(call.(phase := Stamping)))
  }

  datatype Outcome = Outcome(tx: Tx, held: map<Table, Held>)

  /** One action of one transaction, or `None` where the code cannot take it. */
  function TxNext(env: Env, history: seq<Store>, held: map<Table, Held>, tx: Tx, action: Action): Option<Outcome>
    requires history != []
  {
    var now := |history| - 1;
    match action
    case StartScan(t) =>
      if tx.read.None? && (tx.dml.NoDml? || tx.dml.Scanned?) then Some(Outcome(Enter(tx, t, now), held)) else None
    case StartDml(t) =>
      if tx.read.None? && tx.dml.NoDml? then Some(Outcome(Enter(tx.(dml := Scanning(t)), t, now), held)) else None
    case StartPin =>
      if tx.read.None? && tx.dml.Scanned? then
        var d := tx.dml;
        Some(Outcome(Enter(tx.(dml := Pinning(d.target, d.staged, d.scanned, d.scanAt)), d.target, now), held))
      else None
    case EndDml =>
      if tx.read.None? && (tx.dml.Scanned? || tx.dml.Sinking?) then Some(Outcome(tx.(dml := NoDml), held)) else None
    case OpenStaged =>
      // The Sink pins before it opens the staged transaction.
      if tx.read.None? && tx.staged.None? && (tx.dml.NoDml? || tx.dml.Sinking?) then
        Some(Outcome(tx.(staged := Some(StagedTx(Head(history), [])), pins := map[]), held))
      else None
    case Stage(op) =>
      if tx.read.None? && tx.staged.Some? && (tx.dml.NoDml? || tx.dml.Sinking?) then
        Some(Outcome(tx.(staged := Some(tx.staged.value.(ops := tx.staged.value.ops + [op]))), held))
      else None
    case _ =>
      if tx.read.Some? then ReadNext(env, history, held, tx, tx.read.value, action) else None
  }

  /** One action of a `MetadataRowsFor` call in progress. */
  function ReadNext(env: Env, history: seq<Store>, held: map<Table, Held>, tx: Tx, r: Read, action: Action): Option<Outcome>
    requires history != []
  {
    match action
    case ReadStamp(ok) => OnReadStamp(history, held, tx, r, ok)
    case LookUp => OnLookUp(history, held, tx, r)
    case Fetch => OnFetch(env, history, held, tx, r)
    case FinishFetch => OnFinishFetch(history, held, tx, r)
    case Recheck(ok) => OnRecheck(history, held, tx, r, ok)
    case Hold => OnHold(history, held, tx, r)
    case _ => None
  }

  /** `ReadHeadStamp`; a store with no head and a failed read both report no stamp. */
  function OnReadStamp(history: seq<Store>, held: map<Table, Held>, tx: Tx, r: Read, ok: bool): Option<Outcome>
    requires history != []
  {
    var now := |history| - 1;
    if !r.phase.Stamping? then None
    else if ok then
      Some(Outcome(tx.(read := Some(r.(phase := Looking, before := Some(Head(history).stamp), stampAt := now))), held))
    else
      Some(Outcome(tx.(read := Some(r.(phase := Fetching, stampAt := now))), held))
  }

  /** `HeldMetadataRows`: a hit takes the whole stamp. */
  function OnLookUp(history: seq<Store>, held: map<Table, Held>, tx: Tx, r: Read): Option<Outcome>
    requires history != []
  {
    if !r.phase.Looking? || r.before.None? then None
    else if r.table in held && held[r.table].stamp == r.before.value then
      var rows := held[r.table].rows;
      var tx' := tx.(pins := tx.pins[r.table := rows]);
      Some(Outcome(Return(tx', r.table, rows, FromHeld(r.stampAt), [], r.lo, |history| - 1), held))
    else Some(Outcome(tx.(read := Some(r.(phase := Fetching))), held))
  }

  /** One store read of the provider, or of the staged transaction. */
  function OnFetch(env: Env, history: seq<Store>, held: map<Table, Held>, tx: Tx, r: Read): Option<Outcome>
    requires history != []
  {
    var k := |r.pieces|;
    if !r.phase.Fetching? || FetchCount(r.table) <= k then None
    else
      var piece := if tx.staged.Some? then StagedFetch(env, tx.staged.value, r.table, k, Head(history))
                   else CommittedFetch(r.table, k, Head(history));
      Some(Outcome(tx.(read := Some(r.(pieces := r.pieces + [piece], at := r.at + [|history| - 1]))), held))
  }

  /** Shapes the rows; a reader pins them at once and rechecks the stamp if it
      had one. */
  function OnFinishFetch(history: seq<Store>, held: map<Table, Held>, tx: Tx, r: Read): Option<Outcome>
    requires history != []
  {
    var now := |history| - 1;
    var rows := Assemble(r.table, r.pieces);
    var tx' := tx.(pins := tx.pins[r.table := rows]);
    if !r.phase.Fetching? || |r.pieces| != FetchCount(r.table) then None
    else if tx.staged.Some? then Some(Outcome(Return(tx, r.table, rows, FromStaged, r.at, r.lo, now), held))
    else if r.before.Some? then Some(Outcome(tx'.(read := Some(r.(phase := Rechecking, rows := rows))), held))
    else Some(Outcome(Return(tx', r.table, rows, FromDump(r.at), r.at, r.lo, now), held))
  }

  /** The second `ReadHeadStamp`: hold only if the store did not move. */
  function OnRecheck(history: seq<Store>, held: map<Table, Held>, tx: Tx, r: Read, ok: bool): Option<Outcome>
    requires history != []
  {
    if !r.phase.Rechecking? then None
    else if ok && r.before == Some(Head(history).stamp) then Some(Outcome(tx.(read := Some(r.(phase := Holding))), held))
    else Some(Outcome(Return(tx, r.table, r.rows, FromDump(r.at), r.at, r.lo, |history| - 1), held))
  }

  /** `HoldMetadataRows`, which overwrites whatever entry stands. */
  function OnHold(history: seq<Store>, held: map<Table, Held>, tx: Tx, r: Read): Option<Outcome>
    requires history != []
  {
    if !r.phase.Holding? || r.before.None? then None
    else
      Some(Outcome(Return(tx, r.table, r.rows, FromDump(r.at), r.at, r.lo, |history| - 1),
                   held[r.table := Held(r.before.value, r.rows, r.stampAt)]))
  }

  function Next(env: Env, s: Sys, step: Step): Option<Sys> {
    if s.history == [] then None
    else
      match step
      case StoreBatch(next) =>
        if NextStamp(Head(s.history).stamp, next.stamp) then Some(s.(history := s.history + [next])) else None
      case Begin(id) =>
        if id in s.txs then None else Some(s.(txs := s.txs[id := Tx(None, map[], None, NoDml, [])]))
      case End(id) =>
        if id in s.txs && s.txs[id].read.None? then Some(s.(txs := s.txs - {id})) else None
      case Act(id, action) =>
        if id !in s.txs then None
        else
          match TxNext(env, s.history, s.held, s.txs[id], action)
          case None => None
          case Some(out) => Some(s.(txs := s.txs[id := out.tx], held := out.held))
  }

  /** The state after `steps`, or `None` when some step is impossible where it
      comes. */
  function Run(env: Env, s: Sys, steps: seq<Step>): Option<Sys> {
    if steps == [] then Some(s)
    else
      var n := |steps| - 1;
      var before := Run(env, s, steps[..n]);
      if before.None? then None else Next(env, before.value, steps[n])
  }

  /** The row a rowid names in the pinned list, or the reason there is none. */
  function ResolveRow(pinned: Rows, rowid: Cell): Result<Row, RowidError> {
    match ResolveRowid(rowid, |pinned|)
    case Ok(index) => Ok(pinned[index])
    case Err(e) => Err(e)
  }
}

/** The staged translation of `SET end_snapshot` and `SET begin_snapshot`, read
    again, has SQL's meaning, and exactly when. */
module StagedMoves {
  import opened Values
  import opened StagedWrite
  import opened StagedRead
  import opened StagedWriteTheorems

  // ----- The lifecycle tables -----

  /** What the specs of the lifecycle tables have in common. */
  ghost predicate LifecycleSpec(spec: TableSpec, ends: bool) {
    && spec.endSnapshotColumn < |spec.shapes| && MovedColumn(spec, ends) < |spec.shapes|
    && MovedColumn(spec, ends) !in spec.endKeyColumns && BeginColumn(spec.writeKind) != spec.endSnapshotColumn
    && forall i :: 0 <= i < |spec.endKeyColumns| ==> spec.endKeyColumns[i] < |spec.shapes|
  }

  lemma LifecycleSpecs(spec: TableSpec, ends: bool)
    requires spec in VERSIONED
    ensures LifecycleSpec(spec, ends)
  {
    var k :| 0 <= k < |VERSIONED| && VERSIONED[k] == spec;
    assert k < 4 || k < 8 || k < 11;
  }

  /** The planner takes exactly the two lifecycle statements on a lifecycle table. */
  lemma LifecyclePlans(spec: TableSpec, sets: seq<SetTarget>, statement: Statement)
    requires spec in VERSIONED && PlanUpdate(spec, sets, false) == Staging(statement)
    ensures statement.SetEnd? || statement.SetBegin?
    ensures sets == [SetTarget(MovedColumn(spec, statement.SetEnd?), statement.source)]
  {
    assert spec.endKeyColumns != [];
    assert sets == [sets[0]];
    if statement.SetBegin? {
      BeginNamed(spec, sets[0].column);
    }
  }

  lemma BeginNamed(spec: TableSpec, column: nat)
    requires spec in VERSIONED && column < |spec.columnNames| && spec.columnNames[column] == "begin_snapshot"
    ensures column == BeginColumn(spec.writeKind)
  {
    var k :| 0 <= k < |VERSIONED| && VERSIONED[k] == spec;
  }

  // ----- Moving by key -----

  /** Each entity has at most one live version. */
  ghost predicate OneLive(rows: Rows, endKey: seq<nat>, endColumn: nat) {
    forall i, j :: 0 <= i < j < |rows| && IsLive(rows[i], endColumn) && IsLive(rows[j], endColumn) ==>
      !SameKey(rows[i], rows[j], endKey)
  }

  /** No live version of the row's entity would change. */
  ghost predicate LiveAlready(rows: Rows, i: nat, value: Cell, endKey: seq<nat>, endColumn: nat, column: nat)
    requires i < |rows|
  {
    forall j :: 0 <= j < |rows| && SameKey(rows[j], rows[i], endKey) && IsLive(rows[j], endColumn) ==>
      CellAt(rows[j], column) == value
  }

  lemma MoveAppliedIff(rows: Rows, i: nat, value: Cell, endKey: seq<nat>, endColumn: nat, column: nat)
    requires OneLive(rows, endKey, endColumn) && i < |rows|
    requires forall j :: 0 <= j < |rows| ==> endColumn < |rows[j]| && column < |rows[j]|
    ensures MoveApplied(rows, Pick(rows[i], endKey), value, endKey, endColumn, column) == rows[i := rows[i][column := value]]
            <==> || IsLive(rows[i], endColumn)
                 || (CellAt(rows[i], column) == value && LiveAlready(rows, i, value, endKey, endColumn, column))
  {
    var cells := Pick(rows[i], endKey);
    var after, sql := MoveApplied(rows, cells, value, endKey, endColumn, column), rows[i := rows[i][column := value]];
    if IsLive(rows[i], endColumn) {
      forall j | 0 <= j < |rows|
        ensures after[j] == sql[j]
      {
        assert j < i || i < j || j == i;
        assert Pick(rows[j], endKey) == cells <==> SameKey(rows[j], rows[i], endKey);
      }
    } else if after == sql {
      assert after[i] == sql[i];
      forall j | 0 <= j < |rows| && SameKey(rows[j], rows[i], endKey) && IsLive(rows[j], endColumn)
        ensures CellAt(rows[j], column) == value
      {
        assert after[j] == sql[j];
      }
    } else {
      var j :| 0 <= j < |rows| && after[j] != sql[j];
      if j == i {
        assert rows[i][column := value] != rows[i];
      } else {
        assert SameKey(rows[j], rows[i], endKey) && IsLive(rows[j], endColumn);
        assert rows[j][column := value] != rows[j];
      }
    }
  }

  /** The staged rows of one lifecycle statement applied in order; each carries the
      key cells and then the value. */
  function MoveAppliedAll(rows: Rows, ops: seq<StagedOp>, spec: TableSpec, column: nat): Rows {
    if ops == [] then rows
    else
      var n := |ops| - 1;
      var before, cells := MoveAppliedAll(rows, ops[..n], spec, column), ops[n].cells;
      if cells == [] then before
      else MoveApplied(before, cells[..|cells| - 1], cells[|cells| - 1], spec.endKeyColumns, spec.endSnapshotColumn, column)
  }

  lemma MoveAppliedSnoc(rows: Rows, ops: seq<StagedOp>, n: nat, spec: TableSpec, column: nat)
    requires n < |ops| && ops[n].cells != []
    ensures var cells := ops[n].cells;
            MoveAppliedAll(rows, ops[..n + 1], spec, column) ==
            MoveApplied(MoveAppliedAll(rows, ops[..n], spec, column), cells[..|cells| - 1], cells[|cells| - 1],
                        spec.endKeyColumns, spec.endSnapshotColumn, column)
  {
    assert ops[..n + 1][..n] == ops[..n];
  }

  /** Matched row `i` names the entity of row `j`. */
  predicate Hits(rows: Rows, targets: seq<int>, endKey: seq<nat>, i: int, j: nat) {
    0 <= i < |targets| && 0 <= targets[i] < |rows| && j < |rows| && SameKey(rows[targets[i]], rows[j], endKey)
  }

  /** Of the first `k` matched rows, `w` decides what becomes of live row `j`: the
      first that names its entity when versions end, as it is not live after that;
      the last when they are rebased. */
  ghost predicate Decides(rows: Rows, targets: seq<int>, endKey: seq<nat>, ends: bool, j: nat, k: nat, w: int) {
    && 0 <= w < k && Hits(rows, targets, endKey, w, j)
    && forall i :: 0 <= i < k && Hits(rows, targets, endKey, i, j) ==> if ends then w <= i else i <= w
  }

  lemma {:induction false} SomeDecides(rows: Rows, targets: seq<int>, endKey: seq<nat>, ends: bool, j: nat, k: nat, i: nat)
    requires i < k && Hits(rows, targets, endKey, i, j)
    ensures exists w :: Decides(rows, targets, endKey, ends, j, k, w)
    decreases k
  {
    var n := k - 1;
    if h :| 0 <= h < n && Hits(rows, targets, endKey, h, j) {
      SomeDecides(rows, targets, endKey, ends, j, n, h);
      var w :| Decides(rows, targets, endKey, ends, j, n, w);
      assert Decides(rows, targets, endKey, ends, j, k, if Hits(rows, targets, endKey, n, j) && !ends then n else w);
    } else {
      assert Decides(rows, targets, endKey, ends, j, k, i);
    }
  }

  /** What the first `k` staged rows leave of row `j`. */
  ghost predicate LeftAs(after: Row, rows: Rows, targets: seq<int>, values: seq<Cell>, spec: TableSpec, column: nat, j: nat,
                         k: nat)
    requires j < |rows| && column < |rows[j]| && |targets| == |values| && k <= |targets|
  {
    var row, ends := rows[j], column == spec.endSnapshotColumn;
    && (forall w :: IsLive(row, spec.endSnapshotColumn) && Decides(rows, targets, spec.endKeyColumns, ends, j, k, w) ==>
          after == row[column := values[w]])
    && (!IsLive(row, spec.endSnapshotColumn) || (forall i :: 0 <= i < k ==> !Hits(rows, targets, spec.endKeyColumns, i, j))
        ==> after == row)
  }

  /** Every row has the lifecycle columns, and the staged rows name their keys. */
  ghost predicate KeyedMoves(rows: Rows, targets: seq<int>, values: seq<Cell>, ops: seq<StagedOp>, spec: TableSpec,
                              column: nat) {
    && TargetsOk(targets, |rows|) && |targets| == |values| == |ops| && column !in spec.endKeyColumns
    && (forall j :: 0 <= j < |rows| ==> spec.endSnapshotColumn < |rows[j]| && column < |rows[j]|)
    && forall i :: 0 <= i < |ops| ==>
         values[i].Num? && ops[i].cells == Pick(rows[targets[i]], spec.endKeyColumns) + [values[i]]
  }

  lemma SetKeepsKey(row: Row, column: nat, value: Cell, key: seq<nat>)
    requires column < |row| && column !in key
    ensures Pick(row[column := value], key) == Pick(row, key)
  {
    forall i | 0 <= i < |key|
      ensures Pick(row[column := value], key)[i] == Pick(row, key)[i]
    {
      assert key[i] in key;
    }
  }

  lemma {:induction false} MovedPrefix(rows: Rows, targets: seq<int>, values: seq<Cell>, ops: seq<StagedOp>, spec: TableSpec,
                                       column: nat, j: nat, k: nat)
    requires KeyedMoves(rows, targets, values, ops, spec, column) && j < |rows| && k <= |ops|
    ensures var after := MoveAppliedAll(rows, ops[..k], spec, column);
            |after| == |rows| && LeftAs(after[j], rows, targets, values, spec, column, j, k)
  {
    if k > 0 {
      var n := k - 1;
      MovedPrefix(rows, targets, values, ops, spec, column, j, n);
      MoveAppliedSnoc(rows, ops, n, spec, column);
      var before, cells := MoveAppliedAll(rows, ops[..n], spec, column), ops[n].cells;
      assert cells[..|cells| - 1] == Pick(rows[targets[n]], spec.endKeyColumns) && cells[|cells| - 1] == values[n];
      MovedRow(before[j], rows, targets, values, spec, column, j, n);
    }
  }

  /** One staged row, as it meets row `j`. */
  lemma MovedRow(before: Row, rows: Rows, targets: seq<int>, values: seq<Cell>, spec: TableSpec, column: nat, j: nat, n: nat)
    requires j < |rows| && |targets| == |values| && n < |targets| && 0 <= targets[n] < |rows|
    requires spec.endSnapshotColumn < |rows[j]| && column < |rows[j]| && column !in spec.endKeyColumns
    requires forall i :: 0 <= i < |values| ==> values[i].Num?
    requires LeftAs(before, rows, targets, values, spec, column, j, n)
    ensures var key, endColumn := spec.endKeyColumns, spec.endSnapshotColumn;
            LeftAs(Moved(before, Pick(rows[targets[n]], key), values[n], key, endColumn, column), rows, targets, values, spec,
                   column, j, n + 1)
  {
    var row, key, endColumn, ends := rows[j], spec.endKeyColumns, spec.endSnapshotColumn, column == spec.endSnapshotColumn;
    var after := Moved(before, Pick(rows[targets[n]], key), values[n], key, endColumn, column);
    assert Hits(rows, targets, key, n, j) <==> Pick(row, key) == Pick(rows[targets[n]], key);
    if IsLive(row, endColumn) {
      if h :| 0 <= h < n && Hits(rows, targets, key, h, j) {
        SomeDecides(rows, targets, key, ends, j, n, h);
        var was :| Decides(rows, targets, key, ends, j, n, was);
        SetKeepsKey(row, column, values[was], key);
        assert before == row[column := values[was]];
        forall w | Decides(rows, targets, key, ends, j, n + 1, w)
          ensures after == row[column := values[w]]
        {
          assert w == n || Decides(rows, targets, key, ends, j, n, w);
        }
      } else {
        assert before == row;
        var k := n + 1;
        assert forall w :: Decides(rows, targets, key, ends, j, k, w) ==> w == n;
      }
    }
  }

  /** What the staged rows leave of row `j` is what SQL's UPDATE leaves of it: a
      matched live row gets its own value from the row that decides it, a matched
      history row holds its value already, and an unmatched live row is decided by
      none or holds the value already. */
  ghost predicate RowAgrees(rows: Rows, targets: seq<int>, values: seq<Cell>, spec: TableSpec, column: nat, j: nat)
    requires j < |rows| && |targets| == |values|
  {
    var endKey, endColumn, ends := spec.endKeyColumns, spec.endSnapshotColumn, column == spec.endSnapshotColumn;
    if IsLive(rows[j], endColumn) then
      forall w :: Decides(rows, targets, endKey, ends, j, |targets|, w) ==>
        values[w] == if j in targets then ValueFor(targets, values, j) else CellAt(rows[j], column)
    else
      j in targets ==> CellAt(rows[j], column) == ValueFor(targets, values, j)
  }

  /** The value the statement sets in matched row `j`. */
  function ValueFor(targets: seq<int>, values: seq<Cell>, j: int): (v: Cell)
    requires j in targets && |targets| == |values|
    ensures exists i :: 0 <= i < |targets| && targets[i] == j && v == values[i]
  {
    if targets[0] == j then values[0] else ValueFor(targets[1..], values[1..], j)
  }

  lemma RowAgreesIff(rows: Rows, targets: seq<int>, values: seq<Cell>, spec: TableSpec, column: nat, j: nat, after: Row, sql: Row)
    requires j < |rows| && |targets| == |values| && TargetsOk(targets, |rows|) && column < |rows[j]|
    requires LeftAs(after, rows, targets, values, spec, column, j, |targets|)
    requires sql == if j in targets then rows[j][column := ValueFor(targets, values, j)] else rows[j]
    ensures after == sql <==> RowAgrees(rows, targets, values, spec, column, j)
  {
    var endKey, ends := spec.endKeyColumns, column == spec.endSnapshotColumn;
    var want := if j in targets then ValueFor(targets, values, j) else CellAt(rows[j], column);
    assert sql == rows[j][column := want];
    if j in targets {
      var i :| 0 <= i < |targets| && targets[i] == j;
      assert Hits(rows, targets, endKey, i, j);
    }
    if i :| 0 <= i < |targets| && Hits(rows, targets, endKey, i, j) {
      SomeDecides(rows, targets, endKey, ends, j, |targets|, i);
    }
    assert sql[column] == want;
  }

  lemma TablesAgreeIff(rows: Rows, targets: seq<int>, values: seq<Cell>, ops: seq<StagedOp>, spec: TableSpec, column: nat,
                       sql: Rows)
    requires KeyedMoves(rows, targets, values, ops, spec, column) && |sql| == |rows|
    requires forall j :: 0 <= j < |rows| ==>
               sql[j] == if j in targets then rows[j][column := ValueFor(targets, values, j)] else rows[j]
    ensures MoveAppliedAll(rows, ops, spec, column) == sql
            <==> forall j :: 0 <= j < |rows| ==> RowAgrees(rows, targets, values, spec, column, j)
  {
    var after := MoveAppliedAll(rows, ops, spec, column);
    assert ops[..|ops|] == ops;
    forall j | 0 <= j < |rows|
      ensures |after| == |rows| && (after[j] == sql[j] <==> RowAgrees(rows, targets, values, spec, column, j))
    {
      MovedPrefix(rows, targets, values, ops, spec, column, j, |ops|);
      RowAgreesIff(rows, targets, values, spec, column, j, after[j], sql[j]);
    }
    MovesKeepLength(rows, ops, spec, column);
  }

  lemma {:induction false} MovesKeepLength(rows: Rows, ops: seq<StagedOp>, spec: TableSpec, column: nat)
    ensures |MoveAppliedAll(rows, ops, spec, column)| == |rows|
  {
    if ops != [] {
      MovesKeepLength(rows, ops[..|ops| - 1], spec, column);
    }
  }

  function SetValues(inputs: Rows, source: nat): seq<Cell> {
    seq(|inputs|, i requires 0 <= i < |inputs| => CellAt(inputs[i], source))
  }

  lemma SqlSets(rows: Rows, targets: seq<int>, inputs: Rows, column: nat, source: nat, j: nat)
    requires |targets| == |inputs| && TargetsOk(targets, |rows|) && j < |rows| && column < |rows[j]|
    ensures var values := SetValues(inputs, source);
            SqlUpdate(rows, [SetTarget(column, source)], inputs, targets)[j] ==
            if j in targets then rows[j][column := ValueFor(targets, values, j)] else rows[j]
  {
    var values := SetValues(inputs, source);
    ReplacedAt(rows, targets, OverlaidAll(rows, [SetTarget(column, source)], inputs, targets), j);
    if j in targets {
      var i :| 0 <= i < |targets| && targets[i] == j && ValueFor(targets, values, j) == values[i];
      SetOne(rows[j], column, source, inputs[i]);
    }
  }

  // ----- Reading moves again -----

  ghost predicate AllNumbers(values: seq<Cell>) {
    forall i :: 0 <= i < |values| ==> values[i].Num?
  }

  /** The staged rows of one lifecycle statement: the operation, the key cells of
      the matched row, the value. */
  ghost predicate StagesMove(spec: TableSpec, ends: bool, rows: Rows, targets: seq<int>, values: seq<Cell>, ops: seq<StagedOp>) {
    && TargetsOk(targets, |rows|) && |targets| == |values| == |ops|
    && forall i :: 0 <= i < |ops| ==>
         && Stages(spec, ops[i], if ends then StageSetEnd else StageSetBegin)
         && ops[i].cells == Pick(rows[targets[i]], spec.endKeyColumns) + [values[i]]
  }

  /** A number under a served key decodes as it is; anything else does not decode. */
  lemma MoveDecodesIff(spec: TableSpec, ends: bool, row: Row, value: Cell)
    requires LifecycleSpec(spec, ends) && AllStorable(spec.shapes, row)
    ensures var shapes, cells := PickShapes(spec.shapes, spec.endKeyColumns) + [ID], Pick(row, spec.endKeyColumns) + [value];
            && (DecodeCells(shapes, cells).Ok? <==> value.Num?)
            && (value.Num? ==> DecodeCells(shapes, cells) == Ok(cells))
  {
    var shapes, cells := PickShapes(spec.shapes, spec.endKeyColumns) + [ID], Pick(row, spec.endKeyColumns) + [value];
    PickedStorable(spec.shapes, row, spec.endKeyColumns);
    DecodeIs(shapes, cells);
    StoredIff(shapes, cells);
    if value.Num? {
      assert AllStorable(shapes, cells);
    } else {
      assert !Accepts(shapes[|cells| - 1], cells[|cells| - 1]);
    }
  }

  /** One staged move read again, when the core looks at it. */
  lemma ReadOneMove(spec: TableSpec, ends: bool, before: Rows, row: Row, value: Cell, op: StagedOp)
    requires LifecycleSpec(spec, ends) && AllStorable(spec.shapes, row)
    requires MoveReadingOf(spec.writeKind, ends).MovesAll? || MoveReadingOf(spec.writeKind, ends).MovesFirst?
    requires Stages(spec, op, if ends then StageSetEnd else StageSetBegin)
    requires op.cells == Pick(row, spec.endKeyColumns) + [value]
    ensures ReadOp(spec, before, op).Ok? <==> value.Num?
    ensures value.Num? ==>
              ReadOp(spec, before, op) == Ok(MoveRead(spec, MoveReadingOf(spec.writeKind, ends), before,
                                                      Pick(row, spec.endKeyColumns), value, MovedColumn(spec, ends)))
  {
    MoveDecodesIff(spec, ends, row, value);
    assert op.cells[..|op.cells| - 1] == Pick(row, spec.endKeyColumns);
  }

  /** With one live version per entity, ending the first is ending all of them. */
  lemma {:induction false} FirstIsAll(rows: Rows, keyCells: Row, value: Cell, endKey: seq<nat>, endColumn: nat, column: nat)
    requires OneLive(rows, endKey, endColumn)
    ensures MoveFirst(rows, keyCells, value, endKey, endColumn, column)
            == MoveApplied(rows, keyCells, value, endKey, endColumn, column)
  {
    if rows != [] {
      var all := MoveApplied(rows, keyCells, value, endKey, endColumn, column);
      assert OneLive(rows[1..], endKey, endColumn);
      FirstIsAll(rows[1..], keyCells, value, endKey, endColumn, column);
      assert all[1..] == MoveApplied(rows[1..], keyCells, value, endKey, endColumn, column);
      if Pick(rows[0], endKey) == keyCells && IsLive(rows[0], endColumn) {
        forall i | 0 < i < |rows|
          ensures all[i] == rows[i]
        {
          assert IsLive(rows[i], endColumn) ==> !SameKey(rows[0], rows[i], endKey);
        }
        assert column < |rows[0]| ==> all == [rows[0][column := value]] + rows[1..];
      }
    }
  }

  lemma EndKeepsOneLive(rows: Rows, keyCells: Row, value: Cell, endKey: seq<nat>, endColumn: nat)
    requires OneLive(rows, endKey, endColumn) && value.Num? && endColumn !in endKey
    ensures OneLive(MoveApplied(rows, keyCells, value, endKey, endColumn, endColumn), endKey, endColumn)
  {
    var after := MoveApplied(rows, keyCells, value, endKey, endColumn, endColumn);
    forall i, j | 0 <= i < j < |after| && IsLive(after[i], endColumn) && IsLive(after[j], endColumn)
      ensures !SameKey(after[i], after[j], endKey)
    {
      assert after[i] == rows[i] && after[j] == rows[j];
    }
  }

  lemma {:induction false} ReadMoves(spec: TableSpec, ends: bool, rows: Rows, targets: seq<int>, values: seq<Cell>,
                                     ops: seq<StagedOp>, k: nat)
    requires LifecycleSpec(spec, ends) && ServedAs(spec, rows) && StagesMove(spec, ends, rows, targets, values, ops)
    requires AllNumbers(values) && k <= |ops|
    requires MoveReadingOf(spec.writeKind, ends).MovesAll? || MoveReadingOf(spec.writeKind, ends).MovesFirst?
    requires MoveReadingOf(spec.writeKind, ends).MovesFirst? ==> ends && OneLive(rows, spec.endKeyColumns, spec.endSnapshotColumn)
    ensures var after := MoveAppliedAll(rows, ops[..k], spec, MovedColumn(spec, ends));
            && ReadAll(spec, rows, ops[..k]) == Ok(after)
            && (MoveReadingOf(spec.writeKind, ends).MovesFirst? ==> OneLive(after, spec.endKeyColumns, spec.endSnapshotColumn))
  {
    if k > 0 {
      var n, column := k - 1, MovedColumn(spec, ends);
      ReadMoves(spec, ends, rows, targets, values, ops, n);
      ReadSnoc(spec, rows, ops, n);
      MoveAppliedSnoc(rows, ops, n, spec, column);
      var before, key := MoveAppliedAll(rows, ops[..n], spec, column), Pick(rows[targets[n]], spec.endKeyColumns);
      ReadOneMove(spec, ends, before, rows[targets[n]], values[n], ops[n]);
      assert ops[n].cells[..|ops[n].cells| - 1] == key;
      if MoveReadingOf(spec.writeKind, ends).MovesFirst? {
        FirstIsAll(before, key, values[n], spec.endKeyColumns, spec.endSnapshotColumn, column);
        EndKeepsOneLive(before, key, values[n], spec.endKeyColumns, spec.endSnapshotColumn);
      }
    }
  }

  lemma {:induction false} ReadMovesNumbers(spec: TableSpec, ends: bool, rows: Rows, targets: seq<int>, values: seq<Cell>,
                                            ops: seq<StagedOp>, k: nat, i: nat)
    requires LifecycleSpec(spec, ends) && ServedAs(spec, rows) && StagesMove(spec, ends, rows, targets, values, ops)
    requires MoveReadingOf(spec.writeKind, ends).MovesAll? || MoveReadingOf(spec.writeKind, ends).MovesFirst?
    requires i < k <= |ops| && ReadAll(spec, rows, ops[..k]).Ok?
    ensures values[i].Num?
  {
    var n := k - 1;
    ReadSnoc(spec, rows, ops, n);
    if i < n {
      ReadMovesNumbers(spec, ends, rows, targets, values, ops, n, i);
    } else {
      ReadOneMove(spec, ends, ReadAll(spec, rows, ops[..n]).value, rows[targets[n]], values[n], ops[n]);
    }
  }

  /** Where the core does not look at the statement it changes nothing, and where it
      does not define it a single staged row fails every read. */
  lemma {:induction false} ReadNoMoves(spec: TableSpec, ends: bool, rows: Rows, ops: seq<StagedOp>)
    requires forall i :: 0 <= i < |ops| ==> Stages(spec, ops[i], if ends then StageSetEnd else StageSetBegin)
    ensures MoveReadingOf(spec.writeKind, ends).Unseen? ==> ReadAll(spec, rows, ops) == Ok(rows)
    ensures MoveReadingOf(spec.writeKind, ends).Refuses? && ops != [] ==> ReadAll(spec, rows, ops) == Err(NotDefined)
  {
    if ops != [] {
      ReadNoMoves(spec, ends, rows, ops[..|ops| - 1]);
    }
  }

  // ----- Whole statements -----

  /** What reading again leaves is SQL's UPDATE. Where the core moves versions: every
      value is a number, and for every row of the table the staged row that decides
      it carries the value SQL gives it, or it holds that value already. Where the
      core does not look: every matched row holds its value already. Where the core
      refuses: nothing was matched. */
  ghost predicate MovesAgree(spec: TableSpec, ends: bool, rows: Rows, targets: seq<int>, values: seq<Cell>)
    requires |targets| == |values| && TargetsOk(targets, |rows|)
  {
    var column := MovedColumn(spec, ends);
    match MoveReadingOf(spec.writeKind, ends)
    case Refuses => targets == []
    case Unseen => forall i :: 0 <= i < |targets| ==> CellAt(rows[targets[i]], column) == values[i]
    case _ => AllNumbers(values) && forall j :: 0 <= j < |rows| ==> RowAgrees(rows, targets, values, spec, column, j)
  }

  /** For every lifecycle table, every statement the planner takes on it and any
      matched rows, live or history: reading again leaves SQL's UPDATE if and only
      if `MovesAgree`. A tag's container is taken to hold one live entry per key. */
  lemma MovesMeanUpdateIff(spec: TableSpec, sets: seq<SetTarget>, statement: Statement, rowidColumn: nat, inputs: Rows, rows: Rows)
    requires spec in VERSIONED && PlanUpdate(spec, sets, false) == Staging(statement)
    requires ServedAs(spec, rows) && TargetsOk(Targets(inputs, rowidColumn), |rows|)
    requires spec == TAG ==> OneLive(rows, spec.endKeyColumns, spec.endSnapshotColumn)
    ensures statement.SetEnd? || statement.SetBegin?
    ensures var targets, r := Targets(inputs, rowidColumn), StagedFor(spec, statement, rowidColumn, inputs, rows);
            && r.Ok?
            && (ReadAll(spec, rows, r.value) == Ok(SqlUpdate(rows, sets, inputs, targets)) <==>
                MovesAgree(spec, statement.SetEnd?, rows, targets, SetValues(inputs, statement.source)))
  {
    LifecyclePlans(spec, sets, statement);
    var ends, targets := statement.SetEnd?, Targets(inputs, rowidColumn);
    var values := SetValues(inputs, statement.source);
    LifecycleSpecs(spec, ends);
    StagedOps(spec, statement, rowidColumn, inputs, rows);
    var ops := StagedFor(spec, statement, rowidColumn, inputs, rows).value;
    var sql := SqlUpdate(rows, sets, inputs, targets);
    forall i | 0 <= i < |ops|
      ensures Stages(spec, ops[i], if ends then StageSetEnd else StageSetBegin)
      ensures ops[i].cells == Pick(rows[targets[i]], spec.endKeyColumns) + [values[i]]
    {
      assert ops[i] == OpFor(spec, statement, rows[targets[i]], inputs[i]);
    }
    forall j | 0 <= j < |rows|
      ensures sql[j] == if j in targets then rows[j][MovedColumn(spec, ends) := ValueFor(targets, values, j)] else rows[j]
    {
      SqlSets(rows, targets, inputs, MovedColumn(spec, ends), statement.source, j);
    }
    TagKind(spec, ends);
    StagedAgreeIff(spec, ends, rows, targets, values, ops, sql);
  }

  lemma StagedAgreeIff(spec: TableSpec, ends: bool, rows: Rows, targets: seq<int>, values: seq<Cell>, ops: seq<StagedOp>, sql: Rows)
    requires LifecycleSpec(spec, ends) && ServedAs(spec, rows)
    requires StagesMove(spec, ends, rows, targets, values, ops) && |sql| == |rows|
    requires MoveReadingOf(spec.writeKind, ends).MovesFirst? ==> ends && OneLive(rows, spec.endKeyColumns, spec.endSnapshotColumn)
    requires forall j :: 0 <= j < |rows| ==>
               sql[j] == if j in targets then rows[j][MovedColumn(spec, ends) := ValueFor(targets, values, j)] else rows[j]
    ensures ReadAll(spec, rows, ops) == Ok(sql) <==> MovesAgree(spec, ends, rows, targets, values)
  {
    var column := MovedColumn(spec, ends);
    ReadNoMoves(spec, ends, rows, ops);
    assert ops[..|ops|] == ops;
    match MoveReadingOf(spec.writeKind, ends)
    case Refuses =>
      assert targets == [] ==> rows == sql;
    case Unseen =>
      UnseenAgreesIff(rows, targets, values, column, sql);
    case _ =>
      MovingAgreeIff(spec, ends, rows, targets, values, ops, sql);
  }

  lemma MovingAgreeIff(spec: TableSpec, ends: bool, rows: Rows, targets: seq<int>, values: seq<Cell>, ops: seq<StagedOp>, sql: Rows)
    requires LifecycleSpec(spec, ends) && ServedAs(spec, rows)
    requires StagesMove(spec, ends, rows, targets, values, ops) && |sql| == |rows|
    requires MoveReadingOf(spec.writeKind, ends).MovesAll? || MoveReadingOf(spec.writeKind, ends).MovesFirst?
    requires MoveReadingOf(spec.writeKind, ends).MovesFirst? ==> ends && OneLive(rows, spec.endKeyColumns, spec.endSnapshotColumn)
    requires forall j :: 0 <= j < |rows| ==>
               sql[j] == if j in targets then rows[j][MovedColumn(spec, ends) := ValueFor(targets, values, j)] else rows[j]
    ensures ReadAll(spec, rows, ops) == Ok(sql) <==> MovesAgree(spec, ends, rows, targets, values)
  {
    var column := MovedColumn(spec, ends);
    assert ops[..|ops|] == ops;
    if AllNumbers(values) {
      ReadMoves(spec, ends, rows, targets, values, ops, |ops|);
      assert KeyedMoves(rows, targets, values, ops, spec, column);
      TablesAgreeIff(rows, targets, values, ops, spec, column, sql);
    } else {
      var i :| 0 <= i < |values| && !values[i].Num?;
      if ReadAll(spec, rows, ops).Ok? {
        ReadMovesNumbers(spec, ends, rows, targets, values, ops, |ops|, i);
      }
    }
  }

  lemma TagKind(spec: TableSpec, ends: bool)
    requires spec in VERSIONED
    ensures MoveReadingOf(spec.writeKind, ends).MovesFirst? ==> spec == TAG && ends
  {
    var k :| 0 <= k < |VERSIONED| && VERSIONED[k] == spec;
  }

  lemma UnseenAgreesIff(rows: Rows, targets: seq<int>, values: seq<Cell>, column: nat, sql: Rows)
    requires TargetsOk(targets, |rows|) && |targets| == |values| && |sql| == |rows|
    requires forall j :: 0 <= j < |rows| ==> column < |rows[j]|
    requires forall j :: 0 <= j < |rows| ==>
               sql[j] == if j in targets then rows[j][column := ValueFor(targets, values, j)] else rows[j]
    ensures rows == sql <==> forall i :: 0 <= i < |targets| ==> CellAt(rows[targets[i]], column) == values[i]
  {
    forall i | 0 <= i < |targets|
      ensures rows[targets[i]] == sql[targets[i]] <==> CellAt(rows[targets[i]], column) == values[i]
    {
      var j := targets[i];
      UnseenRow(targets, values, column, i, rows[j], sql[j], |rows|);
    }
    SameWhereTargeted(rows, targets, sql);
  }

  lemma SameWhereTargeted(rows: Rows, targets: seq<int>, sql: Rows)
    requires TargetsOk(targets, |rows|) && |sql| == |rows|
    requires forall j :: 0 <= j < |rows| && j !in targets ==> sql[j] == rows[j]
    ensures rows == sql <==> forall i :: 0 <= i < |targets| ==> rows[targets[i]] == sql[targets[i]]
  {
    if rows != sql {
      var j :| 0 <= j < |rows| && rows[j] != sql[j];
      var i :| 0 <= i < |targets| && targets[i] == j;
    }
  }

  lemma UnseenRow(targets: seq<int>, values: seq<Cell>, column: nat, i: nat, row: Row, sql: Row, count: nat)
    requires TargetsOk(targets, count) && |targets| == |values| && i < |targets| && column < |row|
    requires sql == row[column := ValueFor(targets, values, targets[i])]
    ensures row == sql <==> CellAt(row, column) == values[i]
  {
    ValueForIs(targets, values, i, count);
    SetKeepsIff(row, column, values[i]);
  }

  lemma SetKeepsIff(row: Row, column: nat, value: Cell)
    requires column < |row|
    ensures row[column := value] == row <==> CellAt(row, column) == value
  {
    assert row[column := value][column] == value;
  }

  lemma ValueForIs(targets: seq<int>, values: seq<Cell>, i: nat, count: nat)
    requires TargetsOk(targets, count) && |targets| == |values| && i < |targets|
    ensures ValueFor(targets, values, targets[i]) == values[i]
  {
    var k :| 0 <= k < |targets| && targets[k] == targets[i] && ValueFor(targets, values, targets[i]) == values[k];
    assert !(k < i) && !(i < k);
  }

  /** Among live rows only the row itself names its entity. */
  lemma LiveRowAgrees(spec: TableSpec, column: nat, targets: seq<int>, values: seq<Cell>, rows: Rows, j: nat)
    requires OneLive(rows, spec.endKeyColumns, spec.endSnapshotColumn) && j < |rows| && |targets| == |values|
    requires TargetsOk(targets, |rows|)
    requires forall i :: 0 <= i < |targets| ==> IsLive(rows[targets[i]], spec.endSnapshotColumn)
    ensures RowAgrees(rows, targets, values, spec, column, j)
  {
    if IsLive(rows[j], spec.endSnapshotColumn) {
      forall i | Hits(rows, targets, spec.endKeyColumns, i, j)
        ensures targets[i] == j
      {
        assert targets[i] == j || targets[i] < j || j < targets[i];
        assert SameKey(rows[j], rows[targets[i]], spec.endKeyColumns);
      }
    }
  }

  /** On live rows, numbers set where the core moves versions are always SQL's UPDATE:
      exactly those rows change, each to its own value, and no other. */
  lemma MovesMeanUpdate(spec: TableSpec, sets: seq<SetTarget>, statement: Statement, rowidColumn: nat, inputs: Rows, rows: Rows)
    requires spec in VERSIONED && PlanUpdate(spec, sets, false) == Staging(statement) && spec != COLUMN_TAG
    requires statement.SetEnd? || spec == DATA_FILE
    requires ServedAs(spec, rows) && OneLive(rows, spec.endKeyColumns, spec.endSnapshotColumn)
    requires TargetsOk(Targets(inputs, rowidColumn), |rows|)
    requires forall i :: 0 <= i < |inputs| ==> CellAt(inputs[i], sets[0].source).Num?
    requires forall i :: 0 <= i < |inputs| ==> IsLive(rows[Targets(inputs, rowidColumn)[i]], spec.endSnapshotColumn)
    ensures var targets, r := Targets(inputs, rowidColumn), StagedFor(spec, statement, rowidColumn, inputs, rows);
            r.Ok? && ReadAll(spec, rows, r.value) == Ok(SqlUpdate(rows, sets, inputs, targets))
  {
    var targets, ends := Targets(inputs, rowidColumn), statement.SetEnd?;
    MovesMeanUpdateIff(spec, sets, statement, rowidColumn, inputs, rows);
    LifecyclePlans(spec, sets, statement);
    LifecycleSpecs(spec, ends);
    var values := SetValues(inputs, statement.source);
    forall j | 0 <= j < |rows|
      ensures RowAgrees(rows, targets, values, spec, MovedColumn(spec, ends), j)
    {
      LiveRowAgrees(spec, MovedColumn(spec, ends), targets, values, rows, j);
    }
    SeenKinds(spec, ends);
  }

  lemma SeenKinds(spec: TableSpec, ends: bool)
    requires spec in VERSIONED && spec != COLUMN_TAG && (ends || spec == DATA_FILE)
    ensures MoveReadingOf(spec.writeKind, ends).MovesAll? || MoveReadingOf(spec.writeKind, ends).MovesFirst?
  {
    var k :| 0 <= k < |VERSIONED| && VERSIONED[k] == spec;
  }

  /** One matched row: reading its move again is SQL's UPDATE of it if and only if the
      core looks at the move, the value is a number, and the row is the live version,
      or holds the value already and so does any live version of its entity. Where
      the core does not look, only if the row holds the value already. */
  lemma MoveExactIff(spec: TableSpec, ends: bool, rows: Rows, i: nat, value: Cell, op: StagedOp)
    requires spec in VERSIONED && ServedAs(spec, rows) && OneLive(rows, spec.endKeyColumns, spec.endSnapshotColumn) && i < |rows|
    requires Stages(spec, op, if ends then StageSetEnd else StageSetBegin)
    requires op.cells == Pick(rows[i], spec.endKeyColumns) + [value]
    ensures var endKey, endColumn, column := spec.endKeyColumns, spec.endSnapshotColumn, MovedColumn(spec, ends);
            && column < |rows[i]|
            && (ReadOp(spec, rows, op) == Ok(rows[i := rows[i][column := value]]) <==>
                match MoveReadingOf(spec.writeKind, ends)
                case Refuses => false
                case Unseen => CellAt(rows[i], column) == value
                case _ => value.Num? && (|| IsLive(rows[i], endColumn)
                                         || (CellAt(rows[i], column) == value && LiveAlready(rows, i, value, endKey, endColumn, column))))
  {
    LifecycleSpecs(spec, ends);
    var endKey, endColumn, column := spec.endKeyColumns, spec.endSnapshotColumn, MovedColumn(spec, ends);
    var reading := MoveReadingOf(spec.writeKind, ends);
    if reading.Unseen? {
      assert rows[i][column := value][column] == value;
      assert rows == rows[i := rows[i][column := value]] ==> rows[i] == rows[i][column := value];
      assert rows[i][column] == value ==> rows[i][column := value] == rows[i];
    } else if !reading.Refuses? {
      ReadOneMove(spec, ends, rows, rows[i], value, op);
      MoveAppliedIff(rows, i, value, endKey, endColumn, column);
      FirstIsAll(rows, Pick(rows[i], endKey), value, endKey, endColumn, column);
    }
  }

  /** On every other table of entity records `SET begin_snapshot` is planned and
      staged, and from the first matched row on the table cannot be read. */
  lemma BeginMoveRefused(spec: TableSpec, sets: seq<SetTarget>, statement: Statement, rowidColumn: nat, inputs: Rows, rows: Rows)
    requires spec in VERSIONED && spec != DATA_FILE && spec != TAG && spec != COLUMN_TAG
    requires PlanUpdate(spec, sets, false) == Staging(statement) && statement.SetBegin?
    requires TargetsOk(Targets(inputs, rowidColumn), |rows|) && inputs != []
    ensures var r := StagedFor(spec, statement, rowidColumn, inputs, rows);
            r.Ok? && ReadAll(spec, rows, r.value) == Err(NotDefined)
  {
    StagedOps(spec, statement, rowidColumn, inputs, rows);
    var ops := StagedFor(spec, statement, rowidColumn, inputs, rows).value;
    var targets := Targets(inputs, rowidColumn);
    assert forall i :: 0 <= i < |ops| ==> ops[i] == OpFor(spec, statement, rows[targets[i]], inputs[i]);
    assert MoveReadingOf(spec.writeKind, false).Refuses? by {
      var k :| 0 <= k < |VERSIONED| && VERSIONED[k] == spec;
    }
    ReadNoMoves(spec, false, rows, ops);
  }

  /** `SET end_snapshot` on column tags and `SET begin_snapshot` on either kind of tag is
      planned and staged, and reading again shows the table as it was. */
  lemma TagMoveUnseen(spec: TableSpec, sets: seq<SetTarget>, statement: Statement, rowidColumn: nat, inputs: Rows, rows: Rows)
    requires spec == COLUMN_TAG || (spec == TAG && statement.SetBegin?)
    requires PlanUpdate(spec, sets, false) == Staging(statement) && TargetsOk(Targets(inputs, rowidColumn), |rows|)
    ensures var r := StagedFor(spec, statement, rowidColumn, inputs, rows);
            r.Ok? && ReadAll(spec, rows, r.value) == Ok(rows)
  {
    assert VERSIONED[8] == TAG && VERSIONED[9] == COLUMN_TAG;
    LifecyclePlans(spec, sets, statement);
    StagedOps(spec, statement, rowidColumn, inputs, rows);
    var ops := StagedFor(spec, statement, rowidColumn, inputs, rows).value;
    var targets := Targets(inputs, rowidColumn);
    assert forall i :: 0 <= i < |ops| ==> ops[i] == OpFor(spec, statement, rows[targets[i]], inputs[i]);
    ReadNoMoves(spec, statement.SetEnd?, rows, ops);
  }

  /** Of two live entries with one key a tag's container ends the first only. */
  lemma SecondTagStays(a: Row, b: Row, value: int)
    requires AllStorable(TAG.shapes, a) && AllStorable(TAG.shapes, b) && SameKey(a, b, TAG.endKeyColumns)
    requires IsLive(a, TAG.endSnapshotColumn) && IsLive(b, TAG.endSnapshotColumn)
    ensures TAG.endSnapshotColumn < |a|
    ensures ReadOp(TAG, [a, b], OpFor(TAG, SetEnd(0), b, [Num(value)])) == Ok([a[TAG.endSnapshotColumn := Num(value)], b])
  {
    assert TAG == VERSIONED[8];
    LifecycleSpecs(TAG, true);
    var key, column := TAG.endKeyColumns, TAG.endSnapshotColumn;
    var op := OpFor(TAG, SetEnd(0), b, [Num(value)]);
    assert op.cells == Pick(b, key) + [Num(value)];
    ReadOneMove(TAG, true, [a, b], b, Num(value), op);
    assert Pick(a, key) == Pick(b, key);
    assert MoveFirst([a, b], Pick(b, key), Num(value), key, column, column) == [a[column := Num(value)]] + [a, b][1..];
    assert [a, b][1..] == [b] && [a[column := Num(value)]] + [b] == [a[column := Num(value)], b];
  }

  /** A table where the matched row is history and the live version is ended instead. */
  lemma HistoryRowMisses() returns (rows: Rows, op: StagedOp)
    ensures |rows| == 2 && ServedAs(PARTITION_INFO, rows)
    ensures op == OpFor(PARTITION_INFO, SetEnd(0), rows[0], [Num(9)])
    ensures ReadOp(PARTITION_INFO, rows, op).Ok?
    ensures ReadOp(PARTITION_INFO, rows, op).value != rows[0 := rows[0][3 := Num(9)]]
  {
    rows := [[Num(7), Num(1), Num(2), Num(3)], [Num(7), Num(1), Num(3), Null]];
    op := OpFor(PARTITION_INFO, SetEnd(0), rows[0], [Num(9)]);
    assert IsLive(rows[1], 3) && SameKey(rows[1], rows[0], [1, 0]);
    assert PARTITION_INFO == VERSIONED[6];
    MoveExactIff(PARTITION_INFO, true, rows, 0, Num(9), op);
    ReadOneMove(PARTITION_INFO, true, rows, rows[0], Num(9), op);
  }
}

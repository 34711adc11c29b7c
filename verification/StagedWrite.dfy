/** UPDATE and DELETE on the metadata tables: how a statement is planned, and what
    its sink stages for each rowid. */
module StagedWrite {
  import opened Values

  /** What a column's decoder takes: a type, and whether NULL is one of its values. */
  datatype Shape = Shape(kind: CellKind, optional: bool)

  datatype CellKind = IntegerCell | BoolCell | TextCell

  const ID := Shape(IntegerCell, false)
  const OPT_ID := Shape(IntegerCell, true)
  const TEXT := Shape(TextCell, false)
  const OPT_TEXT := Shape(TextCell, true)
  const FLAG := Shape(BoolCell, false)
  const OPT_FLAG := Shape(BoolCell, true)

  /** What a metadata table's spec says about writing to it, and the shapes the
      core's row decoder gives its columns. */
  datatype TableSpec = TableSpec(
    columnNames: seq<string>, shapes: seq<Shape>, writeKind: int, endKeyColumns: seq<nat>, endSnapshotColumn: nat,
    deleteKeyColumns: seq<nat>, overlayUpdatable: bool)

  const VOID_INSERTABLE: int := -2

  // The three statistics tables.

  const TABLE_STATS := TableSpec(
    ["table_id", "record_count", "next_row_id", "file_size_bytes"], [ID, ID, ID, ID], 8, [], 0, [0], true)

  const TABLE_COLUMN_STATS := TableSpec(
    ["table_id", "column_id", "contains_null", "contains_nan", "min_value", "max_value", "extra_stats"],
    [ID, ID, OPT_FLAG, OPT_FLAG, OPT_TEXT, OPT_TEXT, OPT_TEXT],
    9, [], 0, [0, 1], true)

  const FILE_COLUMN_STATS := TableSpec(
    ["data_file_id", "table_id", "column_id", "column_size_bytes", "value_count", "null_count", "min_value", "max_value",
     "contains_nan", "extra_stats"],
    [ID, ID, ID, ID, ID, ID, OPT_TEXT, OPT_TEXT, OPT_FLAG, OPT_TEXT],
    10, [], 0, [0, 1, 2], true)

  const STATISTICS := [TABLE_STATS, TABLE_COLUMN_STATS, FILE_COLUMN_STATS]

  // The eleven tables whose rows have a lifecycle.

  const SCHEMA := TableSpec(
    ["schema_id", "schema_uuid", "begin_snapshot", "end_snapshot", "schema_name", "path", "path_is_relative"],
    [ID, TEXT, ID, OPT_ID, TEXT, TEXT, FLAG], 2, [0], 3, [0, 3], false)

  const TABLE := TableSpec(
    ["table_id", "table_uuid", "begin_snapshot", "end_snapshot", "schema_id", "table_name", "path", "path_is_relative"],
    [ID, TEXT, ID, OPT_ID, ID, TEXT, TEXT, FLAG], 3, [0], 3, [0, 3], false)

  const VIEW := TableSpec(
    ["view_id", "view_uuid", "begin_snapshot", "end_snapshot", "schema_id", "view_name", "dialect", "sql", "column_aliases"],
    [ID, TEXT, ID, OPT_ID, ID, TEXT, TEXT, TEXT, OPT_TEXT], 4, [0], 3, [0, 3], false)

  const COLUMN := TableSpec(
    ["column_id", "begin_snapshot", "end_snapshot", "table_id", "column_order", "column_name", "column_type",
     "initial_default", "default_value", "nulls_allowed", "parent_column", "default_value_type", "default_value_dialect"],
    [ID, ID, OPT_ID, ID, ID, TEXT, TEXT, OPT_TEXT, OPT_TEXT, FLAG, OPT_ID, OPT_TEXT, OPT_TEXT], 5, [3, 0], 2, [3, 0, 2], false)

  const DATA_FILE := TableSpec(
    ["data_file_id", "table_id", "begin_snapshot", "end_snapshot", "file_order", "path", "path_is_relative", "file_format",
     "record_count", "file_size_bytes", "footer_size", "row_id_start", "partition_id", "encryption_key", "mapping_id",
     "partial_max"],
    [ID, ID, ID, OPT_ID, OPT_ID, TEXT, FLAG, TEXT, ID, ID, ID, OPT_ID, OPT_ID, OPT_TEXT, OPT_ID, OPT_ID],
    6, [1, 0], 3, [1, 0, 3], false)

  const DELETE_FILE := TableSpec(
    ["delete_file_id", "table_id", "begin_snapshot", "end_snapshot", "data_file_id", "path", "path_is_relative", "format",
     "delete_count", "file_size_bytes", "footer_size", "encryption_key", "partial_max"],
    [ID, ID, ID, OPT_ID, ID, TEXT, FLAG, TEXT, ID, ID, ID, OPT_TEXT, OPT_ID], 7, [1, 0], 3, [1, 0, 3], false)

  const PARTITION_INFO := TableSpec(
    ["partition_id", "table_id", "begin_snapshot", "end_snapshot"], [ID, ID, ID, OPT_ID], 12, [1, 0], 3, [1, 0, 3], false)

  const SORT_INFO := TableSpec(
    ["sort_id", "table_id", "begin_snapshot", "end_snapshot"], [ID, ID, ID, OPT_ID], 15, [1, 0], 3, [1, 0, 3], false)

  const TAG := TableSpec(
    ["object_id", "begin_snapshot", "end_snapshot", "key", "value"], [ID, ID, OPT_ID, TEXT, TEXT], 17, [0, 3], 2, [0, 3, 1],
    false)

  const COLUMN_TAG := TableSpec(
    ["table_id", "column_id", "begin_snapshot", "end_snapshot", "key", "value"], [ID, ID, ID, OPT_ID, TEXT, TEXT],
    18, [0, 1, 4], 3, [0, 1, 4, 2], false)

  const MACRO := TableSpec(
    ["schema_id", "macro_id", "macro_name", "begin_snapshot", "end_snapshot"], [ID, ID, TEXT, ID, OPT_ID], 20, [1], 4, [1, 4],
    false)

  const VERSIONED := [SCHEMA, TABLE, VIEW, COLUMN, DATA_FILE, DELETE_FILE, PARTITION_INFO, SORT_INFO, TAG, COLUMN_TAG, MACRO]

  // `ducklake_metadata`.

  const OPTIONS := TableSpec(["key", "value", "scope", "scope_id"], [TEXT, OPT_TEXT, OPT_TEXT, OPT_ID], 25, [], 0, [0, 2, 3], true)

  // ----- Planning -----

  /** One SET target: its column, and the sink-chunk column its value arrives in. */
  datatype SetTarget = SetTarget(column: nat, source: nat)

  /** What a planned sink does with each row. */
  datatype Statement =
    | Overlay(sets: seq<SetTarget>)
    | SetEnd(source: nat)
    | SetBegin(source: nat)
    | KeyedDelete

  datatype Plan =
    | Staging(statement: Statement)
    | RegistryDelete
    /** Binds, and fails if a row ever arrives. */
    | Void
    | Refused

  predicate SetsOnly(spec: TableSpec, sets: seq<SetTarget>, name: string) {
    |sets| == 1 && sets[0].column < |spec.columnNames| && spec.columnNames[sets[0].column] == name
  }

  predicate SetsKey(spec: TableSpec, sets: seq<SetTarget>) {
    exists j :: 0 <= j < |sets| && sets[j].column in spec.deleteKeyColumns
  }

  function PlanUpdate(spec: TableSpec, sets: seq<SetTarget>, returning: bool): Plan {
    if returning then Refused
    else if spec.endKeyColumns != [] then
      if |sets| == 1 && sets[0].column == spec.endSnapshotColumn then Staging(SetEnd(sets[0].source))
      else if SetsOnly(spec, sets, "begin_snapshot") then Staging(SetBegin(sets[0].source))
      else Refused
    else if spec.overlayUpdatable then
      if SetsKey(spec, sets) then Refused else Staging(Overlay(sets))
    else if SetsOnly(spec, sets, "end_snapshot") then Void
    else Refused
  }

  function PlanDelete(spec: TableSpec, returning: bool): Plan {
    if returning then Refused
    else if spec.deleteKeyColumns != [] then Staging(KeyedDelete)
    else if spec.writeKind == VOID_INSERTABLE then RegistryDelete
    else Void
  }

  // ----- What a sink stages -----

  function Pick(row: Row, columns: seq<nat>): Row {
    seq(|columns|, i requires 0 <= i < |columns| => CellAt(row, columns[i]))
  }

  /** `row` with each SET column replaced by its value from `input`, in order. */
  function Overlaid(row: Row, sets: seq<SetTarget>, input: Row): Row {
    if sets == [] then row
    else
      var n := |sets| - 1;
      var before := Overlaid(row, sets[..n], input);
      if sets[n].column < |before| then before[sets[n].column := CellAt(input, sets[n].source)] else before
  }

  /** What one sink row stages, given the row its rowid names. */
  function OpFor(spec: TableSpec, statement: Statement, oldRow: Row, input: Row): StagedOp {
    match statement
    case Overlay(sets) => StagedOp(spec.writeKind, StageInsert, Overlaid(oldRow, sets, input))
    case SetEnd(source) => StagedOp(spec.writeKind, StageSetEnd, Pick(oldRow, spec.endKeyColumns) + [CellAt(input, source)])
    case SetBegin(source) => StagedOp(spec.writeKind, StageSetBegin, Pick(oldRow, spec.endKeyColumns) + [CellAt(input, source)])
    case KeyedDelete => StagedOp(spec.writeKind, StageDelete, Pick(oldRow, spec.deleteKeyColumns))
  }

  /** What a sink stages for a chunk, or the first rowid it refuses. */
  function StagedFor(spec: TableSpec, statement: Statement, rowidColumn: nat, inputs: Rows, rows: Rows)
    : Result<seq<StagedOp>, RowidError>
  {
    if inputs == [] then Ok([])
    else
      var n := |inputs| - 1;
      var rest := StagedFor(spec, statement, rowidColumn, inputs[..n], rows);
      var last := ResolveRowid(CellAt(inputs[n], rowidColumn), |rows|);
      if rest.Err? then rest
      else if last.Err? then Err(last.error)
      else Ok(rest.value + [OpFor(spec, statement, rows[last.value], inputs[n])])
  }

  lemma {:induction false} RefusalStands(spec: TableSpec, statement: Statement, rowidColumn: nat, inputs: Rows, k: nat, rows: Rows)
    requires k <= |inputs| && StagedFor(spec, statement, rowidColumn, inputs[..k], rows).Err?
    ensures StagedFor(spec, statement, rowidColumn, inputs, rows) == StagedFor(spec, statement, rowidColumn, inputs[..k], rows)
    decreases |inputs|
  {
    if k == |inputs| {
      assert inputs[..k] == inputs;
    } else {
      var n := |inputs| - 1;
      assert inputs[..n][..k] == inputs[..k];
      RefusalStands(spec, statement, rowidColumn, inputs[..n], k, rows);
    }
  }

  /** The state an UPDATE or DELETE sink keeps, and what it stages. */
  class MetadataDml {
    const spec: TableSpec
    const statement: Statement
    const rowidColumn: nat
    var oldRows: Option<Rows>
    var affected: nat
    var staged: seq<StagedOp>

    constructor (spec: TableSpec, statement: Statement, rowidColumn: nat)
      ensures this.spec == spec && this.statement == statement && this.rowidColumn == rowidColumn
      ensures oldRows.None? && affected == 0 && staged == []
    {
      this.spec, this.statement, this.rowidColumn := spec, statement, rowidColumn;
      oldRows, affected, staged := None, 0, [];
    }

    /** The list the rowids index is taken with the first chunk and kept; `current`
        is what a fresh read would give. */
    method PinScannedRows(current: Rows)
      modifies this`oldRows
      ensures oldRows == if old(oldRows).Some? then old(oldRows) else Some(current)
    {
      if oldRows.None? {
        oldRows := Some(current);
      }
    }

    method Sink(inputs: Rows, current: Rows) returns (error: Option<RowidError>)
      modifies this
      ensures oldRows == if old(oldRows).Some? then old(oldRows) else Some(current)
      ensures match StagedFor(spec, statement, rowidColumn, inputs, oldRows.value)
              case Ok(ops) => error.None? && staged == old(staged) + ops && affected == old(affected) + |inputs|
              case Err(e) => error == Some(e)
    {
      PinScannedRows(current);
      var rows := oldRows.value;
      for i := 0 to |inputs|
        invariant oldRows == Some(rows)
        invariant StagedFor(spec, statement, rowidColumn, inputs[..i], rows).Ok?
        invariant staged == old(staged) + StagedFor(spec, statement, rowidColumn, inputs[..i], rows).value
        invariant affected == old(affected) + i
      {
        assert inputs[..i + 1][..i] == inputs[..i];
        var index := ResolveRowid(CellAt(inputs[i], rowidColumn), |rows|);
        if index.Err? {
          RefusalStands(spec, statement, rowidColumn, inputs, i + 1, rows);
          return Some(index.error);
        }
        staged := staged + [OpFor(spec, statement, rows[index.value], inputs[i])];
        affected := affected + 1;
      }
      assert inputs[..|inputs|] == inputs;
      return None;
    }
  }

  predicate SameKey(row: Row, other: Row, key: seq<nat>) {
    Pick(row, key) == Pick(other, key)
  }
}

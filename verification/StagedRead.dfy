/** How a transaction reads a table again over the rows it has staged: each staged
    row crosses to the core cell by cell, is decoded by its table's row decoder, and
    overwrites, removes or moves what the table holds. */
module StagedRead {
  import opened Values
  import opened StagedWrite

  // ----- Decoding -----

  datatype DecodeError = TooFewCells | TooManyCells | WrongCell | UnknownScope | NotDefined

  /** A string crosses as a C string, so it ends at its first NUL. An integer is cast
      to unsigned on the way in and back on the way out, which undo one another. */
  function CString(s: string): string {
    if s == [] || s[0] == '\0' then [] else [s[0]] + CString(s[1..])
  }

  function Received(cell: Cell): Cell {
    if cell.Text? then Text(CString(cell.s)) else cell
  }

  predicate Accepts(shape: Shape, cell: Cell) {
    match cell
    case Null => shape.optional
    case Num(_) => shape.kind == IntegerCell
    case Flag(_) => shape.kind == BoolCell
    case Text(_) => shape.kind == TextCell
  }

  /** The cursor: cells are taken one by one against the shapes, and all must go. */
  function DecodeCells(shapes: seq<Shape>, cells: Row): (r: Result<Row, DecodeError>)
    ensures r.Ok? ==> |r.value| == |shapes| == |cells|
  {
    if shapes == [] then if cells == [] then Ok([]) else Err(TooManyCells)
    else if cells == [] then Err(TooFewCells)
    else if !Accepts(shapes[0], cells[0]) then Err(WrongCell)
    else
      var rest := DecodeCells(shapes[1..], cells[1..]);
      if rest.Err? then rest else Ok([Received(cells[0])] + rest.value)
  }

  /** A value that is stored as it is given: of the column's type, NULL only where that
      is optional, and no text with a NUL in it. */
  predicate Storable(shape: Shape, cell: Cell) {
    && (cell.Null? ==> shape.optional)
    && (cell.Num? ==> shape.kind == IntegerCell)
    && (cell.Flag? ==> shape.kind == BoolCell)
    && (cell.Text? ==> shape.kind == TextCell && '\0' !in cell.s)
  }

  /** The row of an option, as the dump shows it: a global one has no scope id. */
  function OptionRow(key: Cell, value: Cell, scope: Cell, scopeId: Cell): Result<Row, DecodeError> {
    if scope.Null? then Ok([key, value, Null, Null])
    else if scope == Text("schema") || scope == Text("table") then
      Ok([key, value, scope, if scopeId.Null? then Num(0) else scopeId])
    else Err(UnknownScope)
  }

  /** `decode_metadata`: a NULL value is stored as the empty string. */
  function DecodeOption(cells: Row): Result<Row, DecodeError> {
    var r := DecodeCells(OPTIONS.shapes, cells);
    if r.Err? then r
    else OptionRow(r.value[0], if r.value[1].Null? then Text("") else r.value[1], r.value[2], r.value[3])
  }

  /** `decode_metadata_key`: the option a removal names. */
  function DecodeOptionKey(cells: Row): Result<Row, DecodeError> {
    var r := DecodeCells([TEXT, OPT_TEXT, OPT_ID], cells);
    if r.Err? then r
    else OptionRow(r.value[0], Null, r.value[1], r.value[2])
  }

  function DecodeRow(spec: TableSpec, cells: Row): Result<Row, DecodeError> {
    if spec.writeKind == OPTIONS.writeKind then DecodeOption(cells) else DecodeCells(spec.shapes, cells)
  }

  // ----- What a staged row does -----

  /** An unversioned row overwrites the one with its key, or is added. */
  function Overwritten(rows: Rows, row: Row, key: seq<nat>): Rows {
    Filter(rows, (r: Row) => !SameKey(r, row, key)) + [row]
  }

  function Removed(rows: Rows, cells: Row, columns: seq<nat>): Rows {
    Filter(rows, (r: Row) => Pick(r, columns) != cells)
  }

  predicate IsLive(row: Row, endColumn: nat) {
    CellAt(row, endColumn).Null?
  }

  function Moved(row: Row, keyCells: Row, value: Cell, endKey: seq<nat>, endColumn: nat, column: nat): Row {
    if Pick(row, endKey) == keyCells && IsLive(row, endColumn) && column < |row| then row[column := value] else row
  }

  /** The live versions with the key get the value, history is left alone. */
  function MoveApplied(rows: Rows, keyCells: Row, value: Cell, endKey: seq<nat>, endColumn: nat, column: nat): (r: Rows)
    ensures |r| == |rows|
  {
    seq(|rows|, i requires 0 <= i < |rows| => Moved(rows[i], keyCells, value, endKey, endColumn, column))
  }

  /** A tag's container ends the first live entry with the key. */
  function MoveFirst(rows: Rows, keyCells: Row, value: Cell, endKey: seq<nat>, endColumn: nat, column: nat): Rows {
    if rows == [] then []
    else if Pick(rows[0], endKey) == keyCells && IsLive(rows[0], endColumn) && column < |rows[0]| then
      [rows[0][column := value]] + rows[1..]
    else [rows[0]] + MoveFirst(rows[1..], keyCells, value, endKey, endColumn, column)
  }

  // ----- Reading again -----

  /** What reading a table again makes of a staged `SET end_snapshot` or `SET
      begin_snapshot`. */
  datatype MoveReading = MovesAll | MovesFirst | Unseen | Refuses

  /** The tables of entity records, whose overlay decodes both statements and defines
      the second for data files only. A tag is an entry in its object's container,
      and a column tag one in its column's record, where no staged end is looked at. */
  function MoveReadingOf(kind: int, ends: bool): MoveReading {
    if kind == COLUMN_TAG.writeKind then Unseen
    else if kind == TAG.writeKind then if ends then MovesFirst else Unseen
    else if ends || kind == DATA_FILE.writeKind then MovesAll
    else Refuses
  }

  /** The column that shows a record's `begin_snapshot`. */
  function BeginColumn(kind: int): nat {
    if kind == COLUMN.writeKind || kind == TAG.writeKind then 1
    else if kind == MACRO.writeKind then 3
    else 2
  }

  function MovedColumn(spec: TableSpec, ends: bool): nat {
    if ends then spec.endSnapshotColumn else BeginColumn(spec.writeKind)
  }

  function PickShapes(shapes: seq<Shape>, columns: seq<nat>): seq<Shape> {
    seq(|columns|, i requires 0 <= i < |columns| => if columns[i] < |shapes| then shapes[columns[i]] else OPT_TEXT)
  }

  function MoveRead(spec: TableSpec, reading: MoveReading, rows: Rows, keyCells: Row, value: Cell, column: nat): Rows {
    if reading.MovesFirst? then MoveFirst(rows, keyCells, value, spec.endKeyColumns, spec.endSnapshotColumn, column)
    else MoveApplied(rows, keyCells, value, spec.endKeyColumns, spec.endSnapshotColumn, column)
  }

  function ReadMove(spec: TableSpec, rows: Rows, cells: Row, ends: bool): Result<Rows, DecodeError> {
    var reading := MoveReadingOf(spec.writeKind, ends);
    if reading.Refuses? then Err(NotDefined)
    else if reading.Unseen? then Ok(rows)
    else
      var r := DecodeCells(PickShapes(spec.shapes, spec.endKeyColumns) + [ID], cells);
      if r.Err? then Err(r.error)
      else
        var n := |r.value| - 1;
        Ok(MoveRead(spec, reading, rows, r.value[..n], r.value[n], MovedColumn(spec, ends)))
  }

  /** What reading a table again makes of a staged delete: rows embedded in another
      record go with it and are not looked for, the options' overlay wants the whole
      row, and every other overlay removes by the columns it knows a row by. */
  datatype DeleteReading = RemovesBy(columns: seq<nat>) | NotLookedFor | WantsWholeRow

  /** Kinds of rows that are part of another record: snapshot changes, partition
      columns, file partition values, sort expressions, column tags, macro
      implementations and parameters, name mappings. */
  const EMBEDDED: set<int> := {1, 13, 14, 16, 18, 21, 22, 24}

  const COLUMN_MAPPING_KIND: int := 23

  const SCHEMA_VERSIONS_KIND: int := 11

  function DeleteReadingOf(spec: TableSpec): DeleteReading {
    if spec.writeKind == OPTIONS.writeKind then WantsWholeRow
    else if spec.writeKind in EMBEDDED then NotLookedFor
    else if spec.writeKind == COLUMN_MAPPING_KIND then RemovesBy([0])
    else RemovesBy(spec.deleteKeyColumns)
  }

  function ReadDelete(spec: TableSpec, rows: Rows, cells: Row): Result<Rows, DecodeError> {
    match DeleteReadingOf(spec)
    case NotLookedFor => Ok(rows)
    case WantsWholeRow =>
      var r := DecodeOption(cells);
      if r.Err? then Err(r.error) else Ok(Removed(rows, Pick(r.value, spec.deleteKeyColumns), spec.deleteKeyColumns))
    case RemovesBy(columns) =>
      var r := DecodeCells(PickShapes(spec.shapes, spec.deleteKeyColumns), cells);
      if r.Err? then Err(r.error)
      else if |columns| > |r.value| then Err(TooFewCells)
      else Ok(Removed(rows, r.value[..|columns|], columns))
  }

  /** One staged row; rows staged for other tables are passed over. */
  function ReadOp(spec: TableSpec, rows: Rows, op: StagedOp): Result<Rows, DecodeError> {
    if op.kind != spec.writeKind then Ok(rows) else ReadOwn(spec, rows, op)
  }

  function ReadOwn(spec: TableSpec, rows: Rows, op: StagedOp): Result<Rows, DecodeError> {
    match op.operation
    case StageInsert =>
      var r := DecodeRow(spec, op.cells);
      if r.Err? then Err(r.error) else Ok(Overwritten(rows, r.value, spec.deleteKeyColumns))
    case StageDelete => ReadDelete(spec, rows, op.cells)
    case StageSetEnd => ReadMove(spec, rows, op.cells, true)
    case StageSetBegin => ReadMove(spec, rows, op.cells, false)
  }

  /** The table as it is read again over the staged rows, or the first one the core
      cannot decode. */
  function ReadAll(spec: TableSpec, rows: Rows, ops: seq<StagedOp>): Result<Rows, DecodeError> {
    if ops == [] then Ok(rows)
    else
      var n := |ops| - 1;
      var before := ReadAll(spec, rows, ops[..n]);
      if before.Err? then before else ReadOp(spec, before.value, ops[n])
  }

  // ----- What decoding keeps -----

  lemma {:induction false} CStringKeeps(s: string)
    ensures CString(s) == s <==> '\0' !in s
    ensures '\0' !in CString(s)
  {
    if s != [] {
      CStringKeeps(s[1..]);
      assert s == [s[0]] + s[1..];
      if s[0] != '\0' {
        assert CString(s)[1..] == CString(s[1..]);
      }
    }
  }

  function ReceivedAll(cells: Row): (r: Row)
    ensures |r| == |cells|
  {
    seq(|cells|, i requires 0 <= i < |cells| => Received(cells[i]))
  }

  lemma {:induction false} DecodeIs(shapes: seq<Shape>, cells: Row)
    ensures DecodeCells(shapes, cells).Ok? <==>
            |cells| == |shapes| && forall i :: 0 <= i < |cells| ==> Accepts(shapes[i], cells[i])
    ensures DecodeCells(shapes, cells).Ok? ==> DecodeCells(shapes, cells).value == ReceivedAll(cells)
  {
    if shapes != [] && cells != [] {
      DecodeIs(shapes[1..], cells[1..]);
      assert cells == [cells[0]] + cells[1..] && shapes == [shapes[0]] + shapes[1..];
      assert ReceivedAll(cells) == [Received(cells[0])] + ReceivedAll(cells[1..]);
    }
  }

  ghost predicate AllStorable(shapes: seq<Shape>, cells: Row) {
    |cells| == |shapes| && forall i :: 0 <= i < |cells| ==> Storable(shapes[i], cells[i])
  }

  lemma ReceivedKeepsIff(shape: Shape, cell: Cell)
    ensures Storable(shape, cell) <==> Accepts(shape, cell) && Received(cell) == cell
  {
    if cell.Text? {
      CStringKeeps(cell.s);
    }
  }

  /** A row is stored as it is given if and only if every cell is. */
  lemma StoredIff(shapes: seq<Shape>, cells: Row)
    ensures DecodeCells(shapes, cells) == Ok(cells) <==> AllStorable(shapes, cells)
  {
    DecodeIs(shapes, cells);
    if |cells| == |shapes| {
      forall i | 0 <= i < |cells|
        ensures Storable(shapes[i], cells[i]) <==> Accepts(shapes[i], cells[i]) && Received(cells[i]) == cells[i]
      {
        ReceivedKeepsIff(shapes[i], cells[i]);
      }
      if ReceivedAll(cells) == cells {
        assert forall i :: 0 <= i < |cells| ==> ReceivedAll(cells)[i] == cells[i];
      }
    }
  }

  /** Rows as the table's dump serves them. */
  ghost predicate ServedAs(spec: TableSpec, rows: Rows) {
    forall i :: 0 <= i < |rows| ==> AllStorable(spec.shapes, rows[i])
  }

  lemma PickedStorable(shapes: seq<Shape>, row: Row, columns: seq<nat>)
    requires AllStorable(shapes, row) && forall i :: 0 <= i < |columns| ==> columns[i] < |shapes|
    ensures AllStorable(PickShapes(shapes, columns), Pick(row, columns))
  {
  }

  lemma ReadSnoc(spec: TableSpec, rows: Rows, ops: seq<StagedOp>, n: nat)
    requires n < |ops|
    ensures ReadAll(spec, rows, ops[..n + 1]) ==
            var before := ReadAll(spec, rows, ops[..n]);
            if before.Err? then before else ReadOp(spec, before.value, ops[n])
  {
    assert ops[..n + 1][..n] == ops[..n];
  }

  /** A staged row that cannot be decoded fails every later read. */
  lemma {:induction false} RefusalStays(spec: TableSpec, rows: Rows, ops: seq<StagedOp>, k: nat)
    requires k <= |ops| && ReadAll(spec, rows, ops[..k]).Err?
    ensures ReadAll(spec, rows, ops) == ReadAll(spec, rows, ops[..k])
    decreases |ops|
  {
    if k == |ops| {
      assert ops[..k] == ops;
    } else {
      var n := |ops| - 1;
      assert ops[..n][..k] == ops[..k];
      RefusalStays(spec, rows, ops[..n], k);
    }
  }
}

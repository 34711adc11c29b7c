/** Emitting an inline data scan: user columns copied run by run, metadata
    columns and rowids row by row, one vector at a time. */
module InlineEmit {
  import opened Values
  import opened InlineScan

  /** Every row's coordinates name a value in every user column. */
  ghost predicate Readable(scan: InlineDataScan) {
    forall i :: 0 <= i < |scan.rows| ==> ReadableRow(scan, scan.rows[i])
  }

  ghost predicate ReadableRow(scan: InlineDataScan, row: InlineDataRow) {
    && row.piece < |scan.pieces| && |scan.pieces[row.piece].columns| == scan.userColumns
    && forall c :: 0 <= c < scan.userColumns ==> row.rowInPiece < |scan.pieces[row.piece].columns[c]|
  }

  /** The value of user column `c` in row `i`. */
  function UserCell(scan: InlineDataScan, i: nat, c: nat): Cell
    requires Readable(scan) && i < |scan.rows| && c < scan.userColumns
  {
    assert ReadableRow(scan, scan.rows[i]);
    scan.pieces[scan.rows[i].piece].columns[c][scan.rows[i].rowInPiece]
  }

  /** The scan `ScanInlineData` builds with values is readable, and its cells are
      the stored ones. */
  lemma ServedCellsAreStored(scan: InlineDataScan, kept: seq<StoreRow>, chunks: seq<Chunk>)
    requires Serves(scan.rows, kept, scan.pieces, chunks, scan.userColumns, true)
    ensures Readable(scan)
    ensures forall i: nat, c: nat :: i < |kept| && c < scan.userColumns ==>
              && RowError(kept[i], chunks, scan.userColumns, true).None?
              && UserCell(scan, i, c) == CellAt(chunks[kept[i].chunkIndex].rows[kept[i].offsetInChunk], c)
  {
    forall i | 0 <= i < |scan.rows|
      ensures ReadableRow(scan, scan.rows[i])
      ensures StandsFor(scan.rows[i], kept[i], scan.pieces, chunks, scan.userColumns, true)
    {
      assert StandsFor(scan.rows[i], kept[i], scan.pieces, chunks, scan.userColumns, true);
    }
  }

  // ----- The run-coalesced copy -----

  /** `VectorOperations::Copy`. */
  method CopyVector(source: seq<Cell>, target: array<Cell>, sourceCount: nat, sourceOffset: nat, targetOffset: nat)
    requires sourceOffset <= sourceCount <= |source|
    requires targetOffset + (sourceCount - sourceOffset) <= target.Length
    modifies target
    ensures forall k :: targetOffset <= k < targetOffset + (sourceCount - sourceOffset) ==>
              target[k] == source[sourceOffset + (k - targetOffset)]
    ensures forall k :: 0 <= k < targetOffset || targetOffset + (sourceCount - sourceOffset) <= k < target.Length ==>
              target[k] == old(target[k])
  {
    for n := 0 to sourceCount - sourceOffset
      invariant forall k :: 0 <= k < target.Length ==>
                  target[k] == if targetOffset <= k < targetOffset + n
                               then source[sourceOffset + (k - targetOffset)] else old(target[k])
    {
      target[targetOffset + n] := source[sourceOffset + n];
    }
  }

  predicate Follows(row: InlineDataRow, next: InlineDataRow) {
    next.piece == row.piece && next.rowInPiece == row.rowInPiece + 1
  }

  /** How many maximal contiguous stretches rows `lo` to `hi` form. */
  function RunCount(rows: seq<InlineDataRow>, lo: nat, hi: nat): nat
    requires lo <= hi <= |rows|
    decreases hi - lo
  {
    if hi == lo then 0
    else if hi == lo + 1 then 1
    else RunCount(rows, lo, hi - 1) + if Follows(rows[hi - 2], rows[hi - 1]) then 0 else 1
  }

  /** Rows `lo` to `hi` lie one after the other in one piece. */
  predicate IsRun(rows: seq<InlineDataRow>, lo: nat, hi: nat) {
    && lo < hi <= |rows|
    && forall j :: lo <= j < hi ==>
         rows[j].piece == rows[lo].piece && rows[j].rowInPiece == rows[lo].rowInPiece + (j - lo)
  }

  lemma {:induction false} RunCountExtends(rows: seq<InlineDataRow>, from: nat, lo: nat, hi: nat)
    requires from <= lo && IsRun(rows, lo, hi)
    requires from == lo || !Follows(rows[lo - 1], rows[lo])
    ensures RunCount(rows, from, hi) == RunCount(rows, from, lo) + 1
    decreases hi
  {
    if hi > lo + 1 {
      RunCountExtends(rows, from, lo, hi - 1);
      assert Follows(rows[hi - 2], rows[hi - 1]);
    }
  }

  /** A run's cells are one slice of its piece's column. */
  lemma RunCells(scan: InlineDataScan, lo: nat, hi: nat, userCol: nat)
    requires Readable(scan) && userCol < scan.userColumns && IsRun(scan.rows, lo, hi)
    ensures var first := scan.rows[lo];
            && ReadableRow(scan, first)
            && first.rowInPiece + (hi - lo) <= |scan.pieces[first.piece].columns[userCol]|
            && forall j :: lo <= j < hi ==>
                 UserCell(scan, j, userCol) == scan.pieces[first.piece].columns[userCol][first.rowInPiece + (j - lo)]
  {
    assert ReadableRow(scan, scan.rows[lo]);
    assert ReadableRow(scan, scan.rows[hi - 1]);
  }

  /** The inner loop: the longest run from row `offset + at` within the window. */
  method RunLength(rows: seq<InlineDataRow>, offset: nat, at: nat, count: nat) returns (run: nat)
    requires at < count && offset + count <= |rows|
    ensures at + run <= count && IsRun(rows, offset + at, offset + at + run)
    ensures at + run < count ==> !Follows(rows[offset + at + run - 1], rows[offset + at + run])
  {
    var first := rows[offset + at];
    run := 1;
    while at + run < count
      invariant at + run <= count && IsRun(rows, offset + at, offset + at + run)
    {
      var next := rows[offset + at + run];
      if next.piece != first.piece || next.rowInPiece != first.rowInPiece + run {
        assert rows[offset + at + run - 1].rowInPiece == first.rowInPiece + (run - 1);
        return;
      }
      run := run + 1;
    }
  }

  /** One turn of the outer loop: one copy call for the run from row `offset + at`. */
  method CopyRun(scan: InlineDataScan, offset: nat, at: nat, count: nat, userCol: nat, target: array<Cell>) returns (run: nat)
    requires Readable(scan) && userCol < scan.userColumns
    requires at < count && offset + count <= |scan.rows| && count <= target.Length
    modifies target
    ensures at + run <= count && IsRun(scan.rows, offset + at, offset + at + run)
    ensures at + run < count ==> !Follows(scan.rows[offset + at + run - 1], scan.rows[offset + at + run])
    ensures forall k :: at <= k < at + run ==> target[k] == UserCell(scan, offset + k, userCol)
    ensures forall k :: 0 <= k < at || at + run <= k < target.Length ==> target[k] == old(target[k])
  {
    var first := scan.rows[offset + at];
    run := RunLength(scan.rows, offset, at, count);
    RunCells(scan, offset + at, offset + at + run, userCol);
    var source := scan.pieces[first.piece].columns[userCol];
    CopyVector(source, target, first.rowInPiece + run, first.rowInPiece, at);
  }

  /** Copies one user column of the window; the rest of `target` is untouched.
      One copy call is made per maximal run. */
  method EmitUserColumn(scan: InlineDataScan, offset: nat, count: nat, userCol: nat, target: array<Cell>)
    returns (ghost copies: nat)
    requires Readable(scan) && userCol < scan.userColumns
    requires offset + count <= |scan.rows| && count <= target.Length
    modifies target
    ensures forall k :: 0 <= k < count ==> target[k] == UserCell(scan, offset + k, userCol)
    ensures forall k :: count <= k < target.Length ==> target[k] == old(target[k])
    ensures copies == RunCount(scan.rows, offset, offset + count)
  {
    copies := 0;
    var at := 0;
    while at < count
      invariant at <= count
      invariant forall k :: 0 <= k < at ==> target[k] == UserCell(scan, offset + k, userCol)
      invariant forall k :: at <= k < target.Length ==> target[k] == old(target[k])
      invariant copies == RunCount(scan.rows, offset, offset + at)
      invariant 0 < at < count ==> !Follows(scan.rows[offset + at - 1], scan.rows[offset + at])
    {
      var run := CopyRun(scan, offset, at, count, userCol, target);
      RunCountExtends(scan.rows, offset, offset + at, offset + at + run);
      copies := copies + 1;
      at := at + run;
    }
  }

  // ----- The scan function -----

  datatype ColumnId = RowIdColumn | OtherVirtual | TableColumn(index: nat)

  const USER_COLUMN_START: nat := 3

  function MetadataCell(row: InlineDataRow, index: nat): Cell {
    match index
    case 0 => Num(AsInt64(row.rowId))
    case 1 => Num(AsInt64(row.begin))
    case _ => if row.end.None? then Null else Num(AsInt64(row.end.value))
  }

  /** What column `id` shows for row `i` of the scan. */
  function ServedCell(scan: InlineDataScan, id: ColumnId, i: nat): Cell
    requires Readable(scan) && i < |scan.rows|
  {
    match id
    case RowIdColumn => Num(AsInt64(i))
    case OtherVirtual => Null
    case TableColumn(index) =>
      if index >= USER_COLUMN_START + scan.userColumns then Null
      else if index < USER_COLUMN_START then MetadataCell(scan.rows[i], index)
      else UserCell(scan, i, index - USER_COLUMN_START)
  }

  /** `cell` shows the unsigned 64-bit `v` in a signed column: as it is below 2^63. */
  predicate ShowsSigned(cell: Cell, v: nat) {
    cell.Num? && (v < 0x8000_0000_0000_0000 ==> cell.n == v) && (v >= 0x8000_0000_0000_0000 ==> cell.n == v - 0x1_0000_0000_0000_0000)
  }

  /** What a reader finds in column `id` of row `i`: its index as rowid; its id, its
      begin, its end or NULL; the stored values from the fourth column on; NULL
      anywhere else. */
  ghost predicate Shows(scan: InlineDataScan, id: ColumnId, i: nat, cell: Cell)
    requires Readable(scan) && i < |scan.rows|
  {
    var row := scan.rows[i];
    match id
    case RowIdColumn => ShowsSigned(cell, i)
    case OtherVirtual => cell == Null
    case TableColumn(c) =>
      && (c == 0 ==> ShowsSigned(cell, row.rowId))
      && (c == 1 ==> ShowsSigned(cell, row.begin))
      && (c == 2 ==> if row.end.None? then cell == Null else ShowsSigned(cell, row.end.value))
      && (3 <= c < 3 + scan.userColumns ==> cell == UserCell(scan, i, c - 3))
      && (c >= 3 + scan.userColumns ==> cell == Null)
  }

  /** Every column shows what it is there to show, and a rowid of a list no longer
      than 2^63 resolves back to its row. */
  lemma ServedCellShows(scan: InlineDataScan, id: ColumnId, i: nat)
    requires Readable(scan) && i < |scan.rows|
    ensures Shows(scan, id, i, ServedCell(scan, id, i))
    ensures id.RowIdColumn? && i < 0x8000_0000_0000_0000 ==> ResolveRowid(ServedCell(scan, id, i), |scan.rows|) == Ok(i)
  {
  }

  method EmitMetadataColumn(rows: seq<InlineDataRow>, offset: nat, count: nat, index: nat, target: array<Cell>)
    requires offset + count <= |rows| && count <= target.Length && index < USER_COLUMN_START
    modifies target
    ensures forall k :: 0 <= k < count ==> target[k] == MetadataCell(rows[offset + k], index)
  {
    for k := 0 to count
      invariant forall j :: 0 <= j < k ==> target[j] == MetadataCell(rows[offset + j], index)
    {
      var row := rows[offset + k];
      if index == 0 {
        target[k] := Num(AsInt64(row.rowId));
      } else if index == 1 {
        target[k] := Num(AsInt64(row.begin));
      } else if row.end.None? {
        target[k] := Null;
      } else {
        target[k] := Num(AsInt64(row.end.value));
      }
    }
  }

  method EmitColumn(scan: InlineDataScan, offset: nat, count: nat, id: ColumnId, target: array<Cell>)
    requires Readable(scan) && offset + count <= |scan.rows| && count <= target.Length
    modifies target
    ensures forall k :: 0 <= k < count ==> target[k] == ServedCell(scan, id, offset + k)
    ensures forall k :: 0 <= k < count ==> Shows(scan, id, offset + k, target[k])
  {
    forall i | offset <= i < offset + count
      ensures Shows(scan, id, i, ServedCell(scan, id, i))
    {
      ServedCellShows(scan, id, i);
    }
    match id
    case RowIdColumn =>
      for k := 0 to count
        invariant forall j :: 0 <= j < k ==> target[j] == Num(AsInt64(offset + j))
      {
        target[k] := Num(AsInt64(offset + k));
      }
    case OtherVirtual =>
      forall k | 0 <= k < count {
        target[k] := Null;
      }
    case TableColumn(index) =>
      if index >= USER_COLUMN_START + scan.userColumns {
        forall k | 0 <= k < count {
          target[k] := Null;
        }
      } else if index < USER_COLUMN_START {
        EmitMetadataColumn(scan.rows, offset, count, index, target);
      } else {
        ghost var copies := EmitUserColumn(scan, offset, count, index - USER_COLUMN_START, target);
      }
  }

  /** The scan's global state. */
  class InlineDataCursor {
    var offset: nat
    const columnIds: seq<ColumnId>

    constructor (columnIds: seq<ColumnId>)
      ensures offset == 0 && this.columnIds == columnIds
    {
      offset, this.columnIds := 0, columnIds;
    }

    /** One call of the scan function: fills the output vectors with the next
        window and moves past it. */
    method Next(scan: InlineDataScan, output: seq<array<Cell>>) returns (count: nat)
      requires Readable(scan) && |output| == |columnIds|
      requires forall i :: 0 <= i < |output| ==> output[i].Length == VECTOR_SIZE
      requires forall i, j :: 0 <= i < j < |output| ==> output[i] != output[j]
      modifies this, output
      ensures count == if old(offset) >= |scan.rows| then 0
                       else if |scan.rows| - old(offset) < VECTOR_SIZE then |scan.rows| - old(offset) else VECTOR_SIZE
      ensures offset == old(offset) + count
      ensures forall c, k :: 0 <= c < |output| && 0 <= k < count ==>
                output[c][k] == ServedCell(scan, columnIds[c], old(offset) + k)
                && Shows(scan, columnIds[c], old(offset) + k, output[c][k])
    {
      if offset >= |scan.rows| {
        return 0;
      }
      count := if |scan.rows| - offset < VECTOR_SIZE then |scan.rows| - offset else VECTOR_SIZE;
      for c := 0 to |output|
        invariant offset == old(offset)
        invariant forall d, k :: 0 <= d < c && 0 <= k < count ==>
                    output[d][k] == ServedCell(scan, columnIds[d], offset + k)
                    && Shows(scan, columnIds[d], offset + k, output[d][k])
      {
        EmitColumn(scan, offset, count, columnIds[c], output[c]);
      }
      offset := offset + count;
    }
  }

  function ServedRow(scan: InlineDataScan, ids: seq<ColumnId>, i: nat): Row
    requires Readable(scan) && i < |scan.rows|
  {
    seq(|ids|, c requires 0 <= c < |ids| => ServedCell(scan, ids[c], i))
  }

  /** Calling the scan function until it returns nothing emits every row of the
      scan exactly once, in order, each column showing what it is there to show, the
      rowid the row's own index, which resolves back to it. */
  method ReadWholeScan(scan: InlineDataScan, ids: seq<ColumnId>) returns (emitted: Rows)
    requires Readable(scan)
    ensures |emitted| == |scan.rows|
    ensures forall i :: 0 <= i < |emitted| ==> emitted[i] == ServedRow(scan, ids, i)
    ensures forall i, c :: 0 <= i < |emitted| && 0 <= c < |ids| ==> |emitted[i]| == |ids| && Shows(scan, ids[c], i, emitted[i][c])
    ensures forall i, c :: 0 <= i < |emitted| && i < 0x8000_0000_0000_0000 && 0 <= c < |ids| && ids[c].RowIdColumn? ==>
              ResolveRowid(emitted[i][c], |scan.rows|) == Ok(i)
  {
    var cursor := new InlineDataCursor(ids);
    emitted := [];
    var more := true;
    while more
      invariant cursor.columnIds == ids
      invariant cursor.offset == |emitted| <= |scan.rows|
      invariant !more ==> |emitted| == |scan.rows|
      invariant forall i :: 0 <= i < |emitted| ==> emitted[i] == ServedRow(scan, ids, i)
      decreases more, |scan.rows| - |emitted|
    {
      var window := NextWindow(scan, cursor);
      emitted := emitted + window;
      more := window != [];
    }
    forall i, c | 0 <= i < |emitted| && 0 <= c < |ids|
      ensures Shows(scan, ids[c], i, emitted[i][c])
      ensures i < 0x8000_0000_0000_0000 && ids[c].RowIdColumn? ==> ResolveRowid(emitted[i][c], |scan.rows|) == Ok(i)
    {
      ServedCellShows(scan, ids[c], i);
    }
  }

  /** One call with fresh output vectors, read back as rows. */
  method NextWindow(scan: InlineDataScan, cursor: InlineDataCursor) returns (window: Rows)
    requires Readable(scan)
    modifies cursor
    ensures cursor.offset == old(cursor.offset) + |window|
    ensures window == [] <==> old(cursor.offset) >= |scan.rows|
    ensures old(cursor.offset) < |scan.rows| ==> cursor.offset <= |scan.rows|
    ensures forall k :: 0 <= k < |window| ==>
              old(cursor.offset) + k < |scan.rows|
              && window[k] == ServedRow(scan, cursor.columnIds, old(cursor.offset) + k)
  {
    var ids := cursor.columnIds;
    var output: seq<array<Cell>> := [];
    for c := 0 to |ids|
      invariant |output| == c && cursor.offset == old(cursor.offset)
      invariant forall i :: 0 <= i < c ==> output[i].Length == VECTOR_SIZE && fresh(output[i])
      invariant forall i, j :: 0 <= i < j < c ==> output[i] != output[j]
    {
      var vector := new Cell[VECTOR_SIZE](_ => Null);
      output := output + [vector];
    }
    var count := cursor.Next(scan, output);
    window := [];
    for k := 0 to count
      invariant |window| == k && cursor.offset == old(cursor.offset) + count
      invariant forall j :: 0 <= j < k ==> window[j] == ServedRow(scan, ids, old(cursor.offset) + j)
    {
      window := window + [ReadRow(output, k)];
    }
  }

  function ReadRow(output: seq<array<Cell>>, k: nat): Row
    requires forall c :: 0 <= c < |output| ==> k < output[c].Length
    reads output
  {
    seq(|output|, c requires 0 <= c < |output| && k < output[c].Length reads output => output[c][k])
  }
}

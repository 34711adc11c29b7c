/** The inline data scan: chunk bodies decoded on first use into fixed-size
    columnar pieces, rows that point into the pieces, and a scan that copies
    user columns across run by run. */
module InlineScan {
  import opened Values

  /** DuckDB's `STANDARD_VECTOR_SIZE`. */
  const VECTOR_SIZE: nat := 2048

  /** A chunk body, by what decoding it gives: a failure, or a record batch. */
  datatype Chunk = Undecodable | Batch(width: nat, rows: Rows)

  /** A decoded `DataChunk`, column by column. */
  datatype Piece = Piece(size: nat, columns: seq<seq<Cell>>)

  /** One row as the store's scan returns it. */
  datatype StoreRow = StoreRow(
    rowId: nat, begin: nat, end: Option<nat>, schemaVersion: nat, chunkIndex: nat, offsetInChunk: nat)

  datatype InlineDataRow = InlineDataRow(rowId: nat, begin: nat, end: Option<nat>, piece: nat, rowInPiece: nat)

  datatype InlineDataScan = InlineDataScan(rows: seq<InlineDataRow>, pieces: seq<Piece>, userColumns: nat)

  datatype Error =
    | NoInlineSchema
    | DecodeFailed
    | SchemaBodyMismatch
    | ChunkIndexOutOfRange
    | RowOffsetOutOfRange

  // ----- Decoding -----

  /** Row `k` of `piece` is `row`, in every one of its columns. */
  ghost predicate HoldsRow(piece: Piece, k: nat, row: Row, width: nat) {
    && |piece.columns| == width && k < piece.size
    && forall c :: 0 <= c < width ==> k < |piece.columns[c]| && piece.columns[c][k] == CellAt(row, c)
  }

  /** From `first` on, `pieces` hold `rows`: row `o` is row `o % VECTOR_SIZE` of
      the `o / VECTOR_SIZE`-th piece. */
  ghost predicate PiecesHold(pieces: seq<Piece>, first: nat, rows: Rows, width: nat) {
    forall o: nat :: o < |rows| ==>
      && first + o / VECTOR_SIZE < |pieces|
      && HoldsRow(pieces[first + o / VECTOR_SIZE], o % VECTOR_SIZE, rows[o], width)
  }

  function TotalSize(pieces: seq<Piece>): nat {
    if pieces == [] then 0 else TotalSize(pieces[..|pieces| - 1]) + pieces[|pieces| - 1].size
  }

  function DecodeError(chunk: Chunk, userColumns: nat): Option<Error> {
    if chunk.Undecodable? then Some(DecodeFailed)
    else if chunk.width != userColumns then Some(SchemaBodyMismatch)
    else None
  }

  ghost predicate HoldsSlice(piece: Piece, rows: Rows, width: nat) {
    piece.size == |rows| && forall k: nat :: k < |rows| ==> HoldsRow(piece, k, rows[k], width)
  }

  /** The importer's conversion of one stretch of rows. */
  function ImportPiece(rows: Rows, width: nat): (p: Piece)
    ensures HoldsSlice(p, rows, width)
  {
    Piece(|rows|, seq(width, c requires 0 <= c < width =>
      seq(|rows|, k requires 0 <= k < |rows| => CellAt(rows[k], c))))
  }

  method DecodeInlineChunkPieces(chunk: Chunk, userColumns: nat) returns (r: Result<seq<Piece>, Error>)
    ensures DecodeError(chunk, userColumns) == if r.Err? then Some(r.error) else None
    ensures r.Ok? ==> PiecesHold(r.value, 0, chunk.rows, userColumns)
    ensures r.Ok? ==> TotalSize(r.value) == |chunk.rows|
    ensures r.Ok? ==> |r.value| == (|chunk.rows| + 2047) / 2048
  {
    if chunk.Undecodable? {
      return Err(DecodeFailed);
    }
    if chunk.width != userColumns {
      return Err(SchemaBodyMismatch);
    }
    var total, offset, pieces := |chunk.rows|, 0, [];
    while offset < total
      invariant offset <= total && (offset == |pieces| * VECTOR_SIZE || offset == total)
      invariant |pieces| == (offset + VECTOR_SIZE - 1) / VECTOR_SIZE
      invariant PiecesHold(pieces, 0, chunk.rows[..offset], userColumns)
      invariant TotalSize(pieces) == offset
    {
      var size := if total - offset < VECTOR_SIZE then total - offset else VECTOR_SIZE;
      var piece := ImportPiece(chunk.rows[offset..offset + size], userColumns);
      PieceAppended(pieces, chunk.rows, userColumns, offset, piece);
      assert (pieces + [piece])[..|pieces|] == pieces;
      pieces := pieces + [piece];
      offset := offset + size;
    }
    assert chunk.rows[..total] == chunk.rows;
    return Ok(pieces);
  }

  lemma PieceAppended(pieces: seq<Piece>, rows: Rows, width: nat, offset: nat, piece: Piece)
    requires offset == |pieces| * VECTOR_SIZE && offset + piece.size <= |rows| && piece.size <= VECTOR_SIZE
    requires PiecesHold(pieces, 0, rows[..offset], width)
    requires HoldsSlice(piece, rows[offset..offset + piece.size], width)
    ensures PiecesHold(pieces + [piece], 0, rows[..offset + piece.size], width)
  {
    var more := pieces + [piece];
    forall o: nat | o < offset + piece.size
      ensures 0 + o / VECTOR_SIZE < |more| && HoldsRow(more[0 + o / VECTOR_SIZE], o % VECTOR_SIZE, rows[o], width)
    {
      if o < offset {
        assert rows[..offset][o] == rows[o];
      } else {
        assert o / VECTOR_SIZE == |pieces| && o % VECTOR_SIZE == o - offset;
        assert rows[offset..offset + piece.size][o - offset] == rows[o];
      }
    }
  }

  // ----- Materializing the scan -----

  /** What the scan of one schema version serves: that version's rows, in order. */
  function Kept(rows: seq<StoreRow>, schemaVersion: nat): seq<StoreRow> {
    Filter(rows, (r: StoreRow) => r.schemaVersion == schemaVersion)
  }

  /** Why a kept row cannot be served, if it cannot. */
  function RowError(r: StoreRow, chunks: seq<Chunk>, userColumns: nat, withValues: bool): Option<Error> {
    if r.chunkIndex >= |chunks| then Some(ChunkIndexOutOfRange)
    else if !withValues then None
    else
      var chunk := chunks[r.chunkIndex];
      if DecodeError(chunk, userColumns).Some? then DecodeError(chunk, userColumns)
      else if r.offsetInChunk >= |chunk.rows| then Some(RowOffsetOutOfRange)
      else None
  }

  /** A row's chunk can be decoded, and to the expected number of columns. */
  predicate Decodes(chunk: Chunk, userColumns: nat) {
    chunk.Batch? && chunk.width == userColumns
  }

  /** What each refusal of a row is for. */
  lemma RefusedFor(r: StoreRow, chunks: seq<Chunk>, userColumns: nat, withValues: bool)
    ensures var e := RowError(r, chunks, userColumns, withValues);
            && (e == Some(ChunkIndexOutOfRange) <==> r.chunkIndex >= |chunks|)
            && (e == Some(DecodeFailed) <==> withValues && r.chunkIndex < |chunks| && chunks[r.chunkIndex].Undecodable?)
            && (e == Some(SchemaBodyMismatch) <==>
                withValues && r.chunkIndex < |chunks| && chunks[r.chunkIndex].Batch? && chunks[r.chunkIndex].width != userColumns)
            && (e == Some(RowOffsetOutOfRange) <==>
                && withValues && r.chunkIndex < |chunks| && Decodes(chunks[r.chunkIndex], userColumns)
                && r.offsetInChunk >= |chunks[r.chunkIndex].rows|)
            && (e.None? <==>
                && r.chunkIndex < |chunks|
                && (withValues ==>
                      Decodes(chunks[r.chunkIndex], userColumns) && r.offsetInChunk < |chunks[r.chunkIndex].rows|))
  {
  }

  predicate AllServable(kept: seq<StoreRow>, chunks: seq<Chunk>, userColumns: nat, withValues: bool) {
    forall k :: 0 <= k < |kept| ==> RowError(kept[k], chunks, userColumns, withValues).None?
  }

  /** The error of the first kept row that has one. */
  ghost predicate FirstError(kept: seq<StoreRow>, chunks: seq<Chunk>, userColumns: nat, withValues: bool, e: Error) {
    exists k: nat ::
      && k < |kept| && RowError(kept[k], chunks, userColumns, withValues) == Some(e)
      && AllServable(kept[..k], chunks, userColumns, withValues)
  }

  /** `row` stands for the store row `r`: the same metadata, and its piece
      coordinates denote row `offsetInChunk` of its chunk's decoding. */
  ghost predicate StandsFor(row: InlineDataRow, r: StoreRow, pieces: seq<Piece>, chunks: seq<Chunk>, userColumns: nat,
                            withValues: bool) {
    && row.rowId == r.rowId && row.begin == r.begin && row.end == r.end
    && RowError(r, chunks, userColumns, withValues).None?
    && (withValues ==>
          row.piece < |pieces| &&
          HoldsRow(pieces[row.piece], row.rowInPiece, chunks[r.chunkIndex].rows[r.offsetInChunk], userColumns))
  }

  ghost predicate Serves(rows: seq<InlineDataRow>, kept: seq<StoreRow>, pieces: seq<Piece>, chunks: seq<Chunk>,
                         userColumns: nat, withValues: bool) {
    && |rows| == |kept|
    && forall i :: 0 <= i < |rows| ==> StandsFor(rows[i], kept[i], pieces, chunks, userColumns, withValues)
  }

  /** What the scan keeps while it decodes: where each chunk's pieces start, once
      decoded, how many rows they hold, and the pieces. */
  datatype Decoding = Decoding(first: seq<Option<nat>>, counts: seq<nat>, pieces: seq<Piece>)

  ghost predicate DecodedOk(chunks: seq<Chunk>, d: Decoding, userColumns: nat) {
    && |d.first| == |d.counts| == |chunks|
    && forall c :: 0 <= c < |chunks| && d.first[c].Some? ==>
         && DecodeError(chunks[c], userColumns).None? && d.counts[c] == |chunks[c].rows|
         && PiecesHold(d.pieces, d.first[c].value, chunks[c].rows, userColumns)
  }

  ghost predicate NoRepeats(s: seq<nat>) {
    forall i, j :: 0 <= i < j < |s| ==> s[i] != s[j]
  }

  /** `decodes` lists exactly the decoded chunks, each once, each asked for by a row. */
  ghost predicate DecodesOk(decodes: seq<nat>, first: seq<Option<nat>>, kept: seq<StoreRow>) {
    && NoRepeats(decodes)
    && (forall c :: 0 <= c < |first| ==> (first[c].Some? <==> c in decodes))
    && (forall c :: c in decodes ==> c < |first| && Asked(kept, c))
  }

  ghost predicate Asked(kept: seq<StoreRow>, c: nat) {
    exists r :: r in kept && r.chunkIndex == c
  }

  /** Appending pieces moves none of the earlier ones. */
  lemma PiecesStay(pieces: seq<Piece>, more: seq<Piece>, first: nat, rows: Rows, width: nat)
    requires PiecesHold(pieces, first, rows, width)
    ensures PiecesHold(pieces + more, first, rows, width)
  {
    forall o: nat | o < |rows|
      ensures first + o / VECTOR_SIZE < |pieces + more|
      ensures HoldsRow((pieces + more)[first + o / VECTOR_SIZE], o % VECTOR_SIZE, rows[o], width)
    {
      assert HoldsRow(pieces[first + o / VECTOR_SIZE], o % VECTOR_SIZE, rows[o], width);
    }
  }

  lemma PiecesShift(pieces: seq<Piece>, more: seq<Piece>, rows: Rows, width: nat)
    requires PiecesHold(more, 0, rows, width)
    ensures PiecesHold(pieces + more, |pieces|, rows, width)
  {
    forall o: nat | o < |rows|
      ensures |pieces| + o / VECTOR_SIZE < |pieces + more|
      ensures HoldsRow((pieces + more)[|pieces| + o / VECTOR_SIZE], o % VECTOR_SIZE, rows[o], width)
    {
      assert HoldsRow(more[0 + o / VECTOR_SIZE], o % VECTOR_SIZE, rows[o], width);
    }
  }

  lemma ServesStays(rows: seq<InlineDataRow>, kept: seq<StoreRow>, pieces: seq<Piece>, pieces': seq<Piece>,
                    chunks: seq<Chunk>, userColumns: nat, withValues: bool)
    requires Serves(rows, kept, pieces, chunks, userColumns, withValues) && pieces <= pieces'
    ensures Serves(rows, kept, pieces', chunks, userColumns, withValues)
  {
    forall i | 0 <= i < |rows|
      ensures StandsFor(rows[i], kept[i], pieces', chunks, userColumns, withValues)
    {
      assert StandsFor(rows[i], kept[i], pieces, chunks, userColumns, withValues);
    }
  }

  /** The loop of `ScanInlineData` that appends a fresh chunk's pieces. */
  method AppendPieces(pieces: seq<Piece>, decoded: seq<Piece>) returns (count: nat, all: seq<Piece>)
    ensures all == pieces + decoded && count == TotalSize(decoded)
  {
    count, all := 0, pieces;
    for i := 0 to |decoded|
      invariant all == pieces + decoded[..i]
      invariant count == TotalSize(decoded[..i])
    {
      assert decoded[..i + 1][..i] == decoded[..i];
      count := count + decoded[i].size;
      all := all + [decoded[i]];
    }
    assert decoded[..|decoded|] == decoded;
  }

  /** Decodes chunk `c` unless it already is. */
  method EnsureDecoded(chunks: seq<Chunk>, c: nat, userColumns: nat, d: Decoding)
    returns (error: Option<Error>, d': Decoding)
    requires c < |chunks| && DecodedOk(chunks, d, userColumns)
    ensures error == DecodeError(chunks[c], userColumns)
    ensures DecodedOk(chunks, d', userColumns) && d.pieces <= d'.pieces
    ensures error.Some? ==> d' == d
    ensures error.None? ==> d'.first[c].Some? && d'.first == d.first[c := d'.first[c]]
    ensures d.first[c].Some? ==> d' == d
  {
    error, d' := None, d;
    if d.first[c].Some? {
      return;
    }
    var decoded := DecodeInlineChunkPieces(chunks[c], userColumns);
    if decoded.Err? {
      error := Some(decoded.error);
      return;
    }
    var count, all := AppendPieces(d.pieces, decoded.value);
    d' := Decoding(d.first[c := Some(|d.pieces|)], d.counts[c := count], all);
    PiecesShift(d.pieces, decoded.value, chunks[c].rows, userColumns);
    forall e | 0 <= e < |chunks| && d.first[e].Some?
      ensures PiecesHold(all, d.first[e].value, chunks[e].rows, userColumns)
    {
      PiecesStay(d.pieces, decoded.value, d.first[e].value, chunks[e].rows, userColumns);
    }
  }

  /** `d'` is `d`, or `d` with chunk `c` newly decoded. */
  predicate DecodesAtMost(c: nat, d: Decoding, d': Decoding) {
    && |d'.first| == |d.first|
    && (d' == d || (c < |d.first| && d.first[c].None? && d'.first[c].Some? && d'.first == d.first[c := d'.first[c]]))
  }

  /** Serves one kept row, decoding its chunk if it is the first to ask. */
  method PlaceRow(row: StoreRow, chunks: seq<Chunk>, userColumns: nat, withValues: bool, d: Decoding)
    returns (error: Option<Error>, d': Decoding, out: InlineDataRow)
    requires DecodedOk(chunks, d, userColumns)
    ensures error == RowError(row, chunks, userColumns, withValues)
    ensures DecodedOk(chunks, d', userColumns) && d.pieces <= d'.pieces
    ensures error.None? ==> StandsFor(out, row, d'.pieces, chunks, userColumns, withValues)
    ensures DecodesAtMost(row.chunkIndex, d, d') && (!withValues ==> d' == d)
    ensures error.None? && withValues ==> d'.first[row.chunkIndex].Some?
  {
    error, d', out := None, d, InlineDataRow(row.rowId, row.begin, row.end, 0, 0);
    if row.chunkIndex >= |chunks| {
      error := Some(ChunkIndexOutOfRange);
    } else if withValues {
      var c := row.chunkIndex;
      error, d' := EnsureDecoded(chunks, c, userColumns, d);
      if error.Some? {
        return;
      }
      if row.offsetInChunk >= d'.counts[c] {
        error := Some(RowOffsetOutOfRange);
        return;
      }
      var piece, rowInPiece := d'.first[c].value + row.offsetInChunk / VECTOR_SIZE, row.offsetInChunk % VECTOR_SIZE;
      assert HoldsRow(d'.pieces[piece], rowInPiece, chunks[c].rows[row.offsetInChunk], userColumns);
      out := out.(piece := piece, rowInPiece := rowInPiece);
    }
  }

  /** For any store scan: exactly the requested version's rows come back, in
      order, each pointing at its own decoded values; each chunk some kept row
      names is decoded once and no other is; and the scan fails exactly when a
      kept row cannot be served, with the first such row's error. */
  method ScanInlineData(schemas: seq<nat>, rows: seq<StoreRow>, chunks: seq<Chunk>, schemaVersion: nat,
                        userColumns: nat, withValues: bool)
    returns (r: Result<InlineDataScan, Error>, ghost decodes: seq<nat>)
    ensures r == Err(NoInlineSchema) <==> schemaVersion !in schemas
    ensures r.Err? && schemaVersion in schemas ==>
              FirstError(Kept(rows, schemaVersion), chunks, userColumns, withValues, r.error)
    ensures r.Ok? ==>
              && AllServable(Kept(rows, schemaVersion), chunks, userColumns, withValues)
              && Serves(r.value.rows, Kept(rows, schemaVersion), r.value.pieces, chunks, userColumns, withValues)
              && r.value.userColumns == userColumns
    ensures NoRepeats(decodes) && forall c :: c in decodes ==> Asked(Kept(rows, schemaVersion), c)
    ensures r.Ok? && withValues ==> forall k :: k in Kept(rows, schemaVersion) ==> k.chunkIndex in decodes
    ensures !withValues ==> decodes == [] && (r.Ok? ==> r.value.pieces == [])
  {
    decodes := [];
    var found := HasSchema(schemas, schemaVersion);
    if !found {
      return Err(NoInlineSchema), [];
    }
    var isOurs := (r: StoreRow) => r.schemaVersion == schemaVersion;
    var out: seq<InlineDataRow> := [];
    var d := Decoding(seq(|chunks|, _ => None), seq(|chunks|, _ => 0), []);
    for i := 0 to |rows|
      invariant Scanned(Filter(rows[..i], isOurs), out, d, decodes, chunks, userColumns, withValues)
    {
      var row := rows[i];
      ghost var before := Filter(rows[..i], isOurs);
      FilterSnoc(rows, i, isOurs);
      if row.schemaVersion == schemaVersion {
        var error, d', placed := PlaceRow(row, chunks, userColumns, withValues, d);
        ghost var decodes' := DecodesAfter(decodes, d, d', row);
        DecodesGrow(decodes, d, d', before, row);
        if error.Some? {
          assert AllServable(before, chunks, userColumns, withValues);
          FirstErrorAt(rows, i, isOurs, chunks, userColumns, withValues, error.value);
          KeptAsked(rows, i + 1, isOurs, decodes');
          return Err(error.value), decodes';
        }
        ScannedOneMore(before, row, out, placed, d, d', decodes, chunks, userColumns, withValues);
        d, out, decodes := d', out + [placed], decodes';
      }
    }
    assert rows[..|rows|] == rows;
    return Ok(InlineDataScan(out, d.pieces, userColumns)), decodes;
  }

  ghost predicate Scanned(kept: seq<StoreRow>, out: seq<InlineDataRow>, d: Decoding, decodes: seq<nat>,
                          chunks: seq<Chunk>, userColumns: nat, withValues: bool) {
    && Serves(out, kept, d.pieces, chunks, userColumns, withValues)
    && DecodedOk(chunks, d, userColumns)
    && DecodesOk(decodes, d.first, kept)
    && (withValues ==> forall k :: k in kept ==> k.chunkIndex in decodes)
    && (!withValues ==> d.pieces == [] && decodes == [])
  }

  lemma ScannedOneMore(before: seq<StoreRow>, row: StoreRow, out: seq<InlineDataRow>, placed: InlineDataRow,
                       d: Decoding, d': Decoding, decodes: seq<nat>, chunks: seq<Chunk>, userColumns: nat,
                       withValues: bool)
    requires Scanned(before, out, d, decodes, chunks, userColumns, withValues)
    requires DecodedOk(chunks, d', userColumns) && d.pieces <= d'.pieces
    requires StandsFor(placed, row, d'.pieces, chunks, userColumns, withValues)
    requires DecodesAtMost(row.chunkIndex, d, d') && (!withValues ==> d' == d)
    requires withValues ==> d'.first[row.chunkIndex].Some?
    ensures Scanned(before + [row], out + [placed], d', DecodesAfter(decodes, d, d', row), chunks, userColumns,
                    withValues)
  {
    DecodesGrow(decodes, d, d', before, row);
    ServesStays(out, before, d.pieces, d'.pieces, chunks, userColumns, withValues);
  }

  lemma FirstErrorAt(rows: seq<StoreRow>, i: nat, p: StoreRow -> bool, chunks: seq<Chunk>, userColumns: nat,
                     withValues: bool, e: Error)
    requires i < |rows| && p(rows[i]) && RowError(rows[i], chunks, userColumns, withValues) == Some(e)
    requires AllServable(Filter(rows[..i], p), chunks, userColumns, withValues)
    ensures FirstError(Filter(rows, p), chunks, userColumns, withValues, e)
  {
    var before, kept := Filter(rows[..i], p), Filter(rows, p);
    FilterSnoc(rows, i, p);
    PrefixKept(rows, i + 1, p);
    assert kept[|before|] == rows[i] && kept[..|before|] == before;
  }

  method HasSchema(schemas: seq<nat>, schemaVersion: nat) returns (found: bool)
    ensures found <==> schemaVersion in schemas
  {
    for i := 0 to |schemas|
      invariant schemaVersion !in schemas[..i]
    {
      if schemas[i] == schemaVersion {
        return true;
      }
    }
    return false;
  }

  lemma PrefixKept(rows: seq<StoreRow>, i: nat, p: StoreRow -> bool)
    requires i <= |rows|
    ensures Filter(rows[..i], p) <= Filter(rows, p)
  {
    assert rows == rows[..i] + rows[i..];
    FilterAppend(rows[..i], rows[i..], p);
  }

  /** What the rows so far asked for, all of the kept rows ask for. */
  lemma KeptAsked(rows: seq<StoreRow>, i: nat, p: StoreRow -> bool, decodes: seq<nat>)
    requires i <= |rows| && forall c :: c in decodes ==> Asked(Filter(rows[..i], p), c)
    ensures forall c :: c in decodes ==> Asked(Filter(rows, p), c)
  {
    PrefixKept(rows, i, p);
    forall c | c in decodes
      ensures Asked(Filter(rows, p), c)
    {
      var r :| r in Filter(rows[..i], p) && r.chunkIndex == c;
      assert r in Filter(rows, p);
    }
  }

  function DecodesAfter(decodes: seq<nat>, d: Decoding, d': Decoding, row: StoreRow): seq<nat> {
    if d' == d then decodes else decodes + [row.chunkIndex]
  }

  lemma DecodesGrow(decodes: seq<nat>, d: Decoding, d': Decoding, before: seq<StoreRow>, row: StoreRow)
    requires DecodesOk(decodes, d.first, before) && DecodesAtMost(row.chunkIndex, d, d')
    ensures DecodesOk(DecodesAfter(decodes, d, d', row), d'.first, before + [row])
  {
    var after := before + [row];
    assert row in after;
    assert Asked(after, row.chunkIndex);
    forall c | c in decodes
      ensures Asked(after, c)
    {
      var r :| r in before && r.chunkIndex == c;
      assert r in after;
    }
  }
}

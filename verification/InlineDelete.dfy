/** DELETE on an inline data table: the sink collapses whatever rows matched to
    the largest `begin_snapshot` among them, and one flush removes everything of
    that schema version begun at or before it. */
module InlineDelete {
  import opened Values
  import opened InlineScan
  import opened InlineEmit

  datatype FlushDelete = FlushDelete(tableId: nat, schemaVersion: nat, flushSnapshot: nat)

  /** The largest element, if there is one. */
  function Maximum(begins: seq<nat>): Option<nat> {
    if begins == [] then None
    else
      var n := |begins| - 1;
      var rest := Maximum(begins[..n]);
      if rest.None? || begins[n] > rest.value then Some(begins[n]) else rest
  }

  lemma {:induction false} MaximumIs(begins: seq<nat>)
    ensures Maximum(begins).None? <==> begins == []
    ensures begins != [] ==> Maximum(begins).value in begins && forall b :: b in begins ==> b <= Maximum(begins).value
  {
    if begins != [] {
      var n := |begins| - 1;
      MaximumIs(begins[..n]);
      assert begins == begins[..n] + [begins[n]];
    }
  }

  /** The rows a chunk of rowids names, or the first refusal. */
  function ResolveAll(rowids: seq<Cell>, rows: seq<InlineDataRow>): Result<seq<InlineDataRow>, RowidError> {
    if rowids == [] then Ok([])
    else
      var n := |rowids| - 1;
      var rest := ResolveAll(rowids[..n], rows);
      var last := ResolveRowid(rowids[n], |rows|);
      if rest.Err? then rest
      else if last.Err? then Err(last.error)
      else Ok(rest.value + [rows[last.value]])
  }

  lemma {:induction false} RefusalStands(rowids: seq<Cell>, k: nat, rows: seq<InlineDataRow>)
    requires k <= |rowids| && ResolveAll(rowids[..k], rows).Err?
    ensures ResolveAll(rowids, rows) == ResolveAll(rowids[..k], rows)
    decreases |rowids|
  {
    if k == |rowids| {
      assert rowids[..k] == rowids;
    } else {
      var n := |rowids| - 1;
      assert rowids[..n][..k] == rowids[..k];
      RefusalStands(rowids[..n], k, rows);
    }
  }

  function Begins(rows: seq<InlineDataRow>): seq<nat> {
    seq(|rows|, k requires 0 <= k < |rows| => rows[k].begin)
  }

  lemma MaximumSnoc(rows: seq<InlineDataRow>, row: InlineDataRow)
    ensures var rest := Maximum(Begins(rows));
            Maximum(Begins(rows + [row])) == if rest.None? || row.begin > rest.value then Some(row.begin) else rest
  {
    assert Begins(rows + [row])[..|rows|] == Begins(rows);
  }

  lemma ResolveSnoc(rowids: seq<Cell>, k: nat, rows: seq<InlineDataRow>)
    requires k < |rowids| && ResolveAll(rowids[..k], rows).Ok?
    ensures var last := ResolveRowid(rowids[k], |rows|);
            ResolveAll(rowids[..k + 1], rows) ==
            if last.Err? then Err(last.error) else Ok(ResolveAll(rowids[..k], rows).value + [rows[last.value]])
  {
    assert rowids[..k + 1][..k] == rowids[..k];
  }

  /** The DELETE operator's state, and what it has staged. `matched` lists the
      rows sunk so far. */
  class InlineDeleteOp {
    const tableId: nat
    const schemaVersion: nat
    var oldRows: Option<seq<InlineDataRow>>
    var maxBegin: Option<nat>
    var affected: nat
    var emitted: bool
    var staged: seq<FlushDelete>
    ghost var matched: seq<InlineDataRow>

    ghost predicate Valid()
      reads this
    {
      affected == |matched| && maxBegin == Maximum(Begins(matched))
    }

    constructor (tableId: nat, schemaVersion: nat)
      ensures Valid() && oldRows.None? && matched == [] && !emitted && staged == []
      ensures this.tableId == tableId && this.schemaVersion == schemaVersion
    {
      this.tableId, this.schemaVersion := tableId, schemaVersion;
      oldRows, maxBegin, affected, emitted, staged := None, None, 0, false, [];
      matched := [];
    }

    /** Takes one chunk of rowids; `committed` is what a fresh scan would return.
        The row list is materialized once, at the first row, and kept. */
    method Sink(rowids: seq<Cell>, committed: seq<InlineDataRow>) returns (error: Option<RowidError>)
      requires Valid()
      modifies this`oldRows, this`maxBegin, this`affected, this`matched
      ensures Valid()
      ensures oldRows == if old(oldRows).None? && rowids != [] then Some(committed) else old(oldRows)
      ensures var rows := if old(oldRows).None? then committed else old(oldRows).value;
              match ResolveAll(rowids, rows)
              case Ok(found) => error.None? && matched == old(matched) + found
              case Err(e) => error == Some(e)
    {
      ghost var rows := if oldRows.None? then committed else oldRows.value;
      for row := 0 to |rowids|
        invariant Valid()
        invariant oldRows == if old(oldRows).None? && row > 0 then Some(committed) else old(oldRows)
        invariant ResolveAll(rowids[..row], rows).Ok?
        invariant matched == old(matched) + ResolveAll(rowids[..row], rows).value
      {
        if oldRows.None? {
          oldRows := Some(committed);
        }
        var index := ResolveRowid(rowids[row], |oldRows.value|);
        ResolveSnoc(rowids, row, rows);
        if index.Err? {
          RefusalStands(rowids, row + 1, rows);
          return Some(index.error);
        }
        var found := oldRows.value[index.value];
        MaximumSnoc(matched, found);
        if maxBegin.None? || found.begin > maxBegin.value {
          maxBegin := Some(found.begin);
        }
        affected := affected + 1;
        matched := matched + [found];
      }
      assert rowids[..|rowids|] == rowids;
      return None;
    }

    /** The source side: the first call stages the flush, if anything matched, and
        reports the count; later calls do neither. */
    method GetData() returns (count: Option<nat>)
      requires Valid()
      modifies this`emitted, this`staged
      ensures Valid() && emitted
      ensures count == if old(emitted) then None else Some(affected)
      ensures staged == old(staged) +
                        if !old(emitted) && matched != [] then [FlushDelete(tableId, schemaVersion, maxBegin.value)] else []
    {
      MaximumIs(Begins(matched));
      if !emitted && maxBegin.Some? {
        staged := staged + [FlushDelete(tableId, schemaVersion, maxBegin.value)];
      }
      if emitted {
        return None;
      }
      emitted := true;
      return Some(affected);
    }
  }

  // ----- What the collapsed DELETE means -----

  /** The store rows after a flush-delete at `threshold`, or after none. */
  function AfterFlush(rows: seq<StoreRow>, schemaVersion: nat, threshold: Option<nat>): seq<StoreRow> {
    if threshold.None? then rows
    else Filter(rows, (r: StoreRow) => !(r.schemaVersion == schemaVersion && r.begin <= threshold.value))
  }

  /** SQL's DELETE from the table of one schema version. */
  function AfterDelete(rows: seq<StoreRow>, schemaVersion: nat, matches: StoreRow -> bool): seq<StoreRow> {
    Filter(rows, (r: StoreRow) => !(r.schemaVersion == schemaVersion && matches(r)))
  }

  /** What the sink sees: the scanned rows the predicate matches. */
  function Matched(rows: seq<StoreRow>, schemaVersion: nat, matches: StoreRow -> bool): seq<StoreRow> {
    Filter(Kept(rows, schemaVersion), matches)
  }

  function BeginsOf(rows: seq<StoreRow>): seq<nat> {
    seq(|rows|, k requires 0 <= k < |rows| => rows[k].begin)
  }

  function Collapsed(rows: seq<StoreRow>, schemaVersion: nat, matches: StoreRow -> bool): Option<nat> {
    Maximum(BeginsOf(Matched(rows, schemaVersion, matches)))
  }

  /** The rowids the WHERE clause lets through, of the first `k` scanned rows, as the
      scan emits them. */
  function MatchingRowids(scan: InlineDataScan, kept: seq<StoreRow>, matches: StoreRow -> bool, k: nat): seq<Cell>
    requires Readable(scan) && k <= |kept| <= |scan.rows|
  {
    if k == 0 then []
    else MatchingRowids(scan, kept, matches, k - 1) + if matches(kept[k - 1]) then [ServedCell(scan, RowIdColumn, k - 1)] else []
  }

  /** Sinking the rowids the scan emitted for exactly the matched rows leaves the
      collapsed threshold, when the row list resolved against shows the scanned
      begins. No list is longer than 2^63. */
  lemma SinkCollapses(rows: seq<StoreRow>, schemaVersion: nat, matches: StoreRow -> bool, scan: InlineDataScan,
                      list: seq<InlineDataRow>)
    requires var kept := Kept(rows, schemaVersion);
             && Readable(scan) && |scan.rows| == |list| == |kept| <= I64_BOUND
             && forall i :: 0 <= i < |list| ==> list[i].begin == kept[i].begin
    ensures var kept := Kept(rows, schemaVersion);
            var found := ResolveAll(MatchingRowids(scan, kept, matches, |kept|), list);
            found.Ok? && Maximum(Begins(found.value)) == Collapsed(rows, schemaVersion, matches)
  {
    var kept := Kept(rows, schemaVersion);
    MatchedBegins(scan, kept, matches, list, |kept|);
    assert kept[..|kept|] == kept;
  }

  lemma {:induction false} MatchedBegins(scan: InlineDataScan, kept: seq<StoreRow>, matches: StoreRow -> bool,
                                         list: seq<InlineDataRow>, k: nat)
    requires Readable(scan) && k <= |kept| == |list| == |scan.rows| <= I64_BOUND
    requires forall i :: 0 <= i < |list| ==> list[i].begin == kept[i].begin
    ensures var found := ResolveAll(MatchingRowids(scan, kept, matches, k), list);
            found.Ok? && Begins(found.value) == BeginsOf(Filter(kept[..k], matches))
  {
    if k > 0 {
      MatchedBegins(scan, kept, matches, list, k - 1);
      FilterSnoc(kept, k - 1, matches);
      var before, last := MatchingRowids(scan, kept, matches, k - 1), kept[k - 1];
      if matches(last) {
        var ids := before + [ServedCell(scan, RowIdColumn, k - 1)];
        ServedCellShows(scan, RowIdColumn, k - 1);
        assert ids[..|before|] == before;
        ResolveSnoc(ids, |before|, list);
        assert ids[..|before| + 1] == ids;
        BeginsSnoc(ResolveAll(before, list).value, list[k - 1], Filter(kept[..k - 1], matches), last);
      } else {
        assert before + [] == before;
      }
    }
  }

  lemma BeginsSnoc(found: seq<InlineDataRow>, row: InlineDataRow, kept: seq<StoreRow>, r: StoreRow)
    requires Begins(found) == BeginsOf(kept) && row.begin == r.begin
    ensures Begins(found + [row]) == BeginsOf(kept + [r])
  {
    assert |found| == |Begins(found)| == |BeginsOf(kept)| == |kept|;
    forall i | 0 <= i < |found|
      ensures found[i].begin == kept[i].begin
    {
      assert Begins(found)[i] == BeginsOf(kept)[i];
    }
  }

  /** Whenever the predicate matches a row of the version, it matches every row of
      the version begun no later. */
  ghost predicate BeginClosed(rows: seq<StoreRow>, schemaVersion: nat, matches: StoreRow -> bool) {
    forall r, q :: r in rows && q in rows && r.schemaVersion == q.schemaVersion == schemaVersion && matches(r) ==>
      q.begin <= r.begin ==> matches(q)
  }

  lemma MatchedMembers(rows: seq<StoreRow>, schemaVersion: nat, matches: StoreRow -> bool)
    ensures forall r :: r in Matched(rows, schemaVersion, matches) <==>
                        r in rows && r.schemaVersion == schemaVersion && matches(r)
  {
    FilterMembers(rows, (r: StoreRow) => r.schemaVersion == schemaVersion);
    FilterMembers(Kept(rows, schemaVersion), matches);
  }

  /** The collapsed threshold is the largest matched begin. */
  lemma CollapsedIs(rows: seq<StoreRow>, schemaVersion: nat, matches: StoreRow -> bool)
    ensures var t := Collapsed(rows, schemaVersion, matches);
            && (t.None? ==> forall r :: r in rows && r.schemaVersion == schemaVersion ==> !matches(r))
            && (t.Some? ==>
                  && (exists r :: r in rows && r.schemaVersion == schemaVersion && matches(r) && r.begin == t.value)
                  && forall r :: r in rows && r.schemaVersion == schemaVersion && matches(r) ==> r.begin <= t.value)
  {
    var matched := Matched(rows, schemaVersion, matches);
    MatchedMembers(rows, schemaVersion, matches);
    MaximumIs(BeginsOf(matched));
    forall r | r in matched
      ensures r.begin in BeginsOf(matched)
    {
      var k :| 0 <= k < |matched| && matched[k] == r;
      assert BeginsOf(matched)[k] == r.begin;
    }
    if matched != [] {
      var t := Collapsed(rows, schemaVersion, matches).value;
      var k :| 0 <= k < |matched| && BeginsOf(matched)[k] == t;
      assert matched[k] in matched;
    }
  }

  /** Collapsing to one threshold is SQL's DELETE exactly for the predicates that
      are closed under earlier begins, on every store content. */
  lemma CollapseExactIff(rows: seq<StoreRow>, schemaVersion: nat, matches: StoreRow -> bool)
    ensures AfterFlush(rows, schemaVersion, Collapsed(rows, schemaVersion, matches))
            == AfterDelete(rows, schemaVersion, matches)
            <==> BeginClosed(rows, schemaVersion, matches)
  {
    var t := Collapsed(rows, schemaVersion, matches);
    var stays := (r: StoreRow) => !(r.schemaVersion == schemaVersion && matches(r));
    CollapsedIs(rows, schemaVersion, matches);
    if t.None? {
      FilterAll(rows, stays);
    } else {
      var outlives := (r: StoreRow) => !(r.schemaVersion == schemaVersion && r.begin <= t.value);
      if BeginClosed(rows, schemaVersion, matches) {
        FilterCongruent(rows, outlives, stays);
      } else {
        var r, q :| r in rows && q in rows && r.schemaVersion == q.schemaVersion == schemaVersion
                    && matches(r) && q.begin <= r.begin && !matches(q);
        FilterMembers(rows, outlives);
        FilterMembers(rows, stays);
        assert q in Filter(rows, stays) && q !in Filter(rows, outlives);
      }
    }
  }

  /** A matched row whose begin shows as negative, beside an unmatched one whose
      begin does not. */
  ghost predicate WrapsPast(rows: seq<StoreRow>, schemaVersion: nat, bound: int) {
    exists r, q :: r in rows && q in rows && r.schemaVersion == q.schemaVersion == schemaVersion
                   && q.begin < I64_BOUND <= r.begin && AsInt64(r.begin) <= bound < q.begin
  }

  /** For every `begin_snapshot <= F`, on the signed value the scan shows: the flush
      is SQL's DELETE if and only if no row's begin wraps past an unmatched row, so
      always while begins stay below 2^63; and nothing is staged exactly when no
      row of the version matches. */
  lemma BeginFilterExactIff(rows: seq<StoreRow>, schemaVersion: nat, bound: int)
    ensures var matches := (r: StoreRow) => AsInt64(r.begin) <= bound;
            && (AfterFlush(rows, schemaVersion, Collapsed(rows, schemaVersion, matches))
                == AfterDelete(rows, schemaVersion, matches)
                <==> !WrapsPast(rows, schemaVersion, bound))
            && ((forall r :: r in rows && r.schemaVersion == schemaVersion ==> r.begin < I64_BOUND) ==>
                  !WrapsPast(rows, schemaVersion, bound))
            && (Collapsed(rows, schemaVersion, matches).None? <==>
                forall r :: r in rows && r.schemaVersion == schemaVersion ==> AsInt64(r.begin) > bound)
  {
    var matches := (r: StoreRow) => AsInt64(r.begin) <= bound;
    CollapseExactIff(rows, schemaVersion, matches);
    CollapsedIs(rows, schemaVersion, matches);
    if WrapsPast(rows, schemaVersion, bound) {
      var r, q :| r in rows && q in rows && r.schemaVersion == q.schemaVersion == schemaVersion
                  && q.begin < I64_BOUND <= r.begin && AsInt64(r.begin) <= bound < q.begin;
      assert matches(r) && !matches(q);
    } else {
      forall r, q | r in rows && q in rows && r.schemaVersion == q.schemaVersion == schemaVersion && matches(r)
        ensures q.begin <= r.begin ==> matches(q)
      {
        assert !(q.begin < I64_BOUND <= r.begin && AsInt64(r.begin) <= bound < q.begin);
      }
    }
  }

  /** A predicate on `row_id` is collapsed too, and takes an unmatched row along. */
  lemma RowFilterDeletesTooMuch() returns (rows: seq<StoreRow>, matches: StoreRow -> bool)
    ensures AfterFlush(rows, 0, Collapsed(rows, 0, matches)) != AfterDelete(rows, 0, matches)
  {
    rows := [StoreRow(0, 1, None, 0, 0, 0), StoreRow(1, 2, None, 0, 1, 0)];
    matches := (r: StoreRow) => r.rowId == 1;
    assert rows[1] in rows && rows[0] in rows && matches(rows[1]) && !matches(rows[0]);
    CollapseExactIff(rows, 0, matches);
  }
}

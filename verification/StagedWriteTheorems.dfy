/** The staged translation of UPDATE and DELETE on unversioned tables, read again,
    has SQL's meaning, and exactly when. */
module StagedWriteTheorems {
  import opened Values
  import opened StagedWrite
  import opened StagedRead

  // ----- SQL's own meaning -----

  ghost predicate UniqueKeys(rows: Rows, key: seq<nat>) {
    forall i, j :: 0 <= i < j < |rows| ==> !SameKey(rows[i], rows[j], key)
  }

  /** Both are the same unordered table, with unique keys. */
  ghost predicate SameTable(a: Rows, b: Rows, key: seq<nat>) {
    UniqueKeys(a, key) && UniqueKeys(b, key) && |a| == |b| && forall r :: r in a <==> r in b
  }

  /** The rowids of a chunk as indexes. */
  function Targets(inputs: Rows, rowidColumn: nat): seq<int> {
    seq(|inputs|, i requires 0 <= i < |inputs| =>
      if CellAt(inputs[i], rowidColumn).Num? then CellAt(inputs[i], rowidColumn).n else -1)
  }

  /** Each row is named at most once, and every rowid is in range. */
  ghost predicate TargetsOk(targets: seq<int>, count: nat) {
    && (forall i :: 0 <= i < |targets| ==> 0 <= targets[i] < count)
    && (forall i, j :: 0 <= i < j < |targets| ==> targets[i] != targets[j])
  }

  /** Row `targets[k]` of the original table becomes `images[k]`; all others stay
      where they are. */
  function Replaced(rows: Rows, targets: seq<int>, images: Rows): (r: Rows)
    requires |targets| == |images| && forall i :: 0 <= i < |targets| ==> 0 <= targets[i] < |rows|
    ensures |r| == |rows|
  {
    if targets == [] then rows
    else
      var n := |targets| - 1;
      Replaced(rows, targets[..n], images[..n])[targets[n] := images[n]]
  }

  lemma {:induction false} ReplacedAt(rows: Rows, targets: seq<int>, images: Rows, i: nat)
    requires |targets| == |images| && TargetsOk(targets, |rows|) && i < |rows|
    ensures i !in targets ==> Replaced(rows, targets, images)[i] == rows[i]
    ensures forall k :: 0 <= k < |targets| && targets[k] == i ==> Replaced(rows, targets, images)[i] == images[k]
  {
    if targets != [] {
      var n := |targets| - 1;
      ReplacedAt(rows, targets[..n], images[..n], i);
      assert targets == targets[..n] + [targets[n]];
    }
  }

  function OverlaidAll(rows: Rows, sets: seq<SetTarget>, inputs: Rows, targets: seq<int>): Rows
    requires |targets| == |inputs| && forall i :: 0 <= i < |targets| ==> 0 <= targets[i] < |rows|
  {
    seq(|inputs|, i requires 0 <= i < |inputs| => Overlaid(rows[targets[i]], sets, inputs[i]))
  }

  /** SQL's UPDATE: each matched row becomes itself with the SET columns replaced. */
  function SqlUpdate(rows: Rows, sets: seq<SetTarget>, inputs: Rows, targets: seq<int>): Rows
    requires |targets| == |inputs| && forall i :: 0 <= i < |targets| ==> 0 <= targets[i] < |rows|
  {
    Replaced(rows, targets, OverlaidAll(rows, sets, inputs, targets))
  }

  /** SQL's DELETE: the rows not matched, in their order. */
  function SqlDelete(rows: Rows, targets: seq<int>, n: nat): Rows
    requires n <= |rows|
  {
    if n == 0 then []
    else SqlDelete(rows, targets, n - 1) + if n - 1 in targets then [] else [rows[n - 1]]
  }

  // ----- What the sink staged -----

  /** A chunk whose rowids are good stages one operation per row. */
  lemma {:induction false} StagedOps(spec: TableSpec, statement: Statement, rowidColumn: nat, inputs: Rows, rows: Rows)
    requires TargetsOk(Targets(inputs, rowidColumn), |rows|)
    ensures var targets, r := Targets(inputs, rowidColumn), StagedFor(spec, statement, rowidColumn, inputs, rows);
            && r.Ok? && |r.value| == |inputs|
            && forall i :: 0 <= i < |inputs| ==> r.value[i] == OpFor(spec, statement, rows[targets[i]], inputs[i])
  {
    if inputs != [] {
      var n := |inputs| - 1;
      var targets := Targets(inputs, rowidColumn);
      assert Targets(inputs[..n], rowidColumn) == targets[..n];
      assert TargetsOk(targets[..n], |rows|);
      StagedOps(spec, statement, rowidColumn, inputs[..n], rows);
      assert 0 <= targets[n] < |rows|;
      var r := StagedFor(spec, statement, rowidColumn, inputs, rows);
      forall i | 0 <= i < |inputs|
        ensures r.Ok? && |r.value| == |inputs| && r.value[i] == OpFor(spec, statement, rows[targets[i]], inputs[i])
      {
        assert i < n ==> targets[..n][i] == targets[i] && inputs[..n][i] == inputs[i];
      }
    }
  }

  // ----- Overlay updates -----

  /** The last of `sets` that sets column `c`. */
  predicate SetsLast(sets: seq<SetTarget>, c: nat, j: nat) {
    j < |sets| && sets[j].column == c && forall k :: j < k < |sets| ==> sets[k].column != c
  }

  /** What SQL's SET makes of a row, column by column: the value the last assignment to it
      gives, from the sink column it arrives in, and what it was if there is none. */
  lemma {:induction false} OverlaidIs(row: Row, sets: seq<SetTarget>, input: Row)
    ensures |Overlaid(row, sets, input)| == |row|
    ensures forall c: nat, j: nat :: c < |row| && SetsLast(sets, c, j) ==> Overlaid(row, sets, input)[c] == CellAt(input, sets[j].source)
    ensures forall c: nat :: c < |row| && (forall j :: 0 <= j < |sets| ==> sets[j].column != c) ==>
              Overlaid(row, sets, input)[c] == row[c]
  {
    if sets != [] {
      var n := |sets| - 1;
      OverlaidIs(row, sets[..n], input);
      forall c: nat, j: nat | c < |row| && SetsLast(sets, c, j)
        ensures Overlaid(row, sets, input)[c] == CellAt(input, sets[j].source)
      {
        if j < n {
          assert SetsLast(sets[..n], c, j) && sets[n].column != c;
        }
      }
    }
  }


  lemma {:induction false} OverlaidKeepsKey(row: Row, sets: seq<SetTarget>, input: Row, key: seq<nat>)
    requires forall j :: 0 <= j < |sets| ==> sets[j].column !in key
    ensures SameKey(Overlaid(row, sets, input), row, key)
  {
    if sets != [] {
      var n := |sets| - 1;
      OverlaidKeepsKey(row, sets[..n], input, key);
      var before, after := Overlaid(row, sets[..n], input), Overlaid(row, sets, input);
      forall i | 0 <= i < |key|
        ensures Pick(after, key)[i] == Pick(before, key)[i]
      {
        assert sets[n].column !in key && key[i] in key;
      }
      assert Pick(after, key) == Pick(before, key);
    }
  }

  /** Removing the one row with a key leaves all the others. */
  lemma {:induction false} DropOne(rows: Rows, i: nat, image: Row, key: seq<nat>)
    requires UniqueKeys(rows, key) && i < |rows| && SameKey(image, rows[i], key)
    ensures Filter(rows, (r: Row) => !SameKey(r, image, key)) == rows[..i] + rows[i + 1..]
  {
    var other := (r: Row) => !SameKey(r, image, key);
    assert rows == rows[..i] + ([rows[i]] + rows[i + 1..]);
    FilterAppend(rows[..i], [rows[i]] + rows[i + 1..], other);
    FilterAppend([rows[i]], rows[i + 1..], other);
    FilterOne(rows[i], other);
    OthersDiffer(rows, i, image, key);
    FilterAll(rows[..i], other);
    FilterAll(rows[i + 1..], other);
  }

  lemma OthersDiffer(rows: Rows, i: nat, image: Row, key: seq<nat>)
    requires UniqueKeys(rows, key) && i < |rows| && SameKey(image, rows[i], key)
    ensures forall r :: r in rows[..i] ==> !SameKey(r, image, key)
    ensures forall r :: r in rows[i + 1..] ==> !SameKey(r, image, key)
  {
    forall r | r in rows[..i]
      ensures !SameKey(r, image, key)
    {
      var j :| 0 <= j < i && rows[j] == r;
      assert !SameKey(rows[j], rows[i], key);
    }
    forall r | r in rows[i + 1..]
      ensures !SameKey(r, image, key)
    {
      var j :| 0 <= j < |rows[i + 1..]| && rows[i + 1..][j] == r;
      assert !SameKey(rows[i], rows[i + 1 + j], key);
    }
  }

  /** Overwriting one row by its key is replacing it in place, as a table. */
  lemma OverwriteReplaces(a: Rows, b: Rows, i: nat, image: Row, key: seq<nat>)
    requires SameTable(a, b, key) && i < |b| && SameKey(image, b[i], key)
    ensures SameTable(Overwritten(a, image, key), b[i := image], key)
  {
    assert b[i] in a;
    var k :| 0 <= k < |a| && a[k] == b[i];
    DropOne(a, k, image, key);
    var rest := a[..k] + a[k + 1..];
    var a', b' := rest + [image], b[i := image];
    UniqueAfterMove(a, k, image, key);
    forall r
      ensures r in a' <==> r in b'
    {
      OthersIn(a, k, r, key);
      OthersIn(b, i, r, key);
      ReplacedMembers(b, i, image, r);
    }
  }

  lemma UniqueAfterMove(a: Rows, k: nat, image: Row, key: seq<nat>)
    requires UniqueKeys(a, key) && k < |a| && SameKey(image, a[k], key)
    ensures UniqueKeys(a[..k] + a[k + 1..] + [image], key)
  {
    var a' := a[..k] + a[k + 1..] + [image];
    forall i, j | 0 <= i < j < |a'|
      ensures !SameKey(a'[i], a'[j], key)
    {
      var i0 := if i < k then i else i + 1;
      assert a'[i] == a[i0];
      if j < |a'| - 1 {
        var j0 := if j < k then j else j + 1;
        assert a'[j] == a[j0];
      } else {
        assert !SameKey(a[i0], a[k], key);
      }
    }
  }

  /** With unique keys, the rows other than the `k`-th are those with another key. */
  lemma OthersIn(a: Rows, k: nat, r: Row, key: seq<nat>)
    requires UniqueKeys(a, key) && k < |a|
    ensures r in a[..k] + a[k + 1..] <==> r in a && !SameKey(r, a[k], key)
  {
    var rest := a[..k] + a[k + 1..];
    if r in rest {
      var i :| 0 <= i < |rest| && rest[i] == r;
      var i0 := if i < k then i else i + 1;
      assert a[i0] == r;
    }
    if r in a && !SameKey(r, a[k], key) {
      var i :| 0 <= i < |a| && a[i] == r;
      assert rest[if i < k then i else i - 1] == r;
    }
  }

  lemma ReplacedMembers(b: Rows, i: nat, image: Row, r: Row)
    requires i < |b|
    ensures r in b[i := image] <==> r == image || r in b[..i] + b[i + 1..]
  {
    assert b[i := image] == b[..i] + [image] + b[i + 1..];
  }

  lemma ReplacedSnoc(rows: Rows, targets: seq<int>, images: Rows, n: nat)
    requires n < |targets| == |images| && forall i :: 0 <= i < |targets| ==> 0 <= targets[i] < |rows|
    ensures Replaced(rows, targets[..n + 1], images[..n + 1]) ==
            Replaced(rows, targets[..n], images[..n])[targets[n] := images[n]]
  {
    assert targets[..n + 1][..n] == targets[..n] && images[..n + 1][..n] == images[..n];
  }

  function OverwrittenAll(rows: Rows, images: Rows, key: seq<nat>): Rows {
    if images == [] then rows
    else Overwritten(OverwrittenAll(rows, images[..|images| - 1], key), images[|images| - 1], key)
  }

  lemma OverwrittenSnoc(rows: Rows, images: Rows, n: nat, key: seq<nat>)
    requires n < |images|
    ensures OverwrittenAll(rows, images[..n + 1], key) == Overwritten(OverwrittenAll(rows, images[..n], key), images[n], key)
  {
    assert images[..n + 1][..n] == images[..n];
  }

  /** Each matched row keeps its key. */
  ghost predicate KeepKeys(rows: Rows, targets: seq<int>, images: Rows, key: seq<nat>) {
    && TargetsOk(targets, |rows|) && |targets| == |images|
    && forall i :: 0 <= i < |images| ==> SameKey(images[i], rows[targets[i]], key)
  }

  /** Overwriting rows by key, each with an image of its own key, is replacing them. */
  lemma {:induction false} OverwrittenReplaces(rows: Rows, targets: seq<int>, images: Rows, key: seq<nat>, k: nat)
    requires UniqueKeys(rows, key) && KeepKeys(rows, targets, images, key) && k <= |images|
    ensures SameTable(OverwrittenAll(rows, images[..k], key), Replaced(rows, targets[..k], images[..k]), key)
  {
    if k > 0 {
      var n := k - 1;
      OverwrittenReplaces(rows, targets, images, key, n);
      OverwrittenSnoc(rows, images, n, key);
      ReplacedSnoc(rows, targets, images, n);
      assert TargetsOk(targets[..n], |rows|);
      ReplacedAt(rows, targets[..n], images[..n], targets[n]);
      OverwriteReplaces(OverwrittenAll(rows, images[..n], key), Replaced(rows, targets[..n], images[..n]), targets[n], images[n], key);
    }
  }

  /** Replacing rows in place, each under its key, tells the images apart. */
  lemma ReplacedSameIff(rows: Rows, targets: seq<int>, a: Rows, b: Rows, key: seq<nat>, table: Rows)
    requires UniqueKeys(rows, key) && KeepKeys(rows, targets, a, key) && KeepKeys(rows, targets, b, key)
    requires SameTable(table, Replaced(rows, targets, a), key)
    ensures SameTable(table, Replaced(rows, targets, b), key) <==> a == b
  {
    if SameTable(table, Replaced(rows, targets, b), key) {
      forall i | 0 <= i < |a|
        ensures a[i] == b[i]
      {
        ReplacedAt(rows, targets, b, targets[i]);
        assert b[i] in Replaced(rows, targets, b);
        var j :| 0 <= j < |rows| && Replaced(rows, targets, a)[j] == b[i];
        KeptInPlace(rows, targets, a, key, j);
        assert SameKey(rows[j], rows[targets[i]], key);
        assert !(j < targets[i]) && !(targets[i] < j);
        ReplacedAt(rows, targets, a, j);
      }
    }
  }

  lemma KeptInPlace(rows: Rows, targets: seq<int>, images: Rows, key: seq<nat>, j: nat)
    requires KeepKeys(rows, targets, images, key) && j < |rows|
    ensures SameKey(Replaced(rows, targets, images)[j], rows[j], key)
  {
    ReplacedAt(rows, targets, images, j);
    if j in targets {
      var i :| 0 <= i < |targets| && targets[i] == j;
    }
  }

  /** A row staged for the table of `spec`. */
  predicate Stages(spec: TableSpec, op: StagedOp, operation: StagedOperation) {
    op.kind == spec.writeKind && op.operation == operation
  }

  ghost predicate Overwrites(spec: TableSpec, ops: seq<StagedOp>, images: Rows) {
    |ops| == |images| && forall i :: 0 <= i < |ops| ==> Stages(spec, ops[i], StageInsert) && ops[i].cells == images[i]
  }

  /** What an overlay UPDATE stages: each matched row's image, under its own key. */
  lemma OverlayOps(spec: TableSpec, sets: seq<SetTarget>, rowidColumn: nat, inputs: Rows, rows: Rows)
    requires !SetsKey(spec, sets) && TargetsOk(Targets(inputs, rowidColumn), |rows|)
    ensures var targets, r := Targets(inputs, rowidColumn), StagedFor(spec, Overlay(sets), rowidColumn, inputs, rows);
            var images := OverlaidAll(rows, sets, inputs, targets);
            r.Ok? && Overwrites(spec, r.value, images) && KeepKeys(rows, targets, images, spec.deleteKeyColumns)
  {
    var targets, key := Targets(inputs, rowidColumn), spec.deleteKeyColumns;
    StagedOps(spec, Overlay(sets), rowidColumn, inputs, rows);
    var ops := StagedFor(spec, Overlay(sets), rowidColumn, inputs, rows).value;
    var images := OverlaidAll(rows, sets, inputs, targets);
    forall i | 0 <= i < |ops|
      ensures Stages(spec, ops[i], StageInsert) && ops[i].cells == images[i] && SameKey(images[i], rows[targets[i]], key)
    {
      assert ops[i] == OpFor(spec, Overlay(sets), rows[targets[i]], inputs[i]);
      OverlaidKeepsKey(rows[targets[i]], sets, inputs[i], key);
    }
  }

  // ----- Reading overwrites again -----

  /** Reading over staged overwrites that decode overwrites with what they decode to;
      one that does not decode fails the read. */
  lemma {:induction false} ReadOverwrites(spec: TableSpec, rows: Rows, ops: seq<StagedOp>, decoded: Rows, k: nat)
    requires |ops| == |decoded| && k <= |ops|
    requires forall i :: 0 <= i < |ops| ==> Stages(spec, ops[i], StageInsert) && DecodeRow(spec, ops[i].cells) == Ok(decoded[i])
    ensures ReadAll(spec, rows, ops[..k]) == Ok(OverwrittenAll(rows, decoded[..k], spec.deleteKeyColumns))
  {
    if k > 0 {
      ReadOverwrites(spec, rows, ops, decoded, k - 1);
      ReadSnoc(spec, rows, ops, k - 1);
      OverwrittenSnoc(rows, decoded, k - 1, spec.deleteKeyColumns);
    }
  }

  lemma {:induction false} ReadDecodes(spec: TableSpec, rows: Rows, ops: seq<StagedOp>, i: nat)
    requires i < |ops| && Stages(spec, ops[i], StageInsert) && ReadAll(spec, rows, ops).Ok?
    ensures DecodeRow(spec, ops[i].cells).Ok?
    decreases |ops|
  {
    var n := |ops| - 1;
    if i < n {
      ReadDecodes(spec, rows, ops[..n], i);
    }
  }

  function DecodedAll(images: Rows): (r: Rows)
    ensures |r| == |images|
  {
    seq(|images|, i requires 0 <= i < |images| => ReceivedAll(images[i]))
  }

  lemma {:induction false} OverlaidLength(row: Row, sets: seq<SetTarget>, input: Row)
    ensures |Overlaid(row, sets, input)| == |row|
  {
    if sets != [] {
      OverlaidLength(row, sets[..|sets| - 1], input);
    }
  }

  /** Decoding keeps the key of a row whose key is a served one. */
  lemma ReceivedKeepsKey(spec: TableSpec, image: Row, row: Row)
    requires AllStorable(spec.shapes, row) && SameKey(image, row, spec.deleteKeyColumns) && |image| == |row|
    ensures SameKey(ReceivedAll(image), row, spec.deleteKeyColumns)
  {
    var key := spec.deleteKeyColumns;
    forall i | 0 <= i < |key|
      ensures Pick(ReceivedAll(image), key)[i] == Pick(row, key)[i]
    {
      assert Pick(image, key)[i] == Pick(row, key)[i];
      if key[i] < |row| {
        ReceivedKeepsIff(spec.shapes[key[i]], row[key[i]]);
      }
    }
    assert Pick(ReceivedAll(image), key) == Pick(row, key);
  }

  lemma DecodedKeepKeys(spec: TableSpec, rows: Rows, targets: seq<int>, images: Rows)
    requires ServedAs(spec, rows) && KeepKeys(rows, targets, images, spec.deleteKeyColumns)
    requires forall i :: 0 <= i < |images| ==> |images[i]| == |rows[targets[i]]|
    ensures KeepKeys(rows, targets, DecodedAll(images), spec.deleteKeyColumns)
  {
    forall i | 0 <= i < |images|
      ensures SameKey(DecodedAll(images)[i], rows[targets[i]], spec.deleteKeyColumns)
    {
      ReceivedKeepsKey(spec, images[i], rows[targets[i]]);
    }
  }

  /** Every cell of every row that is to be is stored as it is. */
  ghost predicate ImagesStorable(spec: TableSpec, images: Rows) {
    forall i :: 0 <= i < |images| ==> AllStorable(spec.shapes, images[i])
  }

  lemma StorableIff(spec: TableSpec, images: Rows)
    requires forall i :: 0 <= i < |images| ==> DecodeCells(spec.shapes, images[i]).Ok?
    ensures ImagesStorable(spec, images) <==> DecodedAll(images) == images
  {
    forall i | 0 <= i < |images|
      ensures AllStorable(spec.shapes, images[i]) <==> DecodedAll(images)[i] == images[i]
    {
      StoredIff(spec.shapes, images[i]);
      DecodeIs(spec.shapes, images[i]);
    }
    if DecodedAll(images) == images {
      assert forall i :: 0 <= i < |images| ==> DecodedAll(images)[i] == images[i];
    }
  }

  /** For the three statistics tables, every UPDATE that sets no key column and every
      set of matched rows: reading again over the staged full rows gives exactly
      SQL's UPDATE, matched rows changed, all others as they were, none added, if
      and only if every cell set can be stored as it is: no NULL in a column that
      has none, and no text with a NUL in it. */
  lemma StatisticsUpdateIff(spec: TableSpec, sets: seq<SetTarget>, rowidColumn: nat, inputs: Rows, rows: Rows)
    requires spec in STATISTICS && !SetsKey(spec, sets)
    requires UniqueKeys(rows, spec.deleteKeyColumns) && ServedAs(spec, rows)
    requires TargetsOk(Targets(inputs, rowidColumn), |rows|)
    ensures var targets, r := Targets(inputs, rowidColumn), StagedFor(spec, Overlay(sets), rowidColumn, inputs, rows);
            && r.Ok?
            && (var again := ReadAll(spec, rows, r.value);
                again.Ok? && SameTable(again.value, SqlUpdate(rows, sets, inputs, targets), spec.deleteKeyColumns)
                <==> ImagesStorable(spec, OverlaidAll(rows, sets, inputs, targets)))
  {
    var targets := Targets(inputs, rowidColumn);
    OverlayOps(spec, sets, rowidColumn, inputs, rows);
    var ops := StagedFor(spec, Overlay(sets), rowidColumn, inputs, rows).value;
    var images := OverlaidAll(rows, sets, inputs, targets);
    assert spec.writeKind != OPTIONS.writeKind;
    if forall i :: 0 <= i < |images| ==> DecodeCells(spec.shapes, images[i]).Ok? {
      forall i | 0 <= i < |images|
        ensures |images[i]| == |rows[targets[i]]|
      {
        OverlaidLength(rows[targets[i]], sets, inputs[i]);
      }
      DecodedUpdateIff(spec, rows, targets, images, ops);
    } else {
      var i :| 0 <= i < |images| && DecodeCells(spec.shapes, images[i]).Err?;
      StoredIff(spec.shapes, images[i]);
      if ReadAll(spec, rows, ops).Ok? {
        ReadDecodes(spec, rows, ops, i);
      }
    }
  }

  /** When the core decodes all of them. */
  lemma DecodedUpdateIff(spec: TableSpec, rows: Rows, targets: seq<int>, images: Rows, ops: seq<StagedOp>)
    requires spec.writeKind != OPTIONS.writeKind && Overwrites(spec, ops, images) && ServedAs(spec, rows)
    requires UniqueKeys(rows, spec.deleteKeyColumns) && KeepKeys(rows, targets, images, spec.deleteKeyColumns)
    requires forall i :: 0 <= i < |images| ==> |images[i]| == |rows[targets[i]]|
    requires forall i :: 0 <= i < |images| ==> DecodeCells(spec.shapes, images[i]).Ok?
    ensures ReadAll(spec, rows, ops).Ok?
    ensures SameTable(ReadAll(spec, rows, ops).value, Replaced(rows, targets, images), spec.deleteKeyColumns)
            <==> ImagesStorable(spec, images)
  {
    var key, decoded := spec.deleteKeyColumns, DecodedAll(images);
    ReadAsDecoded(spec, rows, ops, images);
    DecodedKeepKeys(spec, rows, targets, images);
    OverwrittenReplaces(rows, targets, decoded, key, |decoded|);
    assert targets[..|decoded|] == targets && decoded[..|decoded|] == decoded;
    ReplacedSameIff(rows, targets, decoded, images, key, OverwrittenAll(rows, decoded, key));
    StorableIff(spec, images);
  }

  lemma ReadAsDecoded(spec: TableSpec, rows: Rows, ops: seq<StagedOp>, images: Rows)
    requires spec.writeKind != OPTIONS.writeKind && Overwrites(spec, ops, images)
    requires forall i :: 0 <= i < |images| ==> DecodeCells(spec.shapes, images[i]).Ok?
    ensures ReadAll(spec, rows, ops) == Ok(OverwrittenAll(rows, DecodedAll(images), spec.deleteKeyColumns))
  {
    forall i | 0 <= i < |ops|
      ensures DecodeRow(spec, ops[i].cells) == Ok(DecodedAll(images)[i])
    {
      DecodeIs(spec.shapes, images[i]);
    }
    ReadOverwrites(spec, rows, ops, DecodedAll(images), |ops|);
    assert ops[..|ops|] == ops && DecodedAll(images)[..|ops|] == DecodedAll(images);
  }

  /** A NULL count: the planner takes it, and from then on the table cannot be read. */
  lemma NullCountUnreadable(row: Row) returns (inputs: Rows)
    requires AllStorable(TABLE_STATS.shapes, row)
    ensures PlanUpdate(TABLE_STATS, [SetTarget(1, 0)], false) == Staging(Overlay([SetTarget(1, 0)]))
    ensures var r := StagedFor(TABLE_STATS, Overlay([SetTarget(1, 0)]), 1, inputs, [row]);
            r.Ok? && ReadAll(TABLE_STATS, [row], r.value) == Err(WrongCell)
  {
    inputs := [[Null, Num(0)]];
    var spec, sets := TABLE_STATS, [SetTarget(1, 0)];
    assert Targets(inputs, 1) == [0];
    StatisticsPlans(sets, spec);
    StagedOps(spec, Overlay(sets), 1, inputs, [row]);
    SetOne(row, 1, 0, inputs[0]);
    var image := row[1 := Null];
    var ops := StagedFor(spec, Overlay(sets), 1, inputs, [row]).value;
    assert ops == [StagedOp(8, StageInsert, image)];
    assert ops[..0] == [];
    assert DecodeCells(spec.shapes, image) == Err(WrongCell) by {
      assert image[1..][0] == Null && spec.shapes[1..][0] == ID;
    }
  }

  lemma SetOne(row: Row, column: nat, source: nat, input: Row)
    requires column < |row|
    ensures Overlaid(row, [SetTarget(column, source)], input) == row[column := CellAt(input, source)]
  {
    assert [SetTarget(column, source)][..0] == [];
  }

  /** Refusing SETs on key columns is exactly right: overwriting one row by key is
      SQL's UPDATE of it if and only if the row keeps its key. */
  lemma OverwriteExactIff(rows: Rows, i: nat, image: Row, key: seq<nat>)
    requires UniqueKeys(rows, key) && i < |rows|
    ensures SameTable(Overwritten(rows, image, key), rows[i := image], key)
            <==> SameKey(image, rows[i], key)
  {
    var other := (r: Row) => !SameKey(r, image, key);
    if SameKey(image, rows[i], key) {
      OverwriteReplaces(rows, rows, i, image, key);
    } else {
      FilterMembers(rows, other);
      assert rows[i] in Filter(rows, other) + [image];
      OthersIn(rows, i, rows[i], key);
      ReplacedMembers(rows, i, image, rows[i]);
    }
  }

  /** The three statistics tables: an UPDATE is refused exactly when it sets a key
      column, and otherwise overlays. */
  lemma StatisticsPlans(sets: seq<SetTarget>, spec: TableSpec)
    requires spec == TABLE_STATS || spec == TABLE_COLUMN_STATS || spec == FILE_COLUMN_STATS
    ensures PlanUpdate(spec, sets, false) == if SetsKey(spec, sets) then Refused else Staging(Overlay(sets))
    ensures PlanDelete(spec, false) == Staging(KeyedDelete)
    ensures PlanUpdate(spec, sets, true) == Refused && PlanDelete(spec, true) == Refused
  {
    assert TABLE_STATS.deleteKeyColumns[0] == 0 && TABLE_COLUMN_STATS.deleteKeyColumns[0] == 0;
    assert FILE_COLUMN_STATS.deleteKeyColumns[0] == 0;
  }

  /** Every table: a DELETE is keyed exactly where there is a delete key, deletes from
      the registry exactly on the one void-insertable table, and is void elsewhere. */
  lemma DeletePlans(spec: TableSpec)
    ensures PlanDelete(spec, true) == Refused && PlanDelete(spec, false) != Refused
    ensures PlanDelete(spec, false) == Staging(KeyedDelete) <==> spec.deleteKeyColumns != []
    ensures PlanDelete(spec, false) == RegistryDelete <==> spec.deleteKeyColumns == [] && spec.writeKind == -2
    ensures PlanDelete(spec, false) == Void <==> spec.deleteKeyColumns == [] && spec.writeKind != -2
  {
  }

  /** Every table: an UPDATE is void exactly for `SET end_snapshot` alone on a table that
      has neither a lifecycle nor rows to overlay. */
  lemma VoidUpdateIff(spec: TableSpec, sets: seq<SetTarget>)
    ensures PlanUpdate(spec, sets, false) == Void <==>
            && spec.endKeyColumns == [] && !spec.overlayUpdatable && |sets| == 1
            && sets[0].column < |spec.columnNames| && spec.columnNames[sets[0].column] == "end_snapshot"
    ensures PlanUpdate(spec, sets, false) != RegistryDelete && PlanUpdate(spec, sets, true) == Refused
  {
  }

  // ----- Keyed deletes -----

  /** Keys of the first `k` matched rows. */
  ghost predicate KeyMatched(row: Row, rows: Rows, targets: seq<int>, k: nat, key: seq<nat>)
    requires k <= |targets| && forall i :: 0 <= i < |targets| ==> 0 <= targets[i] < |rows|
  {
    exists i :: 0 <= i < k && SameKey(row, rows[targets[i]], key)
  }

  function RemovedAll(rows: Rows, cells: Rows, columns: seq<nat>): Rows {
    if cells == [] then rows else Removed(RemovedAll(rows, cells[..|cells| - 1], columns), cells[|cells| - 1], columns)
  }

  lemma RemovedSnoc(rows: Rows, cells: Rows, n: nat, columns: seq<nat>)
    requires n < |cells|
    ensures RemovedAll(rows, cells[..n + 1], columns) == Removed(RemovedAll(rows, cells[..n], columns), cells[n], columns)
  {
    assert cells[..n + 1][..n] == cells[..n];
  }

  /** Removing by the keys of matched rows keeps the rows with none of them. */
  lemma {:induction false} RemovedKeeps(rows: Rows, targets: seq<int>, cells: Rows, columns: seq<nat>, k: nat, keeps: Row -> bool)
    requires |targets| == |cells| && k <= |cells| && TargetsOk(targets, |rows|)
    requires forall i :: 0 <= i < |cells| ==> cells[i] == Pick(rows[targets[i]], columns)
    requires forall r :: keeps(r) <==> !KeyMatched(r, rows, targets, k, columns)
    ensures RemovedAll(rows, cells[..k], columns) == Filter(rows, keeps)
  {
    if k == 0 {
      FilterAll(rows, keeps);
    } else {
      var n := k - 1;
      var differs := (r: Row) => Pick(r, columns) != cells[n];
      var keptBefore := KeepsBefore(rows, targets, n, columns);
      RemovedKeeps(rows, targets, cells, columns, n, keptBefore);
      RemovedSnoc(rows, cells, n, columns);
      forall r
        ensures keeps(r) <==> keptBefore(r) && differs(r)
      {
        KeyMatchedStep(r, rows, targets, n, columns);
      }
      FilterTwice(rows, keptBefore, differs, keeps);
    }
  }

  lemma KeyMatchedStep(r: Row, rows: Rows, targets: seq<int>, n: nat, key: seq<nat>)
    requires n < |targets| && forall i :: 0 <= i < |targets| ==> 0 <= targets[i] < |rows|
    ensures KeyMatched(r, rows, targets, n + 1, key) <==>
            KeyMatched(r, rows, targets, n, key) || SameKey(r, rows[targets[n]], key)
  {
  }

  ghost function KeepsBefore(rows: Rows, targets: seq<int>, k: nat, key: seq<nat>): (p: Row -> bool)
    requires k <= |targets| && forall i :: 0 <= i < |targets| ==> 0 <= targets[i] < |rows|
    ensures forall r :: p(r) <==> !KeyMatched(r, rows, targets, k, key)
  {
    (r: Row) => !(exists i :: 0 <= i < k && i < |targets| && 0 <= targets[i] < |rows| && SameKey(r, rows[targets[i]], key))
  }

  lemma {:induction false} FilterTwice(rows: Rows, p: Row -> bool, q: Row -> bool, both: Row -> bool)
    requires forall r :: both(r) <==> p(r) && q(r)
    ensures Filter(Filter(rows, p), q) == Filter(rows, both)
  {
    if rows != [] {
      FilterTwice(rows[1..], p, q, both);
      if p(rows[0]) {
        var kept := Filter(rows[1..], p);
        assert ([rows[0]] + kept)[1..] == kept;
      }
    }
  }

  /** A row that is not matched shares its key with one that is. */
  ghost predicate AlsoKeyed(rows: Rows, targets: seq<int>, columns: seq<nat>, j: nat)
    requires j < |rows| && forall i :: 0 <= i < |targets| ==> 0 <= targets[i] < |rows|
  {
    j !in targets && KeyMatched(rows[j], rows, targets, |targets|, columns)
  }

  /** Keeping the rows with none of the keys never keeps more than SQL's DELETE, and
      as much exactly when no unmatched row goes too. */
  lemma {:induction false} DeleteByIndex(rows: Rows, targets: seq<int>, columns: seq<nat>, keeps: Row -> bool, n: nat)
    requires TargetsOk(targets, |rows|) && n <= |rows|
    requires forall r :: keeps(r) <==> !KeyMatched(r, rows, targets, |targets|, columns)
    ensures var kept, sql := Filter(rows[..n], keeps), SqlDelete(rows, targets, n);
            && |kept| <= |sql|
            && (if exists j :: 0 <= j < n && AlsoKeyed(rows, targets, columns, j) then |kept| < |sql| else kept == sql)
  {
    if n > 0 {
      DeleteByIndex(rows, targets, columns, keeps, n - 1);
      FilterSnoc(rows, n - 1, keeps);
      if n - 1 in targets {
        var i :| 0 <= i < |targets| && targets[i] == n - 1;
        assert SameKey(rows[n - 1], rows[targets[i]], columns);
      } else {
        assert !keeps(rows[n - 1]) <==> AlsoKeyed(rows, targets, columns, n - 1);
      }
      if j :| 0 <= j < n && AlsoKeyed(rows, targets, columns, j) {
        assert j == n - 1 || (0 <= j < n - 1 && AlsoKeyed(rows, targets, columns, j));
      }
    }
  }

  lemma NoneAlsoKeyed(rows: Rows, targets: seq<int>, columns: seq<nat>)
    requires UniqueKeys(rows, columns) && TargetsOk(targets, |rows|)
    ensures forall j :: 0 <= j < |rows| ==> !AlsoKeyed(rows, targets, columns, j)
  {
    forall j | 0 <= j < |rows|
      ensures !AlsoKeyed(rows, targets, columns, j)
    {
      assert forall i :: 0 <= i < |targets| && targets[i] != j ==> targets[i] < j || j < targets[i];
    }
  }

  /** With unique keys, SQL's DELETE keeps the rows with none of the keys. */
  lemma DeletesExactly(rows: Rows, targets: seq<int>, columns: seq<nat>, keeps: Row -> bool)
    requires TargetsOk(targets, |rows|) && forall r :: keeps(r) <==> !KeyMatched(r, rows, targets, |targets|, columns)
    requires forall j :: 0 <= j < |rows| ==> !AlsoKeyed(rows, targets, columns, j)
    ensures SqlDelete(rows, targets, |rows|) == Filter(rows, keeps)
  {
    DeleteByIndex(rows, targets, columns, keeps, |rows|);
    assert rows[..|rows|] == rows;
  }

  lemma SqlDeleteFilters(rows: Rows, targets: seq<int>, columns: seq<nat>)
    requires UniqueKeys(rows, columns) && TargetsOk(targets, |rows|)
    ensures SqlDelete(rows, targets, |rows|) == Filter(rows, KeepsBefore(rows, targets, |targets|, columns))
  {
    NoneAlsoKeyed(rows, targets, columns);
    DeletesExactly(rows, targets, columns, KeepsBefore(rows, targets, |targets|, columns));
  }

  /** What the staged deletes decode to, for the columns the overlay knows rows by. */
  lemma {:induction false} ReadDeletes(spec: TableSpec, rows: Rows, ops: seq<StagedOp>, cells: Rows, k: nat)
    requires DeleteReadingOf(spec).RemovesBy? && |ops| == |cells| && k <= |ops|
    requires var n := |DeleteReadingOf(spec).columns|;
             forall i :: 0 <= i < |ops| ==>
               && Stages(spec, ops[i], StageDelete) && |ops[i].cells| >= n && cells[i] == ops[i].cells[..n]
               && DecodeCells(PickShapes(spec.shapes, spec.deleteKeyColumns), ops[i].cells) == Ok(ops[i].cells)
    ensures ReadAll(spec, rows, ops[..k]) == Ok(RemovedAll(rows, cells[..k], DeleteReadingOf(spec).columns))
  {
    if k > 0 {
      ReadDeletes(spec, rows, ops, cells, k - 1);
      ReadSnoc(spec, rows, ops, k - 1);
      RemovedSnoc(rows, cells, k - 1, DeleteReadingOf(spec).columns);
    }
  }

  lemma {:induction false} ReadUnseen(spec: TableSpec, rows: Rows, ops: seq<StagedOp>)
    requires DeleteReadingOf(spec).NotLookedFor? && forall i :: 0 <= i < |ops| ==> Stages(spec, ops[i], StageDelete)
    ensures ReadAll(spec, rows, ops) == Ok(rows)
  {
    if ops != [] {
      ReadUnseen(spec, rows, ops[..|ops| - 1]);
    }
  }

  lemma {:induction false} SqlDeleteLength(rows: Rows, targets: seq<int>, n: nat, j: nat)
    requires n <= |rows|
    ensures |SqlDelete(rows, targets, n)| <= n && (j < n && j in targets ==> |SqlDelete(rows, targets, n)| < n)
    ensures targets == [] ==> SqlDelete(rows, targets, n) == rows[..n]
  {
    if n > 0 {
      SqlDeleteLength(rows, targets, n - 1, j);
      assert rows[..n] == rows[..n - 1] + [rows[n - 1]];
    }
  }

  /** The key columns exist, and the overlay's columns are the first of them. */
  ghost predicate KeyedSpec(spec: TableSpec) {
    && spec.writeKind != OPTIONS.writeKind && spec.writeKind != SCHEMA_VERSIONS_KIND
    && (forall i :: 0 <= i < |spec.deleteKeyColumns| ==> spec.deleteKeyColumns[i] < |spec.shapes|)
    && (DeleteReadingOf(spec).RemovesBy? ==> DeleteReadingOf(spec).columns <= spec.deleteKeyColumns)
  }

  /** Reading again leaves SQL's DELETE: the overlay looks for the deletes and no
      unmatched row shares the columns it removes by, or nothing was matched. */
  ghost predicate DeletesAgree(spec: TableSpec, rows: Rows, targets: seq<int>)
    requires forall i :: 0 <= i < |targets| ==> 0 <= targets[i] < |rows|
  {
    match DeleteReadingOf(spec)
    case RemovesBy(columns) => forall j :: 0 <= j < |rows| ==> !AlsoKeyed(rows, targets, columns, j)
    case _ => targets == []
  }

  /** For every table with a delete key and every set of matched rows. */
  lemma DeletesMeanDeleteIff(spec: TableSpec, rowidColumn: nat, inputs: Rows, rows: Rows)
    requires KeyedSpec(spec) && ServedAs(spec, rows) && TargetsOk(Targets(inputs, rowidColumn), |rows|)
    ensures var targets, r := Targets(inputs, rowidColumn), StagedFor(spec, KeyedDelete, rowidColumn, inputs, rows);
            && r.Ok?
            && (ReadAll(spec, rows, r.value) == Ok(SqlDelete(rows, targets, |rows|)) <==> DeletesAgree(spec, rows, targets))
  {
    var targets, key := Targets(inputs, rowidColumn), spec.deleteKeyColumns;
    StagedOps(spec, KeyedDelete, rowidColumn, inputs, rows);
    var ops := StagedFor(spec, KeyedDelete, rowidColumn, inputs, rows).value;
    match DeleteReadingOf(spec)
    case RemovesBy(columns) =>
      RemovesAgreeIff(spec, inputs, rows, targets, ops);
    case NotLookedFor =>
      ReadUnseen(spec, rows, ops);
      SqlDeleteLength(rows, targets, |rows|, if targets == [] then 0 else targets[0]);
      assert rows[..|rows|] == rows;
  }

  lemma KeyCellsDecode(spec: TableSpec, row: Row, columns: seq<nat>)
    requires AllStorable(spec.shapes, row) && columns <= spec.deleteKeyColumns
    requires forall i :: 0 <= i < |spec.deleteKeyColumns| ==> spec.deleteKeyColumns[i] < |spec.shapes|
    ensures var cells := Pick(row, spec.deleteKeyColumns);
            && |cells| >= |columns| && Pick(row, columns) == cells[..|columns|]
            && DecodeCells(PickShapes(spec.shapes, spec.deleteKeyColumns), cells) == Ok(cells)
  {
    var key := spec.deleteKeyColumns;
    assert forall c :: 0 <= c < |columns| ==> columns[c] == key[c];
    PickedStorable(spec.shapes, row, key);
    StoredIff(PickShapes(spec.shapes, key), Pick(row, key));
  }

  lemma RemovesAgreeIff(spec: TableSpec, inputs: Rows, rows: Rows, targets: seq<int>, ops: seq<StagedOp>)
    requires KeyedSpec(spec) && ServedAs(spec, rows) && TargetsOk(targets, |rows|) && DeleteReadingOf(spec).RemovesBy?
    requires |ops| == |targets| == |inputs|
    requires forall i :: 0 <= i < |ops| ==> ops[i] == OpFor(spec, KeyedDelete, rows[targets[i]], inputs[i])
    ensures ReadAll(spec, rows, ops) == Ok(SqlDelete(rows, targets, |rows|)) <==> DeletesAgree(spec, rows, targets)
  {
    var columns, key := DeleteReadingOf(spec).columns, spec.deleteKeyColumns;
    var cells: Rows := seq(|ops|, i requires 0 <= i < |ops| => Pick(rows[targets[i]], columns));
    forall i | 0 <= i < |ops|
      ensures |ops[i].cells| >= |columns| && cells[i] == ops[i].cells[..|columns|]
      ensures DecodeCells(PickShapes(spec.shapes, key), ops[i].cells) == Ok(ops[i].cells)
    {
      KeyCellsDecode(spec, rows[targets[i]], columns);
    }
    ReadDeletes(spec, rows, ops, cells, |ops|);
    var keeps := KeepsBefore(rows, targets, |targets|, columns);
    RemovedKeeps(rows, targets, cells, columns, |cells|, keeps);
    assert ops[..|ops|] == ops && cells[..|cells|] == cells && rows[..|rows|] == rows;
    DeleteByIndex(rows, targets, columns, keeps, |rows|);
  }

  /** Snapshot changes, partition columns, file partition values, sort expressions, column
      tags, macro implementations and parameters, name mappings: rows of these tables are
      part of other records, and no staged delete of them is seen. */
  lemma EmbeddedDeletesUnseen(spec: TableSpec, rowidColumn: nat, inputs: Rows, rows: Rows)
    requires spec.writeKind in {1, 13, 14, 16, 18, 21, 22, 24} && TargetsOk(Targets(inputs, rowidColumn), |rows|)
    ensures var r := StagedFor(spec, KeyedDelete, rowidColumn, inputs, rows);
            r.Ok? && ReadAll(spec, rows, r.value) == Ok(rows)
  {
    StagedOps(spec, KeyedDelete, rowidColumn, inputs, rows);
    ReadUnseen(spec, rows, StagedFor(spec, KeyedDelete, rowidColumn, inputs, rows).value);
  }

  /** The columns a delete of any other table removes by: its delete key, but column
      mappings go by their first column alone. */
  function DeletedBy(spec: TableSpec): seq<nat> {
    if spec.writeKind == 23 then [0] else spec.deleteKeyColumns
  }

  lemma DeleteReadingIs(spec: TableSpec)
    requires spec.writeKind !in {1, 11, 13, 14, 16, 18, 21, 22, 24, 25}
    ensures DeleteReadingOf(spec) == RemovesBy(DeletedBy(spec))
  {
  }

  /** On every other table with a delete key but the options and the schema versions, a
      DELETE is always SQL's where no two rows share those columns. */
  lemma KeyedDeleteMeansDelete(spec: TableSpec, rowidColumn: nat, inputs: Rows, rows: Rows)
    requires KeyedSpec(spec) && ServedAs(spec, rows) && TargetsOk(Targets(inputs, rowidColumn), |rows|)
    requires spec.writeKind !in {1, 11, 13, 14, 16, 18, 21, 22, 24, 25} && UniqueKeys(rows, DeletedBy(spec))
    ensures var targets, r := Targets(inputs, rowidColumn), StagedFor(spec, KeyedDelete, rowidColumn, inputs, rows);
            r.Ok? && ReadAll(spec, rows, r.value) == Ok(SqlDelete(rows, targets, |rows|))
  {
    DeleteReadingIs(spec);
    DeletesMeanDeleteIff(spec, rowidColumn, inputs, rows);
    NoneAlsoKeyed(rows, Targets(inputs, rowidColumn), DeletedBy(spec));
  }
}

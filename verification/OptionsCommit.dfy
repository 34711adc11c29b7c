/** What the commit makes of staged option rows, and DELETE on `ducklake_metadata`.
    The served facts are read from the stored options themselves, so what is set for
    them shows after the commit, where the transaction could not see it. */
module OptionsCommit {
  import opened Values
  import opened StagedWrite
  import opened StagedRead
  import opened StagedWriteTheorems
  import opened OptionsUpdate
  import M = MetadataRows

  // ----- The committed list -----

  predicate IsGlobal(row: Row, key: string) {
    CellAt(row, 0) == Text(key) && CellAt(row, 2).Null? && CellAt(row, 1).Text?
  }

  /** The value of a global option. */
  function GlobalValue(stored: Rows, key: string): Option<string> {
    if stored == [] then None
    else if IsGlobal(stored[0], key) then Some(stored[0][1].s)
    else GlobalValue(stored[1..], key)
  }

  /** The facts of a store: whether it is encrypted, and its data root. */
  function FlagOf(stored: Rows): bool {
    GlobalValue(stored, "encrypted") == Some("true")
  }

  function PathOf(stored: Rows): Option<string> {
    GlobalValue(stored, "data_path")
  }

  function FactsOf(stored: Rows): Rows {
    M.FixedRows(FlagOf(stored), PathOf(stored))
  }

  /** `ducklake_metadata` at a committed state. */
  function CommittedList(stored: Rows): Rows {
    M.Merged(FactsOf(stored), stored)
  }

  /** One staged option row at the commit: a removal names the option only. */
  function CommitOp(stored: Rows, op: StagedOp): Result<Rows, DecodeError> {
    if op.kind != OPTIONS.writeKind then Ok(stored) else CommitOption(stored, op)
  }

  function CommitOption(stored: Rows, op: StagedOp): Result<Rows, DecodeError> {
    match op.operation
    case StageInsert =>
      var r := DecodeOption(op.cells);
      if r.Err? then Err(r.error) else Ok(Overwritten(stored, r.value, KEY))
    case StageDelete =>
      var r := DecodeOptionKey(op.cells);
      if r.Err? then Err(r.error) else Ok(Removed(stored, Pick(r.value, KEY), KEY))
    case _ => Err(NotDefined)
  }

  function CommitAll(stored: Rows, ops: seq<StagedOp>): Result<Rows, DecodeError> {
    if ops == [] then Ok(stored)
    else
      var before := CommitAll(stored, ops[..|ops| - 1]);
      if before.Err? then before else CommitOp(before.value, ops[|ops| - 1])
  }

  // ----- A global option's value -----

  lemma {:induction false} GlobalValueIs(stored: Rows, key: string)
    requires OptionsOk(stored)
    ensures forall v :: GlobalValue(stored, key) == Some(v) <==> M.GlobalRow(key, v) in stored
  {
    if stored != [] {
      var rest := stored[1..];
      assert OptionsOk(rest);
      GlobalValueIs(rest, key);
      assert stored == [stored[0]] + rest;
      if IsGlobal(stored[0], key) {
        assert stored[0] == M.GlobalRow(key, stored[0][1].s);
        forall v, k | 0 <= k < |rest|
          ensures rest[k] != M.GlobalRow(key, v)
        {
          assert !M.SameKey(stored[0], stored[k + 1]);
        }
      }
    }
  }

  /** The value is there exactly when a row is. */
  lemma GlobalValueNone(stored: Rows, key: string)
    requires OptionsOk(stored)
    ensures GlobalValue(stored, key).None? <==> forall v :: M.GlobalRow(key, v) !in stored
  {
    GlobalValueIs(stored, key);
    if GlobalValue(stored, key).Some? {
      assert M.GlobalRow(key, GlobalValue(stored, key).value) in stored;
    }
  }

  lemma SameGlobalValue(a: Rows, b: Rows, key: string)
    requires OptionsOk(a) && OptionsOk(b) && forall v :: M.GlobalRow(key, v) in a <==> M.GlobalRow(key, v) in b
    ensures GlobalValue(a, key) == GlobalValue(b, key)
  {
    GlobalValueIs(a, key);
    GlobalValueIs(b, key);
    GlobalValueNone(a, key);
    GlobalValueNone(b, key);
  }

  // ----- What is stored after the commit -----

  lemma LandedOk(stored: Rows, images: Rows)
    requires OptionsOk(stored) && UniqueKeys(images, KEY) && TextOrNull(images)
    requires forall i :: 0 <= i < |images| ==> KeyedOption(images[i])
    ensures OptionsOk(OverwrittenAll(stored, LandedAll(images), KEY))
  {
    var landed := LandedAll(images);
    var after := OverwrittenAll(stored, landed, KEY);
    assert landed[..|landed|] == landed;
    OverwrittenUnique(stored, landed, |landed|);
    LandedUnique(images);
    forall j | 0 <= j < |after|
      ensures KeyedOption(after[j]) && Storable(TEXT, after[j][1])
    {
      OverwrittenMembers(stored, landed, |landed|, after[j]);
      if i :| 0 <= i < |landed| && landed[i] == after[j] {
        LandedStorable(images[i][1]);
      } else {
        var k :| 0 <= k < |stored| && stored[k] == after[j];
      }
    }
  }

  lemma LandedStorable(value: Cell)
    requires value.Null? || value.Text?
    ensures Storable(TEXT, Landed(value))
  {
    if value.Text? {
      CStringKeeps(value.s);
    }
  }

  lemma LandedUnique(images: Rows)
    requires UniqueKeys(images, KEY)
    ensures UniqueKeys(LandedAll(images), KEY)
  {
    forall i, j | 0 <= i < j < |images|
      ensures !SameKey(LandedAll(images)[i], LandedAll(images)[j], KEY)
    {
      LandedKeepsKey(images[i]);
      LandedKeepsKey(images[j]);
    }
  }

  lemma {:induction false} CommitIsRead(stored: Rows, ops: seq<StagedOp>)
    requires forall i :: 0 <= i < |ops| ==> Stages(OPTIONS, ops[i], StageInsert)
    ensures CommitAll(stored, ops) == ReadAll(OPTIONS, stored, ops)
  {
    if ops != [] {
      CommitIsRead(stored, ops[..|ops| - 1]);
    }
  }

  // ----- The facts after the commit -----

  /** The row served, once `value` is stored for it, for a fact that was `row`. */
  function FactAfter(row: Row, value: Cell): Row {
    if CellAt(row, 0) == Text("encrypted") then M.GlobalRow("encrypted", if value == Text("true") then "true" else "false")
    else if CellAt(row, 0) == Text("data_path") then M.GlobalRow("data_path", M.ServedPath(if value.Text? then value.s else ""))
    else row
  }

  function ServedCommitted(list: Rows, targets: seq<int>, images: Rows): (r: Rows)
    requires |targets| == |images| && forall i :: 0 <= i < |targets| ==> 0 <= targets[i] < |list|
    ensures |r| == |images|
  {
    seq(|images|, i requires 0 <= i < |images| =>
      if M.IsServedFact(list[targets[i]]) then FactAfter(list[targets[i]], Landed(CellAt(images[i], 1))) else LandedRow(images[i]))
  }

  /** A matched fact, what is stored for it, and the facts read from that. */
  ghost predicate FactSet(stored: Rows, after: Rows, list: Rows, targets: seq<int>, images: Rows) {
    && OptionsOk(stored) && OptionsOk(after) && list == CommittedList(stored)
    && KeepKeys(list, targets, images, KEY) && TextOrNull(images)
    && after == OverwrittenAll(stored, LandedAll(images), KEY) && UniqueKeys(images, KEY)
  }

  lemma UntouchedIff(list: Rows, targets: seq<int>, landed: Rows, r: Row)
    requires KeepKeys(list, targets, landed, KEY)
    ensures Untouched(r, landed, |landed|) <==> forall i :: 0 <= i < |landed| ==> !SameKey(r, list[targets[i]], KEY)
  {
    assert forall i :: 0 <= i < |landed| ==> (SameKey(r, landed[i], KEY) <==> SameKey(r, list[targets[i]], KEY));
  }

  lemma AfterMembers(stored: Rows, after: Rows, list: Rows, targets: seq<int>, images: Rows, r: Row)
    requires FactSet(stored, after, list, targets, images)
    ensures r in after <==> (exists i :: 0 <= i < |images| && LandedRow(images[i]) == r)
                            || (r in stored && forall i :: 0 <= i < |images| ==> !SameKey(r, list[targets[i]], KEY))
  {
    var landed := LandedAll(images);
    LandedUnique(images);
    LandedKeepKeys(list, targets, images);
    OverwrittenMembers(stored, landed, |landed|, r);
    assert landed[..|landed|] == landed;
    UntouchedIff(list, targets, landed, r);
    assert forall i :: 0 <= i < |images| ==> landed[i] == LandedRow(images[i]);
  }

  /** A global option that is set has the value it landed as. */
  lemma SetValueIs(stored: Rows, after: Rows, list: Rows, targets: seq<int>, images: Rows, i: nat, key: string)
    requires FactSet(stored, after, list, targets, images) && i < |images|
    requires CellAt(list[targets[i]], 0) == Text(key) && CellAt(list[targets[i]], 2).Null? && CellAt(list[targets[i]], 3).Null?
    ensures Landed(images[i][1]).Text? && GlobalValue(after, key) == Some(Landed(images[i][1]).s)
  {
    SameKeys(images[i], list[targets[i]]);
    AfterMembers(stored, after, list, targets, images, LandedRow(images[i]));
    LandedStorable(images[i][1]);
    assert LandedRow(images[i]) == M.GlobalRow(key, Landed(images[i][1]).s);
    GlobalValueIs(after, key);
  }

  /** One that is not set keeps its value. */
  lemma KeptValueIs(stored: Rows, after: Rows, list: Rows, targets: seq<int>, images: Rows, key: string)
    requires FactSet(stored, after, list, targets, images)
    requires forall i, v :: 0 <= i < |images| ==> !SameKey(M.GlobalRow(key, v), list[targets[i]], KEY)
    ensures GlobalValue(after, key) == GlobalValue(stored, key)
  {
    forall v
      ensures M.GlobalRow(key, v) in after <==> M.GlobalRow(key, v) in stored
    {
      AfterMembers(stored, after, list, targets, images, M.GlobalRow(key, v));
      forall i | 0 <= i < |images|
        ensures LandedRow(images[i]) != M.GlobalRow(key, v)
      {
        LandedKeepsKey(images[i]);
      }
    }
    SameGlobalValue(after, stored, key);
  }

  /** The fact among `facts` with a key, if there is one. */
  lemma FactWithKey(encrypted: bool, dataPath: Option<string>, r: Row)
    ensures r in M.FixedRows(encrypted, dataPath) <==>
            || r == M.GlobalRow("version", "1.0") || r == M.GlobalRow("created_by", "moraine")
            || r == M.GlobalRow("encrypted", if encrypted then "true" else "false")
            || (dataPath.Some? && r == M.GlobalRow("data_path", M.ServedPath(dataPath.value)))
  {
  }

  /** Under the key of a matched row the new facts hold exactly the row served for it. */
  lemma FactHit(stored: Rows, after: Rows, list: Rows, targets: seq<int>, images: Rows, r: Row, i: nat)
    requires FactSet(stored, after, list, targets, images) && M.IsServedFact(r)
    requires i < |images| && SameKey(r, list[targets[i]], KEY)
    ensures r in FactsOf(after) <==> r == ServedCommitted(list, targets, images)[i]
  {
    var f := list[targets[i]];
    SameKeys(r, f);
    FactsByKey(r, f);
    assert f in list;
    ListMembers(FlagOf(stored), PathOf(stored), stored, f);
    FactWithKey(FlagOf(stored), PathOf(stored), f);
    FactWithKey(FlagOf(after), PathOf(after), r);
    var key := f[0].s;
    SetValueIs(stored, after, list, targets, images, i, key);
  }

  /** Under any other key they hold what the old ones did. */
  lemma FactMiss(stored: Rows, after: Rows, list: Rows, targets: seq<int>, images: Rows, r: Row)
    requires FactSet(stored, after, list, targets, images) && M.IsServedFact(r)
    requires forall i :: 0 <= i < |images| ==> !SameKey(r, list[targets[i]], KEY)
    ensures r in FactsOf(after) <==> r in FactsOf(stored)
  {
    FactWithKey(FlagOf(stored), PathOf(stored), r);
    FactWithKey(FlagOf(after), PathOf(after), r);
    if CellAt(r, 3).Null? {
      var key := r[0].s;
      forall i, v | 0 <= i < |images|
        ensures !SameKey(M.GlobalRow(key, v), list[targets[i]], KEY)
      {
        SameKeys(M.GlobalRow(key, v), list[targets[i]]);
        SameKeys(r, list[targets[i]]);
      }
      KeptValueIs(stored, after, list, targets, images, key);
    }
  }

  lemma ServedKeepKeys(list: Rows, targets: seq<int>, images: Rows, stored: Rows)
    requires M.KeysUnique(stored) && list == CommittedList(stored) && KeepKeys(list, targets, images, KEY)
    ensures KeepKeys(list, targets, ServedCommitted(list, targets, images), KEY)
  {
    forall i | 0 <= i < |images|
      ensures SameKey(ServedCommitted(list, targets, images)[i], list[targets[i]], KEY)
    {
      var f := list[targets[i]];
      LandedKeepsKey(images[i]);
      assert f in list;
      ListMembers(FlagOf(stored), PathOf(stored), stored, f);
      FactWithKey(FlagOf(stored), PathOf(stored), f);
      SameKeys(ServedCommitted(list, targets, images)[i], f);
    }
  }

  lemma FactsMove(stored: Rows, after: Rows, list: Rows, targets: seq<int>, images: Rows)
    requires FactSet(stored, after, list, targets, images)
    ensures FactsBecome(FactsOf(stored), FactsOf(after), ServedCommitted(list, targets, images))
  {
    var served := ServedCommitted(list, targets, images);
    ServedKeepKeys(list, targets, images, stored);
    ListUnique(FlagOf(stored), PathOf(stored), stored);
    KeysOf(list, targets, served);
    forall r | M.IsServedFact(r)
      ensures r in FactsOf(after) <==>
              (exists i :: 0 <= i < |served| && served[i] == r) || (r in FactsOf(stored) && Untouched(r, served, |served|))
    {
      if i :| 0 <= i < |served| && SameKey(r, served[i], KEY) {
        FactHit(stored, after, list, targets, images, r, i);
        assert !Untouched(r, served, |served|);
        forall j | 0 <= j < |served| && served[j] == r
          ensures j == i
        {
          assert !(j < i) && !(i < j);
        }
      } else {
        FactMiss(stored, after, list, targets, images, r);
        assert forall i :: 0 <= i < |served| && served[i] == r ==> SameKey(r, served[i], KEY);
      }
    }
  }

  // ----- UPDATE, after the commit -----

  /** A path with exactly one trailing slash. */
  predicate OneSlash(path: string) {
    path != "" && path[|path| - 1] == '/' && (|path| > 1 ==> path[|path| - 2] != '/')
  }

  lemma ServedPathIff(path: string)
    ensures M.ServedPath(path) == path <==> OneSlash(path)
  {
    if path != "" && path[|path| - 1] == '/' {
      var rest := path[..|path| - 1];
      assert M.StripSlashes(path) == M.StripSlashes(rest);
      assert path == rest + "/";
      if M.ServedPath(path) == path {
        assert M.StripSlashes(rest) == rest;
      }
    } else {
      assert M.ServedPath(path)[|M.ServedPath(path)| - 1] == '/';
    }
  }

  /** What an UPDATE may give a row to be served as set after the commit: a setting any
      text without a NUL, the encryption flag `true` or `false`, the data root a path
      with one trailing slash; the version and the writer only what they are. */
  predicate CommittedAsSet(row: Row, image: Row) {
    var value := CellAt(image, 1);
    if !M.IsServedFact(row) then Storable(TEXT, value)
    else if CellAt(row, 0) == Text("encrypted") then value == Text("true") || value == Text("false")
    else if CellAt(row, 0) == Text("data_path") then Storable(TEXT, value) && OneSlash(value.s)
    else image == row
  }

  lemma ServedOneIff(stored: Rows, list: Rows, t: nat, image: Row)
    requires OptionsOk(stored) && list == CommittedList(stored) && t < |list|
    requires SameKey(image, list[t], KEY) && |image| == 4 && (image[1].Null? || image[1].Text?)
    ensures (if M.IsServedFact(list[t]) then FactAfter(list[t], Landed(image[1])) else LandedRow(image)) == image
            <==> CommittedAsSet(list[t], image)
  {
    var f, value := list[t], image[1];
    SameKeys(image, f);
    LandsIff(value);
    if M.IsServedFact(f) {
      assert f in list;
      ListMembers(FlagOf(stored), PathOf(stored), stored, f);
      FactWithKey(FlagOf(stored), PathOf(stored), f);
      assert image == [f[0], value, Null, Null];
      if f[0] == Text("encrypted") {
        CStringKeeps(if value.Text? then value.s else "");
        assert '\0' !in "true" && '\0' !in "false";
      } else if f[0] == Text("data_path") {
        PathLandsIff(value);
      }
    } else {
      assert LandedRow(image)[1] == Landed(value);
      assert Landed(value) == value ==> LandedRow(image) == image;
    }
  }

  /** A path is served as it was set exactly when it is stored and served as it is. */
  lemma PathLandsIff(value: Cell)
    requires value.Null? || value.Text?
    ensures Landed(value).Text?
    ensures Text(M.ServedPath(Landed(value).s)) == value <==> Storable(TEXT, value) && OneSlash(value.s)
  {
    LandsIff(value);
    LandedStorable(value);
    if value.Text? {
      if Storable(TEXT, value) {
        ServedPathIff(value.s);
      } else {
        var s := Landed(value).s;
        assert forall i :: 0 <= i < |M.ServedPath(s)| ==> M.ServedPath(s)[i] != '\0' by {
          StripKeeps(s);
        }
      }
    }
  }

  lemma {:induction false} StripKeeps(path: string)
    ensures forall c :: c in M.StripSlashes(path) ==> c in path
  {
    if path != [] && path[|path| - 1] == '/' {
      StripKeeps(path[..|path| - 1]);
    }
  }

  /** For every committed content and every UPDATE of `ducklake_metadata` that sets no
      key column: the list served after the commit is what SQL's UPDATE makes of the
      list scanned, if and only if every matched row was given a value that is
      served as set. */
  lemma CommittedUpdateIff(stored: Rows, sets: seq<SetTarget>, rowidColumn: nat, inputs: Rows)
    requires OptionsOk(stored) && !SetsKey(OPTIONS, sets)
    requires TargetsOk(Targets(inputs, rowidColumn), |CommittedList(stored)|)
    ensures var list, targets := CommittedList(stored), Targets(inputs, rowidColumn);
            var r, images := StagedFor(OPTIONS, Overlay(sets), rowidColumn, inputs, list), OverlaidAll(list, sets, inputs, targets);
            && r.Ok?
            && (var after := CommitAll(stored, r.value);
                after.Ok? && SameTable(CommittedList(after.value), SqlUpdate(list, sets, inputs, targets), KEY)
                <==> forall i :: 0 <= i < |images| ==> CommittedAsSet(list[targets[i]], images[i]))
  {
    var list, targets := CommittedList(stored), Targets(inputs, rowidColumn);
    var images := OverlaidAll(list, sets, inputs, targets);
    OptionImages(list, sets, rowidColumn, inputs);
    var ops := StagedFor(OPTIONS, Overlay(sets), rowidColumn, inputs, list).value;
    CommitIsRead(stored, ops);
    StoredAgain(FlagOf(stored), PathOf(stored), stored, targets, images, ops);
    if TextOrNull(images) {
      CommittedIff(stored, list, targets, images, ops);
    } else {
      var i :| 0 <= i < |images| && !(|images[i]| == 4 && (images[i][1].Null? || images[i][1].Text?));
      NotTextNotCommitted(stored, list, targets, images, ops, i);
    }
  }

  lemma NotTextNotCommitted(stored: Rows, list: Rows, targets: seq<int>, images: Rows, ops: seq<StagedOp>, i: nat)
    requires OptionsOk(stored) && list == CommittedList(stored) && Updates(list, targets, images, ops)
    requires i < |images| && !(|images[i]| == 4 && (images[i][1].Null? || images[i][1].Text?))
    ensures !CommittedAsSet(list[targets[i]], images[i])
  {
    ImagesKeyed(FlagOf(stored), PathOf(stored), stored, targets, images, ops, i);
    var f := list[targets[i]];
    assert f in list;
    ListMembers(FlagOf(stored), PathOf(stored), stored, f);
    FactWithKey(FlagOf(stored), PathOf(stored), f);
  }

  lemma CommittedIff(stored: Rows, list: Rows, targets: seq<int>, images: Rows, ops: seq<StagedOp>)
    requires OptionsOk(stored) && list == CommittedList(stored) && Updates(list, targets, images, ops) && TextOrNull(images)
    ensures SameTable(CommittedList(OverwrittenAll(stored, LandedAll(images), KEY)), Replaced(list, targets, images), KEY)
            <==> forall i :: 0 <= i < |images| ==> CommittedAsSet(list[targets[i]], images[i])
  {
    var after, served := OverwrittenAll(stored, LandedAll(images), KEY), ServedCommitted(list, targets, images);
    ListUnique(FlagOf(stored), PathOf(stored), stored);
    KeysOf(list, targets, images);
    forall i | 0 <= i < |images|
      ensures KeyedOption(images[i])
    {
      ImagesKeyed(FlagOf(stored), PathOf(stored), stored, targets, images, ops, i);
    }
    LandedOk(stored, images);
    FactsMove(stored, after, list, targets, images);
    ServedKeepKeys(list, targets, images, stored);
    LandedKeepKeys(list, targets, images);
    ListAgain(FlagOf(stored), PathOf(stored), FlagOf(after), PathOf(after), stored, targets, LandedAll(images), served);
    ReplacedSameIff(list, targets, served, images, KEY, CommittedList(after));
    forall i | 0 <= i < |images|
      ensures served[i] == images[i] <==> CommittedAsSet(list[targets[i]], images[i])
    {
      ServedOneIff(stored, list, targets[i], images[i]);
    }
    if served == images {
      assert forall i :: 0 <= i < |images| ==> served[i] == images[i];
    }
  }

  // ----- DELETE -----

  /** What a DELETE stages: the key, scope and scope id of each matched row. */
  ghost predicate StagesDeletes(list: Rows, targets: seq<int>, ops: seq<StagedOp>) {
    && TargetsOk(targets, |list|) && |ops| == |targets|
    && forall i :: 0 <= i < |ops| ==> Stages(OPTIONS, ops[i], StageDelete) && ops[i].cells == Pick(list[targets[i]], KEY)
  }

  lemma DeleteOps(list: Rows, rowidColumn: nat, inputs: Rows)
    requires TargetsOk(Targets(inputs, rowidColumn), |list|)
    ensures PlanDelete(OPTIONS, false) == Staging(KeyedDelete)
    ensures var r := StagedFor(OPTIONS, KeyedDelete, rowidColumn, inputs, list);
            r.Ok? && StagesDeletes(list, Targets(inputs, rowidColumn), r.value)
  {
    StagedOps(OPTIONS, KeyedDelete, rowidColumn, inputs, list);
    var targets, ops := Targets(inputs, rowidColumn), StagedFor(OPTIONS, KeyedDelete, rowidColumn, inputs, list).value;
    assert forall i :: 0 <= i < |ops| ==> ops[i] == OpFor(OPTIONS, KeyedDelete, list[targets[i]], inputs[i]);
    assert OPTIONS.deleteKeyColumns != [];
  }

  lemma KeyIsNoRow(cells: Row)
    requires |cells| == |KEY|
    ensures DecodeOption(cells).Err?
  {
    DecodeIs(OPTIONS.shapes, cells);
  }

  lemma DeleteNotRead(rows: Rows, op: StagedOp)
    requires Stages(OPTIONS, op, StageDelete) && |op.cells| == |KEY|
    ensures ReadOp(OPTIONS, rows, op).Err?
  {
    KeyIsNoRow(op.cells);
  }

  lemma DeletesNotRead(stored: Rows, ops: seq<StagedOp>)
    requires ops != [] && Stages(OPTIONS, ops[|ops| - 1], StageDelete) && |ops[|ops| - 1].cells| == |KEY|
    ensures ReadAll(OPTIONS, stored, ops).Err?
  {
    var before := ReadAll(OPTIONS, stored, ops[..|ops| - 1]);
    if before.Ok? {
      DeleteNotRead(before.value, ops[|ops| - 1]);
    }
  }

  /** A DELETE that matches anything cannot be read again: the overlay takes the three
      cells for a whole row. */
  lemma DeleteUnreadable(encrypted: bool, dataPath: Option<string>, stored: Rows, rowidColumn: nat, inputs: Rows)
    requires OptionsOk(stored) && inputs != []
    requires TargetsOk(Targets(inputs, rowidColumn), |M.Merged(M.FixedRows(encrypted, dataPath), stored)|)
    ensures var r := StagedFor(OPTIONS, KeyedDelete, rowidColumn, inputs, M.Merged(M.FixedRows(encrypted, dataPath), stored));
            r.Ok? && ReadAll(OPTIONS, stored, r.value).Err?
  {
    var list, targets := M.Merged(M.FixedRows(encrypted, dataPath), stored), Targets(inputs, rowidColumn);
    DeleteOps(list, rowidColumn, inputs);
    DeletesNotRead(stored, StagedFor(OPTIONS, KeyedDelete, rowidColumn, inputs, list).value);
  }

  lemma KeyDecodes(row: Row)
    requires KeyedOption(row)
    ensures DecodeOptionKey(Pick(row, KEY)).Ok? && Pick(DecodeOptionKey(Pick(row, KEY)).value, KEY) == Pick(row, KEY)
  {
    var cells, shapes := Pick(row, KEY), [TEXT, OPT_TEXT, OPT_ID];
    assert cells == [row[0], row[2], row[3]];
    assert '\0' !in "schema" && '\0' !in "table";
    assert AllStorable(shapes, cells);
    StoredIff(shapes, cells);
    assert DecodeOptionKey(cells).value == [row[0], Null, row[2], row[3]];
  }

  /** The stored options without those under the keys of the first `k` matched rows. */
  lemma {:induction false} CommitRemoves(stored: Rows, list: Rows, targets: seq<int>, ops: seq<StagedOp>, k: nat)
    requires StagesDeletes(list, targets, ops) && k <= |ops| && forall i :: 0 <= i < |list| ==> KeyedOption(list[i])
    ensures CommitAll(stored, ops[..k]) == Ok(RemovedAll(stored, Keys(list, targets)[..k], KEY))
  {
    if k > 0 {
      var n := k - 1;
      CommitRemoves(stored, list, targets, ops, n);
      RemovedSnoc(stored, Keys(list, targets), n, KEY);
      assert ops[..k][..n] == ops[..n];
      KeyDecodes(list[targets[n]]);
    }
  }

  function Keys(list: Rows, targets: seq<int>): (r: Rows)
    requires forall i :: 0 <= i < |targets| ==> 0 <= targets[i] < |list|
    ensures |r| == |targets|
  {
    seq(|targets|, i requires 0 <= i < |targets| => Pick(list[targets[i]], KEY))
  }

  lemma {:induction false} RemovedMembers(stored: Rows, list: Rows, targets: seq<int>, k: nat, r: Row)
    requires k <= |targets| && (forall i :: 0 <= i < |targets| ==> 0 <= targets[i] < |list|) && M.KeysUnique(stored)
    ensures var after := RemovedAll(stored, Keys(list, targets)[..k], KEY);
            && M.KeysUnique(after)
            && (r in after <==> r in stored && !KeyMatched(r, list, targets, k, KEY))
  {
    if k > 0 {
      var n := k - 1;
      RemovedMembers(stored, list, targets, n, r);
      RemovedSnoc(stored, Keys(list, targets), n, KEY);
      var before, f := RemovedAll(stored, Keys(list, targets)[..n], KEY), list[targets[n]];
      RemoveIs(before, f);
      M.FilterKeepsUnique(before, f);
      M.WithoutMembers(before, f);
      SameKeys(r, f);
      KeyMatchedStep(r, list, targets, n, KEY);
    }
  }

  lemma RemoveIs(rows: Rows, row: Row)
    ensures Removed(rows, Pick(row, KEY), KEY) == M.Without(rows, row)
  {
    forall r: Row
      ensures Pick(r, KEY) != Pick(row, KEY) <==> !M.SameKey(r, row)
    {
      SameKeys(r, row);
    }
    FilterCongruent(rows, (r: Row) => Pick(r, KEY) != Pick(row, KEY), (r: Row) => !M.SameKey(r, row));
  }

  lemma {:induction false} FilterUnique(rows: Rows, p: Row -> bool)
    requires UniqueKeys(rows, KEY)
    ensures UniqueKeys(Filter(rows, p), KEY)
  {
    if rows != [] {
      FilterUnique(rows[1..], p);
      FilterMembers(rows[1..], p);
      var rest := Filter(rows[1..], p);
      forall j | 0 <= j < |rest|
        ensures !SameKey(rows[0], rest[j], KEY)
      {
        assert rest[j] in rest;
        var k :| 0 <= k < |rows[1..]| && rows[1..][k] == rest[j];
        assert !SameKey(rows[0], rows[k + 1], KEY);
      }
    }
  }

  /** SQL's DELETE of rows of a list with unique keys leaves those without their keys. */
  lemma SqlDeleteMembers(list: Rows, targets: seq<int>, r: Row)
    requires UniqueKeys(list, KEY) && TargetsOk(targets, |list|)
    ensures var sql := SqlDelete(list, targets, |list|);
            UniqueKeys(sql, KEY) && (r in sql <==> r in list && !KeyMatched(r, list, targets, |targets|, KEY))
  {
    var keeps := KeepsBefore(list, targets, |targets|, KEY);
    SqlDeleteFilters(list, targets, KEY);
    FilterMembers(list, keeps);
    FilterUnique(list, keeps);
  }

  /** The facts that are gone after the commit when they are deleted: the data root. */
  predicate GoesWhenDeleted(row: Row) {
    !M.IsServedFact(row) || CellAt(row, 0) == Text("data_path")
  }

  ghost predicate Deletes(stored: Rows, after: Rows, list: Rows, targets: seq<int>) {
    && OptionsOk(stored) && OptionsOk(after) && list == CommittedList(stored) && TargetsOk(targets, |list|)
    && forall r :: r in after <==> r in stored && !KeyMatched(r, list, targets, |targets|, KEY)
  }

  /** A fact is served after the commit as SQL's DELETE leaves it, when only the data
      root is deleted. */
  lemma FactDeleted(stored: Rows, after: Rows, list: Rows, targets: seq<int>, r: Row)
    requires Deletes(stored, after, list, targets) && M.IsServedFact(r)
    requires forall i :: 0 <= i < |targets| ==> GoesWhenDeleted(list[targets[i]])
    ensures r in FactsOf(after) <==> r in FactsOf(stored) && !KeyMatched(r, list, targets, |targets|, KEY)
  {
    FactWithKey(FlagOf(stored), PathOf(stored), r);
    FactWithKey(FlagOf(after), PathOf(after), r);
    var key := r[0].s;
    if KeyMatched(r, list, targets, |targets|, KEY) {
      var i :| 0 <= i < |targets| && SameKey(r, list[targets[i]], KEY);
      FactsByKey(r, list[targets[i]]);
      SameKeys(r, list[targets[i]]);
      assert key == "data_path";
      if CellAt(r, 3).Null? {
        forall v
          ensures M.GlobalRow(key, v) !in after
        {
          SameKeys(M.GlobalRow(key, v), list[targets[i]]);
        }
        GlobalValueNone(after, key);
      }
    } else if CellAt(r, 3).Null? {
      KeptAfterDelete(stored, after, list, targets, r);
    }
  }

  lemma KeptAfterDelete(stored: Rows, after: Rows, list: Rows, targets: seq<int>, r: Row)
    requires Deletes(stored, after, list, targets) && M.IsServedFact(r) && CellAt(r, 3).Null?
    requires !KeyMatched(r, list, targets, |targets|, KEY)
    ensures GlobalValue(after, r[0].s) == GlobalValue(stored, r[0].s)
  {
    forall v
      ensures M.GlobalRow(r[0].s, v) in after <==> M.GlobalRow(r[0].s, v) in stored
    {
      forall i | 0 <= i < |targets|
        ensures !SameKey(M.GlobalRow(r[0].s, v), list[targets[i]], KEY)
      {
        SameKeys(M.GlobalRow(r[0].s, v), list[targets[i]]);
        SameKeys(r, list[targets[i]]);
      }
    }
    SameGlobalValue(after, stored, r[0].s);
  }

  /** Any other fact stays, though SQL's DELETE removes it. */
  lemma FactStays(stored: Rows, after: Rows, list: Rows, targets: seq<int>, i: nat) returns (r: Row)
    requires Deletes(stored, after, list, targets) && i < |targets| && !GoesWhenDeleted(list[targets[i]])
    ensures r in FactsOf(after) && KeyMatched(r, list, targets, |targets|, KEY)
  {
    var f := list[targets[i]];
    assert f in list;
    ListMembers(FlagOf(stored), PathOf(stored), stored, f);
    FactWithKey(FlagOf(stored), PathOf(stored), f);
    r := if f[0] == Text("encrypted") then M.GlobalRow("encrypted", if FlagOf(after) then "true" else "false") else f;
    FactWithKey(FlagOf(after), PathOf(after), r);
    SameKeys(r, f);
  }

  /** For every committed content and every DELETE on `ducklake_metadata`: the list
      served after the commit is what SQL's DELETE leaves of the list scanned, if and
      only if no matched row is a fact other than the data root. */
  lemma CommittedDeleteIff(stored: Rows, rowidColumn: nat, inputs: Rows)
    requires OptionsOk(stored) && TargetsOk(Targets(inputs, rowidColumn), |CommittedList(stored)|)
    ensures var list, targets := CommittedList(stored), Targets(inputs, rowidColumn);
            var r := StagedFor(OPTIONS, KeyedDelete, rowidColumn, inputs, list);
            && r.Ok? && CommitAll(stored, r.value).Ok?
            && (SameTable(CommittedList(CommitAll(stored, r.value).value), SqlDelete(list, targets, |list|), KEY)
                <==> forall i :: 0 <= i < |targets| ==> GoesWhenDeleted(list[targets[i]]))
  {
    var list, targets := CommittedList(stored), Targets(inputs, rowidColumn);
    DeleteOps(list, rowidColumn, inputs);
    var ops := StagedFor(OPTIONS, KeyedDelete, rowidColumn, inputs, list).value;
    forall i | 0 <= i < |list|
      ensures KeyedOption(list[i])
    {
      ListKeyed(FlagOf(stored), PathOf(stored), stored, i);
    }
    CommitRemoves(stored, list, targets, ops, |ops|);
    assert ops[..|ops|] == ops;
    var after := CommitAll(stored, ops).value;
    RemovedOk(stored, after, list, targets);
    if i :| 0 <= i < |targets| && !GoesWhenDeleted(list[targets[i]]) {
      var r := FactStays(stored, after, list, targets, i);
      ListMembers(FlagOf(after), PathOf(after), after, r);
      ListUnique(FlagOf(stored), PathOf(stored), stored);
      SqlDeleteMembers(list, targets, r);
    } else {
      DeletedAlike(stored, after, list, targets);
    }
  }

  lemma RemovedOk(stored: Rows, after: Rows, list: Rows, targets: seq<int>)
    requires OptionsOk(stored) && list == CommittedList(stored) && TargetsOk(targets, |list|)
    requires after == RemovedAll(stored, Keys(list, targets)[..|targets|], KEY)
    ensures Deletes(stored, after, list, targets)
  {
    forall r
      ensures M.KeysUnique(after) && (r in after <==> r in stored && !KeyMatched(r, list, targets, |targets|, KEY))
    {
      RemovedMembers(stored, list, targets, |targets|, r);
    }
    RemovedMembers(stored, list, targets, |targets|, []);
    forall j | 0 <= j < |after|
      ensures KeyedOption(after[j]) && Storable(TEXT, after[j][1])
    {
      assert after[j] in after;
      var k :| 0 <= k < |stored| && stored[k] == after[j];
    }
  }

  lemma DeletedAlike(stored: Rows, after: Rows, list: Rows, targets: seq<int>)
    requires Deletes(stored, after, list, targets)
    requires forall i :: 0 <= i < |targets| ==> GoesWhenDeleted(list[targets[i]])
    ensures SameTable(CommittedList(after), SqlDelete(list, targets, |list|), KEY)
  {
    ListUnique(FlagOf(stored), PathOf(stored), stored);
    ListUnique(FlagOf(after), PathOf(after), after);
    var sql := SqlDelete(list, targets, |list|);
    SqlDeleteMembers(list, targets, []);
    forall r
      ensures r in CommittedList(after) <==> r in sql
    {
      SqlDeleteMembers(list, targets, r);
      ListMembers(FlagOf(stored), PathOf(stored), stored, r);
      ListMembers(FlagOf(after), PathOf(after), after, r);
      FixedAreFacts(FlagOf(stored), PathOf(stored), r);
      FixedAreFacts(FlagOf(after), PathOf(after), r);
      if M.IsServedFact(r) {
        FactDeleted(stored, after, list, targets, r);
      }
    }
    SameRowsSameTable(CommittedList(after), sql);
  }
}

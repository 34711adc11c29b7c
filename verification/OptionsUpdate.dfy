/** UPDATE on `ducklake_metadata`: the staged rows go into the stored options, and
    the list is read again as the fixed facts with the stored settings merged over
    them. An UPDATE of a fact is staged and not seen, and a NULL is read as the empty
    string. */
module OptionsUpdate {
  import opened Values
  import opened StagedWrite
  import opened StagedRead
  import opened StagedWriteTheorems
  import M = MetadataRows

  const KEY: seq<nat> := [0, 2, 3]

  lemma SameKeys(a: Row, b: Row)
    ensures SameKey(a, b, KEY) <==> M.SameKey(a, b)
  {
    assert Pick(a, KEY) == [CellAt(a, 0), CellAt(a, 2), CellAt(a, 3)];
    assert Pick(b, KEY) == [CellAt(b, 0), CellAt(b, 2), CellAt(b, 3)];
  }

  lemma FactsByKey(a: Row, b: Row)
    requires SameKey(a, b, KEY)
    ensures M.IsServedFact(a) <==> M.IsServedFact(b)
  {
    SameKeys(a, b);
  }

  lemma SameUnique(rows: Rows)
    ensures UniqueKeys(rows, KEY) <==> M.KeysUnique(rows)
  {
    forall i, j | 0 <= i < j < |rows|
      ensures SameKey(rows[i], rows[j], KEY) <==> M.SameKey(rows[i], rows[j])
    {
      SameKeys(rows[i], rows[j]);
    }
  }

  // ----- The table after overwrites -----

  /** One overwrite is the merge's erase and append. */
  lemma OverwriteIs(rows: Rows, row: Row)
    ensures Overwritten(rows, row, KEY) == M.Without(rows, row) + [row]
  {
    forall r: Row
      ensures !SameKey(r, row, KEY) <==> !M.SameKey(r, row)
    {
      SameKeys(r, row);
    }
    FilterCongruent(rows, (r: Row) => !SameKey(r, row, KEY), (r: Row) => !M.SameKey(r, row));
  }

  /** `r` is under none of the keys of the first `k` images. */
  ghost predicate Untouched(r: Row, images: Rows, k: nat) {
    forall i :: 0 <= i < k && i < |images| ==> !SameKey(r, images[i], KEY)
  }

  /** What a table holds after overwriting it with images of distinct keys. */
  lemma {:induction false} OverwrittenMembers(rows: Rows, images: Rows, k: nat, r: Row)
    requires UniqueKeys(images, KEY) && k <= |images|
    ensures r in OverwrittenAll(rows, images[..k], KEY) <==>
            (exists i :: 0 <= i < k && images[i] == r) || (r in rows && Untouched(r, images, k))
  {
    if k > 0 {
      var n := k - 1;
      OverwrittenMembers(rows, images, n, r);
      OverwrittenSnoc(rows, images, n, KEY);
      FilterMembers(OverwrittenAll(rows, images[..n], KEY), (r: Row) => !SameKey(r, images[n], KEY));
      assert Untouched(r, images, k) <==> Untouched(r, images, n) && !SameKey(r, images[n], KEY);
    }
  }

  lemma {:induction false} OverwrittenUnique(rows: Rows, images: Rows, k: nat)
    requires k <= |images| && M.KeysUnique(rows)
    ensures M.KeysUnique(OverwrittenAll(rows, images[..k], KEY))
  {
    if k > 0 {
      var n := k - 1;
      OverwrittenUnique(rows, images, n);
      OverwrittenSnoc(rows, images, n, KEY);
      var before := OverwrittenAll(rows, images[..n], KEY);
      OverwriteIs(before, images[n]);
      M.FilterKeepsUnique(before, images[n]);
      M.WithoutMembers(before, images[n]);
      assert forall x :: x in M.Without(before, images[n]) ==> !M.SameKey(x, images[n]);
    }
  }

  // ----- The list -----

  /** With one stored row per key, the list is the facts and the stored settings. */
  lemma ListMembers(encrypted: bool, dataPath: Option<string>, stored: Rows, r: Row)
    requires M.KeysUnique(stored)
    ensures r in M.Merged(M.FixedRows(encrypted, dataPath), stored) <==>
            r in M.FixedRows(encrypted, dataPath) || (r in stored && !M.IsServedFact(r))
  {
    M.FixedRowsSurvive(encrypted, dataPath, stored);
    M.MergedServes([], stored, r);
    if r in stored && !M.IsServedFact(r) {
      var k :| 0 <= k < |stored| && stored[k] == r;
      forall j | k < j < |stored|
        ensures !M.SameKey(stored[j], stored[k])
      {
        assert !M.SameKey(stored[k], stored[j]);
      }
      assert M.LastSetting(stored, k);
    }
  }

  lemma ListUnique(encrypted: bool, dataPath: Option<string>, stored: Rows)
    ensures UniqueKeys(M.Merged(M.FixedRows(encrypted, dataPath), stored), KEY)
  {
    var fixed := M.FixedRows(encrypted, dataPath);
    assert M.KeysUnique(fixed) by {
      assert CellAt(fixed[0], 0) == Text("version") && CellAt(fixed[1], 0) == Text("created_by");
      assert CellAt(fixed[2], 0) == Text("encrypted");
      assert dataPath.Some? ==> CellAt(fixed[3], 0) == Text("data_path");
    }
    M.MergedKeysUnique(fixed, stored);
    SameUnique(M.Merged(fixed, stored));
  }

  lemma FixedAreFacts(encrypted: bool, dataPath: Option<string>, r: Row)
    ensures r in M.FixedRows(encrypted, dataPath) ==> M.IsServedFact(r)
  {
  }

  lemma {:induction false} UniqueSize(rows: Rows)
    requires UniqueKeys(rows, KEY)
    ensures |set r | r in rows| == |rows|
  {
    if rows != [] {
      var n := |rows| - 1;
      UniqueSize(rows[..n]);
      assert (set r | r in rows) == (set r | r in rows[..n]) + {rows[n]};
      assert rows[n] !in rows[..n];
    }
  }

  lemma SameRowsSameTable(a: Rows, b: Rows)
    requires UniqueKeys(a, KEY) && UniqueKeys(b, KEY) && forall r :: r in a <==> r in b
    ensures SameTable(a, b, KEY)
  {
    UniqueSize(a);
    UniqueSize(b);
    assert (set r | r in a) == (set r | r in b);
  }

  // ----- What an option row is stored as -----

  /** The key of an option as the dump shows it. */
  predicate KeyedOption(row: Row) {
    && |row| == 4 && Storable(TEXT, row[0])
    && (|| (row[2].Null? && row[3].Null?)
        || ((row[2] == Text("schema") || row[2] == Text("table")) && row[3].Num?))
  }

  ghost predicate OptionsOk(stored: Rows) {
    M.KeysUnique(stored) && forall i :: 0 <= i < |stored| ==> KeyedOption(stored[i]) && Storable(TEXT, stored[i][1])
  }

  /** What a value is stored as: NULL as the empty string, text up to its first NUL. */
  function Landed(value: Cell): Cell {
    if value.Null? then Text("") else Received(value)
  }

  function LandedRow(row: Row): Row {
    if |row| == 4 then row[1 := Landed(row[1])] else row
  }

  function LandedAll(images: Rows): (r: Rows)
    ensures |r| == |images|
  {
    seq(|images|, i requires 0 <= i < |images| => LandedRow(images[i]))
  }

  lemma KeyedReceived(image: Row)
    requires KeyedOption(image)
    ensures ReceivedAll(image) == [image[0], Received(image[1]), image[2], image[3]]
  {
    ReceivedKeepsIff(TEXT, image[0]);
    ScopeReceived(image[2]);
  }

  lemma ScopeReceived(scope: Cell)
    requires scope.Null? || scope == Text("schema") || scope == Text("table")
    ensures Received(scope) == scope
  {
    if scope.Text? {
      CStringKeeps(scope.s);
      assert '\0' !in "schema" && '\0' !in "table";
    }
  }

  lemma KeyedDecodes(image: Row)
    requires KeyedOption(image)
    ensures DecodeOption(image) == if image[1].Null? || image[1].Text? then Ok(LandedRow(image)) else Err(WrongCell)
  {
    DecodeIs(OPTIONS.shapes, image);
    if image[1].Null? || image[1].Text? {
      KeyedReceived(image);
      assert LandedRow(image) == [image[0], Landed(image[1]), image[2], image[3]];
    } else {
      assert !Accepts(OPTIONS.shapes[1], image[1]);
      assert OPTIONS.shapes[1..][0] == OPT_TEXT && image[1..][0] == image[1];
    }
  }

  /** A value lands as it is if and only if it is text without a NUL. */
  lemma LandsIff(value: Cell)
    requires value.Null? || value.Text?
    ensures Landed(value) == value <==> Storable(TEXT, value)
  {
    ReceivedKeepsIff(TEXT, value);
  }

  lemma LandedKeepsKey(image: Row)
    ensures SameKey(LandedRow(image), image, KEY)
  {
  }

  lemma ListKeyed(encrypted: bool, dataPath: Option<string>, stored: Rows, i: nat)
    requires OptionsOk(stored) && i < |M.Merged(M.FixedRows(encrypted, dataPath), stored)|
    ensures KeyedOption(M.Merged(M.FixedRows(encrypted, dataPath), stored)[i])
  {
    var r := M.Merged(M.FixedRows(encrypted, dataPath), stored)[i];
    ListMembers(encrypted, dataPath, stored, r);
    if r in M.FixedRows(encrypted, dataPath) {
      assert '\0' !in "version" && '\0' !in "created_by" && '\0' !in "encrypted" && '\0' !in "data_path";
    } else {
      var k :| 0 <= k < |stored| && stored[k] == r;
    }
  }

  lemma ImageKeyed(image: Row, row: Row)
    requires KeyedOption(row) && SameKey(image, row, KEY) && |image| == 4
    ensures KeyedOption(image)
  {
    SameKeys(image, row);
  }

  // ----- The list read again -----

  /** An UPDATE of matched rows of the list, its images and what it staged. */
  ghost predicate Updates(list: Rows, targets: seq<int>, images: Rows, ops: seq<StagedOp>) {
    && KeepKeys(list, targets, images, KEY) && Overwrites(OPTIONS, ops, images)
    && forall i :: 0 <= i < |images| ==> |images[i]| == |list[targets[i]]|
  }

  lemma ImagesKeyed(encrypted: bool, dataPath: Option<string>, stored: Rows, targets: seq<int>, images: Rows, ops: seq<StagedOp>,
                    i: nat)
    requires OptionsOk(stored) && Updates(M.Merged(M.FixedRows(encrypted, dataPath), stored), targets, images, ops) && i < |images|
    ensures KeyedOption(images[i])
  {
    ListKeyed(encrypted, dataPath, stored, targets[i]);
    ImageKeyed(images[i], M.Merged(M.FixedRows(encrypted, dataPath), stored)[targets[i]]);
  }

  ghost predicate TextOrNull(images: Rows) {
    forall i :: 0 <= i < |images| ==> |images[i]| == 4 && (images[i][1].Null? || images[i][1].Text?)
  }

  /** Reading the stored options again overwrites them with what the images are
      stored as; a value that is neither text nor NULL fails the read. */
  lemma StoredAgain(encrypted: bool, dataPath: Option<string>, stored: Rows, targets: seq<int>, images: Rows, ops: seq<StagedOp>)
    requires OptionsOk(stored) && Updates(M.Merged(M.FixedRows(encrypted, dataPath), stored), targets, images, ops)
    ensures ReadAll(OPTIONS, stored, ops).Ok? <==> TextOrNull(images)
    ensures TextOrNull(images) ==> ReadAll(OPTIONS, stored, ops) == Ok(OverwrittenAll(stored, LandedAll(images), KEY))
  {
    forall i | 0 <= i < |images|
      ensures KeyedOption(images[i])
      ensures DecodeRow(OPTIONS, ops[i].cells) ==
              if images[i][1].Null? || images[i][1].Text? then Ok(LandedAll(images)[i]) else Err(WrongCell)
    {
      ImagesKeyed(encrypted, dataPath, stored, targets, images, ops, i);
      KeyedDecodes(images[i]);
    }
    if TextOrNull(images) {
      ReadOverwrites(OPTIONS, stored, ops, LandedAll(images), |ops|);
      assert ops[..|ops|] == ops && LandedAll(images)[..|ops|] == LandedAll(images);
    } else {
      var i :| 0 <= i < |images| && !(images[i][1].Null? || images[i][1].Text?);
      if ReadAll(OPTIONS, stored, ops).Ok? {
        ReadDecodes(OPTIONS, stored, ops, i);
      }
    }
  }

  /** The facts of the new list are those of the old one, each matched one replaced by
      the row that is served for it. */
  ghost predicate FactsBecome(fixed: Rows, fixed': Rows, served: Rows) {
    forall r :: M.IsServedFact(r) ==>
      (r in fixed' <==> (exists i :: 0 <= i < |served| && served[i] == r) || (r in fixed && Untouched(r, served, |served|)))
  }

  lemma KeysOf(list: Rows, targets: seq<int>, images: Rows)
    requires UniqueKeys(list, KEY) && KeepKeys(list, targets, images, KEY)
    ensures UniqueKeys(images, KEY)
  {
    forall i, j | 0 <= i < j < |images|
      ensures !SameKey(images[i], images[j], KEY)
    {
      assert targets[i] < targets[j] || targets[j] < targets[i];
    }
  }

  /** Merging what is stored again over facts that became so, gives the list with each
      matched row replaced by what is served for it: for a setting, what it landed
      as. */
  lemma ListAgain(encrypted: bool, dataPath: Option<string>, encrypted': bool, dataPath': Option<string>, stored: Rows,
                  targets: seq<int>, landed: Rows, served: Rows)
    requires var list := M.Merged(M.FixedRows(encrypted, dataPath), stored);
             && M.KeysUnique(stored) && KeepKeys(list, targets, landed, KEY) && KeepKeys(list, targets, served, KEY)
             && (forall i :: 0 <= i < |landed| && !M.IsServedFact(list[targets[i]]) ==> served[i] == landed[i])
             && FactsBecome(M.FixedRows(encrypted, dataPath), M.FixedRows(encrypted', dataPath'), served)
    ensures SameTable(M.Merged(M.FixedRows(encrypted', dataPath'), OverwrittenAll(stored, landed, KEY)),
                      Replaced(M.Merged(M.FixedRows(encrypted, dataPath), stored), targets, served), KEY)
  {
    var fixed, fixed' := M.FixedRows(encrypted, dataPath), M.FixedRows(encrypted', dataPath');
    var list, after := M.Merged(fixed, stored), OverwrittenAll(stored, landed, KEY);
    ListUnique(encrypted, dataPath, stored);
    ListUnique(encrypted', dataPath', after);
    KeysOf(list, targets, landed);
    KeysOf(list, targets, served);
    assert landed[..|landed|] == landed && served[..|served|] == served && targets[..|served|] == targets;
    OverwrittenUnique(stored, landed, |landed|);
    OverwrittenReplaces(list, targets, served, KEY, |served|);
    var again, replaced := M.Merged(fixed', after), Replaced(list, targets, served);
    forall r
      ensures r in again <==> r in replaced
    {
      ListMembers(encrypted', dataPath', after, r);
      ListMembers(encrypted, dataPath, stored, r);
      FixedAreFacts(encrypted, dataPath, r);
      FixedAreFacts(encrypted', dataPath', r);
      OverwrittenMembers(list, served, |served|, r);
      if !M.IsServedFact(r) {
        OverwrittenMembers(stored, landed, |landed|, r);
        SettingsAlike(list, targets, landed, served, r);
      }
    }
    SameRowsSameTable(again, replaced);
  }

  lemma SettingsAlike(list: Rows, targets: seq<int>, landed: Rows, served: Rows, r: Row)
    requires KeepKeys(list, targets, landed, KEY) && KeepKeys(list, targets, served, KEY) && !M.IsServedFact(r)
    requires forall i :: 0 <= i < |landed| && !M.IsServedFact(list[targets[i]]) ==> served[i] == landed[i]
    ensures Untouched(r, landed, |landed|) <==> Untouched(r, served, |served|)
    ensures (exists i :: 0 <= i < |landed| && landed[i] == r) <==> (exists i :: 0 <= i < |served| && served[i] == r)
  {
    forall i | 0 <= i < |landed|
      ensures SameKey(r, landed[i], KEY) <==> SameKey(r, served[i], KEY)
      ensures landed[i] == r || served[i] == r ==> landed[i] == served[i]
    {
      FactsByKey(landed[i], list[targets[i]]);
      FactsByKey(served[i], list[targets[i]]);
    }
    if i :| 0 <= i < |landed| && landed[i] == r {
      assert served[i] == r;
    }
    if i :| 0 <= i < |served| && served[i] == r {
      assert landed[i] == r;
    }
  }

  // ----- Inside the transaction -----

  /** Inside the transaction the facts still come from the committed head. */
  function ServedAgain(list: Rows, targets: seq<int>, images: Rows): (r: Rows)
    requires |targets| == |images| && forall i :: 0 <= i < |targets| ==> 0 <= targets[i] < |list|
    ensures |r| == |images|
  {
    seq(|images|, i requires 0 <= i < |images| =>
      if M.IsServedFact(list[targets[i]]) then list[targets[i]] else LandedRow(images[i]))
  }

  lemma FactsStay(encrypted: bool, dataPath: Option<string>, stored: Rows, targets: seq<int>, images: Rows)
    requires var list := M.Merged(M.FixedRows(encrypted, dataPath), stored);
             M.KeysUnique(stored) && KeepKeys(list, targets, images, KEY)
    ensures var list := M.Merged(M.FixedRows(encrypted, dataPath), stored);
            FactsBecome(M.FixedRows(encrypted, dataPath), M.FixedRows(encrypted, dataPath), ServedAgain(list, targets, images))
  {
    var fixed := M.FixedRows(encrypted, dataPath);
    var list := M.Merged(fixed, stored);
    var served := ServedAgain(list, targets, images);
    ListUnique(encrypted, dataPath, stored);
    forall r, i | M.IsServedFact(r) && 0 <= i < |served| && SameKey(r, served[i], KEY)
      ensures served[i] in fixed && (r in fixed ==> r == served[i])
    {
      LandedKeepsKey(images[i]);
      FactsByKey(r, served[i]);
      FactsByKey(served[i], list[targets[i]]);
      assert served[i] == list[targets[i]] && served[i] in list;
      ListMembers(encrypted, dataPath, stored, served[i]);
      ListMembers(encrypted, dataPath, stored, r);
      if r in fixed {
        SameOfList(list, r, targets[i]);
      }
    }
    forall r, i | M.IsServedFact(r) && 0 <= i < |served| && served[i] == r
      ensures r in fixed
    {
      assert SameKey(r, served[i], KEY);
    }
  }

  /** Two rows of the list under one key are the same row. */
  lemma SameOfList(list: Rows, r: Row, t: nat)
    requires UniqueKeys(list, KEY) && r in list && t < |list| && SameKey(r, list[t], KEY)
    ensures r == list[t]
  {
    var k :| 0 <= k < |list| && list[k] == r;
    assert !(k < t) && !(t < k);
  }

  lemma LandedKeepKeys(list: Rows, targets: seq<int>, images: Rows)
    requires KeepKeys(list, targets, images, KEY)
    ensures KeepKeys(list, targets, LandedAll(images), KEY) && KeepKeys(list, targets, ServedAgain(list, targets, images), KEY)
  {
    forall i | 0 <= i < |images|
      ensures SameKey(LandedAll(images)[i], list[targets[i]], KEY)
      ensures SameKey(ServedAgain(list, targets, images)[i], list[targets[i]], KEY)
    {
      LandedKeepsKey(images[i]);
    }
  }

  /** What an UPDATE may do to a row to be read again as SQL leaves it: nothing to a
      fact, and to a setting anything that gives it a text without a NUL. */
  predicate ReadAsSet(row: Row, image: Row) {
    if M.IsServedFact(row) then image == row else Storable(TEXT, CellAt(image, 1))
  }

  lemma ServedIsImageIff(list: Rows, targets: seq<int>, images: Rows)
    requires KeepKeys(list, targets, images, KEY) && TextOrNull(images)
    ensures ServedAgain(list, targets, images) == images <==>
            forall i :: 0 <= i < |images| ==> ReadAsSet(list[targets[i]], images[i])
  {
    var served := ServedAgain(list, targets, images);
    forall i | 0 <= i < |images|
      ensures served[i] == images[i] <==> ReadAsSet(list[targets[i]], images[i])
    {
      LandsIff(images[i][1]);
      assert LandedRow(images[i])[1] == Landed(images[i][1]);
      assert Landed(images[i][1]) == images[i][1] ==> LandedRow(images[i]) == images[i];
    }
    if served == images {
      assert forall i :: 0 <= i < |images| ==> served[i] == images[i];
    }
  }

  /** The images of an UPDATE that sets no key column. */
  lemma OptionImages(list: Rows, sets: seq<SetTarget>, rowidColumn: nat, inputs: Rows)
    requires !SetsKey(OPTIONS, sets) && TargetsOk(Targets(inputs, rowidColumn), |list|)
    ensures var targets, r := Targets(inputs, rowidColumn), StagedFor(OPTIONS, Overlay(sets), rowidColumn, inputs, list);
            r.Ok? && Updates(list, targets, OverlaidAll(list, sets, inputs, targets), r.value)
  {
    var targets := Targets(inputs, rowidColumn);
    OverlayOps(OPTIONS, sets, rowidColumn, inputs, list);
    forall i | 0 <= i < |inputs|
      ensures |Overlaid(list[targets[i]], sets, inputs[i])| == |list[targets[i]]|
    {
      OverlaidLength(list[targets[i]], sets, inputs[i]);
    }
  }

  /** For every stored content and every UPDATE of `ducklake_metadata` that sets no
      key column: the list the transaction reads again is what SQL's UPDATE makes of
      the list it scanned, if and only if no served fact was to change and every
      matched setting was given a text without a NUL. */
  lemma OptionsUpdateMeans(encrypted: bool, dataPath: Option<string>, stored: Rows, sets: seq<SetTarget>, rowidColumn: nat,
                           inputs: Rows)
    requires OptionsOk(stored) && !SetsKey(OPTIONS, sets)
    requires TargetsOk(Targets(inputs, rowidColumn), |M.Merged(M.FixedRows(encrypted, dataPath), stored)|)
    ensures var fixed, targets := M.FixedRows(encrypted, dataPath), Targets(inputs, rowidColumn);
            var list := M.Merged(fixed, stored);
            var r, images := StagedFor(OPTIONS, Overlay(sets), rowidColumn, inputs, list), OverlaidAll(list, sets, inputs, targets);
            && r.Ok?
            && (var again := ReadAll(OPTIONS, stored, r.value);
                again.Ok? && SameTable(M.Merged(fixed, again.value), SqlUpdate(list, sets, inputs, targets), KEY)
                <==> forall i :: 0 <= i < |images| ==> ReadAsSet(list[targets[i]], images[i]))
  {
    var fixed, targets := M.FixedRows(encrypted, dataPath), Targets(inputs, rowidColumn);
    var list := M.Merged(fixed, stored);
    var images := OverlaidAll(list, sets, inputs, targets);
    OptionImages(list, sets, rowidColumn, inputs);
    var ops := StagedFor(OPTIONS, Overlay(sets), rowidColumn, inputs, list).value;
    StoredAgain(encrypted, dataPath, stored, targets, images, ops);
    if TextOrNull(images) {
      ReadAgainIff(encrypted, dataPath, stored, targets, images);
    } else {
      NotTextNotSet(encrypted, dataPath, stored, targets, images, ops);
    }
  }

  /** The list read again, as the list with each matched row replaced. */
  lemma ReadAgainIs(encrypted: bool, dataPath: Option<string>, stored: Rows, targets: seq<int>, images: Rows)
    requires var list := M.Merged(M.FixedRows(encrypted, dataPath), stored);
             M.KeysUnique(stored) && KeepKeys(list, targets, images, KEY)
    ensures var fixed := M.FixedRows(encrypted, dataPath);
            var list := M.Merged(fixed, stored);
            SameTable(M.Merged(fixed, OverwrittenAll(stored, LandedAll(images), KEY)),
                      Replaced(list, targets, ServedAgain(list, targets, images)), KEY)
  {
    var list := M.Merged(M.FixedRows(encrypted, dataPath), stored);
    LandedKeepKeys(list, targets, images);
    FactsStay(encrypted, dataPath, stored, targets, images);
    ListAgain(encrypted, dataPath, encrypted, dataPath, stored, targets, LandedAll(images), ServedAgain(list, targets, images));
  }

  lemma ReadAgainIff(encrypted: bool, dataPath: Option<string>, stored: Rows, targets: seq<int>, images: Rows)
    requires var list := M.Merged(M.FixedRows(encrypted, dataPath), stored);
             M.KeysUnique(stored) && KeepKeys(list, targets, images, KEY) && TextOrNull(images)
    ensures var fixed := M.FixedRows(encrypted, dataPath);
            var list := M.Merged(fixed, stored);
            SameTable(M.Merged(fixed, OverwrittenAll(stored, LandedAll(images), KEY)), Replaced(list, targets, images), KEY)
            <==> forall i :: 0 <= i < |images| ==> ReadAsSet(list[targets[i]], images[i])
  {
    var fixed := M.FixedRows(encrypted, dataPath);
    var list, after := M.Merged(fixed, stored), OverwrittenAll(stored, LandedAll(images), KEY);
    ReadAgainIs(encrypted, dataPath, stored, targets, images);
    LandedKeepKeys(list, targets, images);
    ListUnique(encrypted, dataPath, stored);
    ReplacedSameIff(list, targets, ServedAgain(list, targets, images), images, KEY, M.Merged(fixed, after));
    ServedIsImageIff(list, targets, images);
  }

  lemma NotTextNotSet(encrypted: bool, dataPath: Option<string>, stored: Rows, targets: seq<int>, images: Rows, ops: seq<StagedOp>)
    requires var list := M.Merged(M.FixedRows(encrypted, dataPath), stored);
             OptionsOk(stored) && Updates(list, targets, images, ops) && !TextOrNull(images)
    ensures var list := M.Merged(M.FixedRows(encrypted, dataPath), stored);
            exists i :: 0 <= i < |images| && !ReadAsSet(list[targets[i]], images[i])
  {
    var list := M.Merged(M.FixedRows(encrypted, dataPath), stored);
    var i :| 0 <= i < |images| && !(|images[i]| == 4 && (images[i][1].Null? || images[i][1].Text?));
    ImagesKeyed(encrypted, dataPath, stored, targets, images, ops, i);
    assert list[targets[i]] in list;
    ListMembers(encrypted, dataPath, stored, list[targets[i]]);
    if M.IsServedFact(list[targets[i]]) {
      assert list[targets[i]][1].Text?;
    }
    assert !ReadAsSet(list[targets[i]], images[i]);
  }

  // ----- What is lost -----

  /** Setting a fact to any other text is read again as the old value, whatever is
      stored. */
  lemma FactUpdateIsLost(encrypted: bool, dataPath: Option<string>, stored: Rows, i: nat, value: string) returns (inputs: Rows)
    requires OptionsOk(stored) && i < |M.FixedRows(encrypted, dataPath)|
    requires Text(value) != CellAt(M.FixedRows(encrypted, dataPath)[i], 1)
    ensures var fixed, sets := M.FixedRows(encrypted, dataPath), [SetTarget(1, 0)];
            var list := M.Merged(fixed, stored);
            var r := StagedFor(OPTIONS, Overlay(sets), 1, inputs, list);
            && Targets(inputs, 1) == [i] && i < |list| && r.Ok?
            && (var again := ReadAll(OPTIONS, stored, r.value);
                && again.Ok? && fixed[i] in M.Merged(fixed, again.value)
                && !SameTable(M.Merged(fixed, again.value), SqlUpdate(list, sets, inputs, [i]), KEY))
  {
    var fixed := M.FixedRows(encrypted, dataPath);
    var list := M.Merged(fixed, stored);
    M.FixedRowsSurvive(encrypted, dataPath, stored);
    assert list[i] == fixed[i] && fixed[i] in fixed;
    FixedAreFacts(encrypted, dataPath, fixed[i]);
    inputs := SetValue(encrypted, dataPath, stored, i, Text(value));
    assert fixed[i][1 := Text(value)][1] == Text(value);
    assert !ReadAsSet(list[i], list[i][1 := Text(value)]);
  }

  /** Setting a setting to NULL is read again as the empty string. */
  lemma NullReadsEmpty(encrypted: bool, dataPath: Option<string>, stored: Rows, i: nat) returns (inputs: Rows)
    requires OptionsOk(stored) && i < |M.Merged(M.FixedRows(encrypted, dataPath), stored)|
    requires !M.IsServedFact(M.Merged(M.FixedRows(encrypted, dataPath), stored)[i])
    ensures var fixed, sets := M.FixedRows(encrypted, dataPath), [SetTarget(1, 0)];
            var list := M.Merged(fixed, stored);
            var r := StagedFor(OPTIONS, Overlay(sets), 1, inputs, list);
            && Targets(inputs, 1) == [i] && |list[i]| == 4 && r.Ok?
            && (var again := ReadAll(OPTIONS, stored, r.value);
                && again.Ok? && list[i][1 := Text("")] in M.Merged(fixed, again.value)
                && list[i][1 := Null] in SqlUpdate(list, sets, inputs, [i])
                && !SameTable(M.Merged(fixed, again.value), SqlUpdate(list, sets, inputs, [i]), KEY))
  {
    var list := M.Merged(M.FixedRows(encrypted, dataPath), stored);
    inputs := SetValue(encrypted, dataPath, stored, i, Null);
    assert !ReadAsSet(list[i], list[i][1 := Null]);
    assert list[i := list[i][1 := Null]][i] == list[i][1 := Null];
  }

  /** `SET value` on one row: what the list read again serves for it, and whether it is
      SQL's UPDATE. */
  lemma SetsOne(list: Rows, i: nat, value: Cell)
    requires i < |list| && |list[i]| == 4
    ensures var sets, inputs := [SetTarget(1, 0)], [[value, Num(i)]];
            && Targets(inputs, 1) == [i]
            && OverlaidAll(list, sets, inputs, [i]) == [list[i][1 := value]]
            && SqlUpdate(list, sets, inputs, [i]) == list[i := list[i][1 := value]]
  {
    var inputs, images := [[value, Num(i)]], [list[i][1 := value]];
    SetOne(list[i], 1, 0, inputs[0]);
    assert OverlaidAll(list, [SetTarget(1, 0)], inputs, [i]) == images;
    assert [i][..0] == [] && images[..0] == [] && Replaced(list, [], []) == list;
  }

  /** What one row, set to `value`, is read again as. */
  lemma ServedOne(encrypted: bool, dataPath: Option<string>, stored: Rows, i: nat, value: Cell, ops: seq<StagedOp>)
    requires OptionsOk(stored) && (value.Null? || value.Text?)
    requires var list := M.Merged(M.FixedRows(encrypted, dataPath), stored);
             i < |list| && |list[i]| == 4 && Updates(list, [i], [list[i][1 := value]], ops)
    ensures var fixed, again := M.FixedRows(encrypted, dataPath), ReadAll(OPTIONS, stored, ops);
            var row := M.Merged(fixed, stored)[i];
            && again.Ok?
            && (if M.IsServedFact(row) then row else row[1 := Landed(value)]) in M.Merged(fixed, again.value)
  {
    var list := M.Merged(M.FixedRows(encrypted, dataPath), stored);
    var targets, images := [i], [list[i][1 := value]];
    StoredAgain(encrypted, dataPath, stored, targets, images, ops);
    ReadAgainIs(encrypted, dataPath, stored, targets, images);
    var served := ServedAgain(list, targets, images);
    LandedKeepKeys(list, targets, images);
    ReplacedAt(list, targets, served, i);
    assert Replaced(list, targets, served)[i] == served[0];
    assert LandedRow(images[0]) == list[i][1 := Landed(value)];
  }

  lemma SetValue(encrypted: bool, dataPath: Option<string>, stored: Rows, i: nat, value: Cell) returns (inputs: Rows)
    requires OptionsOk(stored) && i < |M.Merged(M.FixedRows(encrypted, dataPath), stored)| && (value.Null? || value.Text?)
    ensures var fixed, sets := M.FixedRows(encrypted, dataPath), [SetTarget(1, 0)];
            var list := M.Merged(fixed, stored);
            var r := StagedFor(OPTIONS, Overlay(sets), 1, inputs, list);
            && Targets(inputs, 1) == [i] && |list[i]| == 4 && r.Ok?
            && OverlaidAll(list, sets, inputs, [i]) == [list[i][1 := value]]
            && SqlUpdate(list, sets, inputs, [i]) == list[i := list[i][1 := value]]
            && (var again := ReadAll(OPTIONS, stored, r.value);
                && again.Ok?
                && (if M.IsServedFact(list[i]) then list[i] else list[i][1 := Landed(value)]) in M.Merged(fixed, again.value)
                && (SameTable(M.Merged(fixed, again.value), SqlUpdate(list, sets, inputs, [i]), KEY)
                    <==> ReadAsSet(list[i], list[i][1 := value])))
  {
    inputs := [[value, Num(i)]];
    var fixed, sets := M.FixedRows(encrypted, dataPath), [SetTarget(1, 0)];
    var list := M.Merged(fixed, stored);
    ListKeyed(encrypted, dataPath, stored, i);
    SetsOne(list, i, value);
    OptionImages(list, sets, 1, inputs);
    OptionsUpdateMeans(encrypted, dataPath, stored, sets, 1, inputs);
    ServedOne(encrypted, dataPath, stored, i, value, StagedFor(OPTIONS, Overlay(sets), 1, inputs, list).value);
  }
}

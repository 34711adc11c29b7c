/** `ducklake_metadata`: the rows moraine serves from its own facts, and the
    merge of the store's option rows over them. */
module MetadataRows {
  import opened Values

  // Column order of `ducklake_metadata`: key, value, scope, scope_id.
  const KEY: nat := 0
  const VALUE: nat := 1
  const SCOPE: nat := 2
  const SCOPE_ID: nat := 3

  const SERVED_BY_MORAINE: set<string> := {"version", "created_by", "encrypted", "data_path"}

  function StripSlashes(path: string): (r: string)
    ensures r == [] || r[|r| - 1] != '/'
  {
    if path != [] && path[|path| - 1] == '/' then StripSlashes(path[..|path| - 1]) else path
  }

  /** The data root in the form DuckLake compares against: exactly one
      trailing separator. */
  function ServedPath(path: string): string {
    StripSlashes(path) + "/"
  }

  /** The path less its trailing slashes, and one slash. */
  lemma {:induction false} ServedPathIs(path: string) returns (k: nat)
    ensures k <= |path| && ServedPath(path) == path[..k] + "/"
    ensures (forall i :: k <= i < |path| ==> path[i] == '/') && (k > 0 ==> path[k - 1] != '/')
  {
    if path != [] && path[|path| - 1] == '/' {
      k := ServedPathIs(path[..|path| - 1]);
      assert path[..|path| - 1][..k] == path[..k];
    } else {
      k := |path|;
      assert path[..k] == path;
    }
  }

  function GlobalRow(key: string, value: string): Row {
    [Text(key), Text(value), Null, Null]
  }

  /** The rows served from the store's facts: protocol version, writer,
      creation-time encryption flag and, when one is recorded, the data root. */
  function FixedRows(encrypted: bool, dataPath: Option<string>): Rows {
    [GlobalRow("version", "1.0"),
     GlobalRow("created_by", "moraine"),
     GlobalRow("encrypted", if encrypted then "true" else "false")]
    + (if dataPath.Some? then [GlobalRow("data_path", ServedPath(dataPath.value))] else [])
  }

  /** A stored row that names, at the global scope, a key moraine projects itself. */
  predicate IsServedFact(row: Row) {
    CellAt(row, SCOPE) == Null &&
    CellAt(row, KEY).Text? && CellAt(row, KEY).s in SERVED_BY_MORAINE
  }

  predicate SameKey(a: Row, b: Row) {
    CellAt(a, KEY) == CellAt(b, KEY) &&
    CellAt(a, SCOPE) == CellAt(b, SCOPE) &&
    CellAt(a, SCOPE_ID) == CellAt(b, SCOPE_ID)
  }

  function Without(rows: Rows, key: Row): Rows {
    Filter(rows, (existing: Row) => !SameKey(existing, key))
  }

  lemma WithoutMembers(rows: Rows, key: Row)
    ensures forall x :: x in Without(rows, key) <==> x in rows && !SameKey(x, key)
  {
    FilterMembers(rows, (existing: Row) => !SameKey(existing, key));
  }

  /** One iteration of the merge. */
  function MergeOne(rows: Rows, row: Row): Rows {
    if IsServedFact(row) then rows else Without(rows, row) + [row]
  }

  /** The merge as a fold over the stored rows, in order. */
  function Merged(rows: Rows, stored: Rows): Rows {
    if stored == [] then rows
    else MergeOne(Merged(rows, stored[..|stored| - 1]), stored[|stored| - 1])
  }

  /** `std::remove_if` + `erase`: keeps the rows of another key, in order. */
  method EraseSameKey(rows: Rows, key: Row) returns (kept: Rows)
    ensures kept == Without(rows, key)
  {
    kept := [];
    var differs := (existing: Row) => !SameKey(existing, key);
    for i := 0 to |rows|
      invariant kept == Filter(rows[..i], differs)
    {
      FilterSnoc(rows, i, differs);
      if !SameKey(rows[i], key) {
        kept := kept + [rows[i]];
      }
    }
    assert rows[..|rows|] == rows;
  }

  /** `MergeStoredMetadataRows`. */
  method MergeStored(rows: Rows, stored: Rows) returns (merged: Rows)
    ensures merged == Merged(rows, stored)
  {
    merged := rows;
    for i := 0 to |stored|
      invariant merged == Merged(rows, stored[..i])
    {
      assert stored[..i + 1][..i] == stored[..i];
      if !IsServedFact(stored[i]) {
        merged := EraseSameKey(merged, stored[i]);
        merged := merged + [stored[i]];
      }
    }
    assert stored[..|stored|] == stored;
  }

  ghost predicate KeysUnique(rows: Rows) {
    forall i, j :: 0 <= i < j < |rows| ==> !SameKey(rows[i], rows[j])
  }

  /** The row at index `k` is the last one in `stored` that is a user setting
      with its key. */
  ghost predicate LastSetting(stored: Rows, k: int) {
    0 <= k < |stored| && !IsServedFact(stored[k]) &&
    forall j :: k < j < |stored| && !IsServedFact(stored[j]) ==> !SameKey(stored[j], stored[k])
  }

  lemma {:induction false} FilterKeepsUnique(rows: Rows, key: Row)
    requires KeysUnique(rows)
    ensures KeysUnique(Without(rows, key))
  {
    if rows != [] {
      FilterKeepsUnique(rows[1..], key);
      WithoutMembers(rows[1..], key);
      var rest := Without(rows[1..], key);
      forall x | x in rest
        ensures !SameKey(rows[0], x)
      {
        assert x in rows[1..];
      }
    }
  }

  /** Merging never serves two rows of one key. */
  lemma {:induction false} MergedKeysUnique(rows: Rows, stored: Rows)
    requires KeysUnique(rows)
    ensures KeysUnique(Merged(rows, stored))
  {
    if stored != [] {
      var before, last := Merged(rows, stored[..|stored| - 1]), stored[|stored| - 1];
      MergedKeysUnique(rows, stored[..|stored| - 1]);
      FilterKeepsUnique(before, last);
      WithoutMembers(before, last);
      assert forall x :: x in Without(before, last) ==> !SameKey(x, last);
    }
  }

  /** `row` is, in `stored`, the last user setting of its key. */
  ghost predicate IsLastSetting(stored: Rows, row: Row) {
    exists k :: LastSetting(stored, k) && stored[k] == row
  }

  /** No user setting in `stored` carries the key of `row`. */
  ghost predicate Unset(stored: Rows, row: Row) {
    forall j :: 0 <= j < |stored| && !IsServedFact(stored[j]) ==> !SameKey(stored[j], row)
  }

  /** What the merge serves, said without the loop: a row is served exactly
      when it is the last user setting of its key, or a base row whose key no
      user setting carries. */
  lemma {:induction false} MergedServes(rows: Rows, stored: Rows, row: Row)
    ensures row in Merged(rows, stored) <==> IsLastSetting(stored, row) || (row in rows && Unset(stored, row))
  {
    if stored == [] {
      assert !IsLastSetting(stored, row);
    } else {
      var n := |stored| - 1;
      var init, last := stored[..n], stored[n];
      MergedServes(rows, init, row);
      WithoutMembers(Merged(rows, init), last);
      assert row in Merged(rows, stored) <==>
        if IsServedFact(last) then row in Merged(rows, init)
        else (row in Merged(rows, init) && !SameKey(row, last)) || row == last;
      SettingSurvives(stored, row);
      if IsLastSetting(stored, row) {
        SettingSeen(stored, row);
      }
      UnsetOfPrefix(stored, row);
    }
  }

  lemma UnsetOfPrefix(stored: Rows, row: Row)
    requires stored != []
    ensures var n := |stored| - 1;
            Unset(stored, row) <==> Unset(stored[..n], row) && (IsServedFact(stored[n]) || !SameKey(stored[n], row))
  {
    var n := |stored| - 1;
    assert forall j :: 0 <= j < n ==> stored[..n][j] == stored[j];
  }

  /** The last setting of a prefix stays one unless the next row replaces it. */
  lemma SettingSurvives(stored: Rows, row: Row)
    requires stored != []
    ensures var n := |stored| - 1;
            && (!IsServedFact(stored[n]) && stored[n] == row ==> IsLastSetting(stored, row))
            && (IsLastSetting(stored[..n], row) && (IsServedFact(stored[n]) || !SameKey(row, stored[n])) ==>
                  IsLastSetting(stored, row))
  {
    var n := |stored| - 1;
    if !IsServedFact(stored[n]) && stored[n] == row {
      assert LastSetting(stored, n);
    }
    if IsLastSetting(stored[..n], row) && (IsServedFact(stored[n]) || !SameKey(row, stored[n])) {
      var k :| LastSetting(stored[..n], k) && stored[..n][k] == row;
      assert LastSetting(stored, k);
    }
  }

  /** A last setting is the last row, or was one before it. */
  lemma SettingSeen(stored: Rows, row: Row)
    requires stored != [] && IsLastSetting(stored, row)
    ensures var n := |stored| - 1;
            || (!IsServedFact(stored[n]) && stored[n] == row)
            || (IsLastSetting(stored[..n], row) && (IsServedFact(stored[n]) || !SameKey(row, stored[n])))
  {
    var n := |stored| - 1;
    var k :| LastSetting(stored, k) && stored[k] == row;
    if k < n {
      assert LastSetting(stored[..n], k);
    }
  }

  /** The fixed rows are all store facts, so no stored row ever displaces one:
      they come out first and unchanged, whatever the store holds. */
  lemma {:induction false} FixedRowsSurvive(encrypted: bool, dataPath: Option<string>, stored: Rows)
    ensures Merged(FixedRows(encrypted, dataPath), stored) == FixedRows(encrypted, dataPath) + Merged([], stored)
  {
    var fixed := FixedRows(encrypted, dataPath);
    if stored == [] {
      assert fixed + [] == fixed;
    } else {
      var n := |stored| - 1;
      FixedRowsSurvive(encrypted, dataPath, stored[..n]);
      var rest := Merged([], stored[..n]);
      if !IsServedFact(stored[n]) {
        var differs := (existing: Row) => !SameKey(existing, stored[n]);
        FilterAppend(fixed, rest, differs);
        FixedRowsAreFacts(encrypted, dataPath, stored[n]);
        FilterAll(fixed, differs);
        assert fixed + Without(rest, stored[n]) + [stored[n]] == fixed + (Without(rest, stored[n]) + [stored[n]]);
      }
    }
  }

  lemma FixedRowsAreFacts(encrypted: bool, dataPath: Option<string>, setting: Row)
    requires !IsServedFact(setting)
    ensures forall row :: row in FixedRows(encrypted, dataPath) ==> !SameKey(row, setting)
  {
    forall row: Row | row in FixedRows(encrypted, dataPath)
      ensures !SameKey(row, setting)
    {
      assert IsServedFact(row);
    }
  }

  /** A row a user has set: in a scope, or under none of the four names moraine serves. */
  predicate IsSetting(row: Row) {
    CellAt(row, 2) != Null ||
    (CellAt(row, 0) != Text("version") && CellAt(row, 0) != Text("created_by") &&
     CellAt(row, 0) != Text("encrypted") && CellAt(row, 0) != Text("data_path"))
  }

  /** The last setting of its key, scope and scope id. */
  ghost predicate SetLast(stored: Rows, row: Row) {
    exists k :: 0 <= k < |stored| && stored[k] == row && IsSetting(row) && SetNoMore(stored, row, k)
  }

  ghost predicate SetNoMore(stored: Rows, row: Row, k: int) {
    forall j :: 0 <= k < j < |stored| && IsSetting(stored[j]) ==>
      CellAt(stored[j], 0) != CellAt(row, 0) || CellAt(stored[j], 2) != CellAt(row, 2) || CellAt(stored[j], 3) != CellAt(row, 3)
  }

  predicate IsFact(row: Row, encrypted: bool, dataPath: Option<string>) {
    || row == [Text("version"), Text("1.0"), Null, Null]
    || row == [Text("created_by"), Text("moraine"), Null, Null]
    || row == [Text("encrypted"), Text(if encrypted then "true" else "false"), Null, Null]
    || (dataPath.Some? && row == [Text("data_path"), Text(ServedPath(dataPath.value)), Null, Null])
  }

  /** `ducklake_metadata`, row by row: the store's facts as they are, and each user setting
      as it was set last; nothing else. */
  lemma ListServes(encrypted: bool, dataPath: Option<string>, stored: Rows, row: Row)
    ensures row in Merged(FixedRows(encrypted, dataPath), stored) <==>
            IsFact(row, encrypted, dataPath) || SetLast(stored, row)
  {
    var fixed := FixedRows(encrypted, dataPath);
    FixedRowsSurvive(encrypted, dataPath, stored);
    MergedServes([], stored, row);
    assert row in Merged(fixed, stored) <==> row in fixed || IsLastSetting(stored, row);
    SetLastIs(stored, row);
    assert row in fixed <==> IsFact(row, encrypted, dataPath);
  }

  lemma SetLastIs(stored: Rows, row: Row)
    ensures IsLastSetting(stored, row) <==> SetLast(stored, row)
  {
    assert forall r :: IsServedFact(r) <==> !IsSetting(r);
    if IsLastSetting(stored, row) {
      var k :| LastSetting(stored, k) && stored[k] == row;
      assert SetNoMore(stored, row, k);
    }
    if SetLast(stored, row) {
      var k :| 0 <= k < |stored| && stored[k] == row && IsSetting(row) && SetNoMore(stored, row, k);
      assert LastSetting(stored, k);
    }
  }

  function ServedPathOf(dataPath: Option<string>): Option<string> {
    if dataPath.Some? then Some(ServedPath(dataPath.value)) else None
  }

  /** What a list shows of the stored rows: the user settings, each at its last
      value. */
  function UserSettings(stored: Rows): Rows {
    Merged([], stored)
  }

  lemma SettingsAreNoFacts(stored: Rows)
    ensures forall row :: row in UserSettings(stored) ==> !IsServedFact(row)
  {
    forall row | row in UserSettings(stored)
      ensures !IsServedFact(row)
    {
      MergedServes([], stored, row);
    }
  }

  /** Two materializations are the same list exactly when the facts they were built
      from are served alike and their stored rows hold the same user settings. */
  lemma SameListIff(e1: bool, p1: Option<string>, stored1: Rows, e2: bool, p2: Option<string>, stored2: Rows)
    ensures Merged(FixedRows(e1, p1), stored1) == Merged(FixedRows(e2, p2), stored2) <==>
            e1 == e2 && ServedPathOf(p1) == ServedPathOf(p2) && UserSettings(stored1) == UserSettings(stored2)
  {
    FixedRowsSurvive(e1, p1, stored1);
    FixedRowsSurvive(e2, p2, stored2);
    if Merged(FixedRows(e1, p1), stored1) == Merged(FixedRows(e2, p2), stored2) {
      SettingsAreNoFacts(stored1);
      SettingsAreNoFacts(stored2);
      ListSplits(e1, p1, UserSettings(stored1), e2, p2, UserSettings(stored2));
    }
  }

  /** The facts of a list are its first rows. */
  lemma FactsFirst(encrypted: bool, dataPath: Option<string>, rest: Rows, i: nat)
    requires i < |FixedRows(encrypted, dataPath) + rest| && forall row :: row in rest ==> !IsServedFact(row)
    ensures IsServedFact((FixedRows(encrypted, dataPath) + rest)[i]) <==> i < |FixedRows(encrypted, dataPath)|
  {
    var fixed := FixedRows(encrypted, dataPath);
    if i >= |fixed| {
      assert (fixed + rest)[i] == rest[i - |fixed|] && rest[i - |fixed|] in rest;
    }
  }

  /** A list of facts and settings is told apart into the two. */
  lemma ListSplits(e1: bool, p1: Option<string>, rest1: Rows, e2: bool, p2: Option<string>, rest2: Rows)
    requires forall row :: row in rest1 || row in rest2 ==> !IsServedFact(row)
    requires FixedRows(e1, p1) + rest1 == FixedRows(e2, p2) + rest2
    ensures e1 == e2 && ServedPathOf(p1) == ServedPathOf(p2) && rest1 == rest2
  {
    var f1, f2 := FixedRows(e1, p1), FixedRows(e2, p2);
    var list := f1 + rest1;
    assert list[2] == f1[2] == f2[2];
    assert CellAt(f1[2], VALUE).s == CellAt(f2[2], VALUE).s;
    if |list| > 3 {
      FactsFirst(e1, p1, rest1, 3);
      FactsFirst(e2, p2, rest2, 3);
    }
    assert |f1| == |f2|;
    assert rest1 == list[|f1|..] == rest2;
    if p1.Some? {
      assert list[3] == f1[3] == f2[3];
      assert CellAt(f1[3], VALUE) == CellAt(f2[3], VALUE);
    }
  }

  /** In particular, over the same stored rows only the facts decide. */
  lemma SameListIffSameFacts(e1: bool, p1: Option<string>, e2: bool, p2: Option<string>, stored: Rows)
    ensures Merged(FixedRows(e1, p1), stored) == Merged(FixedRows(e2, p2), stored) <==>
            e1 == e2 && ServedPathOf(p1) == ServedPathOf(p2)
  {
    SameListIff(e1, p1, stored, e2, p2, stored);
  }
}

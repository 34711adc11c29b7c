/** When the rebuild of a column returns. The store lists each column id once, and
    then it always does; the general statement says exactly when, for any rows. */
module ColumnTypeReturns {
  import opened Values
  import opened ColumnTypes

  // ----- A result, once there, stays -----

  predicate Stuck<T>(r: Result<T, BuildError>) {
    r.Err? && r.error == StillBuilding
  }

  lemma {:induction false} DeeperSame(d: nat, d': nat, column: ColumnDesc, index: Index)
    requires d <= d' && !Stuck(Build(d, column, index))
    ensures Build(d', column, index) == Build(d, column, index)
    decreases d, 0
  {
    var ids := ChildIds(index, column.id);
    if !Stuck(BuildFields(d - 1, ids, index)) {
      DeeperFieldsSame(d - 1, d' - 1, ids, index);
    }
  }

  lemma {:induction false} DeeperFieldsSame(d: nat, d': nat, ids: seq<nat>, index: Index)
    requires d <= d' && !Stuck(BuildFields(d, ids, index))
    ensures BuildFields(d', ids, index) == BuildFields(d, ids, index)
    decreases d, |ids| + 1
  {
    if ids != [] && ids[0] in index.byId {
      DeeperSame(d, d', index.byId[ids[0]], index);
      if Build(d, index.byId[ids[0]], index).Ok? {
        DeeperFieldsSame(d, d', ids[1..], index);
      }
    }
  }

  // ----- Links between rows -----

  predicate ArityOk(column: ColumnDesc, index: Index) {
    var n := |ChildIds(index, column.id)|;
    match MarkerOf(column.sqlType)
    case ListMarker => n == 1
    case StructMarker => true
    case MapMarker => n == 2
    case NoMarker => false
  }

  /** A scalar, or a nested type with the children it needs. */
  predicate WellShaped(column: ColumnDesc, index: Index) {
    MarkerOf(column.sqlType).NoMarker? || ArityOk(column, index)
  }

  predicate LinksAt(column: ColumnDesc, k: nat, child: ColumnDesc, index: Index) {
    var ids := ChildIds(index, column.id);
    !MarkerOf(column.sqlType).NoMarker? && k < |ids| && ids[k] in index.byId && child == index.byId[ids[k]]
  }

  /** `child` is listed under `column`, which is of a nested type. */
  ghost predicate Links(column: ColumnDesc, child: ColumnDesc, index: Index) {
    exists k: nat :: LinksAt(column, k, child, index)
  }

  ghost predicate IsPath(path: seq<ColumnDesc>, index: Index) {
    path != [] && forall i :: 0 <= i < |path| - 1 ==> Links(path[i], path[i + 1], index)
  }

  ghost predicate Revisits(path: seq<ColumnDesc>) {
    exists i, j :: 0 <= i < j < |path| && path[i] == path[j]
  }

  /** Everything listed below `column` is well shaped and no path below it comes
      back. */
  ghost predicate Sound(column: ColumnDesc, index: Index) {
    forall path :: IsPath(path, index) && path[0] == column ==> !Revisits(path) && WellShaped(path[|path| - 1], index)
  }

  // ----- What builds is sound -----

  lemma {:induction false} FieldsBuild(d: nat, ids: seq<nat>, k: nat, index: Index)
    requires BuildFields(d, ids, index).Ok? && k < |ids|
    ensures ids[k] in index.byId && Build(d, index.byId[ids[k]], index).Ok?
    decreases k
  {
    if k > 0 {
      FieldsBuild(d, ids[1..], k - 1, index);
    }
  }

  lemma LinkBuilds(d: nat, column: ColumnDesc, child: ColumnDesc, index: Index)
    requires Build(d, column, index).Ok? && Links(column, child, index)
    ensures d > 0 && Build(d - 1, child, index).Ok?
  {
    var k: nat :| LinksAt(column, k, child, index);
    FieldsBuild(d - 1, ChildIds(index, column.id), k, index);
  }

  /** A column on a path that comes back does not build. */
  lemma {:induction false} RoundDoesNotBuild(d: nat, path: seq<ColumnDesc>, i: nat, j: nat, m: nat, index: Index)
    requires IsPath(path, index) && i < j < |path| && path[i] == path[j] && m < j
    ensures !Build(d, path[m], index).Ok?
    decreases d
  {
    if Build(d, path[m], index).Ok? {
      LinkBuilds(d, path[m], path[m + 1], index);
      RoundDoesNotBuild(d - 1, path, i, j, if m + 1 == j then i else m + 1, index);
    }
  }

  lemma {:induction false} PathBuilds(d: nat, path: seq<ColumnDesc>, m: nat, index: Index)
    requires IsPath(path, index) && Build(d, path[0], index).Ok? && m < |path|
    ensures exists d' :: Build(d', path[m], index).Ok?
  {
    if m > 0 {
      PathBuilds(d, path, m - 1, index);
      var d' :| Build(d', path[m - 1], index).Ok?;
      LinkBuilds(d', path[m - 1], path[m], index);
    }
  }

  lemma BuiltIsSound(d: nat, column: ColumnDesc, index: Index)
    requires Build(d, column, index).Ok?
    ensures Sound(column, index)
  {
    forall path | IsPath(path, index) && path[0] == column
      ensures !Revisits(path) && WellShaped(path[|path| - 1], index)
    {
      if i, j :| 0 <= i < j < |path| && path[i] == path[j] {
        RoundDoesNotBuild(d, path, i, j, 0, index);
      }
      PathBuilds(d, path, |path| - 1, index);
    }
  }

  // ----- What is sound builds -----

  lemma {:induction false} DistinctFits(path: seq<ColumnDesc>, all: set<ColumnDesc>)
    requires !Revisits(path) && forall i :: 0 <= i < |path| ==> path[i] in all
    ensures |path| <= |all|
    decreases |path|
  {
    if path != [] {
      var rest := path[1..];
      assert forall i :: 0 <= i < |rest| ==> rest[i] == path[i + 1];
      assert forall i :: 0 < i < |path| ==> path[i] != path[0];
      DistinctFits(rest, all - {path[0]});
    }
  }

  lemma {:induction false} RowsSize(rows: seq<ColumnDesc>)
    ensures |set c | c in rows| <= |rows|
  {
    if rows != [] {
      var n := |rows| - 1;
      RowsSize(rows[..n]);
      assert (set c | c in rows) == (set c | c in rows[..n]) + {rows[n]};
    }
  }

  /** A path through a table's rows that is longer than the table comes back. */
  lemma LongPathRevisits(path: seq<ColumnDesc>, rows: seq<ColumnDesc>, index: Index)
    requires IsPath(path, index) && Indexes(index, rows) && path[0] in rows && |path| > |rows|
    ensures Revisits(path)
  {
    forall i | 0 <= i < |path|
      ensures path[i] in rows
    {
      if i > 0 {
        assert Links(path[i - 1], path[i], index);
        var k: nat :| LinksAt(path[i - 1], k, path[i], index);
        assert FirstWithId(rows, path[i]);
      }
    }
    RowsSize(rows);
    if !Revisits(path) {
      DistinctFits(path, set c | c in rows);
    }
  }

  lemma {:induction false} FieldFails(d: nat, ids: seq<nat>, index: Index) returns (k: nat)
    requires BuildFields(d, ids, index).Err? && forall id :: id in ids ==> id in index.byId
    ensures k < |ids| && ids[k] in index.byId && Build(d, index.byId[ids[k]], index).Err?
  {
    if Build(d, index.byId[ids[0]], index).Err? {
      k := 0;
    } else {
      var rest := FieldFails(d, ids[1..], index);
      k := rest + 1;
    }
  }

  lemma FailingChild(d: nat, column: ColumnDesc, index: Index) returns (child: ColumnDesc)
    requires Complete(index) && Build(d + 1, column, index).Err? && WellShaped(column, index)
    ensures Links(column, child, index) && Build(d, child, index).Err?
  {
    var ids := ChildIds(index, column.id);
    var k := FieldFails(d, ids, index);
    child := index.byId[ids[k]];
    assert LinksAt(column, k, child, index);
  }

  /** A rebuild that fails has a path as long as it went deep, or one to a column that
      is not well shaped. */
  lemma {:induction false} FailurePath(d: nat, column: ColumnDesc, index: Index) returns (path: seq<ColumnDesc>)
    requires Complete(index) && Build(d, column, index).Err?
    ensures IsPath(path, index) && path[0] == column
    ensures |path| == d + 1 || !WellShaped(path[|path| - 1], index)
    decreases d
  {
    if d == 0 || !WellShaped(column, index) {
      path := [column];
    } else {
      var child := FailingChild(d - 1, column, index);
      var rest := FailurePath(d - 1, child, index);
      PathFrom(column, rest, index);
      path := [column] + rest;
    }
  }

  lemma PathFrom(column: ColumnDesc, rest: seq<ColumnDesc>, index: Index)
    requires IsPath(rest, index) && Links(column, rest[0], index)
    ensures IsPath([column] + rest, index)
  {
    var path := [column] + rest;
    forall i | 0 <= i < |path| - 1
      ensures Links(path[i], path[i + 1], index)
    {
      assert i > 0 ==> path[i] == rest[i - 1] && path[i + 1] == rest[i];
    }
  }

  lemma SoundBuilds(rows: seq<ColumnDesc>, column: ColumnDesc, index: Index)
    requires Indexes(index, rows) && column in rows && Sound(column, index)
    ensures Build(|rows|, column, index).Ok?
  {
    if Build(|rows|, column, index).Err? {
      IndexComplete(rows, index);
      var path := FailurePath(|rows|, column, index);
      LongPathRevisits(path, rows, index);
    }
  }

  // ----- Chains of nested calls -----

  /** Rebuilding `column` goes into its `k`-th child: the children are visited at all,
      and everything listed below those before it is sound. */
  ghost predicate Enters(column: ColumnDesc, k: nat, child: ColumnDesc, index: Index) {
    && ArityOk(column, index) && LinksAt(column, k, child, index)
    && forall j :: 0 <= j < k ==> SoundId(ChildIds(index, column.id)[j], index)
  }

  ghost predicate SoundId(id: nat, index: Index) {
    id in index.byId && Sound(index.byId[id], index)
  }

  ghost predicate GoesInto(column: ColumnDesc, child: ColumnDesc, index: Index) {
    exists k: nat :: Enters(column, k, child, index)
  }

  ghost predicate IsChain(path: seq<ColumnDesc>, index: Index) {
    path != [] && forall i :: 0 <= i < |path| - 1 ==> GoesInto(path[i], path[i + 1], index)
  }

  lemma ChainIsPath(path: seq<ColumnDesc>, index: Index)
    requires IsChain(path, index)
    ensures IsPath(path, index)
  {
    forall i | 0 <= i < |path| - 1
      ensures Links(path[i], path[i + 1], index)
    {
      assert GoesInto(path[i], path[i + 1], index);
      var k: nat :| Enters(path[i], k, path[i + 1], index);
    }
  }

  // ----- A chain that comes back never returns -----

  predicate BuildsWithin(d: nat, id: nat, index: Index) {
    id in index.byId && Build(d, index.byId[id], index).Ok?
  }

  /** A child still building, all before it building or built, holds up the rest. */
  lemma {:induction false} HeldUp(n: nat, d: nat, ids: seq<nat>, k: nat, index: Index)
    requires k < |ids| && ids[k] in index.byId && Stuck(Build(d, index.byId[ids[k]], index))
    requires forall j :: 0 <= j < k ==> BuildsWithin(n, ids[j], index)
    ensures Stuck(BuildFields(d, ids, index))
    decreases k
  {
    if k > 0 {
      assert BuildsWithin(n, ids[0], index);
      var column := index.byId[ids[0]];
      if !Stuck(Build(d, column, index)) {
        if d <= n {
          DeeperSame(d, n, column, index);
        } else {
          DeeperSame(n, d, column, index);
        }
        forall j | 0 <= j < k - 1
          ensures BuildsWithin(n, ids[1..][j], index)
        {
          assert ids[1..][j] == ids[j + 1];
        }
        HeldUp(n, d, ids[1..], k - 1, index);
      }
    }
  }

  lemma SoundIdBuilds(rows: seq<ColumnDesc>, id: nat, index: Index)
    requires Indexes(index, rows) && SoundId(id, index)
    ensures BuildsWithin(|rows|, id, index)
  {
    assert FirstWithId(rows, index.byId[id]);
    SoundBuilds(rows, index.byId[id], index);
  }

  /** A child that is gone into and does not return holds up its parent. */
  lemma HoldsUp(rows: seq<ColumnDesc>, d: nat, column: ColumnDesc, child: ColumnDesc, index: Index)
    requires Indexes(index, rows) && GoesInto(column, child, index) && Stuck(Build(d, child, index))
    ensures Stuck(Build(d + 1, column, index))
  {
    var k: nat :| Enters(column, k, child, index);
    var ids := ChildIds(index, column.id);
    forall j | 0 <= j < k
      ensures BuildsWithin(|rows|, ids[j], index)
    {
      SoundIdBuilds(rows, ids[j], index);
    }
    HeldUp(|rows|, d, ids, k, index);
  }

  /** Whenever the child has not returned, one call more has not brought its parent
      back. */
  ghost predicate Holding(column: ColumnDesc, child: ColumnDesc, index: Index) {
    forall d: nat :: Stuck(Build(d, child, index)) ==> Stuck(Build(d + 1, column, index))
  }

  lemma EntersHolds(rows: seq<ColumnDesc>, column: ColumnDesc, child: ColumnDesc, index: Index)
    requires Indexes(index, rows) && GoesInto(column, child, index)
    ensures Holding(column, child, index)
  {
    forall d: nat | Stuck(Build(d, child, index))
      ensures Stuck(Build(d + 1, column, index))
    {
      HoldsUp(rows, d, column, child, index);
    }
  }

  lemma {:induction false} HeldRound(d: nat, path: seq<ColumnDesc>, i: nat, j: nat, m: nat, index: Index)
    requires forall e :: 0 <= e < |path| - 1 ==> Holding(path[e], path[e + 1], index)
    requires i < j < |path| && path[i] == path[j] && m < j
    ensures Stuck(Build(d, path[m], index))
    decreases d
  {
    if d > 0 {
      HeldRound(d - 1, path, i, j, if m + 1 == j then i else m + 1, index);
      assert Holding(path[m], path[m + 1], index);
    }
  }

  lemma GoesRound(rows: seq<ColumnDesc>, d: nat, path: seq<ColumnDesc>, i: nat, j: nat, index: Index)
    requires Indexes(index, rows) && IsChain(path, index) && i < j < |path| && path[i] == path[j]
    ensures Stuck(Build(d, path[0], index))
  {
    forall e | 0 <= e < |path| - 1
      ensures Holding(path[e], path[e + 1], index)
    {
      assert GoesInto(path[e], path[e + 1], index);
      EntersHolds(rows, path[e], path[e + 1], index);
    }
    HeldRound(d, path, i, j, 0, index);
  }

  // ----- A rebuild that never returns goes round -----

  /** The child whose turn does not end. */
  lemma {:induction false} StuckChild(d: nat, ids: seq<nat>, index: Index) returns (k: nat)
    requires Stuck(BuildFields(d, ids, index))
    ensures k < |ids| && ids[k] in index.byId && Stuck(Build(d, index.byId[ids[k]], index))
    ensures forall j :: 0 <= j < k ==> BuildsWithin(d, ids[j], index)
    decreases |ids|
  {
    if Stuck(Build(d, index.byId[ids[0]], index)) {
      k := 0;
    } else {
      var rest := StuckChild(d, ids[1..], index);
      k := rest + 1;
      forall j | 0 <= j < k
        ensures BuildsWithin(d, ids[j], index)
      {
        assert j > 0 ==> ids[j] == ids[1..][j - 1];
      }
    }
  }

  lemma StuckGoesInto(d: nat, column: ColumnDesc, index: Index) returns (child: ColumnDesc)
    requires Stuck(Build(d + 1, column, index))
    ensures GoesInto(column, child, index) && Stuck(Build(d, child, index))
  {
    var ids := ChildIds(index, column.id);
    var k := StuckChild(d, ids, index);
    child := index.byId[ids[k]];
    forall j | 0 <= j < k
      ensures SoundId(ids[j], index)
    {
      assert BuildsWithin(d, ids[j], index);
      BuiltIsSound(d, index.byId[ids[j]], index);
    }
    assert Enters(column, k, child, index);
  }

  lemma {:induction false} LongChain(d: nat, column: ColumnDesc, index: Index) returns (path: seq<ColumnDesc>)
    requires Stuck(Build(d, column, index))
    ensures IsChain(path, index) && path[0] == column && |path| == d + 1
    decreases d
  {
    if d == 0 {
      path := [column];
    } else {
      var child := StuckGoesInto(d - 1, column, index);
      var rest := LongChain(d - 1, child, index);
      path := [column] + rest;
      forall i | 0 <= i < |path| - 1
        ensures GoesInto(path[i], path[i + 1], index)
      {
        assert i > 0 ==> path[i] == rest[i - 1] && path[i + 1] == rest[i];
      }
    }
  }

  // ----- When a rebuild returns -----

  ghost predicate Returns(column: ColumnDesc, index: Index) {
    exists d :: !Stuck(Build(d, column, index))
  }

  /** For any rows, repeated ids and all: the rebuild of a row returns if and only if
      no chain of the columns it goes into comes back to one, where it goes into a
      child if the arity is right and all that is listed below the children before
      it is sound; and if it returns at all, it does within as many nested calls as
      there are rows. */
  lemma ReturnsIff(rows: seq<ColumnDesc>, index: Index, column: ColumnDesc)
    requires Indexes(index, rows) && column in rows
    ensures Returns(column, index) <==>
            !exists path :: IsChain(path, index) && path[0] == column && Revisits(path)
    ensures Returns(column, index) <==> !Stuck(Build(|rows|, column, index))
  {
    if path :| IsChain(path, index) && path[0] == column && Revisits(path) {
      var i, j :| 0 <= i < j < |path| && path[i] == path[j];
      forall d: nat
        ensures Stuck(Build(d, column, index))
      {
        GoesRound(rows, d, path, i, j, index);
      }
    }
    if Stuck(Build(|rows|, column, index)) {
      var path := LongChain(|rows|, column, index);
      ChainIsPath(path, index);
      LongPathRevisits(path, rows, index);
    }
  }

  /** So what a table loads to within as many nested calls as it has rows is what it
      loads to within any more. */
  lemma {:induction false} LoadSettles(rows: seq<ColumnDesc>, index: Index, top: seq<ColumnDesc>, depth: nat)
    requires Indexes(index, rows) && depth >= |rows| && forall c :: c in top ==> c in rows
    ensures BuildAll(depth, top, index) == BuildAll(|rows|, top, index)
  {
    if top != [] {
      var n := |top| - 1;
      LoadSettles(rows, index, top[..n], depth);
      assert top[n] in top;
      ReturnsIff(rows, index, top[n]);
      if !Stuck(Build(|rows|, top[n], index)) {
        DeeperSame(|rows|, depth, top[n], index);
      }
    }
  }

  // ----- With distinct ids -----

  lemma ChildHasParent(rows: seq<ColumnDesc>, index: Index, column: ColumnDesc, child: ColumnDesc)
    requires DistinctIds(rows) && Indexes(index, rows) && GoesInto(column, child, index)
    ensures child in rows && child.parent == Some(column.id)
  {
    var k: nat :| Enters(column, k, child, index);
    var siblings := ByParent(rows, Some(column.id));
    assert Ids(siblings)[k] == siblings[k].id;
    FilterMembers(rows, (c: ColumnDesc) => c.parent == Some(column.id));
    assert siblings[k] in siblings;
    RowFound(index, rows, siblings[k]);
  }

  /** Two equal columns on a chain have equal parents before them, back to the
      top-level column, which has none. */
  lemma {:induction false} NoWayBack(rows: seq<ColumnDesc>, index: Index, path: seq<ColumnDesc>, i: nat, j: nat)
    requires DistinctIds(rows) && Indexes(index, rows) && IsChain(path, index)
    requires path[0] in rows && path[0].parent.None? && i < j < |path|
    ensures path[i] != path[j]
    decreases i
  {
    assert GoesInto(path[j - 1], path[j], index);
    ChildHasParent(rows, index, path[j - 1], path[j]);
    if i > 0 {
      assert GoesInto(path[i - 1], path[i], index);
      ChildHasParent(rows, index, path[i - 1], path[i]);
      NoWayBack(rows, index, path, i - 1, j - 1);
      OnChainInRows(rows, index, path, i - 1);
      OnChainInRows(rows, index, path, j - 1);
      RowFound(index, rows, path[i - 1]);
      RowFound(index, rows, path[j - 1]);
    }
  }

  lemma OnChainInRows(rows: seq<ColumnDesc>, index: Index, path: seq<ColumnDesc>, i: nat)
    requires DistinctIds(rows) && Indexes(index, rows) && IsChain(path, index) && path[0] in rows && i < |path|
    ensures path[i] in rows
  {
    if i > 0 {
      assert GoesInto(path[i - 1], path[i], index);
      ChildHasParent(rows, index, path[i - 1], path[i]);
    }
  }

  /** With distinct ids, whatever the rows say, every top-level column rebuilds
      within as many nested calls as there are rows. */
  lemma TopLevelReturns(rows: seq<ColumnDesc>, index: Index, column: ColumnDesc)
    requires DistinctIds(rows) && Indexes(index, rows) && column in rows && column.parent.None?
    ensures !Stuck(Build(|rows|, column, index))
  {
    if path :| IsChain(path, index) && path[0] == column && Revisits(path) {
      var i, j :| 0 <= i < j < |path| && path[i] == path[j];
      NoWayBack(rows, index, path, i, j);
    }
    ReturnsIff(rows, index, column);
  }

  // ----- No lookup misses -----

  /** Every child id is found. */
  ghost predicate Complete(index: Index) {
    forall p: nat, id: nat :: id in ChildIds(index, p) ==> id in index.byId
  }

  lemma IndexComplete(rows: seq<ColumnDesc>, index: Index)
    requires Indexes(index, rows)
    ensures Complete(index)
  {
    forall p: nat, id: nat | id in ChildIds(index, p)
      ensures id in index.byId
    {
      var siblings := ByParent(rows, Some(p));
      var k :| 0 <= k < |Ids(siblings)| && Ids(siblings)[k] == id;
      FilterMembers(rows, (c: ColumnDesc) => c.parent == Some(p));
      assert siblings[k] in siblings;
      var i :| 0 <= i < |rows| && rows[i] == siblings[k];
      assert Ids(rows)[i] == id;
    }
  }

  lemma NeverMissing(rows: seq<ColumnDesc>, index: Index, column: ColumnDesc, depth: nat)
    requires Indexes(index, rows)
    ensures Build(depth, column, index) != Err(MissingColumn)
  {
    IndexComplete(rows, index);
    NoneMissing(index, column, depth);
  }

  lemma {:induction false} NoneMissing(index: Index, column: ColumnDesc, depth: nat)
    requires Complete(index)
    ensures Build(depth, column, index) != Err(MissingColumn)
    decreases depth, 0
  {
    if depth > 0 {
      FieldsNoneMissing(index, ChildIds(index, column.id), depth - 1);
    }
  }

  lemma {:induction false} FieldsNoneMissing(index: Index, ids: seq<nat>, depth: nat)
    requires Complete(index) && forall id :: id in ids ==> id in index.byId
    ensures BuildFields(depth, ids, index) != Err(MissingColumn)
    decreases depth, |ids| + 1
  {
    if ids != [] {
      NoneMissing(index, index.byId[ids[0]], depth);
      FieldsNoneMissing(index, ids[1..], depth);
    }
  }
}

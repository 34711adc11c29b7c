/** A table's column types, rebuilt from flat rows linked by `parent_column`: the
    indexing loop, the recursive rebuild, and the loop over top-level columns. */
module ColumnTypes {
  import opened Values

  datatype ColumnDesc = ColumnDesc(id: nat, name: string, sqlType: string, parent: Option<nat>, nullsAllowed: bool)

  datatype Field = Field(name: string, fieldType: Type)

  datatype Type = Scalar(sqlType: string) | ListOf(element: Type) | StructOf(fields: seq<Field>) | MapOf(key: Type, value: Type)

  /** `StillBuilding` is no error of the code: it stands for a rebuild that has
      not returned within the given number of nested calls. */
  datatype BuildError = StillBuilding | ListArity | MapArity | MissingColumn

  datatype Marker = ListMarker | StructMarker | MapMarker | NoMarker

  /** The type names compared without case. */
  function MarkerOf(sqlType: string): Marker {
    if Lower(sqlType) == "list" then ListMarker
    else if Lower(sqlType) == "struct" then StructMarker
    else if Lower(sqlType) == "map" then MapMarker
    else NoMarker
  }

  datatype Index = Index(byId: map<nat, ColumnDesc>, childrenOf: map<nat, seq<nat>>)

  function ChildIds(index: Index, id: nat): seq<nat> {
    if id in index.childrenOf then index.childrenOf[id] else []
  }

  // ----- The rebuild -----

  /** `BuildColumnType`, within `depth` nested calls. */
  function Build(depth: nat, column: ColumnDesc, index: Index): Result<Type, BuildError>
    decreases depth, 0
  {
    var children := ChildIds(index, column.id);
    if depth == 0 then Err(StillBuilding)
    else
      match MarkerOf(column.sqlType)
      case ListMarker =>
        if |children| != 1 then Err(ListArity)
        else
          var fields := BuildFields(depth - 1, children, index);
          if fields.Err? then Err(fields.error) else Ok(ListOf(fields.value[0].fieldType))
      case StructMarker =>
        var fields := BuildFields(depth - 1, children, index);
        if fields.Err? then Err(fields.error) else Ok(StructOf(fields.value))
      case MapMarker =>
        if |children| != 2 then Err(MapArity)
        else
          var fields := BuildFields(depth - 1, children, index);
          if fields.Err? then Err(fields.error)
          else Ok(MapOf(fields.value[0].fieldType, fields.value[1].fieldType))
      case NoMarker => Ok(Scalar(column.sqlType))
  }

  /** The children's types, in order, or the first failure. */
  function BuildFields(depth: nat, ids: seq<nat>, index: Index): (r: Result<seq<Field>, BuildError>)
    ensures r.Ok? ==> |r.value| == |ids|
    decreases depth, |ids| + 1
  {
    if ids == [] then Ok([])
    else if ids[0] !in index.byId then Err(MissingColumn)
    else
      var column := index.byId[ids[0]];
      var first := Build(depth, column, index);
      if first.Err? then Err(first.error)
      else
        var rest := BuildFields(depth, ids[1..], index);
        if rest.Err? then rest else Ok([Field(column.name, first.value)] + rest.value)
  }

  // ----- The index -----

  function ByParent(rows: seq<ColumnDesc>, parent: Option<nat>): seq<ColumnDesc> {
    Filter(rows, (c: ColumnDesc) => c.parent == parent)
  }

  lemma ByParentSnoc(rows: seq<ColumnDesc>, i: nat, parent: Option<nat>)
    requires i < |rows|
    ensures ByParent(rows[..i + 1], parent) ==
            if rows[i].parent == parent then ByParent(rows[..i], parent) + [rows[i]] else ByParent(rows[..i], parent)
  {
    FilterSnoc(rows, i, (c: ColumnDesc) => c.parent == parent);
  }

  lemma ByParentPrefix(rows: seq<ColumnDesc>, i: nat, parent: Option<nat>)
    requires i <= |rows|
    ensures ByParent(rows[..i], parent) <= ByParent(rows, parent)
  {
    assert rows == rows[..i] + rows[i..];
    FilterAppend(rows[..i], rows[i..], (c: ColumnDesc) => c.parent == parent);
  }

  function Ids(rows: seq<ColumnDesc>): seq<nat> {
    seq(|rows|, i requires 0 <= i < |rows| => rows[i].id)
  }

  /** `c` is the first row with its id. */
  ghost predicate FirstWithId(rows: seq<ColumnDesc>, c: ColumnDesc) {
    exists i :: 0 <= i < |rows| && rows[i] == c && forall j :: 0 <= j < i ==> rows[j].id != c.id
  }

  ghost predicate Indexes(index: Index, rows: seq<ColumnDesc>) {
    && (forall id :: id in index.byId <==> id in Ids(rows))
    && (forall id :: id in index.byId ==> index.byId[id].id == id && FirstWithId(rows, index.byId[id]))
    && (forall p: nat :: ChildIds(index, p) == Ids(ByParent(rows, Some(p))))
  }

  method IndexColumns(rows: seq<ColumnDesc>) returns (index: Index)
    ensures Indexes(index, rows)
  {
    index := Index(map[], map[]);
    for i := 0 to |rows|
      invariant Indexes(index, rows[..i])
    {
      var c := rows[i];
      var byId := if c.id in index.byId then index.byId else index.byId[c.id := c];
      var childrenOf := if c.parent.None? then index.childrenOf
                        else index.childrenOf[c.parent.value := ChildIds(index, c.parent.value) + [c.id]];
      IndexOneMore(index, rows, i, Index(byId, childrenOf));
      index := Index(byId, childrenOf);
    }
    assert rows[..|rows|] == rows;
  }

  lemma IndexOneMore(index: Index, rows: seq<ColumnDesc>, i: nat, index': Index)
    requires i < |rows| && Indexes(index, rows[..i])
    requires index'.byId == if rows[i].id in index.byId then index.byId else index.byId[rows[i].id := rows[i]]
    requires index'.childrenOf ==
             if rows[i].parent.None? then index.childrenOf
             else index.childrenOf[rows[i].parent.value := ChildIds(index, rows[i].parent.value) + [rows[i].id]]
    ensures Indexes(index', rows[..i + 1])
  {
    var c, before, after := rows[i], rows[..i], rows[..i + 1];
    assert after == before + [c];
    assert Ids(after) == Ids(before) + [c.id];
    forall id | id in index'.byId
      ensures index'.byId[id].id == id && FirstWithId(after, index'.byId[id])
    {
      if id in index.byId {
        FirstStays(before, c, index.byId[id]);
      } else {
        assert forall j :: 0 <= j < i ==> after[j].id == Ids(before)[j];
        assert after[i] == c;
      }
    }
    forall p: nat
      ensures ChildIds(index', p) == Ids(ByParent(after, Some(p)))
    {
      ByParentSnoc(rows, i, Some(p));
      assert Ids(ByParent(before, Some(p)) + [c]) == Ids(ByParent(before, Some(p))) + [c.id];
    }
  }

  lemma FirstStays(rows: seq<ColumnDesc>, c: ColumnDesc, d: ColumnDesc)
    requires FirstWithId(rows, d)
    ensures FirstWithId(rows + [c], d)
  {
    var i :| 0 <= i < |rows| && rows[i] == d && forall j :: 0 <= j < i ==> rows[j].id != d.id;
    assert (rows + [c])[i] == d;
  }

  ghost predicate DistinctIds(rows: seq<ColumnDesc>) {
    forall i, j :: 0 <= i < j < |rows| ==> rows[i].id != rows[j].id
  }

  /** With distinct ids the index finds every row by its id. */
  lemma RowFound(index: Index, rows: seq<ColumnDesc>, c: ColumnDesc)
    requires Indexes(index, rows) && DistinctIds(rows) && c in rows
    ensures c.id in index.byId && index.byId[c.id] == c
  {
    var i :| 0 <= i < |rows| && rows[i] == c;
    assert Ids(rows)[i] == c.id;
    var d := index.byId[c.id];
    var j :| 0 <= j < |rows| && rows[j] == d;
  }

  // ----- Loading a table -----

  function NotNullIndexes(top: seq<ColumnDesc>): seq<nat> {
    if top == [] then []
    else
      var n := |top| - 1;
      NotNullIndexes(top[..n]) + if top[n].nullsAllowed then [] else [n]
  }

  /** A NOT NULL index is a position among the top-level columns. */
  lemma {:induction false} NotNullMembers(top: seq<ColumnDesc>)
    ensures forall k :: k in NotNullIndexes(top) <==> 0 <= k < |top| && !top[k].nullsAllowed
  {
    if top != [] {
      NotNullMembers(top[..|top| - 1]);
    }
  }

  /** The columns `top` rebuild to, or the first failure. */
  function BuildAll(depth: nat, top: seq<ColumnDesc>, index: Index): Result<seq<Field>, BuildError> {
    if top == [] then Ok([])
    else
      var n := |top| - 1;
      var rest := BuildAll(depth, top[..n], index);
      var last := Build(depth, top[n], index);
      if rest.Err? then rest
      else if last.Err? then Err(last.error)
      else Ok(rest.value + [Field(top[n].name, last.value)])
  }

  lemma {:induction false} FailureStands(depth: nat, top: seq<ColumnDesc>, k: nat, index: Index)
    requires k <= |top| && BuildAll(depth, top[..k], index).Err?
    ensures BuildAll(depth, top, index) == BuildAll(depth, top[..k], index)
    decreases |top|
  {
    if k == |top| {
      assert top[..k] == top;
    } else {
      var n := |top| - 1;
      assert top[..n][..k] == top[..k];
      FailureStands(depth, top[..n], k, index);
    }
  }

  /** The column part of `EnsureTablesLoaded`: only top-level rows become columns
      and only they advance the constraint index. As many nested calls as there are
      rows decide whether the code returns at all, and with what. */
  method LoadColumns(rows: seq<ColumnDesc>) returns (columns: Result<seq<Field>, BuildError>, notNull: seq<nat>)
    ensures exists index :: Indexes(index, rows) && columns == BuildAll(|rows|, ByParent(rows, None), index)
    ensures columns.Ok? ==> notNull == NotNullIndexes(ByParent(rows, None))
  {
    var index := IndexColumns(rows);
    var depth := |rows|;
    ghost var top := ByParent(rows, None);
    var fields: seq<Field>, columnIndex := [], 0;
    notNull := [];
    for i := 0 to |rows|
      invariant columnIndex == |ByParent(rows[..i], None)|
      invariant BuildAll(depth, ByParent(rows[..i], None), index) == Ok(fields)
      invariant notNull == NotNullIndexes(ByParent(rows[..i], None))
    {
      ByParentSnoc(rows, i, None);
      var c := rows[i];
      if c.parent.None? {
        ghost var before := ByParent(rows[..i], None);
        assert (before + [c])[..|before|] == before;
        var built := Build(depth, c, index);
        if built.Err? {
          ByParentPrefix(rows, i + 1, None);
          assert top[..|before| + 1] == before + [c];
          FailureStands(depth, top, |before| + 1, index);
          return Err(built.error), notNull;
        }
        fields := fields + [Field(c.name, built.value)];
        if !c.nullsAllowed {
          notNull := notNull + [columnIndex];
        }
        columnIndex := columnIndex + 1;
      }
    }
    assert rows[..|rows|] == rows;
    columns := Ok(fields);
  }
}

/** Types as trees, written as flat column rows and loaded again. */
module ColumnTypeTrees {
  import opened Values
  import opened ColumnTypes
  import opened ColumnTypeTheorems

  /** What every column row carries besides its type. */
  datatype Head = Head(id: nat, name: string, nullsAllowed: bool)

  /** A column by the kind of its type; `written` is the type name its row carries. */
  datatype Column =
    | ScalarColumn(head: Head, written: string)
    | ListColumn(head: Head, written: string, element: Column)
    | StructColumn(head: Head, written: string, fields: seq<Column>)
    | MapColumn(head: Head, written: string, key: Column, value: Column)

  /** Nested types are written "list", "struct" and "map", in any letter case, and
      scalars as anything else. */
  ghost predicate Written(c: Column) {
    match c
    case ScalarColumn(_, written) => !Spells(written, "list") && !Spells(written, "struct") && !Spells(written, "map")
    case ListColumn(_, written, element) => Spells(written, "list") && Written(element)
    case StructColumn(_, written, fields) => Spells(written, "struct") && forall i :: 0 <= i < |fields| ==> Written(fields[i])
    case MapColumn(_, written, key, value) => Spells(written, "map") && Written(key) && Written(value)
  }

  /** The type a column means. */
  function Meant(c: Column): Type
    decreases c, 0
  {
    match c
    case ScalarColumn(_, written) => Scalar(written)
    case ListColumn(_, _, element) => ListOf(Meant(element))
    case StructColumn(_, _, fields) => StructOf(AllMeant(fields))
    case MapColumn(_, _, key, value) => MapOf(Meant(key), Meant(value))
  }

  function AllMeant(columns: seq<Column>): (r: seq<Field>)
    ensures |r| == |columns|
    decreases columns, 0
  {
    seq(|columns|, i requires 0 <= i < |columns| => Field(columns[i].head.name, Meant(columns[i])))
  }

  // ----- As the tree the rows are flattened from -----

  function NodeOf(c: Column): Node
    decreases c, 1
  {
    var nodes := match c
      case ScalarColumn(_, _) => []
      case ListColumn(_, _, element) => [NodeOf(element)]
      case StructColumn(_, _, fields) => NodesOf(fields)
      case MapColumn(_, _, key, value) => [NodeOf(key), NodeOf(value)];
    Node(c.head.id, c.head.name, c.written, c.head.nullsAllowed, nodes)
  }

  function NodesOf(columns: seq<Column>): (r: seq<Node>)
    ensures |r| == |columns|
    decreases columns, 0
  {
    seq(|columns|, i requires 0 <= i < |columns| => NodeOf(columns[i]))
  }

  lemma {:induction false} NodeMeans(c: Column)
    requires Written(c)
    ensures TypeOf(NodeOf(c)) == Ok(Meant(c))
    decreases c, 1
  {
    MarkerSpells(c.written);
    match c
    case ScalarColumn(_, _) =>
    case ListColumn(_, _, element) =>
      NodeMeans(element);
      TypesSnoc([], NodeOf(element));
      assert [] + [NodeOf(element)] == [NodeOf(element)];
    case StructColumn(_, _, fields) =>
      NodesMean(fields);
    case MapColumn(_, _, key, value) =>
      NodeMeans(key);
      NodeMeans(value);
      TypesSnoc([], NodeOf(key));
      TypesSnoc([NodeOf(key)], NodeOf(value));
      assert [] + [NodeOf(key)] == [NodeOf(key)] && [NodeOf(key)] + [NodeOf(value)] == [NodeOf(key), NodeOf(value)];
  }

  lemma {:induction false} NodesMean(columns: seq<Column>)
    requires forall i :: 0 <= i < |columns| ==> Written(columns[i])
    ensures TypesOf(NodesOf(columns)) == Ok(AllMeant(columns))
    decreases columns, 0
  {
    if columns != [] {
      NodeMeans(columns[0]);
      NodesMean(columns[1..]);
      assert NodesOf(columns)[1..] == NodesOf(columns[1..]);
      assert AllMeant(columns) == [Field(columns[0].head.name, Meant(columns[0]))] + AllMeant(columns[1..]);
    }
  }

  // ----- Loading -----

  /** Every table of well-written columns with distinct ids, its rows listed in any
      order that keeps siblings in order, loads as the columns it was flattened from:
      each under its name, a LIST as a list of its element's type, a STRUCT as its
      named fields in order, a MAP as its key's and value's types, a scalar as it is
      written. */
  lemma LoadRestoresColumns(columns: seq<Column>, rows: seq<ColumnDesc>, index: Index)
    requires forall i :: 0 <= i < |columns| ==> Written(columns[i])
    requires DistinctIds(Flatten(NodesOf(columns), None)) && Lists(rows, NodesOf(columns)) && Indexes(index, rows)
    ensures BuildAll(|rows|, ByParent(rows, None), index) == Ok(AllMeant(columns))
    ensures forall k :: k in NotNullIndexes(ByParent(rows, None)) <==> 0 <= k < |columns| && !columns[k].head.nullsAllowed
  {
    NodesMean(columns);
    LoadInvertsFlatten(NodesOf(columns), rows, index);
  }
}

/** Rebuilding types inverts flattening them. */
module ColumnTypeTheorems {
  import opened Values
  import opened ColumnTypes
  import opened ColumnTypeReturns

  /** A column with its nested columns. */
  datatype Node = Node(id: nat, name: string, sqlType: string, nullsAllowed: bool, children: seq<Node>)

  function Desc(n: Node, parent: Option<nat>): ColumnDesc {
    ColumnDesc(n.id, n.name, n.sqlType, parent, n.nullsAllowed)
  }

  function Descs(ns: seq<Node>, parent: Option<nat>): seq<ColumnDesc> {
    seq(|ns|, i requires 0 <= i < |ns| => Desc(ns[i], parent))
  }

  /** The columns as flat rows, each before its children. */
  function Flatten(ns: seq<Node>, parent: Option<nat>): seq<ColumnDesc> {
    if ns == [] then []
    else [Desc(ns[0], parent)] + Flatten(ns[0].children, Some(ns[0].id)) + Flatten(ns[1..], parent)
  }

  /** The type a column tree denotes, ids forgotten; `Err` when a LIST or MAP has
      the wrong number of children. */
  function TypeOf(n: Node): Result<Type, BuildError>
    decreases n, 0
  {
    var fields := TypesOf(n.children);
    if !IsNested(n.sqlType) then Ok(Scalar(n.sqlType))
    else if Spells(n.sqlType, "list") && |n.children| != 1 then Err(ListArity)
    else if Spells(n.sqlType, "map") && |n.children| != 2 then Err(MapArity)
    else if fields.Err? then Err(fields.error)
    else if Spells(n.sqlType, "list") then Ok(ListOf(fields.value[0].fieldType))
    else if Spells(n.sqlType, "map") then Ok(MapOf(fields.value[0].fieldType, fields.value[1].fieldType))
    else Ok(StructOf(fields.value))
  }

  predicate IsNested(sqlType: string) {
    Spells(sqlType, "list") || Spells(sqlType, "struct") || Spells(sqlType, "map")
  }

  /** The three names are read in any letter case, and no text is two of them. */
  lemma MarkerSpells(sqlType: string)
    ensures MarkerOf(sqlType).ListMarker? <==> Spells(sqlType, "list")
    ensures MarkerOf(sqlType).StructMarker? <==> Spells(sqlType, "struct")
    ensures MarkerOf(sqlType).MapMarker? <==> Spells(sqlType, "map")
    ensures !(Spells(sqlType, "list") && Spells(sqlType, "struct"))
    ensures !(Spells(sqlType, "list") && Spells(sqlType, "map"))
    ensures !(Spells(sqlType, "struct") && Spells(sqlType, "map"))
  {
    LowerSpells(sqlType, "list");
    LowerSpells(sqlType, "struct");
    LowerSpells(sqlType, "map");
  }

  function TypesOf(ns: seq<Node>): (r: Result<seq<Field>, BuildError>)
    ensures r.Ok? ==> |r.value| == |ns|
    decreases ns, 1
  {
    if ns == [] then Ok([])
    else
      var first := TypeOf(ns[0]);
      if first.Err? then Err(first.error)
      else
        var rest := TypesOf(ns[1..]);
        if rest.Err? then rest else Ok([Field(ns[0].name, first.value)] + rest.value)
  }

  /** Every LIST has one child and every MAP two, as far down as types are nested. */
  ghost predicate WellFormed(n: Node)
    decreases n, 0
  {
    && (Spells(n.sqlType, "list") ==> |n.children| == 1)
    && (Spells(n.sqlType, "map") ==> |n.children| == 2)
    && (IsNested(n.sqlType) ==> AllWellFormed(n.children))
  }

  ghost predicate AllWellFormed(ns: seq<Node>)
    decreases ns, 1
  {
    forall i :: 0 <= i < |ns| ==> WellFormed(ns[i])
  }

  lemma {:induction false} TypeIffWellFormed(n: Node)
    ensures TypeOf(n).Ok? <==> WellFormed(n)
    decreases n, 0
  {
    TypesIffWellFormed(n.children);
  }

  lemma {:induction false} TypesIffWellFormed(ns: seq<Node>)
    ensures TypesOf(ns).Ok? <==> AllWellFormed(ns)
    decreases ns, 1
  {
    if ns != [] {
      TypeIffWellFormed(ns[0]);
      TypesIffWellFormed(ns[1..]);
      assert forall i :: 0 <= i < |ns| ==> i == 0 || ns[i] == ns[1..][i - 1];
      assert AllWellFormed(ns) <==> WellFormed(ns[0]) && AllWellFormed(ns[1..]) by {
        if AllWellFormed(ns) {
          assert forall i :: 0 <= i < |ns[1..]| ==> ns[1..][i] == ns[i + 1];
        }
      }
    }
  }

  function HeightAll(ns: seq<Node>): nat {
    if ns == [] then 0
    else
      var here, rest := 1 + HeightAll(ns[0].children), HeightAll(ns[1..]);
      if here > rest then here else rest
  }

  // ----- Listings -----

  /** `rows` lists the columns in any order that keeps siblings in order. */
  ghost predicate Lists(rows: seq<ColumnDesc>, forest: seq<Node>) {
    forall p: Option<nat> :: ByParent(rows, p) == ByParent(Flatten(forest, None), p)
  }

  lemma {:induction false} FilterKeepsDistinct(rows: seq<ColumnDesc>, p: ColumnDesc -> bool)
    requires DistinctIds(rows)
    ensures DistinctIds(Filter(rows, p))
  {
    if rows != [] {
      FilterKeepsDistinct(rows[1..], p);
      FilterMembers(rows[1..], p);
      forall c | c in Filter(rows[1..], p)
        ensures c.id != rows[0].id
      {
        assert c in rows[1..];
      }
    }
  }

  /** Two rows a filter keeps are both in its result, in order. */
  lemma {:induction false} FilterPair(rows: seq<ColumnDesc>, p: ColumnDesc -> bool, i: nat, j: nat)
    requires i < j < |rows| && p(rows[i]) && p(rows[j])
    ensures exists a, b :: 0 <= a < b < |Filter(rows, p)| && Filter(rows, p)[a] == rows[i] && Filter(rows, p)[b] == rows[j]
  {
    var kept := Filter(rows, p);
    if i == 0 {
      FilterMembers(rows[1..], p);
      assert rows[j] == rows[1..][j - 1];
      assert rows[j] in Filter(rows[1..], p);
      var b :| 0 <= b < |Filter(rows[1..], p)| && Filter(rows[1..], p)[b] == rows[j];
      assert kept[0] == rows[0] && kept[b + 1] == rows[j];
    } else {
      FilterPair(rows[1..], p, i - 1, j - 1);
      var a, b :| 0 <= a < b < |Filter(rows[1..], p)| && Filter(rows[1..], p)[a] == rows[i] && Filter(rows[1..], p)[b] == rows[j];
      var shift := if p(rows[0]) then 1 else 0;
      assert kept[a + shift] == rows[i] && kept[b + shift] == rows[j];
    }
  }

  lemma {:induction false} ListsDistinct(rows: seq<ColumnDesc>, forest: seq<Node>)
    requires Lists(rows, forest) && DistinctIds(Flatten(forest, None))
    ensures DistinctIds(rows)
  {
    var flat := Flatten(forest, None);
    forall i, j | 0 <= i < j < |rows|
      ensures rows[i].id != rows[j].id
    {
      var p := rows[i].parent;
      if rows[j].parent == p {
        var isChild := (c: ColumnDesc) => c.parent == p;
        FilterPair(rows, isChild, i, j);
        assert ByParent(rows, p) == ByParent(flat, p);
        FilterKeepsDistinct(flat, isChild);
      } else {
        ListedRow(rows, forest, rows[i]);
        ListedRow(rows, forest, rows[j]);
      }
    }
  }

  lemma {:induction false} ListedRow(rows: seq<ColumnDesc>, forest: seq<Node>, c: ColumnDesc)
    requires Lists(rows, forest)
    ensures c in rows <==> c in Flatten(forest, None)
  {
    var isSibling := (d: ColumnDesc) => d.parent == c.parent;
    FilterMembers(rows, isSibling);
    FilterMembers(Flatten(forest, None), isSibling);
    assert ByParent(rows, c.parent) == ByParent(Flatten(forest, None), c.parent);
  }

  // ----- What the flat rows say of each node -----

  /** `n` is somewhere in `ns`, with parent `q`, when `ns` has parent `p`. */
  predicate Occurs(n: Node, q: Option<nat>, ns: seq<Node>, p: Option<nat>) {
    && ns != []
    && (|| (n == ns[0] && q == p)
        || Occurs(n, q, ns[0].children, Some(ns[0].id))
        || Occurs(n, q, ns[1..], p))
  }

  lemma {:induction false} MemberOccurs(ns: seq<Node>, i: nat, p: Option<nat>)
    requires i < |ns|
    ensures Occurs(ns[i], p, ns, p)
  {
    if i > 0 {
      MemberOccurs(ns[1..], i - 1, p);
    }
  }

  lemma {:induction false} ChildOccurs(n: Node, q: Option<nat>, i: nat, ns: seq<Node>, p: Option<nat>)
    requires Occurs(n, q, ns, p) && i < |n.children|
    ensures Occurs(n.children[i], Some(n.id), ns, p)
    decreases ns
  {
    if n == ns[0] && q == p {
      MemberOccurs(n.children, i, Some(n.id));
    } else if Occurs(n, q, ns[0].children, Some(ns[0].id)) {
      ChildOccurs(n, q, i, ns[0].children, Some(ns[0].id));
    } else {
      ChildOccurs(n, q, i, ns[1..], p);
    }
  }

  lemma {:induction false} ByParentParts(head: ColumnDesc, kids: seq<ColumnDesc>, tail: seq<ColumnDesc>, p: Option<nat>)
    ensures ByParent([head] + kids + tail, p) ==
            (if head.parent == p then [head] else []) + ByParent(kids, p) + ByParent(tail, p)
  {
    var isChild := (c: ColumnDesc) => c.parent == p;
    FilterOne(head, isChild);
    FilterAppend([head], kids, isChild);
    FilterAppend([head] + kids, tail, isChild);
  }

  /** Nodes with an unused id as parent are the given top ones or none. */
  lemma {:induction false} UnusedParent(ns: seq<Node>, p: Option<nat>, id: nat)
    requires forall c :: c in Flatten(ns, p) ==> c.id != id
    ensures ByParent(Flatten(ns, p), Some(id)) == if p == Some(id) then Descs(ns, p) else []
  {
    if ns != [] {
      var head, kids, tail := Desc(ns[0], p), Flatten(ns[0].children, Some(ns[0].id)), Flatten(ns[1..], p);
      FlattenParts(ns, p);
      UnusedParent(ns[0].children, Some(ns[0].id), id);
      UnusedParent(ns[1..], p, id);
      ByParentParts(head, kids, tail, Some(id));
      assert Descs(ns, p) == [head] + Descs(ns[1..], p);
    }
  }

  lemma {:induction false} FlattenParts(ns: seq<Node>, p: Option<nat>)
    requires ns != []
    ensures var kids, tail := Flatten(ns[0].children, Some(ns[0].id)), Flatten(ns[1..], p);
            && Desc(ns[0], p) in Flatten(ns, p)
            && (forall c :: c in kids || c in tail ==> c in Flatten(ns, p))
  {
  }

  /** The ids of the three parts of a flattening with distinct ids are apart. */
  lemma {:induction false} DistinctParts(ns: seq<Node>, p: Option<nat>)
    requires ns != [] && DistinctIds(Flatten(ns, p))
    ensures var kids, tail := Flatten(ns[0].children, Some(ns[0].id)), Flatten(ns[1..], p);
            && DistinctIds(kids) && DistinctIds(tail)
            && (forall c :: c in kids || c in tail ==> c.id != ns[0].id)
            && (forall c, d :: c in kids && d in tail ==> c.id != d.id)
  {
    PartsApart([Desc(ns[0], p)], Flatten(ns[0].children, Some(ns[0].id)) + Flatten(ns[1..], p));
    PartsApart(Flatten(ns[0].children, Some(ns[0].id)), Flatten(ns[1..], p));
    var kids, tail := Flatten(ns[0].children, Some(ns[0].id)), Flatten(ns[1..], p);
    assert Flatten(ns, p) == [Desc(ns[0], p)] + (kids + tail);
    assert Desc(ns[0], p) in [Desc(ns[0], p)];
    assert forall c :: c in kids || c in tail ==> c in kids + tail;
  }

  lemma {:induction false} PartsApart(a: seq<ColumnDesc>, b: seq<ColumnDesc>)
    ensures DistinctIds(a + b) ==>
              DistinctIds(a) && DistinctIds(b) && forall c, d :: c in a && d in b ==> c.id != d.id
  {
    var ab := a + b;
    assert forall i :: 0 <= i < |a| ==> a[i] == ab[i];
    assert forall i :: 0 <= i < |b| ==> b[i] == ab[|a| + i];
    if DistinctIds(ab) {
      forall c, d | c in a && d in b
        ensures c.id != d.id
      {
        var i :| 0 <= i < |a| && a[i] == c;
        var j :| 0 <= j < |b| && b[j] == d;
        assert ab[i].id != ab[|a| + j].id;
      }
    }
  }

  /** With distinct ids, each node's row is there, and the rows with it as parent
      are its children in order. */
  lemma {:induction false} ChildrenListed(n: Node, q: Option<nat>, ns: seq<Node>, p: Option<nat>)
    requires Occurs(n, q, ns, p) && DistinctIds(Flatten(ns, p))
    requires p.Some? ==> forall c :: c in Flatten(ns, p) ==> c.id != p.value
    ensures Desc(n, q) in Flatten(ns, p)
    ensures ByParent(Flatten(ns, p), Some(n.id)) == Descs(n.children, Some(n.id))
    decreases ns
  {
    var first := ns[0];
    var kids, tail := Flatten(first.children, Some(first.id)), Flatten(ns[1..], p);
    FlattenParts(ns, p);
    DistinctParts(ns, p);
    ByParentParts(Desc(first, p), kids, tail, Some(n.id));
    if n == first && q == p {
      UnusedParent(first.children, Some(first.id), n.id);
      UnusedParent(ns[1..], p, n.id);
    } else if Occurs(n, q, first.children, Some(first.id)) {
      ChildrenListed(n, q, first.children, Some(first.id));
      UnusedParent(ns[1..], p, n.id);
    } else {
      ChildrenListed(n, q, ns[1..], p);
      UnusedParent(first.children, Some(first.id), n.id);
    }
  }

  // ----- The rebuild inverts flattening -----

  lemma {:induction false} ChildrenIndexed(n: Node, q: Option<nat>, forest: seq<Node>, rows: seq<ColumnDesc>, index: Index)
    requires Occurs(n, q, forest, None) && DistinctIds(Flatten(forest, None)) && Lists(rows, forest)
    requires Indexes(index, rows)
    ensures ChildIds(index, n.id) == Ids(Descs(n.children, Some(n.id)))
  {
    ChildrenListed(n, q, forest, None);
    assert ByParent(rows, Some(n.id)) == ByParent(Flatten(forest, None), Some(n.id));
  }

  /** Each node, found anywhere, rebuilds to its own type. */
  lemma {:induction false} NodeRebuilds(n: Node, q: Option<nat>, forest: seq<Node>, rows: seq<ColumnDesc>, index: Index,
                                        depth: nat)
    requires Occurs(n, q, forest, None) && DistinctIds(Flatten(forest, None)) && Lists(rows, forest)
    requires Indexes(index, rows) && depth > HeightAll(n.children)
    ensures Build(depth, Desc(n, q), index) == TypeOf(n)
    decreases n, 1
  {
    ChildrenRebuild(n, q, forest, rows, index, depth - 1);
    SameFieldsSameType(n, Desc(n, q), index, depth);
  }

  lemma {:induction false} ChildrenRebuild(n: Node, q: Option<nat>, forest: seq<Node>, rows: seq<ColumnDesc>, index: Index,
                                           depth: nat)
    requires Occurs(n, q, forest, None) && DistinctIds(Flatten(forest, None)) && Lists(rows, forest)
    requires Indexes(index, rows) && depth >= HeightAll(n.children)
    ensures |ChildIds(index, n.id)| == |n.children|
    ensures BuildFields(depth, ChildIds(index, n.id), index) == TypesOf(n.children)
    decreases n, 0
  {
    ChildrenIndexed(n, q, forest, rows, index);
    var ids := Ids(Descs(n.children, Some(n.id)));
    assert ids[0..] == ids && n.children[0..] == n.children;
    FieldsRebuild(n, q, 0, forest, rows, index, depth);
  }

  lemma {:induction false} SameFieldsSameType(n: Node, column: ColumnDesc, index: Index, depth: nat)
    requires depth > 0 && column.sqlType == n.sqlType && |ChildIds(index, column.id)| == |n.children|
    requires BuildFields(depth - 1, ChildIds(index, column.id), index) == TypesOf(n.children)
    ensures Build(depth, column, index) == TypeOf(n)
  {
    MarkerSpells(n.sqlType);
  }

  lemma {:induction false} FieldsRebuild(n: Node, q: Option<nat>, k: nat, forest: seq<Node>, rows: seq<ColumnDesc>,
                                         index: Index, depth: nat)
    requires Occurs(n, q, forest, None) && DistinctIds(Flatten(forest, None)) && Lists(rows, forest)
    requires Indexes(index, rows) && k <= |n.children| && depth >= HeightAll(n.children[k..])
    ensures BuildFields(depth, Ids(Descs(n.children, Some(n.id)))[k..], index) == TypesOf(n.children[k..])
    decreases n.children, |n.children| - k
  {
    if k < |n.children| {
      var child, parent := n.children[k], Some(n.id);
      var ids := Ids(Descs(n.children, parent));
      assert ids[k..][0] == child.id && ids[k..][1..] == ids[k + 1..];
      assert n.children[k..][1..] == n.children[k + 1..];
      ChildOccurs(n, q, k, forest, None);
      ChildrenListed(child, parent, forest, None);
      ListsDistinct(rows, forest);
      ListedRow(rows, forest, Desc(child, parent));
      RowFound(index, rows, Desc(child, parent));
      NodeRebuilds(child, parent, forest, rows, index, depth);
      FieldsRebuild(n, q, k + 1, forest, rows, index, depth);
    }
  }

  lemma {:induction false} TopListed(ns: seq<Node>)
    ensures ByParent(Flatten(ns, None), None) == Descs(ns, None)
  {
    if ns != [] {
      var head, kids, tail := Desc(ns[0], None), Flatten(ns[0].children, Some(ns[0].id)), Flatten(ns[1..], None);
      TopListed(ns[1..]);
      ByParentParts(head, kids, tail, None);
      AllParented(ns[0].children, ns[0].id);
      FilterNone(kids, (c: ColumnDesc) => c.parent == None);
      assert Descs(ns, None) == [head] + Descs(ns[1..], None);
    }
  }

  lemma {:induction false} AllParented(ns: seq<Node>, p: nat)
    ensures forall c :: c in Flatten(ns, Some(p)) ==> c.parent.Some?
  {
    if ns != [] {
      AllParented(ns[0].children, ns[0].id);
      AllParented(ns[1..], p);
    }
  }

  lemma {:induction false} TypesSnoc(ns: seq<Node>, n: Node)
    ensures TypesOf(ns + [n]) ==
            var rest, last := TypesOf(ns), TypeOf(n);
            if rest.Err? then rest
            else if last.Err? then Err(last.error)
            else Ok(rest.value + [Field(n.name, last.value)])
  {
    if ns == [] {
      assert ns + [n] == [n] && [n][1..] == [];
      var first := TypeOf(n);
      if first.Ok? {
        assert [Field(n.name, first.value)] + [] == [] + [Field(n.name, first.value)];
      }
    } else {
      TypesSnoc(ns[1..], n);
      assert (ns + [n])[1..] == ns[1..] + [n] && (ns + [n])[0] == ns[0];
      var first, rest, last := TypeOf(ns[0]), TypesOf(ns[1..]), TypeOf(n);
      if first.Ok? && rest.Ok? && last.Ok? {
        var head, end := [Field(ns[0].name, first.value)], [Field(n.name, last.value)];
        assert head + (rest.value + end) == head + rest.value + end;
      }
    }
  }

  /** For every column forest with distinct ids, listed in any order that keeps
      siblings in order, loading returns the forest's own types: the same columns,
      or the same failure. */
  lemma {:induction false} LoadInvertsFlatten(forest: seq<Node>, rows: seq<ColumnDesc>, index: Index)
    requires DistinctIds(Flatten(forest, None)) && Lists(rows, forest) && Indexes(index, rows)
    ensures BuildAll(|rows|, ByParent(rows, None), index) == TypesOf(forest)
    ensures forall k :: k in NotNullIndexes(ByParent(rows, None)) <==> 0 <= k < |forest| && !forest[k].nullsAllowed
  {
    TopListed(forest);
    NotNullMembers(ByParent(rows, None));
    var height := HeightAll(forest);
    var depth := if height > |rows| then height else |rows|;
    TopRebuilds(forest, |forest|, rows, index, depth);
    assert forest[..|forest|] == forest;
    assert Descs(forest, None)[..|forest|] == Descs(forest, None);
    FilterMembers(rows, (c: ColumnDesc) => c.parent == None);
    LoadSettles(rows, index, ByParent(rows, None), depth);
  }

  lemma {:induction false} TopRebuilds(forest: seq<Node>, k: nat, rows: seq<ColumnDesc>, index: Index, depth: nat)
    requires DistinctIds(Flatten(forest, None)) && Lists(rows, forest)
    requires Indexes(index, rows) && depth >= HeightAll(forest) && k <= |forest|
    ensures BuildAll(depth, Descs(forest, None)[..k], index) == TypesOf(forest[..k])
  {
    if k > 0 {
      var n := k - 1;
      TopRebuilds(forest, n, rows, index, depth);
      MemberRebuilds(forest, n, rows, index, depth);
      BuildAllSnoc(depth, Descs(forest, None), n, index);
      TypesSnoc(forest[..n], forest[n]);
      assert forest[..k] == forest[..n] + [forest[n]];
    }
  }

  lemma {:induction false} MemberRebuilds(forest: seq<Node>, n: nat, rows: seq<ColumnDesc>, index: Index, depth: nat)
    requires DistinctIds(Flatten(forest, None)) && Lists(rows, forest)
    requires Indexes(index, rows) && depth >= HeightAll(forest) && n < |forest|
    ensures Build(depth, Descs(forest, None)[n], index) == TypeOf(forest[n])
  {
    MemberOccurs(forest, n, None);
    MemberHeight(forest, n);
    NodeRebuilds(forest[n], None, forest, rows, index, depth);
  }

  lemma {:induction false} BuildAllSnoc(depth: nat, top: seq<ColumnDesc>, n: nat, index: Index)
    requires n < |top|
    ensures BuildAll(depth, top[..n + 1], index) ==
            var rest, last := BuildAll(depth, top[..n], index), Build(depth, top[n], index);
            if rest.Err? then rest
            else if last.Err? then Err(last.error)
            else Ok(rest.value + [Field(top[n].name, last.value)])
  {
    assert top[..n + 1][..n] == top[..n];
  }

  lemma {:induction false} MemberHeight(ns: seq<Node>, i: nat)
    requires i < |ns|
    ensures HeightAll(ns) > HeightAll(ns[i].children)
  {
    if i > 0 {
      MemberHeight(ns[1..], i - 1);
    }
  }

  // ----- Rows the store never lists -----

  /** Distinct ids matter: with a repeated id the first row wins and the links can
      loop, and this table's one top-level column never finishes rebuilding. */
  lemma {:induction false} RepeatedIdNeverReturns() returns (rows: seq<ColumnDesc>, index: Index)
    ensures Indexes(index, rows) && |rows| == 3 && rows[0].parent.None?
    ensures forall depth: nat :: Build(depth, rows[0], index) == Err(StillBuilding)
  {
    rows := [ColumnDesc(1, "a", "struct", None, true), ColumnDesc(2, "b", "struct", Some(1), true),
             ColumnDesc(1, "c", "struct", Some(2), true)];
    index := Index(map[1 := rows[0], 2 := rows[1]], map[1 := [2], 2 := [1]]);
    LoopIndexed(rows, index);
    forall depth: nat
      ensures Build(depth, rows[0], index) == Err(StillBuilding)
    {
      LoopsForever(depth, rows[0], rows[1], index);
    }
  }

  lemma {:induction false} LoopsForever(depth: nat, a: ColumnDesc, b: ColumnDesc, index: Index)
    requires a.id in index.byId && index.byId[a.id] == a && b.id in index.byId && index.byId[b.id] == b
    requires ChildIds(index, a.id) == [b.id] && ChildIds(index, b.id) == [a.id]
    requires a.sqlType == b.sqlType == "struct"
    ensures Build(depth, a, index) == Err(StillBuilding)
    decreases depth
  {
    assert Lower("struct") == "struct";
    if depth > 0 {
      LoopsForever(depth - 1, b, a, index);
    }
  }

  lemma {:induction false} LoopIndexed(rows: seq<ColumnDesc>, index: Index)
    requires rows == [ColumnDesc(1, "a", "struct", None, true), ColumnDesc(2, "b", "struct", Some(1), true),
                      ColumnDesc(1, "c", "struct", Some(2), true)]
    requires index == Index(map[1 := rows[0], 2 := rows[1]], map[1 := [2], 2 := [1]])
    ensures Indexes(index, rows)
  {
    assert Ids(rows) == [1, 2, 1];
    assert FirstWithId(rows, rows[0]) && FirstWithId(rows, rows[1]);
    forall p: nat
      ensures ChildIds(index, p) == Ids(ByParent(rows, Some(p)))
    {
      ThreeByParent(rows[0], rows[1], rows[2], p);
    }
  }

  lemma {:induction false} ThreeByParent(a: ColumnDesc, b: ColumnDesc, c: ColumnDesc, p: nat)
    requires a.parent.None? && b.parent == Some(1) && c.parent == Some(2)
    ensures ByParent([a, b, c], Some(p)) == if p == 1 then [b] else if p == 2 then [c] else []
    ensures Ids([b]) == [b.id] && Ids([c]) == [c.id] && Ids([]) == []
  {
    var isChild := (d: ColumnDesc) => d.parent == Some(p);
    assert [a] + [b] + [c] == [a, b, c];
    ByParentParts(a, [b], [c], Some(p));
    FilterOne(b, isChild);
    FilterOne(c, isChild);
  }
}

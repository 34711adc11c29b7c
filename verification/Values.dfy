/** Shared value vocabulary: table cells as the shim sees them, rows, and the
    two failure-compatible datatypes the models return. */
module Values {

  datatype Option<+T> = None | Some(value: T)

  datatype Result<+T, +E> = Ok(value: T) | Err(error: E)

  /** The largest `uint64_t`. */
  const U64_MAX: nat := 0xFFFF_FFFF_FFFF_FFFF

  const I64_BOUND: nat := 0x8000_0000_0000_0000

  /** `static_cast<int64_t>` of an unsigned 64-bit value. */
  function AsInt64(n: nat): int {
    if n < I64_BOUND then n else n - U64_MAX - 1
  }

  /** Rust's `u64::saturating_add(n, 1)`. */
  function SaturatingSucc(n: nat): (r: nat) {
    if n < U64_MAX then n + 1 else U64_MAX
  }

  /** One scanned cell. `Null` is SQL NULL, so `==` is the null-aware equality. */
  datatype Cell = Null | Num(n: int) | Text(s: string) | Flag(b: bool)

  type Row = seq<Cell>

  /** One materialization of a `ducklake_*` table; a rowid is an index into it. */
  type Rows = seq<Row>

  /** The cell at column `c`, NULL past the end of the row. */
  function CellAt(row: Row, c: nat): Cell {
    if c < |row| then row[c] else Null
  }

  /** One `moraine_tx_stage` call: the table kind, the operation kind and the
      cells it carries. */
  datatype StagedOp = StagedOp(kind: int, operation: StagedOperation, cells: Row)

  datatype StagedOperation = StageInsert | StageDelete | StageSetEnd | StageSetBegin

  /** The elements of `s` that satisfy `p`, in order. */
  function Filter<T>(s: seq<T>, p: T -> bool): (r: seq<T>) {
    if s == [] then []
    else if p(s[0]) then [s[0]] + Filter(s[1..], p)
    else Filter(s[1..], p)
  }

  lemma {:induction false} FilterMembers<T(!new)>(s: seq<T>, p: T -> bool)
    ensures forall x :: x in Filter(s, p) <==> x in s && p(x)
  {
    if s != [] {
      FilterMembers(s[1..], p);
      assert s == [s[0]] + s[1..];
    }
  }

  /** One more element of `s`. */
  lemma FilterOne<T>(x: T, p: T -> bool)
    ensures Filter([x], p) == if p(x) then [x] else []
  {
    assert Filter([x][1..], p) == [];
  }

  lemma FilterSnoc<T>(s: seq<T>, i: nat, p: T -> bool)
    requires i < |s|
    ensures Filter(s[..i + 1], p) == Filter(s[..i], p) + (if p(s[i]) then [s[i]] else [])
  {
    assert s[..i + 1] == s[..i] + [s[i]];
    FilterAppend(s[..i], [s[i]], p);
  }

  lemma {:induction false} FilterAppend<T>(a: seq<T>, b: seq<T>, p: T -> bool)
    ensures Filter(a + b, p) == Filter(a, p) + Filter(b, p)
  {
    if a == [] {
      assert a + b == b;
    } else {
      FilterAppend(a[1..], b, p);
      assert (a + b)[1..] == a[1..] + b;
    }
  }

  /** Filtering by pointwise-equal predicates keeps the same elements. */
  lemma {:induction false} FilterCongruent<T(!new)>(s: seq<T>, p: T -> bool, q: T -> bool)
    requires forall x :: x in s ==> p(x) == q(x)
    ensures Filter(s, p) == Filter(s, q)
  {
    if s != [] {
      assert s[0] in s;
      FilterCongruent(s[1..], p, q);
    }
  }

  lemma {:induction false} FilterAll<T(!new)>(s: seq<T>, p: T -> bool)
    requires forall x :: x in s ==> p(x)
    ensures Filter(s, p) == s
  {
    if s != [] {
      assert s[0] in s;
      FilterAll(s[1..], p);
    }
  }

  lemma {:induction false} FilterNone<T(!new)>(s: seq<T>, p: T -> bool)
    requires forall x :: x in s ==> !p(x)
    ensures Filter(s, p) == []
  {
    if s != [] {
      assert s[0] in s;
      FilterNone(s[1..], p);
    }
  }

  // ----- Text -----

  function LowerChar(c: char): char {
    if 'A' <= c <= 'Z' then (c as int + 32) as char else c
  }

  function Lower(s: string): string {
    seq(|s|, i requires 0 <= i < |s| => LowerChar(s[i]))
  }

  /** `s` spells the lower-case `word`, each letter in either case. */
  predicate Spells(s: string, word: string) {
    && |s| == |word|
    && forall i :: 0 <= i < |s| ==> s[i] == word[i] || ('a' <= word[i] <= 'z' && s[i] as int + 32 == word[i] as int)
  }

  lemma LowerSpells(s: string, word: string)
    requires forall i :: 0 <= i < |word| ==> !('A' <= word[i] <= 'Z')
    ensures Lower(s) == word <==> Spells(s, word)
  {
    if Lower(s) == word {
      assert forall i :: 0 <= i < |s| ==> Lower(s)[i] == LowerChar(s[i]) == word[i];
    }
  }

  // ----- Rowids -----

  datatype RowidError = NullRowid | RowidOutOfRange

  /** The index a rowid names in a list of `count` rows: NULL and indexes outside
      the list are refused. A negative value casts to an index past any list. */
  function ResolveRowid(cell: Cell, count: nat): Result<nat, RowidError> {
    if cell.Num? && 0 <= cell.n < count then Ok(cell.n)
    else if cell.Null? then Err(NullRowid)
    else Err(RowidOutOfRange)
  }
}

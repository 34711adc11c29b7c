/** Index keys: each column's value as canonical bytes, framed, complemented for
    descending columns and flagged for NULL, concatenated so that byte order is
    SQL's tuple order. */
module OrderedKey {
  import opened Values

  /** A byte, 0 to 255. The order proofs hold of any numbers, so the bound is left
      to whoever supplies the bytes of a string. */
  type Byte = int

  /** One non-null value. A float is its IEEE 754 bit pattern; strings are their
      UTF-8 bytes; `width` is in bytes. */
  datatype KeyValue =
    | IntValue(value: int, width: nat)
    | UIntValue(number: nat, width: nat)
    | FloatValue(bits: nat, width: nat)
    | BoolValue(on: bool)
    | BytesValue(bytes: seq<Byte>)

  datatype Direction = Ascending | Descending

  datatype NullOrder = First | Last

  datatype Column = Column(value: Option<KeyValue>, direction: Direction, nulls: NullOrder)

  datatype KeyError = DoesNotFit | KeyTooLong

  const MAX_INDEX_KEY_BYTES: nat := 1024

  // ----- Fixed-width integers -----

  function Pow256(w: nat): (p: nat)
    ensures p > 0
  {
    if w == 0 then 1 else 256 * Pow256(w - 1)
  }

  /** The weight of the top bit of `w` bytes. */
  function Half(w: nat): (h: nat)
    requires w > 0
    ensures 2 * h == Pow256(w) && h > 0
  {
    if w == 1 then 128 else 256 * Half(w - 1)
  }

  /** The low `w` bytes of `n`, most significant first. */
  function BigEndian(n: nat, w: nat): (s: seq<Byte>)
    ensures |s| == w
  {
    if w == 0 then [] else BigEndian(n / 256, w - 1) + [n % 256]
  }

  function FlipTop(s: seq<Byte>): seq<Byte>
    requires s != []
  {
    s[0 := if s[0] < 128 then s[0] + 128 else s[0] - 128]
  }

  // ----- Floats -----

  /** The magnitude of an infinity: anything above it is a NaN. */
  function Infinity(w: nat): nat {
    if w == 4 then 0x7f80_0000 else 0x7ff0_0000_0000_0000
  }

  function CanonicalNan(w: nat): nat {
    if w == 4 then 0x7fc0_0000 else 0x7ff8_0000_0000_0000
  }

  predicate ValidFloat(bits: nat, w: nat) {
    (w == 4 || w == 8) && bits < Pow256(w)
  }

  /** Every NaN is one NaN and negative zero is zero. */
  function Folded(bits: nat, w: nat): nat
    requires ValidFloat(bits, w)
  {
    var magnitude := if bits < Half(w) then bits else bits - Half(w);
    if magnitude > Infinity(w) then CanonicalNan(w)
    else if bits == Half(w) then 0
    else bits
  }

  /** The total-order transform: the sign bit of a non-negative pattern is
      flipped, every bit of a negative one. */
  function OrderBits(bits: nat, w: nat): nat
    requires w > 0 && bits < Pow256(w)
  {
    if bits < Half(w) then bits + Half(w) else Pow256(w) - 1 - bits
  }

  // ----- Values -----

  predicate Valid(v: KeyValue) {
    match v
    case IntValue(_, w) => w > 0
    case UIntValue(_, w) => w > 0
    case FloatValue(bits, w) => ValidFloat(bits, w)
    case _ => true
  }

  predicate Fits(v: KeyValue)
    requires Valid(v)
  {
    match v
    case IntValue(n, w) => -(Half(w) as int) <= n < Half(w)
    case UIntValue(n, w) => n < Pow256(w)
    case _ => true
  }

  /** The `w`-byte two's complement of a number that fits. */
  function TwosComplement(n: int, w: nat): nat
    requires w > 0 && -(Half(w) as int) <= n < Half(w)
  {
    if n >= 0 then n else n + Pow256(w)
  }

  /** How many canonical bytes a value has, without producing them. */
  function EncodedLength(v: KeyValue): nat {
    match v
    case IntValue(_, w) => w
    case UIntValue(_, w) => w
    case FloatValue(_, w) => w
    case BoolValue(_) => 1
    case BytesValue(bytes) => |bytes|
  }

  /** A value's canonical bytes. */
  function Encode(v: KeyValue): (s: seq<Byte>)
    requires Valid(v) && Fits(v)
    ensures |s| == EncodedLength(v)
  {
    match v
    case IntValue(n, w) => FlipTop(BigEndian(TwosComplement(n, w), w))
    case UIntValue(n, w) => BigEndian(n, w)
    case FloatValue(bits, w) => FoldedBelow(bits, w); BigEndian(OrderBits(Folded(bits, w), w), w)
    case BoolValue(on) => [if on then 1 else 0]
    case BytesValue(bytes) => bytes
  }

  lemma FoldedBelow(bits: nat, w: nat)
    requires ValidFloat(bits, w)
    ensures Folded(bits, w) < Pow256(w) && Folded(bits, w) != Half(w)
  {
    PowersOfFloats();
  }

  lemma PowersOfFloats()
    ensures Half(4) == 0x8000_0000 && Half(8) == 0x8000_0000_0000_0000
    ensures Pow256(4) == 0x1_0000_0000 && Pow256(8) == 0x1_0000_0000_0000_0000
  {
    assert Half(2) == 256 * Half(1) && Half(3) == 256 * Half(2) && Half(4) == 256 * Half(3);
    assert Half(5) == 256 * Half(4) && Half(6) == 256 * Half(5) && Half(7) == 256 * Half(6) && Half(8) == 256 * Half(7);
  }

  // ----- Keys -----

  /** A byte string with its low bytes escaped and a terminator. */
  function Frame(raw: seq<Byte>): seq<Byte> {
    if raw == [] then [0]
    else (if raw[0] <= 1 then [1, raw[0]] else [raw[0]]) + Frame(raw[1..])
  }

  function Complement(s: seq<Byte>): seq<Byte> {
    if s == [] then [] else [255 - s[0]] + Complement(s[1..])
  }

  function NullFlag(nulls: NullOrder): Byte {
    if nulls.First? then 0 else 1
  }

  function NonNullFlag(nulls: NullOrder): Byte {
    if nulls.First? then 1 else 0
  }

  predicate ValidColumn(c: Column) {
    c.value.Some? ==> Valid(c.value.value)
  }

  predicate ColumnFits(c: Column)
    requires ValidColumn(c)
  {
    c.value.Some? ==> Fits(c.value.value)
  }

  function Blob(c: Column): seq<Byte>
    requires ValidColumn(c) && ColumnFits(c)
  {
    if c.value.None? then [NullFlag(c.nulls)]
    else
      var framed := Frame(Encode(c.value.value));
      [NonNullFlag(c.nulls)] + if c.direction.Ascending? then framed else Complement(framed)
  }

  ghost predicate ValidColumns(columns: seq<Column>) {
    forall i :: 0 <= i < |columns| ==> ValidColumn(columns[i])
  }

  /** What one column adds to a key: its blob and its value's length. */
  datatype Coded = Misfit | Coded(blob: seq<Byte>, length: nat)

  function CodeOf(c: Column): Coded
    requires ValidColumn(c)
  {
    if !ColumnFits(c) then Misfit
    else Coded(Blob(c), if c.value.None? then 0 else EncodedLength(c.value.value))
  }

  function Codes(columns: seq<Column>): (codes: seq<Coded>)
    requires ValidColumns(columns)
    ensures |codes| == |columns|
  {
    seq(|columns|, i requires 0 <= i < |columns| => CodeOf(columns[i]))
  }

  /** All columns' blobs one after the other and their total length, unless one
      does not fit. */
  function Joined(codes: seq<Coded>): Coded {
    if codes == [] then Coded([], 0)
    else
      var before, last := Joined(codes[..|codes| - 1]), codes[|codes| - 1];
      if before.Misfit? || last.Misfit? then Misfit
      else Coded(before.blob + last.blob, before.length + last.length)
  }

  lemma {:induction false} MisfitStands(codes: seq<Coded>, k: nat)
    requires k <= |codes| && Joined(codes[..k]).Misfit?
    ensures Joined(codes).Misfit?
    decreases |codes|
  {
    if k == |codes| {
      assert codes[..k] == codes;
    } else {
      var n := |codes| - 1;
      assert codes[..n][..k] == codes[..k];
      MisfitStands(codes[..n], k);
    }
  }

  /** What encoding a key returns. */
  function EncodedKey(columns: seq<Column>): Result<seq<Byte>, KeyError>
    requires ValidColumns(columns)
  {
    var whole := Joined(Codes(columns));
    if whole.Misfit? then Err(DoesNotFit)
    else if whole.length > MAX_INDEX_KEY_BYTES then Err(KeyTooLong)
    else Ok(whole.blob)
  }

  /** One column's turn of the loop. */
  method EncodeColumn(column: Column) returns (code: Coded)
    requires ValidColumn(column)
    ensures code == CodeOf(column)
  {
    if column.value.None? {
      return Coded([NullFlag(column.nulls)], 0);
    }
    var value := column.value.value;
    if !Fits(value) {
      return Misfit;
    }
    var raw := Encode(value);
    var framed := Frame(raw);
    return Coded([NonNullFlag(column.nulls)] + if column.direction.Ascending? then framed else Complement(framed), |raw|);
  }

  method EncodeOrderedKey(columns: seq<Column>) returns (r: Result<seq<Byte>, KeyError>)
    requires ValidColumns(columns)
    ensures r == EncodedKey(columns)
  {
    var out: seq<Byte>, total: nat := [], 0;
    ghost var codes := Codes(columns);
    for i := 0 to |columns|
      invariant Joined(codes[..i]) == Coded(out, total)
    {
      assert codes[..i + 1][..i] == codes[..i] && codes[..i + 1][i] == CodeOf(columns[i]);
      var code := EncodeColumn(columns[i]);
      if code.Misfit? {
        MisfitStands(codes, i + 1);
        return Err(DoesNotFit);
      }
      out, total := out + code.blob, total + code.length;
    }
    assert codes[..|columns|] == codes;
    if total > MAX_INDEX_KEY_BYTES {
      return Err(KeyTooLong);
    }
    return Ok(out);
  }
}

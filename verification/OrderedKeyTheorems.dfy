/** Byte order of encoded keys is SQL's tuple order, and keys are equal exactly
    for equal tuples. */
module OrderedKeyTheorems {
  import opened Values
  import opened OrderedKey

  // ----- SQL's order -----

  /** Where a float stands among floats of its width: numeric order is the order
      of signed magnitudes, with both zeros equal and all NaNs equal and above
      everything. */
  function FloatRank(bits: nat, w: nat): int
    requires ValidFloat(bits, w)
  {
    var magnitude := if bits < Half(w) then bits else bits - Half(w);
    if magnitude > Infinity(w) then CanonicalNan(w)
    else if bits < Half(w) then magnitude
    else -(magnitude as int)
  }

  predicate SameType(v: KeyValue, u: KeyValue) {
    match v
    case IntValue(_, w) => u.IntValue? && u.width == w
    case UIntValue(_, w) => u.UIntValue? && u.width == w
    case FloatValue(_, w) => u.FloatValue? && u.width == w
    case BoolValue(_) => u.BoolValue?
    case BytesValue(_) => u.BytesValue?
  }

  function Rank(v: KeyValue): int
    requires Valid(v)
  {
    match v
    case IntValue(n, _) => n
    case UIntValue(n, _) => n
    case FloatValue(bits, w) => FloatRank(bits, w)
    case BoolValue(on) => if on then 1 else 0
    case BytesValue(_) => 0
  }

  /** Byte strings in dictionary order. */
  predicate Less(a: seq<Byte>, b: seq<Byte>) {
    b != [] && (a == [] || a[0] < b[0] || (a[0] == b[0] && Less(a[1..], b[1..])))
  }

  predicate ValueLess(v: KeyValue, u: KeyValue)
    requires Valid(v) && Valid(u) && SameType(v, u)
  {
    if v.BytesValue? then Less(v.bytes, u.bytes) else Rank(v) < Rank(u)
  }

  predicate SameValue(v: KeyValue, u: KeyValue)
    requires Valid(v) && Valid(u) && SameType(v, u)
  {
    if v.BytesValue? then v.bytes == u.bytes else Rank(v) == Rank(u)
  }

  /** Two columns of one index column: the same order and, if both are non-null,
      the same type. */
  predicate Comparable(c: Column, d: Column) {
    && ValidColumn(c) && ValidColumn(d) && c.direction == d.direction && c.nulls == d.nulls
    && (c.value.Some? && d.value.Some? ==> SameType(c.value.value, d.value.value))
  }

  predicate ColumnLess(c: Column, d: Column)
    requires Comparable(c, d)
  {
    if c.value.None? then d.value.Some? && c.nulls.First?
    else if d.value.None? then c.nulls.Last?
    else if c.direction.Ascending? then ValueLess(c.value.value, d.value.value)
    else ValueLess(d.value.value, c.value.value)
  }

  predicate SameColumn(c: Column, d: Column)
    requires Comparable(c, d)
  {
    if c.value.None? || d.value.None? then c.value.None? && d.value.None?
    else SameValue(c.value.value, d.value.value)
  }

  ghost predicate AllComparable(cs: seq<Column>, ds: seq<Column>) {
    |cs| == |ds| && forall i :: 0 <= i < |cs| ==> Comparable(cs[i], ds[i])
  }

  /** Column by column, the first difference decides. */
  predicate TupleLess(cs: seq<Column>, ds: seq<Column>)
    requires AllComparable(cs, ds)
  {
    cs != [] && (ColumnLess(cs[0], ds[0]) || (SameColumn(cs[0], ds[0]) && TupleLess(cs[1..], ds[1..])))
  }

  predicate SameTuple(cs: seq<Column>, ds: seq<Column>)
    requires AllComparable(cs, ds)
  {
    forall i :: 0 <= i < |cs| ==> SameColumn(cs[i], ds[i])
  }

  // ----- Dictionary order -----

  lemma LessCons(h: Byte, t: seq<Byte>, h': Byte, t': seq<Byte>)
    ensures Less([h] + t, [h'] + t') <==> h < h' || (h == h' && Less(t, t'))
    ensures [h] + t == [h'] + t' <==> h == h' && t == t'
  {
    assert ([h] + t)[1..] == t && ([h'] + t')[1..] == t';
    assert ([h] + t)[0] == h && ([h'] + t')[0] == h';
  }

  lemma {:induction false} LessSnoc(a: seq<Byte>, x: Byte, b: seq<Byte>, y: Byte)
    requires |a| == |b|
    ensures Less(a + [x], b + [y]) <==> Less(a, b) || (a == b && x < y)
  {
    if a == [] {
      assert a + [x] == [x] && b + [y] == [y] && [x][1..] == [];
    } else {
      LessSnoc(a[1..], x, b[1..], y);
      assert (a + [x])[1..] == a[1..] + [x] && (b + [y])[1..] == b[1..] + [y];
      assert a == [a[0]] + a[1..] && b == [b[0]] + b[1..];
    }
  }

  lemma {:induction false} BigEndianOrder(m: nat, n: nat, w: nat)
    requires m < Pow256(w) && n < Pow256(w)
    ensures Less(BigEndian(m, w), BigEndian(n, w)) <==> m < n
    ensures BigEndian(m, w) == BigEndian(n, w) <==> m == n
  {
    if w > 0 {
      var a, b := BigEndian(m / 256, w - 1), BigEndian(n / 256, w - 1);
      BigEndianOrder(m / 256, n / 256, w - 1);
      LessSnoc(a, m % 256, b, n % 256);
      assert BigEndian(m, w)[..w - 1] == a && BigEndian(n, w)[..w - 1] == b;
      assert BigEndian(m, w)[w - 1] == m % 256 && BigEndian(n, w)[w - 1] == n % 256;
    }
  }

  /** Flipping the top bit of the bytes adds or takes its weight. */
  lemma {:induction false} FlipTopAdds(u: nat, w: nat)
    requires w > 0 && u < Pow256(w)
    ensures FlipTop(BigEndian(u, w)) == BigEndian(if u < Half(w) then u + Half(w) else u - Half(w), w)
  {
    var v := if u < Half(w) then u + Half(w) else u - Half(w);
    if w == 1 {
      OneByte(u);
      OneByte(v);
    } else {
      FlipTopAdds(u / 256, w - 1);
      FlipDigits(u, v, w);
      FlipFirst(BigEndian(u / 256, w - 1), u % 256);
    }
  }

  lemma OneByte(u: nat)
    requires u < 256
    ensures BigEndian(u, 1) == [u]
  {
    assert BigEndian(u / 256, 0) == [];
  }

  lemma FlipDigits(u: nat, v: nat, w: nat)
    requires w > 1 && v == if u < Half(w) then u + Half(w) else u - Half(w)
    ensures v % 256 == u % 256
    ensures v / 256 == if u / 256 < Half(w - 1) then u / 256 + Half(w - 1) else u / 256 - Half(w - 1)
  {
    assert Half(w) == 256 * Half(w - 1);
  }

  lemma FlipFirst(high: seq<Byte>, low: Byte)
    requires high != []
    ensures FlipTop(high + [low]) == FlipTop(high) + [low]
  {
  }

  // ----- Values -----

  /** The number whose big-endian bytes a fixed-width value is encoded as. */
  function Code(v: KeyValue): int
    requires Valid(v) && !v.BytesValue?
  {
    match v
    case IntValue(n, w) => n + Half(w)
    case UIntValue(n, _) => n
    case FloatValue(bits, w) => FoldedBelow(bits, w); OrderBits(Folded(bits, w), w)
    case BoolValue(on) => if on then 1 else 0
  }

  lemma EncodeIsCode(v: KeyValue)
    requires Valid(v) && Fits(v) && !v.BytesValue?
    ensures 0 <= Code(v) < Pow256(EncodedLength(v)) && Encode(v) == BigEndian(Code(v), EncodedLength(v))
  {
    match v
    case IntValue(n, w) => FlipTopAdds(TwosComplement(n, w), w);
    case FloatValue(bits, w) => FoldedBelow(bits, w);
    case BoolValue(on) =>
      assert BigEndian(Code(v) / 256, 0) == [];
      assert Pow256(1) == 256 * Pow256(0);
    case _ =>
  }

  lemma CodeOrder(v: KeyValue, u: KeyValue)
    requires Valid(v) && Valid(u) && SameType(v, u) && !v.BytesValue?
    ensures Code(v) < Code(u) <==> Rank(v) < Rank(u)
    ensures Code(v) == Code(u) <==> Rank(v) == Rank(u)
  {
    if v.FloatValue? {
      PowersOfFloats();
    }
  }

  /** Canonical bytes of one type sort like the values, and are equal exactly for
      equal values. */
  lemma EncodeOrder(v: KeyValue, u: KeyValue)
    requires Valid(v) && Valid(u) && SameType(v, u) && Fits(v) && Fits(u)
    ensures Less(Encode(v), Encode(u)) <==> ValueLess(v, u)
    ensures Encode(v) == Encode(u) <==> SameValue(v, u)
  {
    if !v.BytesValue? {
      EncodeIsCode(v);
      EncodeIsCode(u);
      CodeOrder(v, u);
      BigEndianOrder(Code(v), Code(u), EncodedLength(v));
    }
  }

  // ----- Framing -----

  function Escaped(b: Byte): seq<Byte> {
    if b <= 1 then [1, b] else [b]
  }

  lemma EscapedOrder(g: Byte, x: seq<Byte>, h: Byte, y: seq<Byte>)
    ensures Less(Escaped(g) + x, Escaped(h) + y) <==> g < h || (g == h && Less(x, y))
    ensures Escaped(g) + x == Escaped(h) + y <==> g == h && x == y
  {
    assert g <= 1 ==> Escaped(g) + x == [1] + ([g] + x);
    assert h <= 1 ==> Escaped(h) + y == [1] + ([h] + y);
    LessCons(g, x, h, y);
    LessCons(1, [g] + x, 1, [h] + y);
    LessCons(1, [g] + x, h, y);
    LessCons(g, x, 1, [h] + y);
  }

  /** Framed strings followed by anything: the strings decide first, and neither
      is a prefix of the other. */
  lemma {:induction false} FrameOrder(a: seq<Byte>, x: seq<Byte>, b: seq<Byte>, y: seq<Byte>)
    ensures Less(Frame(a) + x, Frame(b) + y) <==> Less(a, b) || (a == b && Less(x, y))
    ensures Frame(a) + x == Frame(b) + y <==> a == b && x == y
  {
    if a == [] || b == [] {
      FrameStart(a, x);
      FrameStart(b, y);
      LessCons(0, x, 0, y);
    } else {
      FrameOrder(a[1..], x, b[1..], y);
      EscapedOrder(a[0], Frame(a[1..]) + x, b[0], Frame(b[1..]) + y);
      assert Frame(a) + x == Escaped(a[0]) + (Frame(a[1..]) + x);
      assert Frame(b) + y == Escaped(b[0]) + (Frame(b[1..]) + y);
      assert a == [a[0]] + a[1..] && b == [b[0]] + b[1..];
    }
  }

  lemma FrameStart(a: seq<Byte>, x: seq<Byte>)
    ensures a == [] ==> Frame(a) + x == [0] + x
    ensures a != [] ==> Frame(a) != [] && (Frame(a) + x)[0] > 0
  {
  }

  lemma {:induction false} ComplementAppend(a: seq<Byte>, b: seq<Byte>)
    ensures Complement(a + b) == Complement(a) + Complement(b)
  {
    if a == [] {
      assert a + b == b;
    } else {
      var ab := a + b;
      assert ab[0] == a[0] && ab[1..] == a[1..] + b;
      ComplementAppend(a[1..], b);
      Associates([255 - a[0]], Complement(a[1..]), Complement(b));
    }
  }

  lemma EscapedComplementOrder(g: Byte, x: seq<Byte>, h: Byte, y: seq<Byte>)
    ensures Less(Complement(Escaped(g)) + x, Complement(Escaped(h)) + y) <==> h < g || (g == h && Less(x, y))
    ensures Complement(Escaped(g)) + x == Complement(Escaped(h)) + y <==> g == h && x == y
  {
    ComplementEscaped(g, x);
    ComplementEscaped(h, y);
    LessCons(255 - g, x, 255 - h, y);
    LessCons(254, [255 - g] + x, 254, [255 - h] + y);
    LessCons(254, [255 - g] + x, 255 - h, y);
    LessCons(255 - g, x, 254, [255 - h] + y);
  }

  lemma ComplementEscaped(g: Byte, x: seq<Byte>)
    ensures Complement(Escaped(g)) + x == if g <= 1 then [254] + ([255 - g] + x) else [255 - g] + x
  {
    assert [g][1..] == [] && [1, g][1..] == [g];
    assert Complement([g]) == [255 - g];
  }

  /** Complemented frames sort the other way round. */
  lemma {:induction false} ComplementOrder(a: seq<Byte>, x: seq<Byte>, b: seq<Byte>, y: seq<Byte>)
    ensures Less(Complement(Frame(a)) + x, Complement(Frame(b)) + y) <==> Less(b, a) || (a == b && Less(x, y))
    ensures Complement(Frame(a)) + x == Complement(Frame(b)) + y <==> a == b && x == y
  {
    if a == [] || b == [] {
      ComplementStart(a, x);
      ComplementStart(b, y);
      LessCons(255, x, 255, y);
    } else {
      ComplementOrder(a[1..], x, b[1..], y);
      EscapedComplementOrder(a[0], Complement(Frame(a[1..])) + x, b[0], Complement(Frame(b[1..])) + y);
      ComplementStep(a, x);
      ComplementStep(b, y);
      assert a == [a[0]] + a[1..] && b == [b[0]] + b[1..];
    }
  }

  lemma ComplementStep(a: seq<Byte>, x: seq<Byte>)
    requires a != []
    ensures Complement(Frame(a)) + x == Complement(Escaped(a[0])) + (Complement(Frame(a[1..])) + x)
  {
    var head, tail := Escaped(a[0]), Frame(a[1..]);
    assert Frame(a) == head + tail;
    ComplementAppend(head, tail);
    Associates(Complement(head), Complement(tail), x);
  }

  lemma Associates(a: seq<Byte>, b: seq<Byte>, c: seq<Byte>)
    ensures a + b + c == a + (b + c)
  {
  }

  lemma ComplementStart(a: seq<Byte>, x: seq<Byte>)
    ensures a == [] ==> Complement(Frame(a)) + x == [255] + x
    ensures a != [] ==> Complement(Frame(a)) != [] && (Complement(Frame(a)) + x)[0] < 255
  {
    if a == [] {
      assert [0][1..] == [];
    } else {
      ComplementStep(a, x);
      ComplementEscaped(a[0], Complement(Frame(a[1..])) + x);
    }
  }

  // ----- Columns and tuples -----

  /** A value as its column frames it. */
  function Framed(v: KeyValue, direction: Direction): seq<Byte>
    requires Valid(v) && Fits(v)
  {
    if direction.Ascending? then Frame(Encode(v)) else Complement(Frame(Encode(v)))
  }

  lemma FramedOrder(v: KeyValue, x: seq<Byte>, u: KeyValue, y: seq<Byte>, direction: Direction)
    requires Valid(v) && Valid(u) && SameType(v, u) && Fits(v) && Fits(u)
    ensures Less(Framed(v, direction) + x, Framed(u, direction) + y) <==>
            || (if direction.Ascending? then ValueLess(v, u) else ValueLess(u, v))
            || (SameValue(v, u) && Less(x, y))
    ensures Framed(v, direction) + x == Framed(u, direction) + y <==> SameValue(v, u) && x == y
  {
    EncodeOrder(v, u);
    if direction.Ascending? {
      FrameOrder(Encode(v), x, Encode(u), y);
    } else {
      EncodeOrder(u, v);
      ComplementOrder(Encode(v), x, Encode(u), y);
    }
  }

  lemma BlobParts(c: Column, x: seq<Byte>)
    requires ValidColumn(c) && ColumnFits(c)
    ensures c.value.None? ==> Blob(c) + x == [NullFlag(c.nulls)] + x
    ensures c.value.Some? ==> Blob(c) + x == [NonNullFlag(c.nulls)] + (Framed(c.value.value, c.direction) + x)
  {
  }

  /** A column's blob followed by anything: the column decides first. */
  lemma BlobOrder(c: Column, x: seq<Byte>, d: Column, y: seq<Byte>)
    requires Comparable(c, d) && ColumnFits(c) && ColumnFits(d)
    ensures Less(Blob(c) + x, Blob(d) + y) <==> ColumnLess(c, d) || (SameColumn(c, d) && Less(x, y))
    ensures Blob(c) + x == Blob(d) + y <==> SameColumn(c, d) && x == y
  {
    BlobParts(c, x);
    BlobParts(d, y);
    var isNull, notNull := NullFlag(c.nulls), NonNullFlag(c.nulls);
    if c.value.None? && d.value.None? {
      LessCons(isNull, x, isNull, y);
    } else if c.value.None? {
      LessCons(isNull, x, notNull, Framed(d.value.value, d.direction) + y);
    } else if d.value.None? {
      LessCons(notNull, Framed(c.value.value, c.direction) + x, isNull, y);
    } else {
      LessCons(notNull, Framed(c.value.value, c.direction) + x, notNull, Framed(d.value.value, d.direction) + y);
      FramedOrder(c.value.value, x, d.value.value, y, c.direction);
    }
  }

  ghost predicate NoMisfit(codes: seq<Coded>) {
    forall i :: 0 <= i < |codes| ==> !codes[i].Misfit?
  }

  /** The blobs one after the other, from the front. */
  function Blobs(codes: seq<Coded>): seq<Byte>
    requires NoMisfit(codes)
  {
    if codes == [] then [] else codes[0].blob + Blobs(codes[1..])
  }

  lemma {:induction false} BlobsSnoc(codes: seq<Coded>, last: Coded)
    requires NoMisfit(codes) && !last.Misfit?
    ensures Blobs(codes + [last]) == Blobs(codes) + last.blob
  {
    if codes == [] {
      assert [] + [last] == [last] && [last][1..] == [];
    } else {
      assert (codes + [last])[1..] == codes[1..] + [last];
      BlobsSnoc(codes[1..], last);
    }
  }

  lemma {:induction false} JoinedIsBlobs(codes: seq<Coded>)
    ensures Joined(codes).Misfit? <==> !NoMisfit(codes)
    ensures NoMisfit(codes) ==> Joined(codes).blob == Blobs(codes)
  {
    if codes != [] {
      var n := |codes| - 1;
      JoinedIsBlobs(codes[..n]);
      assert codes == codes[..n] + [codes[n]];
      if NoMisfit(codes) {
        BlobsSnoc(codes[..n], codes[n]);
      }
    }
  }

  ghost predicate AllFit(columns: seq<Column>)
    requires ValidColumns(columns)
  {
    forall i :: 0 <= i < |columns| ==> ColumnFits(columns[i])
  }

  /** An integer outside what `width` bytes hold. */
  predicate Exceeds(c: Column) {
    match c.value
    case Some(IntValue(n, w)) => 2 * n < -(Pow256(w) as int) || 2 * n >= Pow256(w)
    case Some(UIntValue(n, w)) => n >= Pow256(w)
    case _ => false
  }

  /** The canonical bytes of all values. */
  function TotalBytes(columns: seq<Column>): nat
    requires ValidColumns(columns) && AllFit(columns)
  {
    if columns == [] then 0
    else (if columns[0].value.None? then 0 else |Encode(columns[0].value.value)|) + TotalBytes(columns[1..])
  }

  lemma {:induction false} TotalSnoc(columns: seq<Column>, last: Column)
    requires ValidColumns(columns + [last]) && AllFit(columns + [last])
    ensures ValidColumns(columns) && AllFit(columns) && ValidColumn(last) && ColumnFits(last)
    ensures TotalBytes(columns + [last]) == TotalBytes(columns) + if last.value.None? then 0 else |Encode(last.value.value)|
  {
    var all := columns + [last];
    assert all[|columns|] == last && forall i :: 0 <= i < |columns| ==> all[i] == columns[i];
    if columns == [] {
      assert all == [last] && [last][1..] == [];
    } else {
      assert all[1..] == columns[1..] + [last];
      TotalSnoc(columns[1..], last);
    }
  }

  lemma {:induction false} JoinedLength(columns: seq<Column>)
    requires ValidColumns(columns) && AllFit(columns)
    ensures Joined(Codes(columns)).Coded? && Joined(Codes(columns)).length == TotalBytes(columns)
  {
    if columns != [] {
      var n := |columns| - 1;
      assert columns == columns[..n] + [columns[n]];
      TotalSnoc(columns[..n], columns[n]);
      JoinedLength(columns[..n]);
      assert Codes(columns)[..n] == Codes(columns[..n]);
      assert Codes(columns)[n] == CodeOf(columns[n]);
    }
  }

  /** A key is refused for its length exactly when every integer fits and the values'
      bytes number more than 1024; NULLs, flags, escapes and terminators do not count. */
  lemma TooLongIff(columns: seq<Column>)
    requires ValidColumns(columns)
    ensures EncodedKey(columns) == Err(KeyTooLong) <==> AllFit(columns) && TotalBytes(columns) > 1024
  {
    MisfitIff(columns);
    if AllFit(columns) {
      JoinedLength(columns);
    }
  }

  /** A key is refused for misfit exactly when some integer exceeds its width. */
  lemma MisfitIff(columns: seq<Column>)
    requires ValidColumns(columns)
    ensures EncodedKey(columns) == Err(DoesNotFit) <==> !AllFit(columns)
    ensures EncodedKey(columns) == Err(DoesNotFit) <==> exists i :: 0 <= i < |columns| && Exceeds(columns[i])
  {
    var codes := Codes(columns);
    JoinedIsBlobs(codes);
    if !AllFit(columns) {
      var i :| 0 <= i < |columns| && !ColumnFits(columns[i]);
      assert codes[i].Misfit?;
    }
  }

  lemma {:induction false} BlobsOrder(cs: seq<Column>, ds: seq<Column>)
    requires ValidColumns(cs) && ValidColumns(ds) && AllComparable(cs, ds)
    requires NoMisfit(Codes(cs)) && NoMisfit(Codes(ds))
    ensures Less(Blobs(Codes(cs)), Blobs(Codes(ds))) <==> TupleLess(cs, ds)
    ensures Blobs(Codes(cs)) == Blobs(Codes(ds)) <==> SameTuple(cs, ds)
  {
    if cs != [] {
      var a, b := Codes(cs), Codes(ds);
      assert Codes(cs[1..]) == a[1..] && Codes(ds[1..]) == b[1..];
      assert a[0] == CodeOf(cs[0]) && b[0] == CodeOf(ds[0]);
      BlobsOrder(cs[1..], ds[1..]);
      BlobOrder(cs[0], Blobs(a[1..]), ds[0], Blobs(b[1..]));
      SameTupleCons(cs, ds);
    }
  }

  lemma SameTupleCons(cs: seq<Column>, ds: seq<Column>)
    requires AllComparable(cs, ds) && cs != []
    ensures AllComparable(cs[1..], ds[1..])
    ensures SameTuple(cs, ds) <==> SameColumn(cs[0], ds[0]) && SameTuple(cs[1..], ds[1..])
  {
    assert forall i :: 0 < i < |cs| ==> cs[i] == cs[1..][i - 1] && ds[i] == ds[1..][i - 1];
    if SameTuple(cs, ds) {
      assert forall i :: 0 <= i < |cs[1..]| ==> cs[1..][i] == cs[i + 1] && ds[1..][i] == ds[i + 1];
    }
  }

  /** For any two tuples of one index, with any mix of directions, null placements
      and column types: their keys compare, byte by byte, as the tuples compare in
      SQL, and are equal exactly when the tuples are. */
  lemma KeyOrderIsTupleOrder(cs: seq<Column>, ds: seq<Column>)
    requires ValidColumns(cs) && ValidColumns(ds) && AllComparable(cs, ds)
    requires EncodedKey(cs).Ok? && EncodedKey(ds).Ok?
    ensures Less(EncodedKey(cs).value, EncodedKey(ds).value) <==> TupleLess(cs, ds)
    ensures EncodedKey(cs).value == EncodedKey(ds).value <==> SameTuple(cs, ds)
  {
    JoinedIsBlobs(Codes(cs));
    JoinedIsBlobs(Codes(ds));
    BlobsOrder(cs, ds);
  }
}

/** The names of the inline tables: printed from their ids, and parsed back by a
    digit loop with an exact 64-bit overflow test. */
module InlineNames {
  import opened Values

  const DATA_PREFIX: string := "ducklake_inlined_data_"
  const DELETE_PREFIX: string := "ducklake_inlined_delete_"

  predicate IsDigit(c: char) {
    '0' <= c <= '9'
  }

  predicate AllDigits(s: string) {
    forall i :: 0 <= i < |s| ==> IsDigit(s[i])
  }

  function DigitValue(c: char): nat
    requires IsDigit(c)
  {
    c as int - '0' as int
  }

  function DigitChar(d: nat): (c: char)
    requires d < 10
    ensures IsDigit(c) && DigitValue(c) == d
  {
    ('0' as int + d) as char
  }

  /** The number a run of digits writes in base ten. */
  function Decimal(s: string): nat
    requires AllDigits(s)
  {
    if s == [] then 0 else Decimal(s[..|s| - 1]) * 10 + DigitValue(s[|s| - 1])
  }

  /** `std::to_string`. */
  function Digits(n: nat): string {
    if n < 10 then [DigitChar(n)] else Digits(n / 10) + [DigitChar(n % 10)]
  }

  function DataTableName(tableId: nat, schemaVersion: nat): string {
    DATA_PREFIX + Digits(tableId) + "_" + Digits(schemaVersion)
  }

  function DeleteTableName(tableId: nat): string {
    DELETE_PREFIX + Digits(tableId)
  }

  // ----- What a name denotes, independently of how it is parsed -----

  predicate Denotes(run: string, n: nat) {
    run != [] && AllDigits(run) && Decimal(run) == n
  }

  /** `name` is the data prefix and two digit runs joined by an underscore,
      denoting two 64-bit ids. */
  ghost predicate IsDataName(name: string, tableId: nat, schemaVersion: nat) {
    && tableId <= U64_MAX && schemaVersion <= U64_MAX
    && exists a, b :: DataNameOf(name, a, b) && Denotes(a, tableId) && Denotes(b, schemaVersion)
  }

  predicate DataNameOf(name: string, a: string, b: string) {
    name == DATA_PREFIX + a + "_" + b
  }

  ghost predicate IsDeleteName(name: string, tableId: nat) {
    && tableId <= U64_MAX
    && exists a :: DeleteNameOf(name, a) && Denotes(a, tableId)
  }

  predicate DeleteNameOf(name: string, a: string) {
    name == DELETE_PREFIX + a
  }

  // ----- Parsing -----

  /** A longer digit run never denotes a smaller number. */
  lemma {:induction false} DecimalGrows(s: string, i: nat)
    requires AllDigits(s) && i <= |s|
    ensures Decimal(s[..i]) <= Decimal(s)
    decreases |s|
  {
    if i == |s| {
      assert s[..i] == s;
    } else {
      var n := |s| - 1;
      assert s[..n][..i] == s[..i];
      DecimalGrows(s[..n], i);
    }
  }

  /** Accepts the run from `pos` to the end exactly when it is nonempty, all
      digits, and its value fits in 64 bits. */
  method ParseTrailingU64(s: string, pos: nat) returns (r: Option<nat>)
    ensures r.Some? ==> pos < |s| && Denotes(s[pos..], r.value) && r.value <= U64_MAX
    ensures r.None? ==> pos >= |s| || !AllDigits(s[pos..]) || Decimal(s[pos..]) > U64_MAX
  {
    if pos >= |s| {
      return None;
    }
    ghost var run := s[pos..];
    var value: nat := 0;
    for i := pos to |s|
      invariant AllDigits(run[..i - pos])
      invariant value == Decimal(run[..i - pos]) <= U64_MAX
    {
      var c := s[i];
      ghost var k := i - pos;
      assert c == run[k];
      if c < '0' || c > '9' {
        return None;
      }
      var digit := DigitValue(c);
      assert run[..k + 1][..k] == run[..k];
      assert run[..k + 1] == run[..k] + [c];
      assert Decimal(run[..k + 1]) == value * 10 + digit;
      if value > (U64_MAX - digit) / 10 {
        if AllDigits(run) {
          DecimalGrows(run, k + 1);
        }
        return None;
      }
      value := value * 10 + digit;
    }
    assert run[..|s| - pos] == run;
    return Some(value);
  }

  /** `std::string::rfind` of one character. */
  function LastIndex(s: string, c: char): (r: Option<nat>)
    ensures r.Some? ==> r.value < |s| && s[r.value] == c && (forall i :: r.value < i < |s| ==> s[i] != c)
    ensures r.None? ==> c !in s
  {
    if s == [] then None
    else if s[|s| - 1] == c then Some(|s| - 1)
    else LastIndex(s[..|s| - 1], c)
  }

  /** The last underscore of a data name separates its two runs. */
  lemma RunsFound(name: string, a: string, b: string)
    requires DataNameOf(name, a, b) && AllDigits(b)
    ensures DATA_PREFIX <= name
    ensures var rest := name[|DATA_PREFIX|..];
            LastIndex(rest, '_') == Some(|a|) && rest[..|a|] == a && rest[|a| + 1..] == b
  {
    var rest := name[|DATA_PREFIX|..];
    assert rest == a + "_" + b;
    assert rest[|a|] == '_';
    assert forall i :: |a| < i < |rest| ==> rest[i] == b[i - |a| - 1];
    var at := LastIndex(rest, '_');
    assert at.Some?;
    assert rest[at.value] == '_';
  }

  method ParseInlinedDataTableName(name: string) returns (r: Option<(nat, nat)>)
    ensures r.Some? ==> IsDataName(name, r.value.0, r.value.1)
    ensures r.None? ==> forall t, v :: !IsDataName(name, t, v)
  {
    forall a, b | DataNameOf(name, a, b) && AllDigits(b)
      ensures DATA_PREFIX <= name
      ensures var rest := name[|DATA_PREFIX|..];
              LastIndex(rest, '_') == Some(|a|) && rest[..|a|] == a && rest[|a| + 1..] == b
    {
      RunsFound(name, a, b);
    }
    if !(DATA_PREFIX <= name) {
      return None;
    }
    var rest := name[|DATA_PREFIX|..];
    var underscore := LastIndex(rest, '_');
    if underscore.None? || underscore.value == 0 {
      return None;
    }
    var at := underscore.value;
    var tableId := ParseTrailingU64(rest[..at], 0);
    var schemaVersion := ParseTrailingU64(rest, at + 1);
    assert rest[..at][0..] == rest[..at];
    if tableId.None? || schemaVersion.None? {
      return None;
    }
    assert DataNameOf(name, rest[..at], rest[at + 1..]);
    return Some((tableId.value, schemaVersion.value));
  }

  method ParseInlinedDeleteTableName(name: string) returns (r: Option<nat>)
    ensures r.Some? ==> IsDeleteName(name, r.value)
    ensures r.None? ==> forall t :: !IsDeleteName(name, t)
  {
    if !(DELETE_PREFIX <= name) {
      return None;
    }
    r := ParseTrailingU64(name, |DELETE_PREFIX|);
    ghost var run := name[|DELETE_PREFIX|..];
    assert DeleteNameOf(name, run);
    assert forall a :: DeleteNameOf(name, a) ==> a == run;
  }

  // ----- Printing and parsing are inverse -----

  lemma {:induction false} DigitsDenote(n: nat)
    ensures Denotes(Digits(n), n)
    ensures |Digits(n)| == 1 || Digits(n)[0] != '0'
  {
    if n < 10 {
      assert Digits(n)[..0] == [];
    } else {
      DigitsDenote(n / 10);
      var most := Digits(n / 10);
      assert Digits(n)[..|most|] == most;
      if |most| == 1 {
        assert most[..0] == [];
        assert DigitValue(most[0]) == n / 10;
      }
    }
  }

  /** A digit run is what the printer writes exactly when it has no leading zero. */
  predicate Canonical(run: string) {
    |run| == 1 || (run != [] && run[0] != '0')
  }

  lemma {:induction false} CanonicalIff(run: string, n: nat)
    requires Denotes(run, n)
    ensures run == Digits(n) <==> Canonical(run)
    decreases |run|
  {
    DigitsDenote(n);
    var k := |run| - 1;
    var most, last := run[..k], run[k];
    assert run == most + [last];
    assert n == Decimal(most) * 10 + DigitValue(last);
    assert n / 10 == Decimal(most) && n % 10 == DigitValue(last);
    assert DigitChar(n % 10) == last;
    if Canonical(run) && k > 0 {
      assert Canonical(most);
      CanonicalIff(most, n / 10);
      LeadingDigit(most);
    }
  }

  lemma {:induction false} LeadingDigit(run: string)
    requires run != [] && AllDigits(run) && run[0] != '0'
    ensures Decimal(run) > 0
  {
    if |run| > 1 {
      assert run[..|run| - 1][0] == run[0];
      LeadingDigit(run[..|run| - 1]);
    }
  }

  /** A data name determines both its runs, so it denotes one pair of ids. */
  lemma DataNameUnique(name: string, a: string, b: string, a': string, b': string)
    requires DataNameOf(name, a, b) && DataNameOf(name, a', b') && AllDigits(b) && AllDigits(b')
    ensures a == a' && b == b'
  {
    RunsFound(name, a, b);
    RunsFound(name, a', b');
  }

  /** Printed names round-trip for all 64-bit ids: they denote their own ids and
      nothing else. */
  lemma DataNameRoundTrip(t: nat, v: nat, t': nat, v': nat)
    requires t <= U64_MAX && v <= U64_MAX
    ensures IsDataName(DataTableName(t, v), t', v') <==> t' == t && v' == v
  {
    var name := DataTableName(t, v);
    DigitsDenote(t);
    DigitsDenote(v);
    assert DataNameOf(name, Digits(t), Digits(v));
    if IsDataName(name, t', v') {
      var a, b :| DataNameOf(name, a, b) && Denotes(a, t') && Denotes(b, v');
      DataNameUnique(name, a, b, Digits(t), Digits(v));
    }
  }

  lemma DeleteNameRoundTrip(t: nat, t': nat)
    requires t <= U64_MAX
    ensures IsDeleteName(DeleteTableName(t), t') <==> t' == t
  {
    var name := DeleteTableName(t);
    DigitsDenote(t);
    assert DeleteNameOf(name, Digits(t));
    forall a | DeleteNameOf(name, a)
      ensures a == Digits(t)
    {
      assert a == name[|DELETE_PREFIX|..];
      assert Digits(t) == name[|DELETE_PREFIX|..];
    }
  }

  /** Both printers are injective, on all numbers. */
  lemma NamesInjective(t: nat, v: nat, t': nat, v': nat)
    ensures DataTableName(t, v) == DataTableName(t', v') ==> t == t' && v == v'
    ensures DeleteTableName(t) == DeleteTableName(t') ==> t == t'
  {
    DigitsDenote(t);
    DigitsDenote(v);
    DigitsDenote(t');
    DigitsDenote(v');
    if DataTableName(t, v) == DataTableName(t', v') {
      DataNameUnique(DataTableName(t, v), Digits(t), Digits(v), Digits(t'), Digits(v'));
    }
    if DeleteTableName(t) == DeleteTableName(t') {
      var name := DeleteTableName(t);
      assert Digits(t) == name[|DELETE_PREFIX|..] && Digits(t') == name[|DELETE_PREFIX|..];
    }
  }

  /** No name belongs to both families. */
  lemma FamiliesDisjoint(name: string, t: nat, v: nat, t': nat)
    ensures !(IsDataName(name, t, v) && IsDeleteName(name, t'))
  {
    if IsDataName(name, t, v) {
      assert |name| > 18 && name[18] == DATA_PREFIX[18] == 'a';
    }
    if IsDeleteName(name, t') {
      assert |name| > 18 && name[18] == DELETE_PREFIX[18] == 'e';
    }
  }

  /** The parser also takes names the printer never writes. Printing what a name
      parsed to gives the name back exactly when neither run has a leading zero. */
  lemma ReprintIff(name: string, a: string, b: string, t: nat, v: nat)
    requires DataNameOf(name, a, b) && Denotes(a, t) && Denotes(b, v)
    ensures DataTableName(t, v) == name <==> Canonical(a) && Canonical(b)
  {
    CanonicalIff(a, t);
    CanonicalIff(b, v);
    if DataTableName(t, v) == name {
      DigitsDenote(v);
      DataNameUnique(name, a, b, Digits(t), Digits(v));
    }
  }

  lemma DeleteReprintIff(name: string, a: string, t: nat)
    requires DeleteNameOf(name, a) && Denotes(a, t)
    ensures DeleteTableName(t) == name <==> Canonical(a)
  {
    CanonicalIff(a, t);
    assert name[|DELETE_PREFIX|..] == a && DeleteTableName(t)[|DELETE_PREFIX|..] == Digits(t);
  }

  lemma LeadingZeroParses() returns (name: string)
    ensures IsDataName(name, 1, 2) && name != DataTableName(1, 2)
  {
    name := DATA_PREFIX + "01" + "_" + "2";
    assert "01"[..1] == "0" && "0"[..0] == "" && "2"[..0] == "";
    assert Denotes("01", 1) && Denotes("2", 2) && DataNameOf(name, "01", "2");
    ReprintIff(name, "01", "2", 1, 2);
  }
}

/**
  Records as sqliterkBtreeParsePayload of repair/sqliterk_btree.c reads them, against section 2.1 of
  "SQLite Database File Format".
 */
module RepairRecord {
  import opened Common
  import opened RepairBytes

  /** What reading outside of a buffer does is not known; such a read ends the parse with FAULT. */
  datatype RC = OK | MISUSE | DAMAGED | FAULT

  /**
    A value of sqliterk_values.  A number is given by its eight bytes; Indeterminate is an integer that was
    never set, which a negative serial type leads to.
   */
  datatype Value = Null | Integer(i: int) | Real(bytes: seq<Byte>) |
    Text(bytes: seq<Byte>) | Binary(bytes: seq<Byte>) | Indeterminate

  /** (int) of a 64-bit integer */
  function Int32(v: nat): int {
    var w := v % 4294967296;
    if w < 2147483648 then w else w - 4294967296
  }

  /** sqliterkBtreeGetLengthForSerialType */
  function SerialLength(t: int): (n: nat)
    ensures t >= 12 ==> n == (t - 12) / 2
  {
    if t < 0 then 0
    else if t < 12 then [0, 1, 2, 3, 4, 6, 8, 8, 0, 0, 0, 0][t]
    else (t - 12 - t % 2) / 2
  }

  /** memcpy of n bytes */
  predicate Inside(data: seq<Byte>, offset: int, n: nat) {
    n == 0 || (0 <= offset && offset + n <= |data|)
  }

  function Copy(data: seq<Byte>, offset: int, n: nat): (s: seq<Byte>)
    requires Inside(data, offset, n)
    ensures |s| == n
  {
    if n == 0 then [] else data[offset..offset + n]
  }

  datatype ValueResult = Got(value: Value) | Failed(rc: RC)

  /** The branches on the serial type. */
  function ValueAt(data: seq<Byte>, t: int, offset: int): (r: ValueResult)
    ensures r.Failed? ==> r.rc != OK
  {
    if t == 0 then Got(Null)
    else if t < 7 then
      match ParseInt64(data, offset, SerialLength(t))
      case Int(v) => Got(Integer(v))
      case IntMisuse => Got(Indeterminate)
      case IntOutside => Failed(FAULT)
    else if t == 7 then if Inside(data, offset, 8) then Got(Real(Copy(data, offset, 8))) else Failed(FAULT)
    else if t == 8 then Got(Integer(0))
    else if t == 9 then Got(Integer(1))
    else if t >= 12 then
      if !Inside(data, offset, SerialLength(t)) then Failed(FAULT)
      else if t % 2 == 0 then Got(Binary(Copy(data, offset, SerialLength(t))))
      else Got(Text(Copy(data, offset, SerialLength(t))))
    else Failed(DAMAGED)
  }

  datatype FieldResult = OneField(head: nat, size: nat, value: Value) | NoField(rc: RC)

  /** One field: the length of its serial type, the size of its value, and the value. */
  function FieldAt(data: seq<Byte>, ot: nat, ov: int): (r: FieldResult)
    ensures r.OneField? ==> 0 < r.head && ot + r.head <= |data|
    ensures r.NoField? ==> r.rc != OK
  {
    match ParseVarint(data, ot)
    case VarintOutside => NoField(FAULT)
    case VarintDamaged => NoField(DAMAGED)
    case Number(n, t) =>
      match ValueAt(data, Int32(t), ov)
      case Failed(rc) => NoField(rc)
      case Got(v) => OneField(n, SerialLength(Int32(t)), v)
  }

  datatype RecordResult = Values(values: seq<Value>) | Broken(rc: RC)

  /** The loop over the fields, from serial type offset `ot` and value offset `ov` on. */
  function FieldsFrom(data: seq<Byte>, ot: nat, ov: int, end: int): (r: RecordResult)
    ensures r.Broken? ==> r.rc != OK
    decreases |data| - ot
  {
    if ov >= |data| && ot >= end then
      if ot == end && ov == |data| then Values([]) else Broken(DAMAGED)
    else
      var f := FieldAt(data, ot, ov);
      if f.NoField? then Broken(f.rc)
      else
        var rest := FieldsFrom(data, ot + f.head, ov + f.size, end);
        if rest.Broken? then rest else Values([f.value] + rest.values)
  }

  /** What the payload `data` is parsed to. */
  function Record(data: seq<Byte>): (r: RecordResult)
    ensures r.Broken? ==> r.rc != OK
  {
    match ParseVarint(data, 0)
    case VarintOutside => Broken(FAULT)
    case VarintDamaged => Broken(DAMAGED)
    case Number(n, h) => FieldsFrom(data, n, Int32(h), Int32(h))
  }

  /** One turn of the loop: the serial type and the value. */
  method ReadField(payload: seq<Byte>, offsetSerialType: nat, offsetValue: int) returns (r: FieldResult)
    ensures r == FieldAt(payload, offsetSerialType, offsetValue)
    ensures var next := ParseVarint(payload, offsetSerialType);
            next.Number? && (next.value == 10 || next.value == 11) ==> r == NoField(DAMAGED)
  {
    assert Int32(10) == 10 && Int32(11) == 11;
    hide Int32, SerialLength;
    var next := ParseVarint64(payload, offsetSerialType);
    if next.VarintOutside? { return NoField(FAULT); }
    if next.VarintDamaged? { return NoField(DAMAGED); }
    var serialType := Int32(next.value);
    var valueLength := SerialLength(serialType);
    var value := ValueAt(payload, serialType, offsetValue);
    if value.Failed? { return NoField(value.rc); }
    return OneField(next.length, valueLength, value.value);
  }

  /** The part of sqliterkBtreeParsePayload that reads the values. */
  method ParseRecord(payload: seq<Byte>) returns (rc: RC, values: seq<Value>)
    ensures Record(payload) == if rc == OK then Values(values) else Broken(rc)
  {
    hide FieldAt, Int32, ParseVarint, Continues, FieldsFrom;
    values := [];
    var first := ParseVarint64(payload, 0);
    if first.VarintOutside? { return FAULT, []; }
    if first.VarintDamaged? { return DAMAGED, []; }
    var offsetSerialType, offsetValue := first.length, Int32(first.value);
    var endSerialType, endValue := offsetValue, |payload|;
    ghost var r := FieldsFrom(payload, offsetSerialType, offsetValue, endSerialType);
    ContinuesStart(r);
    while offsetValue < endValue || offsetSerialType < endSerialType
      invariant Continues(r, values, FieldsFrom(payload, offsetSerialType, offsetValue, endSerialType))
      decreases |payload| - offsetSerialType
    {
      FieldsTurn(payload, offsetSerialType, offsetValue, endSerialType);
      var f := ReadField(payload, offsetSerialType, offsetValue);
      ContinuesBroken(r, values);
      if f.NoField? { return f.rc, []; }
      ContinuesStep(r, values, f.value,
                    FieldsFrom(payload, offsetSerialType + f.head, offsetValue + f.size, endSerialType));
      values := values + [f.value];
      offsetValue := offsetValue + f.size;
      offsetSerialType := offsetSerialType + f.head;
    }
    FieldsTurn(payload, offsetSerialType, offsetValue, endSerialType);
    ContinuesBroken(r, values);
    ContinuesEnd(r, values);
    if offsetSerialType != endSerialType || offsetValue != endValue { return DAMAGED, []; }
    return OK, values;
  }

  /** One turn of the loop, or its end. */
  lemma FieldsTurn(data: seq<Byte>, ot: nat, ov: int, end: int)
    ensures var f := FieldAt(data, ot, ov);
            FieldsFrom(data, ot, ov, end) ==
              if ov >= |data| && ot >= end then if ot == end && ov == |data| then Values([]) else Broken(DAMAGED)
              else if f.NoField? then Broken(f.rc)
              else
                var rest := FieldsFrom(data, ot + f.head, ov + f.size, end);
                if rest.Broken? then rest else Values([f.value] + rest.values)
  {
    hide FieldAt;
  }

  /** The result is what has been read, followed by what the rest gives. */
  ghost predicate Continues(r: RecordResult, done: seq<Value>, rest: RecordResult) {
    r == if rest.Broken? then rest else Values(done + rest.values)
  }

  lemma ContinuesStart(r: RecordResult)
    ensures Continues(r, [], r)
  {
  }

  lemma ContinuesStep(r: RecordResult, done: seq<Value>, v: Value, rest: RecordResult)
    requires Continues(r, done, if rest.Broken? then rest else Values([v] + rest.values))
    ensures Continues(r, done + [v], rest)
  {
    if rest.Values? { assert done + ([v] + rest.values) == done + [v] + rest.values; }
  }

  lemma ContinuesBroken(r: RecordResult, done: seq<Value>)
    ensures forall rc :: Continues(r, done, Broken(rc)) ==> r == Broken(rc)
  {
  }

  lemma ContinuesEnd(r: RecordResult, done: seq<Value>)
    ensures Continues(r, done, Values([])) ==> r == Values(done)
  {
    assert done + [] == done;
  }

  // ---------------------------------------------------------------------------------------------
  // What is accepted

  /** The serial types of these fields fill the header exactly, and their values fill the rest of the payload. */
  ghost predicate FitsExactly(data: seq<Byte>, ot: nat, ov: int, end: int, fields: seq<FieldResult>)
    decreases |fields|
  {
    if fields == [] then ot == end && ov == |data|
    else
      && (ov < |data| || ot < end) && fields[0].OneField? && fields[0] == FieldAt(data, ot, ov)
      && FitsExactly(data, ot + fields[0].head, ov + fields[0].size, end, fields[1..])
  }

  /** A payload is accepted if and only if its fields can be read and fit exactly. */
  lemma {:induction false} AcceptedExactly(data: seq<Byte>, ot: nat, ov: int, end: int)
    ensures FieldsFrom(data, ot, ov, end).Values? <==> exists fields :: FitsExactly(data, ot, ov, end, fields)
    decreases |data| - ot
  {
    hide FieldAt;
    if FieldsFrom(data, ot, ov, end).Values? {
      var fields := FieldsThatFit(data, ot, ov, end);
    }
    if fields :| FitsExactly(data, ot, ov, end, fields) { FitIsAccepted(data, ot, ov, end, fields); }
  }

  lemma {:induction false} FieldsThatFit(data: seq<Byte>, ot: nat, ov: int, end: int) returns (fields: seq<FieldResult>)
    requires FieldsFrom(data, ot, ov, end).Values?
    ensures FitsExactly(data, ot, ov, end, fields)
    decreases |data| - ot
  {
    hide FieldAt;
    fields := [];
    if ov < |data| || ot < end {
      var f := FieldAt(data, ot, ov);
      var rest := FieldsThatFit(data, ot + f.head, ov + f.size, end);
      fields := [f] + rest;
      assert fields[1..] == rest;
    }
  }

  lemma {:induction false} FitIsAccepted(data: seq<Byte>, ot: nat, ov: int, end: int, fields: seq<FieldResult>)
    requires FitsExactly(data, ot, ov, end, fields)
    ensures FieldsFrom(data, ot, ov, end).Values? && |FieldsFrom(data, ot, ov, end).values| == |fields|
    decreases |fields|
  {
    hide FieldAt;
    if fields != [] { FitIsAccepted(data, ot + fields[0].head, ov + fields[0].size, end, fields[1..]); }
  }

  // ---------------------------------------------------------------------------------------------
  // Writing

  /** A field of a record: a serial type and the bytes of the value. */
  datatype Field = Field(t: nat, bytes: seq<Byte>)

  /** The sizes of section 2.1; types 10 and 11 are reserved. */
  ghost predicate ValidField(f: Field) {
    var n := |f.bytes|;
    && f.t < 2147483648 && f.t != 10 && f.t != 11
    && (f.t == 0 || f.t == 8 || f.t == 9 ==> n == 0) && (1 <= f.t <= 4 ==> n == f.t)
    && (f.t == 5 ==> n == 6) && (f.t == 6 || f.t == 7 ==> n == 8)
    && (f.t >= 12 ==> f.t == 12 + 2 * n || f.t == 13 + 2 * n)
  }

  /** The value that section 2.1 gives to a field. */
  ghost function Meaning(f: Field): Value
    requires ValidField(f)
  {
    if f.t == 0 then Null
    else if f.t < 7 then Integer(Signed(f.bytes))
    else if f.t == 7 then Real(f.bytes)
    else if f.t == 8 then Integer(0)
    else if f.t == 9 then Integer(1)
    else if f.t == 12 + 2 * |f.bytes| then Binary(f.bytes)
    else Text(f.bytes)
  }

  /** The length table of the code agrees. */
  lemma SerialLengths(f: Field)
    requires ValidField(f)
    ensures SerialLength(f.t) == |f.bytes| && (f.t >= 12 ==> (f.t % 2 == 0 <==> f.t == 12 + 2 * |f.bytes|))
  {
  }

  ghost predicate ValidRow(row: seq<Field>) {
    forall i :: 0 <= i < |row| ==> ValidField(row[i])
  }

  ghost function Meanings(row: seq<Field>): seq<Value>
    requires ValidRow(row)
  {
    seq(|row|, i requires 0 <= i < |row| => Meaning(row[i]))
  }

  function Types(row: seq<Field>): seq<Byte> {
    if row == [] then [] else Varint(row[0].t) + Types(row[1..])
  }

  function Contents(row: seq<Field>): seq<Byte> {
    if row == [] then [] else row[0].bytes + Contents(row[1..])
  }

  /** The header size counts its own varint. */
  ghost predicate HeaderSize(row: seq<Field>, h: nat) {
    h == |Varint(h)| + |Types(row)| && h < 2147483648
  }

  function RecordOf(row: seq<Field>, h: nat): seq<Byte> {
    Varint(h) + Types(row) + Contents(row)
  }

  // ---------------------------------------------------------------------------------------------
  // Reading what was written

  lemma Int32OfSmall(v: nat)
    requires v < 2147483648
    ensures Int32(v) == v
  {
  }

  /** Numbers of 31 bits are far below 2^56. */
  lemma SmallVarint(pre: seq<Byte>, v: nat, post: seq<Byte>)
    requires v < 2147483648
    ensures ParseVarint(pre + Varint(v) + post, |pre|) == Number(|Varint(v)|, v)
  {
    assert Pow(128, 5) == 34359738368;
    PowMonotone(5, 8);
    VarintRoundTrip(pre, v, post);
  }

  lemma ValueOfField(f: Field, pre: seq<Byte>, post: seq<Byte>)
    requires ValidField(f)
    ensures ValueAt(pre + f.bytes + post, f.t, |pre|) == Got(Meaning(f))
  {
    SerialLengths(f);
    var data := pre + f.bytes + post;
    assert data[|pre|..|pre| + |f.bytes|] == f.bytes;
  }

  /** The bytes of a record before and after its first field is taken from both parts. */
  lemma Rearrange<T>(head: seq<T>, t: seq<T>, ts: seq<T>, mid: seq<T>, b: seq<T>, bs: seq<T>)
    ensures var data := head + (t + ts) + mid + (b + bs);
            && data == (head + t) + ts + (mid + b) + bs
            && data == head + t + (ts + mid + (b + bs))
            && data == (head + (t + ts) + mid) + b + bs
  {
  }

  /** A written field is read. */
  lemma ReadsField(f: Field, head: seq<Byte>, ts: seq<Byte>, mid: seq<Byte>, bs: seq<Byte>)
    requires ValidField(f)
    ensures FieldAt(head + (Varint(f.t) + ts) + mid + (f.bytes + bs), |head|, |head + (Varint(f.t) + ts) + mid|)
         == OneField(|Varint(f.t)|, |f.bytes|, Meaning(f))
  {
    hide ParseVarint, ValueAt, Varint, Meaning;
    SerialLengths(f);
    Rearrange(head, Varint(f.t), ts, mid, f.bytes, bs);
    SmallVarint(head, f.t, ts + mid + (f.bytes + bs));
    Int32OfSmall(f.t);
    ValueOfField(f, head + (Varint(f.t) + ts) + mid, bs);
  }

  lemma FieldsUnfold(data: seq<Byte>, ot: nat, ov: int, end: int, f: FieldResult, vs: seq<Value>)
    requires (ov < |data| || ot < end) && f.OneField? && FieldAt(data, ot, ov) == f
    requires FieldsFrom(data, ot + f.head, ov + f.size, end) == Values(vs)
    ensures FieldsFrom(data, ot, ov, end) == Values([f.value] + vs)
  {
    hide FieldAt;
  }

  /** The data from a serial type and a value on: the fields of `row` are left. */
  lemma {:induction false} ReadsFields(row: seq<Field>, head: seq<Byte>, mid: seq<Byte>)
    requires ValidRow(row)
    ensures FieldsFrom(head + Types(row) + mid + Contents(row), |head|, |head + Types(row) + mid|, |head + Types(row)|)
         == Values(Meanings(row))
    decreases |row|
  {
    if row == [] {
      assert head + Types(row) + mid + Contents(row) == head + mid;
    } else {
      hide FieldAt, Varint, Meaning, ValidField, FieldsFrom, Meanings;
      MeaningsStep(row);
      var f, rest := row[0], row[1..];
      ReadsFields(rest, head + Varint(f.t), mid + f.bytes);
      ReadsFieldsStep(head, f, Types(rest), mid, Contents(rest), Meanings(rest));
    }
  }

  lemma ReadsFieldsStep(head: seq<Byte>, f: Field, ts: seq<Byte>, mid: seq<Byte>, bs: seq<Byte>, vs: seq<Value>)
    requires ValidField(f)
    requires var t := Varint(f.t);
             FieldsFrom((head + t) + ts + (mid + f.bytes) + bs, |head + t|,
                        |(head + t) + ts + (mid + f.bytes)|, |(head + t) + ts|) == Values(vs)
    ensures var t := Varint(f.t);
            FieldsFrom(head + (t + ts) + mid + (f.bytes + bs), |head|, |head + (t + ts) + mid|, |head + (t + ts)|)
              == Values([Meaning(f)] + vs)
  {
    hide FieldAt, Varint, Meaning, ValidField, FieldsFrom;
    var t := Varint(f.t);
    var data := head + (t + ts) + mid + (f.bytes + bs);
    Rearrange(head, t, ts, mid, f.bytes, bs);
    ReadsField(f, head, ts, mid, bs);
    FieldsUnfold(data, |head|, |head + (t + ts) + mid|, |head + (t + ts)|, OneField(|t|, |f.bytes|, Meaning(f)), vs);
  }

  lemma MeaningsStep(row: seq<Field>)
    requires ValidRow(row) && row != []
    ensures ValidField(row[0]) && ValidRow(row[1..]) && Meanings(row) == [Meaning(row[0])] + Meanings(row[1..])
  {
    hide Meaning;
  }

  /** Every row is read back from its record. */
  lemma RecordRoundTrip(row: seq<Field>, h: nat)
    requires ValidRow(row) && HeaderSize(row, h)
    ensures Record(RecordOf(row, h)) == Values(Meanings(row))
  {
    hide ParseVarint, Varint, Types, Contents, FieldsFrom;
    var data, n, ts, bs := RecordOf(row, h), Varint(h), Types(row), Contents(row);
    Rearrange([], n, ts, [], [], bs);
    assert data == [] + n + (ts + bs) && data == n + ts + [] + bs && n + ts + [] == n + ts;
    SmallVarint([], h, ts + bs);
    Int32OfSmall(h);
    ReadsFields(row, n, []);
  }

  // ---------------------------------------------------------------------------------------------
  // Every row of values has a record

  /** A value that the format can hold: integers of 64 bits, lengths whose serial type is a 31-bit number. */
  ghost predicate Storable(v: Value) {
    match v
    case Null => true
    case Integer(i) => -(128 * Pow(256, 7)) <= i < 128 * Pow(256, 7)
    case Real(bytes) => |bytes| == 8
    case Text(bytes) => 2 * |bytes| + 13 < 2147483648
    case Binary(bytes) => 2 * |bytes| + 12 < 2147483648
    case Indeterminate => false
  }

  ghost predicate Narrow(i: int, k: nat)
    requires k > 0
  {
    -(128 * Pow(256, k - 1)) <= i < 128 * Pow(256, k - 1)
  }

  /** The serial type with the fewest bytes. */
  ghost function IntegerType(i: int): (t: nat)
    requires Narrow(i, 8)
    ensures 1 <= t <= 6 && SerialLength(t) > 0 && Narrow(i, SerialLength(t))
  {
    if Narrow(i, 1) then 1 else if Narrow(i, 2) then 2 else if Narrow(i, 3) then 3
    else if Narrow(i, 4) then 4 else if Narrow(i, 6) then 5 else 6
  }

  ghost function FieldOf(v: Value): Field
    requires Storable(v)
  {
    match v
    case Null => Field(0, [])
    case Integer(i) =>
      if i == 0 then Field(8, []) else if i == 1 then Field(9, [])
      else
        var t := IntegerType(i);
        Field(t, EncodeInt(i, SerialLength(t)))
    case Real(bytes) => Field(7, bytes)
    case Text(bytes) => Field(13 + 2 * |bytes|, bytes)
    case Binary(bytes) => Field(12 + 2 * |bytes|, bytes)
  }

  lemma FieldOfMeaning(v: Value)
    requires Storable(v)
    ensures ValidField(FieldOf(v)) && Meaning(FieldOf(v)) == v
  {
    if v.Integer? && v.i != 0 && v.i != 1 {
      hide Signed, EncodeInt, Pow;
      SignedOfEncodeInt(v.i, SerialLength(IntegerType(v.i)));
    }
  }

  lemma {:induction false} Digits128Monotone(v: nat, w: nat)
    requires v <= w
    ensures Digits128(v) <= Digits128(w)
  {
    if v > 0 { Digits128Monotone(v / 128, w / 128); }
  }

  lemma SmallVarintLength(v: nat)
    requires v < 2147483648
    ensures |Varint(v)| == Digits128(v / 128) + 1 <= 5
  {
    assert Pow(128, 4) == 268435456 && Pow(128, 5) == 34359738368;
    PowMonotone(5, 8);
    Digits128Bound(v / 128, 4);
  }

  /** A header size that counts itself can be found for every list of serial types. */
  lemma {:induction false} HeaderSizeExists(row: seq<Field>, k: nat) returns (h: nat)
    requires |Types(row)| + 5 < 2147483648 && 0 < k <= 5 && |Varint(|Types(row)| + k)| >= k
    ensures HeaderSize(row, h)
    decreases 5 - k
  {
    hide Varint, Types, Digits128;
    h := |Types(row)| + k;
    SmallVarintLength(h);
    if |Varint(h)| > k {
      SmallVarintLength(h + 1);
      Digits128Monotone(h / 128, (h + 1) / 128);
      h := HeaderSizeExists(row, k + 1);
    }
  }

  ghost function FieldsOf(values: seq<Value>): (row: seq<Field>)
    requires forall i :: 0 <= i < |values| ==> Storable(values[i])
    ensures |row| == |values| && forall i :: 0 <= i < |values| ==> row[i] == FieldOf(values[i])
  {
    seq(|values|, i requires 0 <= i < |values| => FieldOf(values[i]))
  }

  lemma FieldsOfMeanings(values: seq<Value>)
    requires forall i :: 0 <= i < |values| ==> Storable(values[i])
    ensures ValidRow(FieldsOf(values)) && Meanings(FieldsOf(values)) == values
  {
    hide FieldOf, ValidField, Meaning, Storable;
    var row := FieldsOf(values);
    forall i | 0 <= i < |values|
      ensures ValidField(row[i]) && Meaning(row[i]) == values[i]
    {
      FieldOfMeaning(values[i]);
    }
  }

  /** Every row of storable values is read back from a record of it. */
  lemma RowRoundTrip(values: seq<Value>) returns (h: nat)
    requires forall i :: 0 <= i < |values| ==> Storable(values[i])
    requires |Types(FieldsOf(values))| + 5 < 2147483648
    ensures ValidRow(FieldsOf(values)) && HeaderSize(FieldsOf(values), h)
    ensures Record(RecordOf(FieldsOf(values), h)) == Values(values)
  {
    hide Types, Record, RecordOf, FieldOf, Storable;
    FieldsOfMeanings(values);
    h := HeaderSizeExists(FieldsOf(values), 1);
    RecordRoundTrip(FieldsOf(values), h);
  }
}

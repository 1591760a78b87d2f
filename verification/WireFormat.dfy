/** Protocol Buffers message structure: fields, the parser with its unknown fields and
    groups, and the serializer it inverts. Strings are their UTF-8 bytes.
 */
module WireFormat {
  import opened Bits
  import opened Varint
  import opened Wrappers

  const TWO_64: int := 0x1_0000_0000_0000_0000
  const TWO_63: int := 0x8000_0000_0000_0000
  const TWO_32: int := 0x1_0000_0000
  const MAX_MESSAGE: int := 0x8000_0000
  const MAX_VARINT_BYTES: nat := 10

  // ----- UTF-8 (section 4 of RFC 3629) -----

  predicate Tail(b: Byte) {
    0x80 <= b <= 0xBF
  }

  predicate ValidUtf8(s: seq<Byte>)
    decreases |s|
  {
    || s == []
    || (s[0] <= 0x7F && ValidUtf8(s[1..]))
    || (|s| >= 2 && 0xC2 <= s[0] <= 0xDF && Tail(s[1]) && ValidUtf8(s[2..]))
    || (|s| >= 3 && 0xE0 <= s[0] <= 0xEF && Tail(s[1]) && Tail(s[2])
        && (s[0] == 0xE0 ==> s[1] >= 0xA0) && (s[0] == 0xED ==> s[1] <= 0x9F) && ValidUtf8(s[3..]))
    || (|s| >= 4 && 0xF0 <= s[0] <= 0xF4 && Tail(s[1]) && Tail(s[2]) && Tail(s[3])
        && (s[0] == 0xF0 ==> s[1] >= 0x90) && (s[0] == 0xF4 ==> s[1] <= 0x8F) && ValidUtf8(s[4..]))
  }

  lemma {:induction false} AsciiIsUtf8(s: seq<Byte>)
    requires forall i :: 0 <= i < |s| ==> s[i] <= 0x7F
    ensures ValidUtf8(s)
    decreases |s|
  {
    if s != [] {
      AsciiIsUtf8(s[1..]);
    }
  }

  // ----- message structure -----

  datatype Field =
    | VarintField(number: nat, value: nat)
    | BytesField(number: nat, bytes: seq<Byte>)
    | FixedField(number: nat, image: seq<Byte>)

  datatype Head = Head(value: nat, rest: seq<Byte>)

  /** A varint on the wire: at most ten bytes, reduced to 64 bits. */
  function WireVarint(d: seq<Byte>): (h: Option<Head>)
    ensures h.Some? ==> |h.value.rest| < |d|
  {
    match ReadFrom(d, 0)
    case CutShort => None
    case Read(v, next) => if next > MAX_VARINT_BYTES then None else Some(Head(v % TWO_64, d[next..]))
  }

  datatype Item =
    | Content(field: Field, rest: seq<Byte>)
    | GroupStart(number: nat, rest: seq<Byte>)
    | GroupEnd(number: nat, rest: seq<Byte>)

  /** The item at the head of `d`, or `None` when the bytes are malformed. */
  function NextItem(d: seq<Byte>): (item: Option<Item>)
    ensures item.Some? ==> |item.value.rest| < |d|
    ensures item.Some? && item.value.Content? && item.value.field.BytesField? ==> |item.value.field.bytes| < |d|
  {
    match WireVarint(d)
    case None => None
    case Some(Head(tag, rest)) =>
      var number := tag / 8;
      if number == 0 || tag >= TWO_32 then None
      else
        match tag % 8
        case 0 =>
          (match WireVarint(rest)
           case None => None
           case Some(Head(v, rest')) => Some(Content(VarintField(number, v), rest')))
        case 1 => if |rest| < 8 then None else Some(Content(FixedField(number, rest[..8]), rest[8..]))
        case 2 =>
          (match WireVarint(rest)
           case None => None
           case Some(Head(length, rest')) =>
             if length > |rest'| then None
             else Some(Content(BytesField(number, rest'[..length]), rest'[length..])))
        case 3 => Some(GroupStart(number, rest))
        case 4 => Some(GroupEnd(number, rest))
        case 5 => if |rest| < 4 then None else Some(Content(FixedField(number, rest[..4]), rest[4..]))
        case _ => None
  }

  /** Fields inside an unknown group are skipped; `open` holds the groups not yet closed. */
  function Emit(open: seq<nat>, field: Field, rest: Option<seq<Field>>): Option<seq<Field>> {
    match rest
    case None => None
    case Some(fields) => if open == [] then Some([field] + fields) else Some(fields)
  }

  function ParseFields(d: seq<Byte>, open: seq<nat>): (fields: Option<seq<Field>>)
    ensures fields.Some? ==>
              forall i :: 0 <= i < |fields.value| && fields.value[i].BytesField? ==> |fields.value[i].bytes| < |d|
    decreases |d|
  {
    if d == [] then
      if open == [] then Some([]) else None
    else
      match NextItem(d)
      case None => None
      case Some(Content(field, rest)) => Emit(open, field, ParseFields(rest, open))
      case Some(GroupStart(number, rest)) => ParseFields(rest, [number] + open)
      case Some(GroupEnd(number, rest)) =>
        if open == [] || open[0] != number then None else ParseFields(rest, open[1..])
  }

  /** The last length-delimited occurrence of a field wins. */
  function LastBytes(fields: seq<Field>, number: nat): Option<seq<Byte>> {
    if fields == [] then None
    else
      match LastBytes(fields[1..], number)
      case Some(b) => Some(b)
      case None =>
        if fields[0].BytesField? && fields[0].number == number then Some(fields[0].bytes) else None
  }

  function LastVarint(fields: seq<Field>, number: nat): Option<nat> {
    if fields == [] then None
    else
      match LastVarint(fields[1..], number)
      case Some(v) => Some(v)
      case None =>
        if fields[0].VarintField? && fields[0].number == number then Some(fields[0].value) else None
  }

  function OrEmpty(b: Option<seq<Byte>>): seq<Byte> {
    if b.Some? then b.value else []
  }

  predicate StringsValid(fields: seq<Field>, strings: set<nat>) {
    fields == [] ||
    (&& (fields[0].BytesField? && fields[0].number in strings ==> ValidUtf8(fields[0].bytes))
     && StringsValid(fields[1..], strings))
  }

  predicate Int64(t: int) {
    -TWO_63 <= t < TWO_63
  }

  /** The `int64` a 64-bit varint stands for. */
  function Signed(v: nat): int {
    if v < TWO_63 then v else v - TWO_64
  }

  function Unsigned(t: int): nat
    requires Int64(t)
  {
    if t >= 0 then t else t + TWO_64
  }

  // ----- serialization -----

  predicate Writable(field: Field) {
    && 0 < field.number < TWO_32 / 8
    && match field
       case VarintField(_, v) => v < TWO_64
       case BytesField(_, b) => |b| < MAX_MESSAGE
       case FixedField(_, _) => false
  }

  function SerializeField(field: Field): seq<Byte>
    requires Writable(field)
  {
    match field
    case VarintField(n, v) => Encode(8 * n) + Encode(v)
    case BytesField(n, b) => Encode(8 * n + 2) + Encode(|b|) + b
  }

  function SerializeFields(fields: seq<Field>): seq<Byte>
    requires forall i :: 0 <= i < |fields| ==> Writable(fields[i])
  {
    if fields == [] then [] else SerializeField(fields[0]) + SerializeFields(fields[1..])
  }

  /** A default value is not written. */
  function BytesPart(number: nat, b: seq<Byte>): seq<Field> {
    if b == [] then [] else [BytesField(number, b)]
  }

  function VarintPart(number: nat, v: nat): seq<Field> {
    if v == 0 then [] else [VarintField(number, v)]
  }

  // ----- the parser inverts the serializer -----

  lemma {:induction false} EncodedLength(n: nat, k: nat)
    requires k > 0 && n < Pow2(7 * k)
    ensures |Encode(n)| <= k
    decreases k
  {
    if n >= 128 {
      assert Pow2(7) == 128 by { Constants(); }
      assert k > 1;
      assert Pow2(7 * (k - 1) + SHIFT) == 128 * Pow2(7 * (k - 1)) by { ShiftBySeven(7 * (k - 1)); }
      EncodedLength(n / 128, k - 1);
    }
  }

  lemma SeventyBits()
    ensures TWO_64 < Pow2(70)
  {
    Constants();
    ShiftBySeven(7);
    ShiftBySeven(14);
    ShiftBySeven(21);
    ShiftBySeven(28);
    ShiftBySeven(35);
    ShiftBySeven(42);
    ShiftBySeven(49);
    ShiftBySeven(56);
    ShiftBySeven(63);
  }

  lemma WireReadsBack(n: nat, rest: seq<Byte>)
    requires n < TWO_64
    ensures WireVarint(Encode(n) + rest) == Some(Head(n, rest))
  {
    var d := Encode(n) + rest;
    assert d[0..|Encode(n)|] == Encode(n);
    ReadsBack(d, 0, n);
    SeventyBits();
    EncodedLength(n, 10);
    assert d[|Encode(n)|..] == rest;
  }

  lemma VarintReadsBack(n: nat, v: nat, rest: seq<Byte>)
    requires Writable(VarintField(n, v))
    ensures NextItem(SerializeField(VarintField(n, v)) + rest) == Some(Content(VarintField(n, v), rest))
  {
    var tail := Encode(v) + rest;
    assert SerializeField(VarintField(n, v)) + rest == Encode(8 * n) + tail;
    WireReadsBack(8 * n, tail);
    WireReadsBack(v, rest);
    assert 8 * n / 8 == n && 8 * n % 8 == 0;
  }

  lemma BytesReadBack(n: nat, b: seq<Byte>, rest: seq<Byte>)
    requires Writable(BytesField(n, b))
    ensures NextItem(SerializeField(BytesField(n, b)) + rest) == Some(Content(BytesField(n, b), rest))
  {
    hide WireVarint;
    var tail := Encode(|b|) + (b + rest);
    assert SerializeField(BytesField(n, b)) + rest == Encode(8 * n + 2) + tail;
    WireReadsBack(8 * n + 2, tail);
    WireReadsBack(|b|, b + rest);
    assert (b + rest)[..|b|] == b && (b + rest)[|b|..] == rest;
    assert (8 * n + 2) / 8 == n && (8 * n + 2) % 8 == 2;
  }

  lemma ItemReadsBack(field: Field, rest: seq<Byte>)
    requires Writable(field)
    ensures NextItem(SerializeField(field) + rest) == Some(Content(field, rest))
  {
    match field {
      case VarintField(n, v) => VarintReadsBack(n, v, rest);
      case BytesField(n, b) => BytesReadBack(n, b, rest);
    }
  }

  lemma ParseStep(field: Field, rest: seq<Byte>)
    requires Writable(field)
    ensures ParseFields(SerializeField(field) + rest, []) == Emit([], field, ParseFields(rest, []))
  {
    ItemReadsBack(field, rest);
    assert SerializeField(field) + rest != [];
  }

  lemma {:induction false} ParsesBackFields(fields: seq<Field>)
    requires forall i :: 0 <= i < |fields| ==> Writable(fields[i])
    ensures ParseFields(SerializeFields(fields), []) == Some(fields)
    decreases |fields|
  {
    if fields != [] {
      ParsesBackFields(fields[1..]);
      ParseStep(fields[0], SerializeFields(fields[1..]));
      assert fields == [fields[0]] + fields[1..];
    }
  }

  lemma SerializeTwo(a: Field, b: Field)
    requires Writable(a) && Writable(b)
    ensures SerializeFields([a, b]) == SerializeField(a) + SerializeField(b)
  {
    assert [a, b][1..] == [b];
    SerializeSingle(b);
  }

  lemma SerializeSingle(b: Field)
    requires Writable(b)
    ensures SerializeFields([b]) == SerializeField(b)
  {
    assert [b][1..] == [];
    assert SerializeField(b) + [] == SerializeField(b);
  }
}

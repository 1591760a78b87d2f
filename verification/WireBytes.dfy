/** Error records and envelopes byte by byte, as `beam_agents.proto` numbers their fields:
    what the serializer writes, and what a parser passes over.
 */
module WireBytes {
  import opened ErrorWire
  import opened Varint
  import opened WireFormat
  import opened Wrappers

  // ----- what is written -----

  /** A length-delimited field: its tag, its length, its bytes; nothing if it is empty. */
  function Delimited(tag: nat, b: seq<Byte>): seq<Byte> {
    if b == [] then [] else Encode(tag) + Encode(|b|) + b
  }

  /** An `int64`, in two's complement; nothing if it is zero. */
  function Signed64(tag: nat, t: int): seq<Byte>
    requires Int64(t)
  {
    if t == 0 then [] else Encode(tag) + Encode(if t > 0 then t else 0x1_0000_0000_0000_0000 + t)
  }

  lemma {:induction false} SerializeConcat(a: seq<Field>, b: seq<Field>)
    requires forall i :: 0 <= i < |a| ==> Writable(a[i])
    requires forall i :: 0 <= i < |b| ==> Writable(b[i])
    ensures forall i :: 0 <= i < |a + b| ==> Writable((a + b)[i])
    ensures SerializeFields(a + b) == SerializeFields(a) + SerializeFields(b)
    decreases |a|
  {
    hide SerializeField;
    if a == [] {
      assert a + b == b;
    } else {
      assert (a + b)[1..] == a[1..] + b;
      SerializeConcat(a[1..], b);
    }
  }

  lemma BytesPartIs(number: nat, b: seq<Byte>)
    requires 0 < number < 16 && |b| < MAX_MESSAGE
    ensures forall i :: 0 <= i < |BytesPart(number, b)| ==> Writable(BytesPart(number, b)[i])
    ensures SerializeFields(BytesPart(number, b)) == Delimited(8 * number + 2, b)
  {
    if b != [] {
      SerializeSingle(BytesField(number, b));
    }
  }

  lemma VarintPartIs(number: nat, t: int)
    requires 0 < number < 16 && Int64(t)
    ensures forall i :: 0 <= i < |VarintPart(number, Unsigned(t))| ==> Writable(VarintPart(number, Unsigned(t))[i])
    ensures SerializeFields(VarintPart(number, Unsigned(t))) == Signed64(8 * number, t)
  {
    if t != 0 {
      SerializeSingle(VarintField(number, Unsigned(t)));
    }
  }

  /** The records that can be written: texts are UTF-8, the time is an `int64`, and nothing
      is as long as 2 GiB. */
  lemma WritableRecords(r: ErrorRecord)
    ensures WellFormed(r) <==>
              && |r.entityKey| < 0x8000_0000 && |r.reason| < 0x8000_0000 && |r.detail| < 0x8000_0000
              && ValidUtf8(r.reason) && ValidUtf8(r.detail)
              && -0x8000_0000_0000_0000 <= r.eventTimeMs < 0x8000_0000_0000_0000
  {
    hide ValidUtf8;
  }

  /** A record: key, reason, detail, event time, numbered 1 to 4. */
  lemma RecordBytes(r: ErrorRecord)
    requires WellFormed(r)
    ensures SerializeRecord(r) ==
              Delimited(0x0A, r.entityKey) + Delimited(0x12, r.reason) + Delimited(0x1A, r.detail)
              + Signed64(0x20, r.eventTimeMs)
  {
    hide SerializeFields, BytesPart, VarintPart;
    var a, b, c := BytesPart(1, r.entityKey), BytesPart(2, r.reason), BytesPart(3, r.detail);
    var t := VarintPart(4, Unsigned(r.eventTimeMs));
    BytesPartIs(1, r.entityKey);
    BytesPartIs(2, r.reason);
    BytesPartIs(3, r.detail);
    VarintPartIs(4, r.eventTimeMs);
    SerializeConcat(a, b);
    SerializeConcat(a + b, c);
    SerializeConcat(a + b + c, t);
  }

  /** An envelope around an event: key, event time, and the event, present even if empty. */
  lemma EnvelopeBytes(entityKey: seq<Byte>, eventTimeMs: int, event: seq<Byte>)
    requires |entityKey| < MAX_MESSAGE && |event| < MAX_MESSAGE && Int64(eventTimeMs)
    ensures SerializeEnvelope(entityKey, eventTimeMs, event) ==
              Delimited(0x0A, entityKey) + Signed64(0x10, eventTimeMs) + (Encode(0x1A) + Encode(|event|) + event)
  {
    hide SerializeFields, BytesPart, VarintPart;
    var key, time, last := BytesPart(1, entityKey), VarintPart(2, Unsigned(eventTimeMs)), [BytesField(3, event)];
    BytesPartIs(1, entityKey);
    VarintPartIs(2, eventTimeMs);
    SerializeSingle(BytesField(3, event));
    SerializeConcat(key, time);
    SerializeConcat(key + time, last);
  }

  // ----- what is passed over -----

  /** A field of any number and type that neither message reads. */
  datatype Unknown =
    | Varint(number: nat, value: nat)
    | Fixed64(number: nat, image: seq<Byte>)
    | Fixed32(number: nat, image: seq<Byte>)
    | Group(number: nat)

  predicate OnTheWire(u: Unknown) {
    && 0 < u.number < 0x2000_0000
    && match u
       case Varint(_, value) => value < 0x1_0000_0000_0000_0000
       case Fixed64(_, image) => |image| == 8
       case Fixed32(_, image) => |image| == 4
       case Group(_) => true
  }

  /** Tag and contents; a group is an empty one, its two tags. */
  function BytesOf(u: Unknown): seq<Byte> {
    match u
    case Varint(n, value) => Encode(8 * n) + Encode(value)
    case Fixed64(n, image) => Encode(8 * n + 1) + image
    case Fixed32(n, image) => Encode(8 * n + 5) + image
    case Group(n) => Encode(8 * n + 3) + Encode(8 * n + 4)
  }

  lemma TagReads(n: nat, kind: nat, rest: seq<Byte>)
    requires 0 < n < 0x2000_0000 && kind < 8
    ensures WireVarint(Encode(8 * n + kind) + rest) == Some(Head(8 * n + kind, rest))
    ensures (8 * n + kind) / 8 == n && (8 * n + kind) % 8 == kind && 8 * n + kind < TWO_32
  {
    hide WireVarint, Encode;
    WireReadsBack(8 * n + kind, rest);
  }

  lemma VarintHead(n: nat, value: nat, rest: seq<Byte>)
    requires OnTheWire(Varint(n, value))
    ensures NextItem(BytesOf(Varint(n, value)) + rest) == Some(Content(VarintField(n, value), rest))
  {
    hide WireVarint, Encode;
    assert BytesOf(Varint(n, value)) + rest == Encode(8 * n + 0) + (Encode(value) + rest);
    TagReads(n, 0, Encode(value) + rest);
    WireReadsBack(value, rest);
  }

  lemma FixedHead(n: nat, kind: nat, image: seq<Byte>, rest: seq<Byte>)
    requires 0 < n < 0x2000_0000 && ((kind == 1 && |image| == 8) || (kind == 5 && |image| == 4))
    ensures NextItem(Encode(8 * n + kind) + image + rest) == Some(Content(FixedField(n, image), rest))
  {
    hide WireVarint, Encode;
    assert Encode(8 * n + kind) + image + rest == Encode(8 * n + kind) + (image + rest);
    TagReads(n, kind, image + rest);
    assert (image + rest)[..|image|] == image && (image + rest)[|image|..] == rest;
  }

  lemma GroupHead(n: nat, rest: seq<Byte>)
    requires 0 < n < 0x2000_0000
    ensures NextItem(Encode(8 * n + 3) + rest) == Some(GroupStart(n, rest))
    ensures NextItem(Encode(8 * n + 4) + rest) == Some(GroupEnd(n, rest))
  {
    hide WireVarint, Encode;
    TagReads(n, 3, rest);
    TagReads(n, 4, rest);
  }

  lemma HeadIs(u: Unknown, rest: seq<Byte>)
    requires OnTheWire(u)
    ensures NextItem(BytesOf(u) + rest) ==
              match u
              case Varint(n, value) => Some(Content(VarintField(n, value), rest))
              case Fixed64(n, image) => Some(Content(FixedField(n, image), rest))
              case Fixed32(n, image) => Some(Content(FixedField(n, image), rest))
              case Group(n) => Some(GroupStart(n, Encode(8 * n + 4) + rest))
  {
    hide NextItem, Encode;
    match u
    case Varint(n, value) => VarintHead(n, value, rest);
    case Fixed64(n, image) => FixedHead(n, 1, image, rest);
    case Fixed32(n, image) => FixedHead(n, 5, image, rest);
    case Group(n) =>
      assert BytesOf(u) + rest == Encode(8 * n + 3) + (Encode(8 * n + 4) + rest);
      GroupHead(n, Encode(8 * n + 4) + rest);
  }

  /** The field in front adds at most one parsed field; a group adds none. */
  lemma ParsesInFront(u: Unknown, rest: seq<Byte>)
    requires OnTheWire(u)
    ensures ParseFields(BytesOf(u) + rest, []) ==
              match ParseFields(rest, [])
              case None => None
              case Some(fields) =>
                match u
                case Varint(n, value) => Some([VarintField(n, value)] + fields)
                case Fixed64(n, image) => Some([FixedField(n, image)] + fields)
                case Fixed32(n, image) => Some([FixedField(n, image)] + fields)
                case Group(_) => Some(fields)
  {
    hide NextItem, Encode;
    HeadIs(u, rest);
    assert BytesOf(u) + rest != [] by {
      if BytesOf(u) + rest == [] {
        NothingIsNoItem();
      }
    }
    if u.Group? {
      GroupHead(u.number, rest);
      assert [u.number] + [] == [u.number] && [u.number][1..] == [];
      ClosesGroup(u.number, rest);
    }
  }

  lemma NothingIsNoItem()
    ensures NextItem([]) == None
  {
  }

  lemma ClosesGroup(n: nat, rest: seq<Byte>)
    requires NextItem(Encode(8 * n + 4) + rest) == Some(GroupEnd(n, rest))
    ensures ParseFields(Encode(8 * n + 4) + rest, [n]) == ParseFields(rest, [])
  {
    hide NextItem, Encode;
    if Encode(8 * n + 4) + rest == [] {
      NothingIsNoItem();
    }
    assert [n][1..] == [];
  }

  /** Any such field in front of a record that is not its event time leaves the record as
      it is. */
  lemma RecordPassesOver(u: Unknown, r: ErrorRecord)
    requires OnTheWire(u) && WellFormed(r) && (u.Varint? ==> u.number != 4 || r.eventTimeMs != 0)
    ensures DecodeRecord(BytesOf(u) + SerializeRecord(r)) == Some(r)
  {
    hide BytesOf, SerializeFields, RecordFields;
    ParsesBackFields(RecordFields(r));
    ParsesInFront(u, SerializeRecord(r));
    RecordOfFields(r);
    match u
    case Varint(n, value) => BehindOne(VarintField(n, value), RecordFields(r), r);
    case Fixed64(n, image) => BehindOne(FixedField(n, image), RecordFields(r), r);
    case Fixed32(n, image) => BehindOne(FixedField(n, image), RecordFields(r), r);
    case Group(_) =>
  }

  /** The text fields of the envelope's other payloads. */
  predicate IsText(payload: nat, number: nat) {
    || (payload == 4 && number in {1, 6})
    || (payload == 5 && number in {1, 3})
    || (payload == 6 && number == 1)
  }

  /** A payload message with one length-delimited field is refused exactly if that is a
      text field and not UTF-8. */
  lemma PayloadText(payload: nat, number: nat, b: seq<Byte>)
    requires 4 <= payload <= 6 && 0 < number < 0x2000_0000 && |b| < MAX_MESSAGE
    ensures VariantParses(BytesField(payload, SerializeFields([BytesField(number, b)]))) <==>
              (IsText(payload, number) ==> ValidUtf8(b))
  {
    hide ValidUtf8, SerializeFields, ParseFields, StringsValid;
    ParsesBackFields([BytesField(number, b)]);
    OneString(number, b, VariantStrings(payload));
  }

  /** A payload that is no message makes the whole envelope none; an event may hold any
      bytes, and so may a field the envelope does not know. */
  lemma PayloadMustParse(number: nat, b: seq<Byte>)
    requires 0 < number < 0x2000_0000 && |b| < MAX_MESSAGE && ParseFields(b, []).None?
    ensures ParseEnvelope(SerializeFields([BytesField(number, b)])) ==
              if number in {4, 5, 6} then None else Some(if number == 3 then ExternalEvent(b) else NoPayload)
  {
    hide SerializeFields, ParseFields;
    var fields := [BytesField(number, b)];
    ParsesBackFields(fields);
    OnePayload(fields[0]);
  }

  lemma OnePayload(field: Field)
    ensures VariantsParse([field]) <==> VariantParses(field)
    ensures LastPayload([field]) ==
              if !field.BytesField? || !(3 <= field.number <= 6) then NoPayload
              else if field.number == 3 then ExternalEvent(field.bytes)
              else OtherVariant
  {
    hide ParseFields;
    assert [field][1..] == [];
  }

  lemma OneString(number: nat, b: seq<Byte>, strings: set<nat>)
    ensures StringsValid([BytesField(number, b)], strings) <==> (number in strings ==> ValidUtf8(b))
  {
    hide ValidUtf8;
    assert [BytesField(number, b)][1..] == [];
  }

  lemma BehindOne(field: Field, fields: seq<Field>, r: ErrorRecord)
    requires !field.BytesField? && RecordOf(fields) == Some(r)
    requires field.VarintField? && field.number == 4 ==> LastVarint(fields, 4).Some?
    ensures RecordOf([field] + fields) == Some(r)
  {
    assert ([field] + fields)[1..] == fields;
  }
}

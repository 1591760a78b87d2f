/** Telling a bare error record from an enveloped one.

    `AgentEnvelope` and `ActivationErrorRecord` parse as each other: a field
    number carrying the wrong wire type is an unknown field, not an error. This
    module states when `DecodeOneError` recovers the record it was given.
 */
module ErrorWire {
  import opened Varint
  import opened WireFormat
  import opened Wrappers

  // ----- error records -----

  datatype ErrorRecord = ErrorRecord(
    entityKey: seq<Byte>, reason: seq<Byte>, detail: seq<Byte>, eventTimeMs: int)

  function RecordOf(fields: seq<Field>): Option<ErrorRecord> {
    if !StringsValid(fields, {2, 3}) then None
    else
      var time := LastVarint(fields, 4);
      Some(ErrorRecord(
             OrEmpty(LastBytes(fields, 1)), OrEmpty(LastBytes(fields, 2)), OrEmpty(LastBytes(fields, 3)),
             if time.Some? then Signed(time.value) else 0))
  }

  function DecodeRecord(d: seq<Byte>): Option<ErrorRecord> {
    match ParseFields(d, [])
    case None => None
    case Some(fields) => RecordOf(fields)
  }

  /** A record, accepted only when it names a reason. */
  function ParseErrorRecord(d: seq<Byte>): Option<ErrorRecord> {
    match DecodeRecord(d)
    case None => None
    case Some(record) => if record.reason == [] then None else Some(record)
  }

  // ----- envelopes -----

  datatype Payload = NoPayload | ExternalEvent(bytes: seq<Byte>) | OtherVariant

  /** The string fields of `ToolResult`, `Approval` and `StateExportRequest`. */
  function VariantStrings(number: nat): set<nat> {
    if number == 4 then {1, 6} else if number == 5 then {1, 3} else {1}
  }

  predicate VariantParses(field: Field) {
    field.BytesField? && 4 <= field.number <= 6 ==>
      match ParseFields(field.bytes, [])
      case None => false
      case Some(inner) => StringsValid(inner, VariantStrings(field.number))
  }

  predicate VariantsParse(fields: seq<Field>) {
    fields == [] || (VariantParses(fields[0]) && VariantsParse(fields[1..]))
  }

  /** The `oneof` keeps the last variant on the wire. */
  function LastPayload(fields: seq<Field>): Payload {
    if fields == [] then NoPayload
    else
      var later := LastPayload(fields[1..]);
      if later != NoPayload || !fields[0].BytesField? || !(3 <= fields[0].number <= 6) then later
      else if fields[0].number == 3 then ExternalEvent(fields[0].bytes)
      else OtherVariant
  }

  function ParseEnvelope(d: seq<Byte>): Option<Payload> {
    match ParseFields(d, [])
    case None => None
    case Some(fields) =>
      if VariantsParse(fields) then Some(LastPayload(fields)) else None
  }

  /** The envelope is tried first, and accepted only when its event is a record
      that names a reason. */
  function DecodeOneError(d: seq<Byte>): Option<ErrorRecord> {
    match ParseEnvelope(d)
    case Some(ExternalEvent(bytes)) =>
      var wrapped := ParseErrorRecord(bytes);
      if wrapped.Some? then wrapped else ParseErrorRecord(d)
    case _ => ParseErrorRecord(d)
  }

  // ----- serialization -----

  predicate WellFormed(r: ErrorRecord) {
    && |r.entityKey| < MAX_MESSAGE && |r.reason| < MAX_MESSAGE && |r.detail| < MAX_MESSAGE
    && ValidUtf8(r.reason) && ValidUtf8(r.detail)
    && Int64(r.eventTimeMs)
  }

  function RecordFields(r: ErrorRecord): (fields: seq<Field>)
    requires WellFormed(r)
    ensures forall i :: 0 <= i < |fields| ==> Writable(fields[i])
  {
    BytesPart(1, r.entityKey) + BytesPart(2, r.reason) + BytesPart(3, r.detail)
    + VarintPart(4, Unsigned(r.eventTimeMs))
  }

  function SerializeRecord(r: ErrorRecord): seq<Byte>
    requires WellFormed(r)
  {
    SerializeFields(RecordFields(r))
  }

  /** The bus form. A set `oneof` bytes variant is written even when it is empty. */
  function SerializeEnvelope(entityKey: seq<Byte>, eventTimeMs: int, event: seq<Byte>): seq<Byte>
    requires |entityKey| < MAX_MESSAGE && |event| < MAX_MESSAGE
    requires Int64(eventTimeMs)
  {
    SerializeFields(
      BytesPart(1, entityKey) + VarintPart(2, Unsigned(eventTimeMs)) + [BytesField(3, event)])
  }

  // ----- what a serialized record parses to -----

  lemma {:induction false} LastOfConcat(a: seq<Field>, b: seq<Field>, n: nat)
    ensures LastBytes(a + b, n) == if LastBytes(b, n).Some? then LastBytes(b, n) else LastBytes(a, n)
    ensures LastVarint(a + b, n) == if LastVarint(b, n).Some? then LastVarint(b, n) else LastVarint(a, n)
    ensures LastPayload(a + b) == if LastPayload(b) != NoPayload then LastPayload(b) else LastPayload(a)
    decreases |a|
  {
    if a == [] {
      assert a + b == b;
    } else {
      assert (a + b)[1..] == a[1..] + b;
      LastOfConcat(a[1..], b, n);
    }
  }

  lemma {:induction false} ChecksOfConcat(a: seq<Field>, b: seq<Field>, strings: set<nat>)
    ensures StringsValid(a + b, strings) <==> StringsValid(a, strings) && StringsValid(b, strings)
    ensures VariantsParse(a + b) <==> VariantsParse(a) && VariantsParse(b)
    decreases |a|
  {
    if a == [] {
      assert a + b == b;
    } else {
      assert (a + b)[1..] == a[1..] + b;
      ChecksOfConcat(a[1..], b, strings);
    }
  }

  /** The checks a serialized record passes, under either message type. */
  lemma RecordChecks(r: ErrorRecord)
    requires WellFormed(r)
    ensures StringsValid(RecordFields(r), {2, 3}) && VariantsParse(RecordFields(r))
  {
    var a, b, c := BytesPart(1, r.entityKey), BytesPart(2, r.reason), BytesPart(3, r.detail);
    ChecksOfConcat(a + b + c, VarintPart(4, Unsigned(r.eventTimeMs)), {2, 3});
    ChecksOfConcat(a + b, c, {2, 3});
    ChecksOfConcat(a, b, {2, 3});
  }

  lemma LastOfParts(n: nat, number: nat, b: seq<Byte>, v: nat)
    ensures LastBytes(BytesPart(number, b), n) == if b != [] && n == number then Some(b) else None
    ensures LastBytes(VarintPart(number, v), n) == None
    ensures LastVarint(VarintPart(number, v), n) == if v != 0 && n == number then Some(v) else None
    ensures LastVarint(BytesPart(number, b), n) == None
    ensures LastPayload(BytesPart(number, b)) ==
              if b == [] || !(3 <= number <= 6) then NoPayload
              else if number == 3 then ExternalEvent(b) else OtherVariant
    ensures LastPayload(VarintPart(number, v)) == NoPayload
  {
    assert [BytesField(number, b)][1..] == [] && [VarintField(number, v)][1..] == [];
  }

  /** Reading field `n` out of a serialized record. */
  lemma RecordFieldsRead(r: ErrorRecord, n: nat)
    requires WellFormed(r)
    ensures var fields := RecordFields(r);
            && OrEmpty(LastBytes(fields, n)) == (if n == 1 then r.entityKey else if n == 2 then r.reason
                                                 else if n == 3 then r.detail else [])
            && LastVarint(fields, 4) == (if r.eventTimeMs == 0 then None else Some(Unsigned(r.eventTimeMs)))
            && LastPayload(fields) == (if r.detail == [] then NoPayload else ExternalEvent(r.detail))
  {
    var a, b, c := BytesPart(1, r.entityKey), BytesPart(2, r.reason), BytesPart(3, r.detail);
    var v := Unsigned(r.eventTimeMs);
    var t := VarintPart(4, v);
    forall k | k == n || k == 4
      ensures LastBytes(a + b + c + t, k) == if LastBytes(c, k).Some? then LastBytes(c, k)
                                             else if LastBytes(b, k).Some? then LastBytes(b, k)
                                             else LastBytes(a, k)
      ensures LastVarint(a + b + c + t, k) == LastVarint(t, k)
      ensures LastPayload(a + b + c + t) == LastPayload(c)
    {
      LastOfConcat(a + b + c, t, k);
      LastOfConcat(a + b, c, k);
      LastOfConcat(a, b, k);
      LastOfParts(k, 1, r.entityKey, v);
      LastOfParts(k, 2, r.reason, v);
      LastOfParts(k, 3, r.detail, v);
      LastOfParts(k, 4, [], v);
    }
    LastOfParts(n, 1, r.entityKey, v);
    LastOfParts(n, 2, r.reason, v);
    LastOfParts(n, 3, r.detail, v);
    LastOfParts(4, 4, [], v);
  }

  lemma RecordOfFields(r: ErrorRecord)
    requires WellFormed(r)
    ensures RecordOf(RecordFields(r)) == Some(r)
  {
    RecordChecks(r);
    RecordFieldsRead(r, 1);
    RecordFieldsRead(r, 2);
    RecordFieldsRead(r, 3);
  }

  lemma RecordRoundTrip(r: ErrorRecord)
    requires WellFormed(r)
    ensures DecodeRecord(SerializeRecord(r)) == Some(r)
    ensures ParseErrorRecord(SerializeRecord(r)) == if r.reason == [] then None else Some(r)
  {
    ParsesBackFields(RecordFields(r));
    RecordOfFields(r);
  }

  // ----- what each form decodes to -----

  /** An enveloped record decodes to the record it wraps, if that names a reason. */
  lemma EnvelopedDecodes(entityKey: seq<Byte>, eventTimeMs: int, r: ErrorRecord)
    requires WellFormed(r) && |SerializeRecord(r)| < MAX_MESSAGE
    requires |entityKey| < MAX_MESSAGE && Int64(eventTimeMs)
    ensures DecodeOneError(SerializeEnvelope(entityKey, eventTimeMs, SerializeRecord(r))) ==
              if r.reason == [] then None else Some(r)
  {
    hide SerializeEnvelope, SerializeRecord, ParseErrorRecord, ParseEnvelope;
    EnvelopeReads(entityKey, eventTimeMs, SerializeRecord(r));
    EnvelopeIsNoRecord(entityKey, eventTimeMs, SerializeRecord(r));
    RecordRoundTrip(r);
  }

  /** An envelope read as a record names no reason: its event time has the wrong type. */
  lemma EnvelopeIsNoRecord(entityKey: seq<Byte>, eventTimeMs: int, event: seq<Byte>)
    requires |entityKey| < MAX_MESSAGE && |event| < MAX_MESSAGE && Int64(eventTimeMs)
    ensures ParseErrorRecord(SerializeEnvelope(entityKey, eventTimeMs, event)).None?
  {
    var key, time, last := BytesPart(1, entityKey), VarintPart(2, Unsigned(eventTimeMs)), [BytesField(3, event)];
    ParsesBackFields(key + time + last);
    LastOfConcat(key, time, 2);
    LastOfConcat(key + time, last, 2);
    assert last[1..] == [];
  }

  lemma EnvelopeReads(entityKey: seq<Byte>, eventTimeMs: int, event: seq<Byte>)
    requires |entityKey| < MAX_MESSAGE && |event| < MAX_MESSAGE && Int64(eventTimeMs)
    ensures ParseEnvelope(SerializeEnvelope(entityKey, eventTimeMs, event)) == Some(ExternalEvent(event))
  {
    var front := BytesPart(1, entityKey) + VarintPart(2, Unsigned(eventTimeMs));
    var last := [BytesField(3, event)];
    ParsesBackFields(front + last);
    LastOfConcat(front, last, 3);
    ChecksOfConcat(BytesPart(1, entityKey), VarintPart(2, Unsigned(eventTimeMs)), {});
    ChecksOfConcat(front, last, {});
    assert last[1..] == [];
  }

  /** What a bare record decodes to, for every well-formed record. */
  lemma BareDecodesTo(r: ErrorRecord)
    requires WellFormed(r)
    ensures DecodeOneError(SerializeRecord(r)) ==
              if ParseErrorRecord(r.detail).Some? then ParseErrorRecord(r.detail)
              else if r.reason == [] then None
              else Some(r)
  {
    ParsesBackFields(RecordFields(r));
    RecordChecks(r);
    RecordFieldsRead(r, 3);
    RecordRoundTrip(r);
    NoRecordInNothing();
  }

  lemma NoRecordInNothing()
    ensures ParseErrorRecord([]).None?
  {
    assert ParseFields([], []) == Some([]);
  }

  lemma {:induction false} LastBytesIsAField(fields: seq<Field>, n: nat)
    ensures LastBytes(fields, n).Some? ==> BytesField(n, LastBytes(fields, n).value) in fields
    decreases |fields|
  {
    if fields != [] {
      LastBytesIsAField(fields[1..], n);
    }
  }

  /** A bare record decodes to itself exactly when its `detail` is not itself the
      encoding of a record that names a reason. */
  lemma BareDecodesIff(r: ErrorRecord)
    requires WellFormed(r) && r.reason != []
    ensures DecodeOneError(SerializeRecord(r)) == Some(r) <==> ParseErrorRecord(r.detail).None?
  {
    BareDecodesTo(r);
    if ParseErrorRecord(r.detail).Some? {
      var inner := ParseErrorRecord(r.detail).value;
      var fields := ParseFields(r.detail, []).value;
      LastBytesIsAField(fields, 3);
      assert |inner.detail| < |r.detail|;
    }
  }

  /** The exception occurs: the detail of this record is the encoding of another. */
  lemma ShadowedRecord(entityKey: seq<Byte>, time: int)
    requires |entityKey| < MAX_MESSAGE && Int64(time)
    ensures var inner := ErrorRecord([], [0x65], [], 0);
            var r := ErrorRecord(entityKey, [0x66], [0x12, 0x01, 0x65], time);
            && WellFormed(inner) && SerializeRecord(inner) == r.detail
            && WellFormed(r) && DecodeOneError(SerializeRecord(r)) == Some(inner)
  {
    var inner := ErrorRecord([], [0x65], [], 0);
    var r := ErrorRecord(entityKey, [0x66], [0x12, 0x01, 0x65], time);
    AsciiIsUtf8(inner.reason);
    AsciiIsUtf8(r.reason);
    AsciiIsUtf8(r.detail);
    assert RecordFields(inner) == [BytesField(2, [0x65])];
    assert SerializeField(BytesField(2, [0x65])) == r.detail;
    RecordRoundTrip(inner);
    BareDecodesTo(r);
  }
}

/** Batches of error records: when the whole of a framed batch is taken for one record. */
module ErrorBatches {
  import opened ErrorWire
  import opened Framing
  import opened Varint
  import opened WireFormat
  import opened Wrappers

  /** How a record travels: as itself, or in the bus envelope of the errors sink. */
  datatype Form = Bare | Enveloped(entityKey: seq<Byte>, eventTimeMs: int)

  datatype Sent = Sent(record: ErrorRecord, form: Form)

  predicate Sendable(s: Sent) {
    && WellFormed(s.record)
    && (s.form.Enveloped? ==>
          && |SerializeRecord(s.record)| < MAX_MESSAGE
          && |s.form.entityKey| < MAX_MESSAGE && Int64(s.form.eventTimeMs))
  }

  function BodyOf(s: Sent): seq<Byte>
    requires Sendable(s)
  {
    match s.form
    case Bare => SerializeRecord(s.record)
    case Enveloped(entityKey, eventTimeMs) => SerializeEnvelope(entityKey, eventTimeMs, SerializeRecord(s.record))
  }

  function SentBodies(batch: seq<Sent>): seq<seq<Byte>>
    requires forall i :: 0 <= i < |batch| ==> Sendable(batch[i])
  {
    seq(|batch|, i requires 0 <= i < |batch| => BodyOf(batch[i]))
  }

  function RecordsOf(batch: seq<Sent>): seq<ErrorRecord> {
    seq(|batch|, i requires 0 <= i < |batch| => batch[i].record)
  }

  /** The record names a reason and, if it travels bare, its detail is no such record. */
  ghost predicate Recognised(s: Sent) {
    s.record.reason != [] && (s.form.Bare? ==> ParseErrorRecord(s.record.detail).None?)
  }

  lemma SentDecodesIff(s: Sent)
    requires Sendable(s)
    ensures DecodeOneError(BodyOf(s)) == Some(s.record) <==> Recognised(s)
  {
    hide SerializeRecord, SerializeEnvelope, DecodeOneError, DecodeRecord;
    match s.form
    case Bare =>
      BareDecodesTo(s.record);
      if s.record.reason != [] {
        BareDecodesIff(s.record);
      }
    case Enveloped(entityKey, eventTimeMs) =>
      EnvelopedDecodes(entityKey, eventTimeMs, s.record);
  }

  /** A framed batch, of bare records, enveloped ones or both, decodes to its records
      exactly when each is recognised by itself and the batch as a whole is not taken for
      one record, or when it is taken for its only record. */
  lemma BatchDecodesIff(batch: seq<Sent>)
    requires forall i :: 0 <= i < |batch| ==> Sendable(batch[i])
    ensures var payload := Frames(SentBodies(batch));
            BatchOutcome(payload, DecodeOneError) == Decoded(RecordsOf(batch)) <==>
              match DecodeOneError(payload)
              case Some(single) => RecordsOf(batch) == [single]
              case None => forall i :: 0 <= i < |batch| ==> Recognised(batch[i])
  {
    hide DecodeOneError, BodyOf, Recognised, Sendable, BatchOutcome, Frames;
    var bodies, records := SentBodies(batch), RecordsOf(batch);
    if batch == [] {
      EmptyBatch();
      assert bodies == [] && records == [];
    } else {
      WholeBatch(bodies, DecodeOneError);
      forall i | 0 <= i < |batch|
        ensures DecodeOneError(bodies[i]) == Some(records[i]) <==> Recognised(batch[i])
      {
        SentDecodesIff(batch[i]);
      }
      EachDecodesIff(bodies, records);
    }
  }

  lemma EmptyBatch()
    ensures Frames([]) == [] && DecodeOneError([]) == None && BatchOutcome([], DecodeOneError) == Decoded([])
  {
    NoRecordInNothing();
    assert ParseFields([], []) == Some([]);
  }

  lemma EachDecodesIff(bodies: seq<seq<Byte>>, records: seq<ErrorRecord>)
    requires |bodies| == |records|
    ensures ParseEach(bodies, DecodeOneError) == Some(records) <==>
              forall i :: 0 <= i < |bodies| ==> DecodeOneError(bodies[i]) == Some(records[i])
  {
    hide DecodeOneError;
    if forall i :: 0 <= i < |bodies| ==> DecodeOneError(bodies[i]) == Some(records[i]) {
      ParsesBack(bodies, records, DecodeOneError);
    }
  }

  // ----- lengths that begin no field -----

  /** As the first varint of a message this is no tag, or closes a group never opened. */
  predicate BeginsNoField(length: nat) {
    length < 8 || length >= TWO_32 || length % 8 == 4 || length % 8 >= 6
  }

  /** A batch whose first frame has such a length is never taken for one record. */
  lemma FallsThrough(batch: seq<Sent>)
    requires batch != [] && forall i :: 0 <= i < |batch| ==> Sendable(batch[i])
    requires BeginsNoField(|BodyOf(batch[0])|)
    ensures BatchOutcome(Frames(SentBodies(batch)), DecodeOneError) == Decoded(RecordsOf(batch)) <==>
              forall i :: 0 <= i < |batch| ==> Recognised(batch[i])
  {
    hide DecodeOneError, BodyOf, Recognised, Sendable, BatchOutcome, Frames, BeginsNoField;
    var bodies := SentBodies(batch);
    var body := bodies[0];
    BodyIsShort(batch[0]);
    NotOneRecord(body, Frames(bodies[1..]));
    FramesStep(bodies);
    BatchDecodesIff(batch);
  }

  lemma FramesStep(bodies: seq<seq<Byte>>)
    requires bodies != []
    ensures Frames(bodies) == Encode(|bodies[0]|) + (bodies[0] + Frames(bodies[1..]))
  {
    hide Encode;
  }

  lemma NotOneRecord(body: seq<Byte>, rest: seq<Byte>)
    requires BeginsNoField(|body|) && |body| < TWO_64
    ensures DecodeOneError(Encode(|body|) + (body + rest)).None?
  {
    hide WireVarint, Encode, BeginsNoField, ParseFields;
    WireReadsBack(|body|, body + rest);
    NoFieldThere(Encode(|body|) + (body + rest));
  }

  lemma NoFieldThere(d: seq<Byte>)
    requires WireVarint(d).Some? && BeginsNoField(WireVarint(d).value.value)
    ensures ParseFields(d, []).None?
  {
    hide WireVarint, ParseFields;
    var Head(length, rest) := WireVarint(d).value;
    assert NextItem(d) == None || NextItem(d) == Some(GroupEnd(length / 8, rest));
    NothingThere(d);
  }

  lemma NothingThere(d: seq<Byte>)
    requires NextItem(d).None? || NextItem(d).value.GroupEnd?
    ensures d != [] ==> ParseFields(d, []).None?
  {
    hide NextItem;
  }

  lemma BodyIsShort(s: Sent)
    requires Sendable(s)
    ensures |BodyOf(s)| < TWO_64
  {
    hide SerializeFields;
    match s.form
    case Bare => FieldsAreShort(RecordFields(s.record));
    case Enveloped(entityKey, eventTimeMs) =>
      var event := SerializeRecord(s.record);
      FieldsAreShort(BytesPart(1, entityKey) + VarintPart(2, Unsigned(eventTimeMs)) + [BytesField(3, event)]);
  }

  lemma {:induction false} FieldsAreShort(fields: seq<Field>)
    requires forall i :: 0 <= i < |fields| ==> Writable(fields[i])
    ensures |SerializeFields(fields)| <= |fields| * (MAX_MESSAGE + 20)
    decreases |fields|
  {
    hide SerializeField;
    if fields != [] {
      FieldIsShort(fields[0]);
      FieldsAreShort(fields[1..]);
    }
  }

  lemma FieldIsShort(field: Field)
    requires Writable(field)
    ensures |SerializeField(field)| <= MAX_MESSAGE + 20
  {
    hide Encode;
    SeventyBits();
    match field {
      case VarintField(n, v) =>
        EncodedLength(8 * n, 10);
        EncodedLength(v, 10);
      case BytesField(n, b) =>
        EncodedLength(8 * n + 2, 10);
        EncodedLength(|b|, 10);
    }
  }

  // ----- lengths that begin one -----

  /** The frame length reads as the tag of a ten-byte field, the record's own first tag as
      its length: a record with a nine-byte key, framed alone, loses it. The field is
      unknown, or is `reason` or `detail` in an earlier version than the record's own. */
  lemma NineByteKeyIsLost(r: ErrorRecord)
    requires WellFormed(r) && Recognised(Sent(r, Bare)) && |r.entityKey| == 9
    requires var n := |SerializeRecord(r)|;
             && 16 <= n < 128 && n % 8 == 2
             && (n < 32 ==> ValidUtf8([9] + r.entityKey)) && (n == 26 ==> r.detail != [])
    ensures BatchOutcome(Frames(SentBodies([Sent(r, Bare)])), DecodeOneError) == Decoded([r.(entityKey := [])])
  {
    hide SerializeFields, RecordFields, Frames, DecodeOneError, WellFormed;
    var n := |SerializeRecord(r)|;
    var longer := BytesField(n / 8, [9] + r.entityKey);
    assert SentBodies([Sent(r, Bare)]) == [SerializeRecord(r)];
    FramedAlone(r, longer);
    FramesOfOne(SerializeRecord(r));
    KeylessDecodes(longer, r.(entityKey := []));
  }

  lemma FramedAlone(r: ErrorRecord, longer: Field)
    requires WellFormed(r) && |r.entityKey| == 9 && 8 <= |SerializeRecord(r)| < 128 && |SerializeRecord(r)| % 8 == 2
    requires longer == BytesField(|SerializeRecord(r)| / 8, [9] + r.entityKey)
    ensures WellFormed(r.(entityKey := []))
    ensures Frames([SerializeRecord(r)]) == SerializeFields([longer] + RecordFields(r.(entityKey := [])))
  {
    hide Frames, SerializeField;
    var n, key, keyless := |SerializeRecord(r)|, BytesField(1, r.entityKey), RecordFields(r.(entityKey := []));
    assert RecordFields(r) == [key] + keyless;
    assert ([key] + keyless)[1..] == keyless && ([longer] + keyless)[1..] == keyless;
    LengthAsTag(r.entityKey, n);
    FramesOfOne(SerializeRecord(r));
    assert [n] + (SerializeField(key) + SerializeFields(keyless)) == SerializeField(longer) + SerializeFields(keyless);
  }

  lemma LengthAsTag(key: seq<Byte>, n: nat)
    requires |key| == 9 && 8 <= n < 128 && n % 8 == 2
    ensures SerializeField(BytesField(n / 8, [9] + key)) == [n] + SerializeField(BytesField(1, key))
  {
    hide SerializeField;
    OneByteHead(n, [9] + key);
    OneByteHead(10, key);
    assert [n, 10] + ([9] + key) == [n] + ([10, 9] + key);
  }

  /** A short field: one byte of tag, one of length. */
  lemma OneByteHead(tag: nat, b: seq<Byte>)
    requires 8 <= tag < 128 && tag % 8 == 2 && |b| < 128
    ensures SerializeField(BytesField(tag / 8, b)) == [tag, |b|] + b
  {
    assert 8 * (tag / 8) + 2 == tag;
    assert Encode(tag) + Encode(|b|) == [tag, |b|];
  }

  lemma FramesOfOne(body: seq<Byte>)
    requires |body| < 128
    ensures Frames([body]) == [|body|] + body
  {
    assert Frames([body][1..]) == [];
    assert Frame(body) + [] == Frame(body);
  }

  /** The fields the record after it overrides or does not know. */
  predicate Overridden(longer: Field, q: ErrorRecord) {
    && Writable(longer) && longer.BytesField? && longer.number >= 2
    && (longer.number <= 3 ==> ValidUtf8(longer.bytes))
    && (longer.number == 3 ==> q.detail != [])
  }

  lemma ReadsBehind(longer: Field, q: ErrorRecord, n: nat)
    requires WellFormed(q) && q.reason != [] && Overridden(longer, q) && 1 <= n <= 4
    ensures var fields := [longer] + RecordFields(q);
            && (n < 4 ==> OrEmpty(LastBytes(fields, n)) == OrEmpty(LastBytes(RecordFields(q), n)))
            && LastVarint(fields, n) == LastVarint(RecordFields(q), n)
            && LastPayload(fields) ==
                 (if q.detail != [] then ExternalEvent(q.detail)
                  else if 4 <= longer.number <= 6 then OtherVariant else NoPayload)
  {
    hide RecordFields, ValidUtf8, WellFormed;
    assert [longer][1..] == [];
    LastOfConcat([longer], RecordFields(q), n);
    RecordFieldsRead(q, n);
  }

  lemma ChecksBehind(longer: Field, q: ErrorRecord)
    requires WellFormed(q) && Overridden(longer, q)
    ensures StringsValid([longer] + RecordFields(q), {2, 3})
  {
    hide RecordFields, ValidUtf8, WellFormed;
    assert [longer][1..] == [];
    RecordChecks(q);
    ChecksOfConcat([longer], RecordFields(q), {2, 3});
  }

  lemma ReadsAsRecord(longer: Field, q: ErrorRecord)
    requires WellFormed(q) && q.reason != [] && Overridden(longer, q)
    ensures RecordOf([longer] + RecordFields(q)) == Some(q)
  {
    hide RecordFields, Overridden, LastBytes, LastVarint, LastPayload, StringsValid;
    ChecksBehind(longer, q);
    ReadsBehind(longer, q, 1);
    ReadsBehind(longer, q, 2);
    ReadsBehind(longer, q, 3);
    ReadsBehind(longer, q, 4);
    RecordFieldsRead(q, 1);
    RecordFieldsRead(q, 2);
    RecordFieldsRead(q, 3);
  }

  lemma KeylessDecodes(longer: Field, q: ErrorRecord)
    requires WellFormed(q) && Recognised(Sent(q, Bare)) && Overridden(longer, q)
    ensures DecodeOneError(SerializeFields([longer] + RecordFields(q))) == Some(q)
  {
    hide RecordFields, SerializeFields, Overridden, WellFormed, RecordOf, LastPayload, VariantsParse;
    Writes(longer, q);
    ParsesBackFields([longer] + RecordFields(q));
    ReadsAsRecord(longer, q);
    ReadsBehind(longer, q, 1);
  }

  lemma Writes(longer: Field, q: ErrorRecord)
    requires Overridden(longer, q)
    ensures Writable(longer)
  {
  }

  /** It happens: with a five-byte reason, nothing else and a key of ASCII letters. */
  lemma BatchTakenForOneRecord(key: seq<Byte>, reason: seq<Byte>)
    requires |key| == 9 && forall i :: 0 <= i < 9 ==> key[i] <= 0x7F
    requires |reason| == 5 && forall i :: 0 <= i < 5 ==> reason[i] <= 0x7F
    ensures var r := ErrorRecord(key, reason, [], 0);
            && Sendable(Sent(r, Bare)) && Recognised(Sent(r, Bare))
            && BatchOutcome(Frames(SentBodies([Sent(r, Bare)])), DecodeOneError)
               == Decoded([ErrorRecord([], reason, [], 0)])
  {
    hide BatchOutcome, Frames, SentBodies, SerializeRecord;
    var r := ErrorRecord(key, reason, [], 0);
    AsciiIsUtf8(reason);
    AsciiIsUtf8([9] + key);
    NoRecordInNothing();
    ShortRecord(r);
    NineByteKeyIsLost(r);
  }

  lemma ShortRecord(r: ErrorRecord)
    requires WellFormed(r) && |r.entityKey| == 9 && |r.reason| == 5 && r.detail == [] && r.eventTimeMs == 0
    ensures |SerializeRecord(r)| == 18
  {
    assert RecordFields(r) == [BytesField(1, r.entityKey), BytesField(2, r.reason)];
    SerializeTwo(BytesField(1, r.entityKey), BytesField(2, r.reason));
  }
}

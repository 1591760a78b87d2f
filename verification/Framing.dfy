/** Varint-length-delimited framing: the batch writer, the splitter that
    recovers the complete frames of any byte string, and the two decoders that
    run on top of it.

    A message is represented by its serialized body; serializing and parsing one
    message are parameters (`serialize`, `parse`, `decodeOne`).
 */
module Framing {
  import opened Varint
  import opened Wrappers

  datatype Bound = Bound(start: nat, end: nat)

  datatype Outcome<T> =
    | Decoded(records: seq<T>)
    | Truncated(recordsRead: nat, records: seq<T>)
    | Malformed

  // ----- writing -----

  function Frame(body: seq<Byte>): seq<Byte> {
    Encode(|body|) + body
  }

  function Frames(bodies: seq<seq<Byte>>): seq<Byte> {
    if bodies == [] then [] else Frame(bodies[0]) + Frames(bodies[1..])
  }

  lemma {:induction false} FramesAppend(a: seq<seq<Byte>>, b: seq<seq<Byte>>)
    ensures Frames(a + b) == Frames(a) + Frames(b)
    decreases |a|
  {
    if a == [] {
      assert a + b == b;
    } else {
      assert (a + b)[1..] == a[1..] + b;
      FramesAppend(a[1..], b);
    }
  }

  method FrameRecords<M>(messages: seq<M>, serialize: M -> seq<Byte>) returns (out: seq<Byte>)
    ensures out == Frames(Bodies(messages, serialize))
  {
    out := [];
    var bodies := Bodies(messages, serialize);
    assert bodies[..0] == [];
    for i := 0 to |messages|
      invariant out == Frames(bodies[..i])
    {
      var payload := serialize(messages[i]);
      var header := WriteVarint(|payload|);
      out := out + (header + payload);
      assert bodies[..i + 1] == bodies[..i] + [bodies[i]];
      FramesAppend(bodies[..i], [bodies[i]]);
      assert Frames([bodies[i]]) == Frame(bodies[i]);
    }
    assert bodies[..|messages|] == bodies;
  }

  function Bodies<M>(messages: seq<M>, serialize: M -> seq<Byte>): seq<seq<Byte>> {
    seq(|messages|, i requires 0 <= i < |messages| => serialize(messages[i]))
  }

  // ----- splitting -----

  function BoundsFrom(p: seq<Byte>, offset: nat): (bounds: seq<Bound>)
    ensures forall i :: 0 <= i < |bounds| ==> bounds[i].start <= bounds[i].end <= |p|
    decreases |p| - offset
  {
    if offset >= |p| then []
    else
      match ReadFrom(p, offset)
      case CutShort => []
      case Read(length, bodyStart) =>
        if bodyStart + length > |p| then []
        else [Bound(bodyStart, bodyStart + length)] + BoundsFrom(p, bodyStart + length)
  }

  function FramesEnd(bounds: seq<Bound>): nat {
    if bounds == [] then 0 else bounds[|bounds| - 1].end
  }

  /** The bodies that `bounds` delimits in `p`. */
  function Slices(p: seq<Byte>, bounds: seq<Bound>): (bodies: seq<seq<Byte>>)
    requires forall i :: 0 <= i < |bounds| ==> bounds[i].start <= bounds[i].end <= |p|
    ensures |bodies| == |bounds|
    ensures forall i :: 0 <= i < |bounds| ==> bodies[i] == p[bounds[i].start..bounds[i].end]
  {
    if bounds == [] then []
    else [p[bounds[0].start..bounds[0].end]] + Slices(p, bounds[1..])
  }

  method FrameBounds(p: seq<Byte>) returns (bounds: seq<Bound>)
    ensures bounds == BoundsFrom(p, 0)
  {
    bounds := [];
    var offset: nat := 0;
    while offset < |p|
      invariant bounds + BoundsFrom(p, offset) == BoundsFrom(p, 0)
      decreases |p| - offset
    {
      var reading := ReadVarint(p, offset);
      if reading.CutShort? {
        return;
      }
      var end := reading.next + reading.value;
      if end > |p| {
        return;
      }
      bounds := bounds + [Bound(reading.next, end)];
      offset := end;
    }
  }

  /** Frames follow one another without a gap: each header, read where the
      previous frame ended, declares exactly the body that follows it. */
  ghost predicate TilesFrom(p: seq<Byte>, bounds: seq<Bound>, from: nat) {
    bounds == [] ||
    (&& bounds[0].start <= bounds[0].end <= |p|
     && ReadFrom(p, from) == Read(bounds[0].end - bounds[0].start, bounds[0].start)
     && TilesFrom(p, bounds[1..], bounds[0].end))
  }

  function EndFrom(bounds: seq<Bound>, from: nat): nat {
    if bounds == [] then from else bounds[|bounds| - 1].end
  }

  ghost predicate NoCompleteFrameAt(p: seq<Byte>, at: nat) {
    match ReadFrom(p, at)
    case CutShort => true
    case Read(length, bodyStart) => bodyStart + length > |p|
  }

  /** The splitter is the only tiling that stops where no complete frame starts. */
  lemma BoundsCharacterised(p: seq<Byte>, bounds: seq<Bound>)
    ensures bounds == BoundsFrom(p, 0) <==>
              TilesFrom(p, bounds, 0) && NoCompleteFrameAt(p, FramesEnd(bounds))
  {
    CharacterisedFrom(p, bounds, 0);
  }

  lemma NoFrameThere(p: seq<Byte>, from: nat)
    ensures BoundsFrom(p, from) == [] <==> NoCompleteFrameAt(p, from)
  {
  }

  lemma FirstBound(p: seq<Byte>, bounds: seq<Bound>, from: nat)
    requires bounds != []
    ensures var b := bounds[0];
            bounds == BoundsFrom(p, from) <==>
              && b.start <= b.end <= |p| && ReadFrom(p, from) == Read(b.end - b.start, b.start)
              && bounds[1..] == BoundsFrom(p, b.end)
  {
    hide ReadFrom;
    assert bounds == [bounds[0]] + bounds[1..];
    if bounds == BoundsFrom(p, from) {
      assert BoundsFrom(p, from)[1..] == bounds[1..];
    }
  }

  lemma {:induction false} CharacterisedFrom(p: seq<Byte>, bounds: seq<Bound>, from: nat)
    ensures bounds == BoundsFrom(p, from) <==>
              TilesFrom(p, bounds, from) && NoCompleteFrameAt(p, EndFrom(bounds, from))
    decreases |bounds|
  {
    if bounds == [] {
      NoFrameThere(p, from);
    } else {
      var b, rest := bounds[0], bounds[1..];
      CharacterisedFrom(p, rest, b.end);
      assert EndFrom(rest, b.end) == EndFrom(bounds, from);
      FirstBound(p, bounds, from);
    }
  }

  /** Bytes that arrive later never change the frames already found. */
  lemma BoundsArePrefix(p: seq<Byte>, q: seq<Byte>)
    ensures BoundsFrom(p, 0) <= BoundsFrom(p + q, 0)
  {
    PrefixFrom(p, q, 0);
  }

  lemma {:induction false} PrefixFrom(p: seq<Byte>, q: seq<Byte>, offset: nat)
    ensures BoundsFrom(p, offset) <= BoundsFrom(p + q, offset)
    decreases |p| - offset
  {
    if offset < |p| {
      ReadIsLocal(p, q, offset);
      match ReadFrom(p, offset)
      case CutShort =>
      case Read(length, bodyStart) =>
        if bodyStart + length <= |p| {
          PrefixFrom(p, q, bodyStart + length);
        }
    }
  }

  // ----- cutting a framed stream -----

  /** How many whole frames fit in the first `k` bytes. */
  ghost function Whole(bodies: seq<seq<Byte>>, k: nat): (m: nat)
    ensures m <= |bodies| && |Frames(bodies[..m])| <= k
    ensures m < |bodies| ==> k < |Frames(bodies[..m + 1])|
    ensures k >= |Frames(bodies)| ==> m == |bodies|
    decreases |bodies|
  {
    if bodies == [] || k < |Frame(bodies[0])| then
      assert bodies != [] ==> bodies[..1] == [bodies[0]] && |Frames([bodies[0]])| == |Frame(bodies[0])|;
      0
    else
      var rest := Whole(bodies[1..], k - |Frame(bodies[0])|);
      assert bodies[..rest + 1][1..] == bodies[1..][..rest];
      assert rest + 1 < |bodies| ==> bodies[..rest + 2][1..] == bodies[1..][..rest + 1];
      rest + 1
  }

  ghost predicate OnBoundary(bodies: seq<seq<Byte>>, k: nat) {
    exists m :: 0 <= m <= |bodies| && |Frames(bodies[..m])| == k
  }

  lemma BoundaryIsWhole(bodies: seq<seq<Byte>>, k: nat)
    ensures OnBoundary(bodies, k) <==> |Frames(bodies[..Whole(bodies, k)])| == k
  {
    var w := Whole(bodies, k);
    if OnBoundary(bodies, k) {
      var m :| 0 <= m <= |bodies| && |Frames(bodies[..m])| == k;
      if w < m {
        FramesGrow(bodies, w + 1, m);
      } else {
        FramesGrow(bodies, m, w);
      }
    }
  }

  lemma FramesGrow(bodies: seq<seq<Byte>>, m: nat, n: nat)
    requires m <= n <= |bodies|
    ensures |Frames(bodies[..m])| <= |Frames(bodies[..n])|
  {
    assert bodies[..n] == bodies[..m] + bodies[m..n];
    FramesAppend(bodies[..m], bodies[m..n]);
  }

  /** What the splitter sees at the head of a frame that is there in full. */
  lemma WholeFrameRead(pre: seq<Byte>, body: seq<Byte>, post: seq<Byte>)
    ensures var start := |pre| + |Encode(|body|)|;
            var p := pre + Frame(body) + post;
            && ReadFrom(p, |pre|) == Read(|body|, start)
            && p[start..start + |body|] == body
  {
    var p := pre + Frame(body) + post;
    var w := Encode(|body|);
    assert p == pre + w + (body + post);
    hide Encode, ReadFrom;
    assert p[|pre|..|pre| + |w|] == w;
    ReadsBack(p, |pre|, |body|);
  }

  /** ... and of a frame that was cut. */
  lemma CutFrameIsIncomplete(pre: seq<Byte>, body: seq<Byte>, k: nat)
    requires k < |Frame(body)|
    ensures NoCompleteFrameAt(pre + Frame(body)[..k], |pre|)
  {
    hide Encode, ReadFrom;
    var w := Encode(|body|);
    var p := pre + Frame(body)[..k];
    if k < |w| {
      ProperPrefixIsCutShort(|body|, k);
      assert Frame(body)[..k] == w[..k];
      ReadShifts(pre, w[..k], 0);
    } else {
      assert p == pre + w + body[..k - |w|];
      assert p[|pre|..|pre| + |w|] == w;
      ReadsBack(p, |pre|, |body|);
    }
  }

  lemma WholeStep(bodies: seq<seq<Byte>>, k: nat)
    requires bodies != [] && |Frame(bodies[0])| <= k <= |Frames(bodies)|
    ensures var head, tail := Frame(bodies[0]), bodies[1..];
            && k - |head| <= |Frames(tail)|
            && Whole(bodies, k) == 1 + Whole(tail, k - |head|)
            && Frames(bodies)[..k] == head + Frames(tail)[..k - |head|]
            && bodies[..Whole(bodies, k)] == [bodies[0]] + tail[..Whole(tail, k - |head|)]
            && Frames(bodies[..Whole(bodies, k)]) == head + Frames(tail[..Whole(tail, k - |head|)])
  {
    hide Frame;
    var m := Whole(bodies, k);
    assert bodies[..m][1..] == bodies[1..][..m - 1];
  }

  /** Cutting at byte `k` yields exactly the bodies whose frames lie before the cut. */
  lemma {:induction false} CutFrom(pre: seq<Byte>, bodies: seq<seq<Byte>>, k: nat)
    requires k <= |Frames(bodies)|
    ensures var p := pre + Frames(bodies)[..k];
            var bounds := BoundsFrom(p, |pre|);
            && Slices(p, bounds) == bodies[..Whole(bodies, k)]
            && EndFrom(bounds, |pre|) == |pre| + |Frames(bodies[..Whole(bodies, k)])|
    decreases |bodies|, 1
  {
    if bodies == [] {
      assert pre + Frames(bodies)[..k] == pre;
    } else if k < |Frame(bodies[0])| {
      assert Frames(bodies)[..k] == Frame(bodies[0])[..k];
      CutFrameIsIncomplete(pre, bodies[0], k);
    } else {
      CutInside(pre, bodies, k);
    }
  }

  lemma {:induction false} CutInside(pre: seq<Byte>, bodies: seq<seq<Byte>>, k: nat)
    requires bodies != [] && |Frame(bodies[0])| <= k <= |Frames(bodies)|
    ensures var p := pre + Frames(bodies)[..k];
            var bounds := BoundsFrom(p, |pre|);
            && Slices(p, bounds) == bodies[..Whole(bodies, k)]
            && EndFrom(bounds, |pre|) == |pre| + |Frames(bodies[..Whole(bodies, k)])|
    decreases |bodies|, 0
  {
    hide *;
    var head, tail := Frame(bodies[0]), bodies[1..];
    WholeStep(bodies, k);
    var post := Frames(tail)[..k - |head|];
    assert pre + Frames(bodies)[..k] == pre + head + post;
    CutFrom(pre + head, tail, k - |head|);
    CutStep(pre, bodies[0], post);
  }

  /** One frame, read where the previous one ended. */
  lemma BoundsStep(p: seq<Byte>, from: nat, start: nat, end: nat)
    requires from < start <= end <= |p| && ReadFrom(p, from) == Read(end - start, start)
    ensures BoundsFrom(p, from) == [Bound(start, end)] + BoundsFrom(p, end)
    ensures Slices(p, BoundsFrom(p, from)) == [p[start..end]] + Slices(p, BoundsFrom(p, end))
    ensures EndFrom(BoundsFrom(p, from), from) == EndFrom(BoundsFrom(p, end), end)
  {
    hide ReadFrom;
    var rest := BoundsFrom(p, end);
    assert BoundsFrom(p, from) == [Bound(start, end)] + rest;
    SlicesStep(p, Bound(start, end), rest);
  }

  lemma SlicesStep(p: seq<Byte>, b: Bound, rest: seq<Bound>)
    requires b.start <= b.end <= |p|
    requires forall i :: 0 <= i < |rest| ==> rest[i].start <= rest[i].end <= |p|
    ensures Slices(p, [b] + rest) == [p[b.start..b.end]] + Slices(p, rest)
  {
    assert ([b] + rest)[1..] == rest;
  }

  lemma CutStep(pre: seq<Byte>, body: seq<Byte>, post: seq<Byte>)
    ensures var p := pre + Frame(body) + post;
            && Slices(p, BoundsFrom(p, |pre|)) == [body] + Slices(p, BoundsFrom(p, |pre + Frame(body)|))
            && EndFrom(BoundsFrom(p, |pre|), |pre|)
               == EndFrom(BoundsFrom(p, |pre + Frame(body)|), |pre + Frame(body)|)
  {
    hide ReadFrom, BoundsFrom, Slices;
    var p := pre + Frame(body) + post;
    WholeFrameRead(pre, body, post);
    var end := |pre + Frame(body)|;
    BoundsStep(p, |pre|, end - |body|, end);
  }

  lemma Cut(bodies: seq<seq<Byte>>, k: nat)
    requires k <= |Frames(bodies)|
    ensures var p := Frames(bodies)[..k];
            && Slices(p, BoundsFrom(p, 0)) == bodies[..Whole(bodies, k)]
            && FramesEnd(BoundsFrom(p, 0)) == |Frames(bodies[..Whole(bodies, k)])|
  {
    hide Slices, Frames, Whole, BoundsFrom;
    CutFrom([], bodies, k);
    assert [] + Frames(bodies)[..k] == Frames(bodies)[..k];
  }

  // ----- decoding a trace stream -----

  /** Parse every body, failing if one fails. */
  function ParseEach<T>(bodies: seq<seq<Byte>>, parse: seq<Byte> -> Option<T>): (r: Option<seq<T>>)
    ensures r.Some? <==> forall i :: 0 <= i < |bodies| ==> parse(bodies[i]).Some?
    ensures r.Some? ==> |r.value| == |bodies| &&
                        forall i :: 0 <= i < |bodies| ==> parse(bodies[i]) == Some(r.value[i])
    decreases |bodies|
  {
    if bodies == [] then Some([])
    else
      match (parse(bodies[0]), ParseEach(bodies[1..], parse))
      case (Some(event), Some(rest)) => Some([event] + rest)
      case _ => None
  }

  /** The bundle reader: one pass, failing on a partial frame or a bad body. */
  method ParseTraceStream<T>(data: seq<Byte>, parse: seq<Byte> -> Option<T>) returns (r: Option<seq<T>>)
    ensures r == StreamFrom(data, 0, [], parse)
    ensures var bounds := BoundsFrom(data, 0);
            r == if FramesEnd(bounds) == |data| then ParseEach(Slices(data, bounds), parse) else None
  {
    StreamOutcome(data, 0, [], parse);
    PrependNothing(ParseEach(Slices(data, BoundsFrom(data, 0)), parse));
    hide Slices, BoundsFrom;
    var events: seq<T> := [];
    var offset: nat := 0;
    while offset < |data|
      invariant StreamFrom(data, offset, events, parse) == StreamFrom(data, 0, [], parse)
      decreases |data| - offset
    {
      var reading := ReadVarint(data, offset);
      if reading.CutShort? {
        return None;
      }
      var end := reading.next + reading.value;
      if end > |data| {
        return None;
      }
      var event := parse(data[reading.next..end]);
      if event.None? {
        return None;
      }
      events := events + [event.value];
      offset := end;
    }
    return Some(events);
  }

  function StreamFrom<T>(data: seq<Byte>, offset: nat, events: seq<T>, parse: seq<Byte> -> Option<T>): Option<seq<T>>
    decreases |data| - offset
  {
    if offset >= |data| then Some(events)
    else
      match ReadFrom(data, offset)
      case CutShort => None
      case Read(length, bodyStart) =>
        if bodyStart + length > |data| then None
        else
          match parse(data[bodyStart..bodyStart + length])
          case None => None
          case Some(event) => StreamFrom(data, bodyStart + length, events + [event], parse)
  }

  /** The bundle reader, given just the complete frames, parses exactly the
      bodies the splitter located. */
  lemma ReadersAgree<T>(p: seq<Byte>, parse: seq<Byte> -> Option<T>)
    ensures var bounds := BoundsFrom(p, 0);
            FramesEnd(bounds) <= |p| &&
            StreamFrom(p[..FramesEnd(bounds)], 0, [], parse) == ParseEach(Slices(p, bounds), parse)
  {
    var bounds := BoundsFrom(p, 0);
    CharacterisedFrom(p, bounds, 0);
    ReadersAgreeFrom(p, bounds, 0, [], parse);
    PrependNothing(ParseEach(Slices(p, bounds), parse));
  }

  lemma PrependNothing<T>(r: Option<seq<T>>)
    ensures Prepend([], r) == r
  {
    if r.Some? {
      assert [] + r.value == r.value;
    }
  }

  function Prepend<T>(events: seq<T>, r: Option<seq<T>>): Option<seq<T>> {
    match r
    case None => None
    case Some(rest) => Some(events + rest)
  }

  lemma {:induction false} ReadersAgreeFrom<T>(
    p: seq<Byte>, bounds: seq<Bound>, from: nat, events: seq<T>, parse: seq<Byte> -> Option<T>)
    requires from <= |p| && TilesFrom(p, bounds, from)
    requires forall i :: 0 <= i < |bounds| ==> bounds[i].start <= bounds[i].end <= |p|
    ensures from <= EndFrom(bounds, from) <= |p|
    ensures StreamFrom(p[..EndFrom(bounds, from)], from, events, parse)
         == Prepend(events, ParseEach(Slices(p, bounds), parse))
    decreases |bounds|
  {
    hide ReadFrom, ParseEach;
    var end := EndFrom(bounds, from);
    var data := p[..end];
    if bounds == [] {
      assert events + [] == events;
      ParseNothing(parse);
    } else {
      var b, rest := bounds[0], bounds[1..];
      assert EndFrom(rest, b.end) == end && bounds == [b] + rest;
      hide StreamFrom, Slices;
      var next := if parse(p[b.start..b.end]).Some? then events + [parse(p[b.start..b.end]).value] else [];
      ReadersAgreeFrom(p, rest, b.end, next, parse);
      assert p == data + p[end..];
      ReadIsLocal(data, p[end..], from);
      assert data[b.start..b.end] == p[b.start..b.end];
      SlicesStep(p, b, rest);
      StreamStep(data, from, b, events, Slices(p, rest), parse);
    }
  }

  lemma ParseNothing<T>(parse: seq<Byte> -> Option<T>)
    ensures ParseEach([], parse) == Some([])
  {
  }

  /** One frame of the bundle reader, against one body of the splitter. */
  lemma StreamStep<T>(
    data: seq<Byte>, from: nat, b: Bound, events: seq<T>, rest: seq<seq<Byte>>, parse: seq<Byte> -> Option<T>)
    requires from < b.start <= b.end <= |data| && ReadFrom(data, from) == Read(b.end - b.start, b.start)
    requires var event := parse(data[b.start..b.end]);
             event.Some? ==>
               StreamFrom(data, b.end, events + [event.value], parse)
               == Prepend(events + [event.value], ParseEach(rest, parse))
    ensures StreamFrom(data, from, events, parse) == Prepend(events, ParseEach([data[b.start..b.end]] + rest, parse))
  {
    hide ReadFrom;
    ParseEachStep(data[b.start..b.end], rest, parse);
    match parse(data[b.start..b.end])
    case None =>
    case Some(event) => PrependOne(events, event, ParseEach(rest, parse));
  }

  lemma ParseEachStep<T>(body: seq<Byte>, rest: seq<seq<Byte>>, parse: seq<Byte> -> Option<T>)
    ensures ParseEach([body] + rest, parse) ==
              match parse(body) case None => None case Some(event) => Prepend([event], ParseEach(rest, parse))
  {
    assert ([body] + rest)[1..] == rest;
  }

  lemma PrependOne<T>(events: seq<T>, event: T, r: Option<seq<T>>)
    ensures Prepend(events + [event], r) == Prepend(events, Prepend([event], r))
  {
    if r.Some? {
      assert events + [event] + r.value == events + ([event] + r.value);
    }
  }

  /** The last frame ends where the bytes do. */
  ghost predicate Reaches(bounds: seq<Bound>, p: seq<Byte>) {
    |p| == if bounds == [] then 0 else bounds[|bounds| - 1].end
  }

  /** A body that is none is corruption, whatever follows it; otherwise every body is
      reported, and bytes after the last frame make the outcome truncated. */
  ghost predicate Reports<T>(r: Outcome<T>, p: seq<Byte>, parse: seq<Byte> -> Option<T>) {
    var bounds := BoundsFrom(p, 0);
    var bodies := Slices(p, bounds);
    && (r.Malformed? <==> exists i :: 0 <= i < |bodies| && parse(bodies[i]).None?)
    && (!r.Malformed? ==>
          |r.records| == |bodies| && forall i :: 0 <= i < |bodies| ==> parse(bodies[i]) == Some(r.records[i]))
    && (r.Decoded? <==> !r.Malformed? && Reaches(bounds, p))
    && (r.Truncated? ==> r.recordsRead == |bodies|)
  }

  function TraceOutcome<T>(payload: seq<Byte>, parse: seq<Byte> -> Option<T>): Outcome<T> {
    var consumed := FramesEnd(BoundsFrom(payload, 0));
    match ParseEach(Slices(payload, BoundsFrom(payload, 0)), parse)
    case None => Malformed
    case Some(events) =>
      if consumed != |payload| then Truncated(|events|, events) else Decoded(events)
  }

  lemma TraceReports<T>(payload: seq<Byte>, parse: seq<Byte> -> Option<T>)
    ensures Reports(TraceOutcome(payload, parse), payload, parse)
  {
    hide BoundsFrom, Slices;
  }

  method DecodeTraceStream<T>(payload: seq<Byte>, parse: seq<Byte> -> Option<T>) returns (r: Outcome<T>)
    ensures r == TraceOutcome(payload, parse) && Reports(r, payload, parse)
  {
    TraceReports(payload, parse);
    hide BoundsFrom, Slices, Reports, StreamFrom;
    var bounds := FrameBounds(payload);
    var consumed := FramesEnd(bounds);
    ReadersAgree(payload, parse);
    var events := ParseTraceStream(payload[..consumed], parse);
    if events.None? {
      return Malformed;
    }
    if consumed != |payload| {
      return Truncated(|events.value|, events.value);
    }
    return Decoded(events.value);
  }

  /** Decoding a stream cut at any byte returns normally exactly on a frame
      boundary, and reports precisely the records before the cut either way. */
  lemma TraceCut<T>(records: seq<T>, serialize: T -> seq<Byte>, parse: seq<Byte> -> Option<T>, k: nat)
    requires forall i :: 0 <= i < |records| ==> parse(serialize(records[i])) == Some(records[i])
    requires k <= |Frames(Bodies(records, serialize))|
    ensures var bodies := Bodies(records, serialize);
            var m := Whole(bodies, k);
            TraceOutcome(Frames(bodies)[..k], parse) ==
              if OnBoundary(bodies, k) then Decoded(records[..m]) else Truncated(m, records[..m])
  {
    var bodies := Bodies(records, serialize);
    var m := Whole(bodies, k);
    Cut(bodies, k);
    BoundaryIsWhole(bodies, k);
    ParsesBack(bodies[..m], records[..m], parse);
  }

  lemma ParsesBack<T>(bodies: seq<seq<Byte>>, records: seq<T>, parse: seq<Byte> -> Option<T>)
    requires |bodies| == |records|
    requires forall i :: 0 <= i < |records| ==> parse(bodies[i]) == Some(records[i])
    ensures ParseEach(bodies, parse) == Some(records)
  {
    var r := ParseEach(bodies, parse);
    assert forall i :: 0 <= i < |bodies| ==> parse(bodies[i]) == Some(records[i]);
    assert r.value == records;
  }

  // ----- one record, or a framed batch of them -----

  function BatchOutcome<T>(payload: seq<Byte>, decodeOne: seq<Byte> -> Option<T>): Outcome<T> {
    if payload == [] then Decoded([])
    else
      match decodeOne(payload)
      case Some(single) => Decoded([single])
      case None =>
        var bounds := BoundsFrom(payload, 0);
        match ParseEach(Slices(payload, bounds), decodeOne)
        case None => Malformed
        case Some(records) =>
          if records == [] then Malformed
          else if FramesEnd(bounds) != |payload| then Truncated(|records|, records)
          else Decoded(records)
  }

  /** Nothing, one record, or frames of which there is at least one and all are records. */
  ghost predicate ReportsBatch<T>(r: Outcome<T>, p: seq<Byte>, decodeOne: seq<Byte> -> Option<T>) {
    if p == [] then r == Decoded([])
    else if decodeOne(p).Some? then r == Decoded([decodeOne(p).value])
    else if BoundsFrom(p, 0) == [] then r == Malformed
    else Reports(r, p, decodeOne)
  }

  lemma BatchReports<T>(payload: seq<Byte>, decodeOne: seq<Byte> -> Option<T>)
    ensures ReportsBatch(BatchOutcome(payload, decodeOne), payload, decodeOne)
  {
    hide BoundsFrom, Slices;
  }

  method DecodeBatch<T(==)>(payload: seq<Byte>, decodeOne: seq<Byte> -> Option<T>) returns (r: Outcome<T>)
    ensures r == BatchOutcome(payload, decodeOne) && ReportsBatch(r, payload, decodeOne)
  {
    BatchReports(payload, decodeOne);
    hide BoundsFrom, Slices, ReportsBatch;
    if payload == [] {
      return Decoded([]);
    }
    var single := decodeOne(payload);
    if single.Some? {
      return Decoded([single.value]);
    }
    var bounds := FrameBounds(payload);
    ghost var slices := Slices(payload, bounds);
    var decoded: seq<T> := [];
    for i := 0 to |bounds|
      invariant |decoded| == i
      invariant forall j :: 0 <= j < i ==> decodeOne(slices[j]) == Some(decoded[j])
    {
      var record := decodeOne(payload[bounds[i].start..bounds[i].end]);
      if record.None? {
        assert slices[i] == payload[bounds[i].start..bounds[i].end];
        return Malformed;
      }
      decoded := decoded + [record.value];
    }
    ParsesBack(slices, decoded, decodeOne);
    if decoded == [] {
      return Malformed;
    }
    if FramesEnd(bounds) != |payload| {
      return Truncated(|decoded|, decoded);
    }
    return Decoded(decoded);
  }

  /** A framed batch, cut anywhere after its first frame, decodes to exactly the
      records before the cut, provided the whole payload is not itself taken for
      one record; if it is, that one record is all that is returned. */
  lemma BatchCut<T>(records: seq<T>, bodies: seq<seq<Byte>>, decodeOne: seq<Byte> -> Option<T>, k: nat)
    requires |bodies| == |records|
    requires forall i :: 0 <= i < |records| ==> decodeOne(bodies[i]) == Some(records[i])
    requires 0 < k <= |Frames(bodies)|
    ensures var p := Frames(bodies)[..k];
            var m := Whole(bodies, k);
            BatchOutcome(p, decodeOne) ==
              if decodeOne(p).Some? then Decoded([decodeOne(p).value])
              else if m == 0 then Malformed
              else if OnBoundary(bodies, k) then Decoded(records[..m])
              else Truncated(m, records[..m])
  {
    hide Slices, Frames, BoundsFrom, OnBoundary;
    Cut(bodies, k);
    BoundaryIsWhole(bodies, k);
    var m := Whole(bodies, k);
    ParsesBack(bodies[..m], records[..m], decodeOne);
  }

  /** A whole framed batch: the single reading decides if there is one, else each body. */
  lemma WholeBatch<T>(bodies: seq<seq<Byte>>, decodeOne: seq<Byte> -> Option<T>)
    requires bodies != []
    ensures BatchOutcome(Frames(bodies), decodeOne) ==
              match decodeOne(Frames(bodies))
              case Some(single) => Decoded([single])
              case None =>
                match ParseEach(bodies, decodeOne)
                case None => Malformed
                case Some(records) => Decoded(records)
  {
    hide Slices, BoundsFrom, OnBoundary;
    var k := |Frames(bodies)|;
    assert k > 0;
    assert Frames(bodies)[..k] == Frames(bodies) && bodies[..|bodies|] == bodies;
    hide Frames;
    Cut(bodies, k);
    AllWhole(bodies);
  }

  lemma {:induction false} AllWhole(bodies: seq<seq<Byte>>)
    ensures Whole(bodies, |Frames(bodies)|) == |bodies|
    decreases |bodies|
  {
    BoundaryIsWhole(bodies, |Frames(bodies)|);
    assert bodies[..|bodies|] == bodies;
  }

  lemma SlicesOfNone(p: seq<Byte>)
    ensures Slices(p, []) == []
  {
  }

  lemma OneFrame<T>(p: seq<Byte>, from: nat, b: Bound, events: seq<T>, parse: seq<Byte> -> Option<T>)
    requires from < |p| && from < b.start <= b.end <= |p| && ReadFrom(p, from) == Read(b.end - b.start, b.start)
    ensures StreamFrom(p, from, events, parse) ==
              match parse(p[b.start..b.end])
              case None => None
              case Some(event) => StreamFrom(p, b.end, events + [event], parse)
  {
    hide ReadFrom;
  }

  lemma NoFrame<T>(p: seq<Byte>, from: nat, events: seq<T>, parse: seq<Byte> -> Option<T>)
    requires from <= |p| && BoundsFrom(p, from) == []
    ensures StreamFrom(p, from, events, parse) == if from == |p| then Some(events) else None
  {
    hide ReadFrom;
  }

  lemma FrameIsAhead(p: seq<Byte>, from: nat)
    requires BoundsFrom(p, from) != []
    ensures from < |p| && from < BoundsFrom(p, from)[0].start
  {
  }

  /** The bundle reader's outcome: every body, if the frames reach the end and all parse. */
  lemma {:induction false} StreamOutcome<T>(p: seq<Byte>, from: nat, events: seq<T>, parse: seq<Byte> -> Option<T>)
    requires from <= |p|
    ensures var bounds := BoundsFrom(p, from);
            StreamFrom(p, from, events, parse) ==
              if EndFrom(bounds, from) == |p| then Prepend(events, ParseEach(Slices(p, bounds), parse)) else None
    decreases |p| - from
  {
    hide ReadFrom, Slices, ParseEach, StreamFrom, BoundsFrom;
    var bounds := BoundsFrom(p, from);
    if bounds == [] {
      NoFrame(p, from, events, parse);
      assert events + [] == events;
      ParseNothing(parse);
      SlicesOfNone(p);
    } else {
      var b, rest := bounds[0], bounds[1..];
      FirstBound(p, bounds, from);
      FrameIsAhead(p, from);
      OneFrame(p, from, b, events, parse);
      assert bounds == [b] + rest;
      assert EndFrom(bounds, from) == EndFrom(rest, b.end);
      var body := p[b.start..b.end];
      SlicesStep(p, b, rest);
      ParseEachStep(body, Slices(p, rest), parse);
      if parse(body).Some? {
        StreamOutcome(p, b.end, events + [parse(body).value], parse);
        PrependOne(events, parse(body).value, ParseEach(Slices(p, rest), parse));
      }
    }
  }
}

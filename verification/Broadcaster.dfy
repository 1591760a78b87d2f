/** The live feed's fan-out: publishers on any thread, one bounded lossy mailbox
    per reader, and wake-ups that may be delivered by a later callback. A
    `Subscriber` and a `Feed` have methods that update their fields; each is tied
    to a function on `Box` values.
 */
module Broadcaster {
  import opened Wrappers
  import opened OrderedDict

  datatype Kind = Trace | Error | Snapshot | Named(name: string)

  datatype LiveEvent = LiveEvent(kind: Kind, entityKey: string, seqNo: Option<int>, traceId: string, count: nat)

  /** What a reader is handed: an event, or the marker that it missed some. */
  datatype Delivery = Event(event: LiveEvent) | Lagged(count: nat)

  /** How a wake-up reaches the reader: set at once on its own loop, scheduled on
      it from another thread, or lost because the loop has closed. */
  datatype Wake = SetNow | Scheduled | LoopClosed

  // ----- one mailbox -----

  datatype Box = Box(depth: nat, dropped: nat, queue: seq<LiveEvent>, flag: bool, callbacks: nat)

  function EmptyBox(depth: nat): Box {
    Box(depth, 0, [], false, 0)
  }

  function Woken(b: Box, wake: Wake): Box {
    match wake
    case SetNow => b.(flag := true)
    case Scheduled => b.(callbacks := b.callbacks + 1)
    case LoopClosed => b
  }

  function Offered(b: Box, event: LiveEvent, wake: Wake): Box {
    if |b.queue| >= b.depth then b.(dropped := b.dropped + 1)
    else Woken(b.(queue := b.queue + [event]), wake)
  }

  function OfferedAll(b: Box, events: seq<LiveEvent>, wake: Wake): Box {
    if events == [] then b
    else Offered(OfferedAll(b, events[..|events| - 1], wake), events[|events| - 1], wake)
  }

  datatype Taken = Taken(box: Box, delivery: Option<Delivery>)

  function Take(b: Box): Taken {
    if b.dropped > 0 then Taken(b.(dropped := 0), Some(Lagged(b.dropped)))
    else if b.queue != [] then Taken(b.(queue := b.queue[1..]), Some(Event(b.queue[0])))
    else Taken(b.(flag := false), None)
  }

  class Subscriber {
    const depth: nat
    const loop: nat
    var dropped: nat
    var queue: seq<LiveEvent>
    var flag: bool
    var callbacks: nat

    function Contents(): Box
      reads this
    {
      Box(depth, dropped, queue, flag, callbacks)
    }

    constructor (depth: nat, loop: nat)
      ensures Contents() == EmptyBox(depth) && this.loop == loop
    {
      this.depth, this.loop := depth, loop;
      dropped, queue, flag, callbacks := 0, [], false, 0;
    }

    method WakeUp(wake: Wake)
      modifies this
      ensures Contents() == Woken(old(Contents()), wake)
    {
      match wake {
        case SetNow => flag := true;
        case Scheduled => callbacks := callbacks + 1;
        case LoopClosed =>
      }
    }
  }

  class Feed {
    const queueDepth: nat
    var subscribers: set<Subscriber>

    constructor (queueDepth: nat)
      requires queueDepth >= 1
      ensures this.queueDepth == queueDepth && subscribers == {}
    {
      this.queueDepth := queueDepth;
      subscribers := {};
    }

    /** Construction rejects a queue depth below one. */
    static method Create(queueDepth: int) returns (feed: Option<Feed>)
      ensures feed.Some? <==> queueDepth >= 1
      ensures feed.Some? ==> feed.value.queueDepth == queueDepth && feed.value.subscribers == {} && fresh(feed.value)
    {
      if queueDepth < 1 {
        return None;
      }
      var f := new Feed(queueDepth);
      return Some(f);
    }

    /** Registration is eager: the mailbox receives from here on. */
    method Subscribe(loop: nat) returns (s: Subscriber)
      modifies this
      ensures fresh(s) && s.Contents() == Box(queueDepth, 0, [], false, 0) && s.loop == loop
      ensures subscribers == old(subscribers) + {s}
    {
      s := new Subscriber(queueDepth, loop);
      subscribers := subscribers + {s};
    }

    method Offer(s: Subscriber, event: LiveEvent, wake: Wake)
      modifies s
      ensures s.Contents() == Offered(old(s.Contents()), event, wake)
      ensures old(|s.queue|) >= s.depth ==>
                s.dropped == old(s.dropped) + 1
                && s.queue == old(s.queue) && s.flag == old(s.flag) && s.callbacks == old(s.callbacks)
      ensures old(|s.queue|) < s.depth ==>
                && s.queue == old(s.queue) + [event] && s.dropped == old(s.dropped)
                && s.flag == (old(s.flag) || wake == SetNow)
                && s.callbacks == old(s.callbacks) + (if wake == Scheduled then 1 else 0)
    {
      if |s.queue| >= s.depth {
        s.dropped := s.dropped + 1;
        return;
      }
      s.queue := s.queue + [event];
      s.WakeUp(wake);
    }

    /** Every mailbox is offered every event, whatever the state of the others. */
    method FanOut(events: seq<LiveEvent>, wakes: nat -> Wake)
      modifies subscribers
      ensures subscribers == old(subscribers)
      ensures forall s :: s in subscribers ==>
                s.Contents() == OfferedAll(old(s.Contents()), events, wakes(s.loop))
    {
      if events == [] {
        return;
      }
      var todo := subscribers;
      while todo != {}
        invariant todo <= subscribers && subscribers == old(subscribers)
        invariant forall s :: s in todo ==> s.Contents() == old(s.Contents())
        invariant forall s :: s in subscribers - todo ==>
                    s.Contents() == OfferedAll(old(s.Contents()), events, wakes(s.loop))
        decreases |todo|
      {
        var s :| s in todo;
        OfferEach(s, events, wakes(s.loop));
        todo := todo - {s};
      }
    }

    method OfferEach(s: Subscriber, events: seq<LiveEvent>, wake: Wake)
      modifies s
      ensures s.Contents() == OfferedAll(old(s.Contents()), events, wake)
    {
      for i := 0 to |events|
        invariant s.Contents() == OfferedAll(old(s.Contents()), events[..i], wake)
      {
        Offer(s, events[i], wake);
        assert events[..i + 1][..i] == events[..i];
      }
      assert events[..|events|] == events;
    }

    method Pull(s: Subscriber) returns (delivery: Option<Delivery>)
      modifies s
      ensures Taken(s.Contents(), delivery) == Take(old(s.Contents()))
      ensures old(s.dropped) > 0 ==>
                delivery == Some(Lagged(old(s.dropped))) && s.dropped == 0 && s.queue == old(s.queue)
      ensures old(s.dropped) == 0 && old(s.queue) != [] ==>
                delivery == Some(Event(old(s.queue)[0])) && s.queue == old(s.queue)[1..] && s.dropped == 0
      ensures delivery == None <==> old(s.dropped) == 0 && old(s.queue) == []
      ensures s.flag == (old(s.flag) && delivery.Some?) && s.callbacks == old(s.callbacks)
    {
      if s.dropped > 0 {
        delivery := Some(Lagged(s.dropped));
        s.dropped := 0;
      } else if s.queue != [] {
        delivery := Some(Event(s.queue[0]));
        s.queue := s.queue[1..];
      } else {
        s.flag := false;
        delivery := None;
      }
    }

    method Release(s: Subscriber)
      modifies this, s
      ensures subscribers == old(subscribers) - {s}
      ensures s.Contents() == old(s.Contents()).(queue := [])
    {
      subscribers := subscribers - {s};
      s.queue := [];
    }

    method PublishBatch(batch: Batch, wakes: nat -> Wake)
      modifies subscribers
      ensures subscribers == old(subscribers)
      ensures forall s :: s in subscribers ==>
                s.Contents() == OfferedAll(old(s.Contents()), BatchEvents(batch), wakes(s.loop))
    {
      var events := Coalesce(batch);
      FanOut(events, wakes);
    }
  }

  // ----- coalescing a batch -----

  datatype Row = Row(entityKey: string, seqNo: Option<int>, traceId: string)

  datatype Batch = Batch(events: seq<Row>, errors: seq<Row>, snapshots: seq<Row>)

  datatype Key = Key(kind: Kind, entityKey: string, seqNo: Option<int>, traceId: string)

  function KeyOf(kind: Kind, row: Row): Key {
    Key(kind, row.entityKey, row.seqNo, if kind == Trace then row.traceId else "")
  }

  function KeysOf(kind: Kind, rows: seq<Row>): seq<Key> {
    seq(|rows|, i requires 0 <= i < |rows| => KeyOf(kind, rows[i]))
  }

  /** The activations a batch touched, one entry per row, in arrival order. */
  function BatchKeys(batch: Batch): seq<Key> {
    KeysOf(Trace, batch.events) + KeysOf(Error, batch.errors) + KeysOf(Snapshot, batch.snapshots)
  }

  function Tally(keys: seq<Key>): (counts: Dict<Key, nat>)
    ensures forall i :: 0 <= i < |counts.keys| ==> counts.keys[i] in counts.vals
  {
    if keys == [] then Empty()
    else
      var init, last := Tally(keys[..|keys| - 1]), keys[|keys| - 1];
      init.Put(last, init.Get(last, 0) + 1)
  }

  function EventsOf(counts: Dict<Key, nat>): seq<LiveEvent>
    requires forall i :: 0 <= i < |counts.keys| ==> counts.keys[i] in counts.vals
  {
    seq(|counts.keys|, i requires 0 <= i < |counts.keys| =>
      var k := counts.keys[i];
      LiveEvent(k.kind, k.entityKey, k.seqNo, k.traceId, counts.vals[k]))
  }

  function BatchEvents(batch: Batch): seq<LiveEvent> {
    EventsOf(Tally(BatchKeys(batch)))
  }

  lemma {:induction false} TallyAppend(keys: seq<Key>, k: Key)
    ensures Tally(keys + [k]) == Tally(keys).Put(k, Tally(keys).Get(k, 0) + 1)
  {
    var more := keys + [k];
    assert more[..|more| - 1] == keys && more[|more| - 1] == k;
  }

  method CountRows(kind: Kind, rows: seq<Row>, before: Dict<Key, nat>, ghost seen: seq<Key>)
    returns (counts: Dict<Key, nat>)
    requires before == Tally(seen)
    ensures counts == Tally(seen + KeysOf(kind, rows))
  {
    hide Tally;
    counts := before;
    ghost var keys, done := KeysOf(kind, rows), seen;
    for i := 0 to |rows|
      invariant counts == Tally(done)
      invariant done == seen + keys[..i]
    {
      var key := KeyOf(kind, rows[i]);
      TallyAppend(done, key);
      done := done + [key];
      counts := counts.Put(key, counts.Get(key, 0) + 1);
    }
    assert done == seen + keys;
  }

  method Coalesce(batch: Batch) returns (events: seq<LiveEvent>)
    ensures events == BatchEvents(batch)
  {
    var counts := CountRows(Trace, batch.events, Empty(), []);
    assert [] + KeysOf(Trace, batch.events) == KeysOf(Trace, batch.events);
    counts := CountRows(Error, batch.errors, counts, KeysOf(Trace, batch.events));
    counts := CountRows(Snapshot, batch.snapshots, counts, KeysOf(Trace, batch.events) + KeysOf(Error, batch.errors));
    events := EventsOf(counts);
  }

  function CountSum(events: seq<LiveEvent>): nat {
    if events == [] then 0 else CountSum(events[..|events| - 1]) + events[|events| - 1].count
  }

  ghost function Occurrences(keys: seq<Key>, k: Key): nat {
    multiset(keys)[k]
  }

  lemma {:induction false} TallyCounts(keys: seq<Key>, k: Key)
    ensures Tally(keys).Has(k) <==> k in keys
    ensures Tally(keys).Get(k, 0) == Occurrences(keys, k)
    decreases |keys|
  {
    if keys != [] {
      var init, last := keys[..|keys| - 1], keys[|keys| - 1];
      assert keys == init + [last];
      TallyCounts(init, k);
      TallyCounts(init, last);
    }
  }

  /** Keys appear in the order in which they first arrived. */
  lemma {:induction false} TallyOrder(keys: seq<Key>)
    ensures Tally(keys).keys == FirstArrivals(keys)
    decreases |keys|
  {
    if keys != [] {
      var init, last := keys[..|keys| - 1], keys[|keys| - 1];
      TallyOrder(init);
      TallyCounts(init, last);
    }
  }

  function ValueSum(keys: seq<Key>, vals: map<Key, nat>): nat
    requires forall k :: k in keys ==> k in vals
  {
    if keys == [] then 0
    else
      assert keys[|keys| - 1] in keys;
      ValueSum(keys[..|keys| - 1], vals) + vals[keys[|keys| - 1]]
  }

  lemma {:induction false} ValueSumUpdate(keys: seq<Key>, vals: map<Key, nat>, k: Key, v: nat)
    requires Distinct(keys) && forall x :: x in keys ==> x in vals
    ensures k in keys ==> ValueSum(keys, vals[k := v]) == ValueSum(keys, vals) - vals[k] + v
    ensures k !in keys ==> ValueSum(keys, vals[k := v]) == ValueSum(keys, vals)
    decreases |keys|
  {
    if keys != [] {
      var init, last := keys[..|keys| - 1], keys[|keys| - 1];
      assert keys == init + [last];
      ValueSumUpdate(init, vals, k, v);
    }
  }

  lemma {:induction false} TallySum(keys: seq<Key>)
    ensures Tally(keys).Valid()
    ensures ValueSum(Tally(keys).keys, Tally(keys).vals) == |keys|
    decreases |keys|
  {
    if keys != [] {
      var init, last := Tally(keys[..|keys| - 1]), keys[|keys| - 1];
      TallySum(keys[..|keys| - 1]);
      PutIsValid(init, last, init.Get(last, 0) + 1);
      ValueSumPut(init, last);
    }
  }

  lemma ValueSumPut(counts: Dict<Key, nat>, k: Key)
    requires counts.Valid()
    ensures var more := counts.Put(k, counts.Get(k, 0) + 1);
            more.Valid() && ValueSum(more.keys, more.vals) == ValueSum(counts.keys, counts.vals) + 1
  {
    var v := counts.Get(k, 0) + 1;
    PutIsValid(counts, k, v);
    ValueSumUpdate(counts.keys, counts.vals, k, v);
    if !counts.Has(k) {
      ValueSumAppend(counts.keys, counts.vals[k := v], k);
    }
  }

  lemma ValueSumAppend(keys: seq<Key>, vals: map<Key, nat>, k: Key)
    requires k in vals && forall x :: x in keys ==> x in vals
    ensures ValueSum(keys + [k], vals) == ValueSum(keys, vals) + vals[k]
  {
    assert (keys + [k])[..|keys|] == keys;
  }

  lemma {:induction false} EventSum(counts: Dict<Key, nat>, n: nat)
    requires counts.Valid() && n <= |counts.keys|
    ensures forall k :: k in counts.keys[..n] ==> k in counts.vals
    ensures CountSum(EventsOf(counts)[..n]) == ValueSum(counts.keys[..n], counts.vals)
    decreases n
  {
    if n > 0 {
      EventSum(counts, n - 1);
      assert counts.keys[..n][..n - 1] == counts.keys[..n - 1];
      assert EventsOf(counts)[..n][..n - 1] == EventsOf(counts)[..n - 1];
      assert counts.keys[n - 1] in counts.keys;
    }
  }

  /** A batch becomes one event per activation it touched, in first-arrival order,
      each counting that activation's rows; the counts add up to the batch. */
  lemma CoalesceConserves(batch: Batch)
    ensures var keys, events := BatchKeys(batch), BatchEvents(batch);
            && CountSum(events) == |batch.events| + |batch.errors| + |batch.snapshots|
            && Distinct(FirstArrivals(keys)) && |events| == |FirstArrivals(keys)|
            && (forall i :: 0 <= i < |events| ==>
                  var e := events[i];
                  && Key(e.kind, e.entityKey, e.seqNo, e.traceId) == FirstArrivals(keys)[i]
                  && e.count == Occurrences(keys, FirstArrivals(keys)[i]))
  {
    hide Tally, FirstArrivals, CountSum, Distinct;
    var keys := BatchKeys(batch);
    FirstArrivalsAreDistinct(keys);
    TallyOrder(keys);
    TallyEvents(keys);
    forall i | 0 <= i < |Tally(keys).keys|
      ensures EventsOf(Tally(keys))[i].count == Occurrences(keys, Tally(keys).keys[i])
    {
      assert Tally(keys).keys[i] in Tally(keys).keys;
      TallyCounts(keys, Tally(keys).keys[i]);
    }
  }

  lemma TallyEvents(keys: seq<Key>)
    ensures CountSum(EventsOf(Tally(keys))) == |keys|
  {
    var counts := Tally(keys);
    var n := |counts.keys|;
    TallySum(keys);
    EventSum(counts, n);
    assert counts.keys[..n] == counts.keys && EventsOf(counts)[..n] == EventsOf(counts);
  }
}

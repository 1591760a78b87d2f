/** What a batch becomes for one reader, from its rows: which events, in which order, how
    many of them fit.
 */
module Coalescing {
  import opened Broadcaster
  import opened OrderedDict

  // ----- the rows behind an event -----

  /** The rows of a list about the same activation as `e`. */
  ghost function Touching(rows: seq<Row>, e: LiveEvent, byTrace: bool): set<nat> {
    set i: nat | i < |rows|
                 && rows[i].entityKey == e.entityKey && rows[i].seqNo == e.seqNo
                 && (byTrace ==> rows[i].traceId == e.traceId)
  }

  /** Trace rows also agree on the trace; errors and snapshots name none. */
  ghost function RowsFor(batch: Batch, e: LiveEvent): set<nat> {
    match e.kind
    case Trace => Touching(batch.events, e, true)
    case Error => Touching(batch.errors, e, false)
    case Snapshot => Touching(batch.snapshots, e, false)
    case Named(_) => {}
  }

  ghost predicate SameSubject(a: LiveEvent, b: LiveEvent) {
    a.kind == b.kind && a.entityKey == b.entityKey && a.seqNo == b.seqNo && a.traceId == b.traceId
  }

  /** Traces before errors before snapshots. */
  function Rank(kind: Kind): nat {
    match kind case Trace => 0 case Error => 1 case Snapshot => 2 case Named(_) => 3
  }

  /** `a` was touched first: by an earlier list, or by a row before all of `b`'s. */
  ghost predicate TouchedFirst(batch: Batch, a: LiveEvent, b: LiveEvent) {
    || Rank(a.kind) < Rank(b.kind)
    || (a.kind == b.kind && exists i :: i in RowsFor(batch, a) && forall j :: j in RowsFor(batch, b) ==> i < j)
  }

  // ----- counting occurrences -----

  ghost function Places<T>(s: seq<T>, x: T): set<nat> {
    set i: nat | i < |s| && s[i] == x
  }

  lemma {:induction false} PlacesCount<T>(s: seq<T>, x: T)
    ensures |Places(s, x)| == multiset(s)[x]
    decreases |s|
  {
    if s == [] {
      assert Places(s, x) == {};
    } else {
      var n := |s| - 1;
      PlacesCount(s[..n], x);
      assert s == s[..n] + [s[n]];
      assert Places(s, x) == Places(s[..n], x) + (if s[n] == x then {n} else {});
    }
  }

  lemma {:induction false} FirstArrivalsInOrder<K(!new)>(keys: seq<K>, i: nat, j: nat)
    requires i < j < |FirstArrivals(keys)|
    ensures exists k :: k in Places(keys, FirstArrivals(keys)[i])
                        && forall m :: m in Places(keys, FirstArrivals(keys)[j]) ==> k < m
    decreases |keys|
  {
    var n := |keys| - 1;
    var init, last := keys[..n], keys[n];
    assert keys == init + [last];
    FirstArrivalsAreDistinct(init);
    FirstArrivalsAreDistinct(keys);
    var a, b := FirstArrivals(keys)[i], FirstArrivals(keys)[j];
    if j < |FirstArrivals(init)| {
      FirstArrivalsInOrder(init, i, j);
      assert FirstArrivals(init)[i] == a && FirstArrivals(init)[j] == b;
      var k :| k in Places(init, a) && forall m :: m in Places(init, b) ==> k < m;
      assert k in Places(keys, a);
      forall m | m in Places(keys, b) ensures k < m {
        assert m < n ==> m in Places(init, b);
      }
    } else {
      assert a in FirstArrivals(init) && b == last && last !in init;
      var k :| 0 <= k < n && init[k] == a;
      assert k in Places(keys, a);
    }
  }

  // ----- the events of a batch -----

  function KeyIn(e: LiveEvent): Key {
    Key(e.kind, e.entityKey, e.seqNo, e.traceId)
  }

  ghost function Offset(batch: Batch, kind: Kind): nat {
    match kind
    case Trace => 0
    case Error => |batch.events|
    case Snapshot => |batch.events| + |batch.errors|
    case Named(_) => 0
  }

  /** A key of the batch stands exactly where its rows do, list after list. */
  lemma PlacesOfKey(batch: Batch, e: LiveEvent)
    requires KeyIn(e) in BatchKeys(batch)
    ensures !e.kind.Named? && (!e.kind.Trace? ==> e.traceId == "")
    ensures Places(BatchKeys(batch), KeyIn(e)) == Later(RowsFor(batch, e), Offset(batch, e.kind))
  {
    hide BatchKeys;
    var keys := BatchKeys(batch);
    var at :| 0 <= at < |keys| && keys[at] == KeyIn(e);
    HowManyKeys(batch);
    KeyAt(batch, at);
    forall i: nat ensures i in Places(keys, KeyIn(e)) <==>
                            exists m :: m in RowsFor(batch, e) && i == Offset(batch, e.kind) + m
    {
      if i < |keys| {
        KeyAt(batch, i);
        if keys[i] == KeyIn(e) {
          assert i - Offset(batch, e.kind) in RowsFor(batch, e);
        }
      }
      if m :| m in RowsFor(batch, e) && i == Offset(batch, e.kind) + m {
        KeyAt(batch, i);
      }
    }
  }

  lemma HowManyKeys(batch: Batch)
    ensures |BatchKeys(batch)| == |batch.events| + |batch.errors| + |batch.snapshots|
  {
  }

  lemma KeyAt(batch: Batch, i: nat)
    requires i < |batch.events| + |batch.errors| + |batch.snapshots|
    ensures |BatchKeys(batch)| == |batch.events| + |batch.errors| + |batch.snapshots|
    ensures var k := BatchKeys(batch)[i];
            if i < |batch.events| then
              var row := batch.events[i];
              k == Key(Trace, row.entityKey, row.seqNo, row.traceId)
            else if i < |batch.events| + |batch.errors| then
              var row := batch.errors[i - |batch.events|];
              k == Key(Error, row.entityKey, row.seqNo, "")
            else
              var row := batch.snapshots[i - |batch.events| - |batch.errors|];
              k == Key(Snapshot, row.entityKey, row.seqNo, "")
  {
  }

  ghost function Later(s: set<nat>, shift: nat): set<nat> {
    set i | i in s :: shift + i
  }

  lemma LaterWithout(s: set<nat>, shift: nat, x: nat)
    requires x in s
    ensures Later(s, shift) == Later(s - {x}, shift) + {shift + x} && shift + x !in Later(s - {x}, shift)
  {
    forall i | i in s ensures shift + i in Later(s - {x}, shift) + {shift + x} {
      assert i != x ==> i in s - {x};
    }
  }

  lemma {:induction false} Shifted(s: set<nat>, shift: nat)
    ensures |Later(s, shift)| == |s|
    decreases |s|
  {
    if s == {} {
      assert Later(s, shift) == {};
    } else {
      hide Later;
      var x :| x in s;
      LaterWithout(s, shift, x);
      Shifted(s - {x}, shift);
    }
  }

  /** One event for each activation and kind that a batch touches, counting its rows, in the
      order in which they were first touched. */
  lemma BatchBecomes(batch: Batch)
    ensures var events := BatchEvents(batch);
            && (forall e :: e in events ==>
                  && RowsFor(batch, e) != {} && e.count == |RowsFor(batch, e)|
                  && (!e.kind.Trace? ==> e.traceId == ""))
            && (forall i, j :: 0 <= i < j < |events| ==>
                  !SameSubject(events[i], events[j]) && TouchedFirst(batch, events[i], events[j]))
            && CountSum(events) == |batch.events| + |batch.errors| + |batch.snapshots|
  {
    hide BatchEvents, RowsFor, CountSum, FirstArrivals, TouchedFirst, BatchKeys, Distinct;
    CoalesceConserves(batch);
    var events, keys := BatchEvents(batch), BatchKeys(batch);
    FirstArrivalsAreDistinct(keys);
    forall e | e in events
      ensures RowsFor(batch, e) != {} && e.count == |RowsFor(batch, e)| && (!e.kind.Trace? ==> e.traceId == "")
    {
      var i :| 0 <= i < |events| && events[i] == e;
      OneEvent(batch, i);
    }
    forall i, j | 0 <= i < j < |events|
      ensures !SameSubject(events[i], events[j]) && TouchedFirst(batch, events[i], events[j])
    {
      TwoEvents(batch, i, j);
    }
  }

  lemma OneEvent(batch: Batch, i: nat)
    requires i < |BatchEvents(batch)|
    ensures var e := BatchEvents(batch)[i];
            && RowsFor(batch, e) != {} && e.count == |RowsFor(batch, e)|
            && (!e.kind.Trace? ==> e.traceId == "")
            && KeyIn(e) in BatchKeys(batch)
  {
    hide BatchEvents, RowsFor, CountSum, FirstArrivals, BatchKeys, Distinct;
    CoalesceConserves(batch);
    var e, keys := BatchEvents(batch)[i], BatchKeys(batch);
    FirstArrivalsAreDistinct(keys);
    assert KeyIn(e) == FirstArrivals(keys)[i] && KeyIn(e) in FirstArrivals(keys);
    PlacesOfKey(batch, e);
    PlacesCount(keys, KeyIn(e));
    Shifted(RowsFor(batch, e), Offset(batch, e.kind));
  }

  lemma TwoEvents(batch: Batch, i: nat, j: nat)
    requires i < j < |BatchEvents(batch)|
    ensures var events := BatchEvents(batch);
            !SameSubject(events[i], events[j]) && TouchedFirst(batch, events[i], events[j])
  {
    hide BatchEvents, RowsFor, CountSum, FirstArrivals, BatchKeys;
    CoalesceConserves(batch);
    var a, b, keys := BatchEvents(batch)[i], BatchEvents(batch)[j], BatchKeys(batch);
    OneEvent(batch, i);
    OneEvent(batch, j);
    PlacesOfKey(batch, a);
    PlacesOfKey(batch, b);
    FirstArrivalsInOrder(keys, i, j);
    assert KeyIn(a) == FirstArrivals(keys)[i] && KeyIn(b) == FirstArrivals(keys)[j];
    var k :| k in Places(keys, KeyIn(a)) && forall m :: m in Places(keys, KeyIn(b)) ==> k < m;
    var x :| x in RowsFor(batch, a) && k == Offset(batch, a.kind) + x;
    forall y | y in RowsFor(batch, b) ensures k < Offset(batch, b.kind) + y {
      assert Offset(batch, b.kind) + y in Places(keys, KeyIn(b));
    }
    var y :| y in RowsFor(batch, b);
    RowIsInList(batch, a, x);
    RowIsInList(batch, b, y);
  }

  lemma RowIsInList(batch: Batch, e: LiveEvent, i: nat)
    requires i in RowsFor(batch, e)
    ensures match e.kind
            case Trace => i < |batch.events|
            case Error => i < |batch.errors|
            case Snapshot => i < |batch.snapshots|
            case Named(_) => false
  {
  }

  // ----- how much of it fits -----

  /** A mailbox takes the first events that fit and counts the rest as dropped; its reader
      is woken for the former only. */
  lemma {:induction false} OfferedAllFits(b: Box, events: seq<LiveEvent>, wake: Wake)
    ensures var room := if |b.queue| < b.depth then b.depth - |b.queue| else 0;
            var n := if |events| < room then |events| else room;
            OfferedAll(b, events, wake) ==
              Box(b.depth, b.dropped + |events| - n, b.queue + events[..n],
                  b.flag || (n > 0 && wake == SetNow), b.callbacks + (if wake == Scheduled then n else 0))
    decreases |events|
  {
    if events != [] {
      var init := events[..|events| - 1];
      OfferedAllFits(b, init, wake);
      var room := if |b.queue| < b.depth then b.depth - |b.queue| else 0;
      if |events| <= room {
        assert events[..|events|] == init[..|init|] + [events[|events| - 1]];
      } else {
        assert events[..room] == init[..room];
      }
    } else {
      assert b.queue + [] == b.queue;
    }
  }
}

/** The unified error rows, from the events and records they are made of. */
module UnifiedErrors {
  import opened ErrorRows
  import opened Order
  import opened Wrappers

  // ----- what a group sums up -----

  predicate About(e: TraceError, g: Group) {
    e.entityKey == g.entityKey && e.seqNo == g.seqNo && e.reason == g.reason
  }

  /** The time of the first of its events, and the greatest error type any of them names. */
  ghost predicate SumsUp(g: Group, events: seq<TraceError>) {
    && (exists e :: e in events && About(e, g) && e.startMs == g.eventTimeMs)
    && (forall e :: e in events && About(e, g) ==> g.eventTimeMs <= e.startMs)
    && (g.errorType.Some? ==> exists e :: e in events && About(e, g) && e.errorType == g.errorType)
    && (forall e :: e in events && About(e, g) && e.errorType.Some? ==>
          g.errorType.Some? && !StringLess(g.errorType.value, e.errorType.value))
  }

  ghost predicate Grouping(groups: seq<Group>, events: seq<TraceError>) {
    && Keyed(groups)
    && (forall g :: g in groups ==> SumsUp(g, events))
    && (forall e :: e in events ==> exists g :: g in groups && About(e, g))
  }

  lemma MergeSumsUp(g: Group, events: seq<TraceError>, e: TraceError)
    requires SumsUp(g, events) && About(e, g)
    ensures SumsUp(Merge(g, e), events + [e])
  {
    var h, more := Merge(g, e), events + [e];
    assert forall x :: x in more <==> x in events || x == e;
    forall x | x in more && About(x, h) && x.errorType.Some?
      ensures h.errorType.Some? && !StringLess(h.errorType.value, x.errorType.value)
    {
      StringOrder(x.errorType.value, x.errorType.value);
      if g.errorType.Some? && e.errorType.Some? {
        MaxBounds(g.errorType.value, e.errorType.value, x.errorType.value);
      }
    }
    MergedTime(g, events, e);
    MergedType(g, events, e);
  }

  lemma MaxBounds(a: string, b: string, x: string)
    ensures !StringLess(a, x) || !StringLess(b, x) ==>
              !StringLess(MaxText(Some(a), Some(b)).value, x)
  {
    StringOrder(a, b);
    StringOrder(b, x);
    StringOrder(a, x);
    if StringLess(b, a) && StringLess(a, x) {
      StringTransitive(b, a, x);
    }
    if StringLess(a, b) && StringLess(b, x) {
      StringTransitive(a, b, x);
    }
  }

  lemma MergedTime(g: Group, events: seq<TraceError>, e: TraceError)
    requires SumsUp(g, events) && About(e, g)
    ensures exists x :: x in events + [e] && About(x, g) && x.startMs == Merge(g, e).eventTimeMs
    ensures forall x :: x in events + [e] && About(x, g) ==> Merge(g, e).eventTimeMs <= x.startMs
  {
    var first :| first in events && About(first, g) && first.startMs == g.eventTimeMs;
    assert first in events + [e] && e in events + [e];
  }

  lemma MergedType(g: Group, events: seq<TraceError>, e: TraceError)
    requires SumsUp(g, events) && About(e, g)
    ensures var t := Merge(g, e).errorType;
            t.Some? ==> exists x :: x in events + [e] && About(x, g) && x.errorType == t
  {
    assert e in events + [e];
    if g.errorType.Some? {
      var x :| x in events && About(x, g) && x.errorType == g.errorType;
      assert x in events + [e];
    }
  }

  lemma StillSumsUp(g: Group, events: seq<TraceError>, e: TraceError)
    requires SumsUp(g, events) && !About(e, g)
    ensures SumsUp(g, events + [e])
  {
    assert forall x :: x in events + [e] <==> x in events || x == e;
    var first :| first in events && About(first, g) && first.startMs == g.eventTimeMs;
    assert first in events + [e];
    if g.errorType.Some? {
      var x :| x in events && About(x, g) && x.errorType == g.errorType;
      assert x in events + [e];
    }
  }

  lemma StartsAGroup(events: seq<TraceError>, e: TraceError)
    requires forall x :: x in events ==> !(x.entityKey == e.entityKey && x.seqNo == e.seqNo && x.reason == e.reason)
    ensures SumsUp(Group(e.entityKey, e.seqNo, e.reason, e.startMs, e.errorType), events + [e])
  {
    assert e in events + [e];
    assert forall x :: x in events + [e] <==> x in events || x == e;
    if e.errorType.Some? {
      StringOrder(e.errorType.value, e.errorType.value);
    }
  }

  /** Adding an event changes the group it is about, or starts one. */
  lemma {:induction false} AddedGroups(groups: seq<Group>, e: TraceError)
    requires Keyed(groups)
    ensures forall h :: h in AddTo(groups, e) ==>
              || (h in groups && !About(e, h))
              || (exists g :: g in groups && About(e, g) && h == Merge(g, e))
              || ((forall g :: g in groups ==> !About(e, g))
                  && h == Group(e.entityKey, e.seqNo, e.reason, e.startMs, e.errorType))
    ensures exists h :: h in AddTo(groups, e) && About(e, h)
    ensures forall g :: g in groups ==> exists h :: h in AddTo(groups, e) && SameKey(g, h)
    decreases |groups|
  {
    var all := AddTo(groups, e);
    if groups == [] {
      assert all[0] in all;
    } else if SameGroup(groups[0], e) {
      assert all[0] == Merge(groups[0], e) && all[0] in all && groups[0] in groups;
      forall h | h in all ensures (h in groups && !About(e, h)) || h == all[0] {
        if h in groups[1..] {
          var k :| 0 <= k < |groups[1..]| && groups[1..][k] == h;
          assert groups[k + 1] == h && !SameKey(groups[0], groups[k + 1]);
        }
      }
      forall g | g in groups ensures exists h :: h in all && SameKey(g, h) {
        if g != groups[0] {
          assert g in all && SameKey(g, g);
        } else {
          assert SameKey(g, all[0]);
        }
      }
    } else {
      var rest := AddTo(groups[1..], e);
      AddedGroups(groups[1..], e);
      assert all == [groups[0]] + rest && groups[0] in all && SameKey(groups[0], groups[0]);
      assert forall g :: g in groups <==> g == groups[0] || g in groups[1..];
    }
  }

  /** One group for each entity, seq and reason among the events, summing up its events. */
  lemma {:induction false} GroupedSumsUp(events: seq<TraceError>)
    ensures Grouping(Grouped(events), events)
    decreases |events|
  {
    hide SumsUp, About;
    GroupedIsKeyed(events);
    if events != [] {
      var init, e := events[..|events| - 1], events[|events| - 1];
      var before, groups := Grouped(init), Grouped(events);
      assert events == init + [e];
      GroupedIsKeyed(init);
      GroupedSumsUp(init);
      AddedGroups(before, e);
      forall h | h in groups ensures SumsUp(h, events) {
        if h in before && !About(e, h) {
          StillSumsUp(h, init, e);
        } else if g :| g in before && About(e, g) && h == Merge(g, e) {
          MergeSumsUp(g, init, e);
        } else {
          NothingAbout(before, init, e);
          StartsAGroup(init, e);
        }
      }
      forall x | x in events ensures exists h :: h in groups && About(x, h) {
        if x in init {
          var g :| g in before && About(x, g);
          var h :| h in groups && SameKey(g, h);
          AboutSame(x, g, h);
        }
      }
    }
  }

  lemma NothingAbout(groups: seq<Group>, events: seq<TraceError>, e: TraceError)
    requires forall x :: x in events ==> exists g :: g in groups && About(x, g)
    requires forall g :: g in groups ==> !About(e, g)
    ensures forall x :: x in events ==> !(x.entityKey == e.entityKey && x.seqNo == e.seqNo && x.reason == e.reason)
  {
  }

  lemma AboutSame(x: TraceError, g: Group, h: Group)
    requires About(x, g) && SameKey(g, h)
    ensures About(x, h)
  {
  }

  // ----- what a row shows -----

  /** The record and the group may be two halves of one failure. */
  predicate MayMatch(r: Record, g: Group) {
    g.entityKey == r.entityKey && g.reason == r.reason && (r.seqNo == None || r.seqNo == Some(g.seqNo))
  }

  /** The group whose error type the record's row shows: of those that may match, the one
      with the least seq; if none may, one of its entity and reason at seq -1. */
  ghost predicate Paired(r: Record, g: Group, groups: seq<Group>) {
    if exists h :: h in groups && MayMatch(r, h) then
      MayMatch(r, g) && forall h :: h in groups && MayMatch(r, h) ==> g.seqNo <= h.seqNo
    else g.entityKey == r.entityKey && g.reason == r.reason && g.seqNo == -1
  }

  lemma PairedIff(r: Record, g: Group, groups: seq<Group>)
    requires g in groups
    ensures Joins(r, g, groups) <==> Paired(r, g, groups)
  {
    hide TraceSeq;
    assert forall h :: Candidate(r, h) <==> MayMatch(r, h);
    if HasCandidate(r, groups) {
      JoinsCounterpart(r, g, groups);
    } else {
      SeqOfNone(r, groups);
    }
  }

  lemma SeqOfNone(r: Record, groups: seq<Group>)
    requires !HasCandidate(r, groups)
    ensures TraceSeq(r, groups) == -1
  {
    LeastSeqIsLeast(r, groups);
  }

  /** A record's row: its own fields, and the error type of the group paired with it. */
  ghost predicate RowOfRecord(row: Row, r: Record, groups: seq<Group>) {
    && row.entityKey == r.entityKey && row.seqNo == r.seqNo && row.reason == r.reason
    && row.detail == r.detail && row.eventTimeMs == r.eventTimeMs
    && row.seqKey == (if r.seqNo == None then -1 else r.seqNo.value)
    && (forall g :: g in groups && Paired(r, g, groups) ==> row.errorType == g.errorType)
    && ((forall g :: g in groups ==> !Paired(r, g, groups)) ==> row.errorType == None)
  }

  lemma {:induction false} UnclaimedKeyed(some: seq<Group>, records: seq<Record>, groups: seq<Group>)
    requires Keyed(some)
    ensures Keyed(Unclaimed(some, records, groups))
    decreases |some|
  {
    if some != [] {
      UnclaimedKeyed(some[1..], records, groups);
      UnclaimedAre(some[1..], records, groups);
      var rest := Unclaimed(some[1..], records, groups);
      forall j | 0 <= j < |rest| ensures !SameKey(some[0], rest[j]) {
        assert rest[j] in rest;
        var k :| 0 <= k < |some[1..]| && some[1..][k] == rest[j];
        assert some[k + 1] == rest[j];
      }
    }
  }

  /** The unified rows: one for each record, in order, then one for each group that is
      paired with none, in order. */
  lemma UnifyShows(records: seq<Record>, groups: seq<Group>)
    requires Keyed(groups)
    ensures var rows, alone := Unify(records, groups), Unclaimed(groups, records, groups);
            && |rows| == |records| + |alone| && Keyed(alone)
            && (forall i :: 0 <= i < |records| ==> RowOfRecord(rows[i], records[i], groups))
            && (forall i :: 0 <= i < |alone| ==>
                  rows[|records| + i] ==
                    Row(alone[i].entityKey, Some(alone[i].seqNo), alone[i].seqNo, alone[i].reason, "",
                        alone[i].eventTimeMs, alone[i].errorType))
            && (forall g :: g in alone <==>
                  g in groups && forall i :: 0 <= i < |records| ==> !Paired(records[i], g, groups))
  {
    hide Unify, Unclaimed, Joins, Paired, Keyed, RowOfRecord;
    Unified(records, groups);
    UnclaimedAre(groups, records, groups);
    UnclaimedKeyed(groups, records, groups);
    var rows, alone := Unify(records, groups), Unclaimed(groups, records, groups);
    forall i | 0 <= i < |records| ensures RowOfRecord(rows[i], records[i], groups) {
      ShownRow(rows[i], records[i], groups);
    }
    forall g | g in groups
      ensures g in alone <==> forall i :: 0 <= i < |records| ==> !Paired(records[i], g, groups)
    {
      forall i | 0 <= i < |records| ensures Joins(records[i], g, groups) <==> Paired(records[i], g, groups) {
        PairedIff(records[i], g, groups);
      }
    }
  }

  lemma ShownRow(row: Row, r: Record, groups: seq<Group>)
    requires Keyed(groups) && ShowsGroup(row, r, groups)
    ensures RowOfRecord(row, r, groups)
  {
    hide Joins, Paired, Keyed;
    forall g | g in groups ensures Joins(r, g, groups) <==> Paired(r, g, groups) {
      PairedIff(r, g, groups);
    }
    forall g | g in groups && Paired(r, g, groups) ensures row.errorType == g.errorType {
      ShowsTheGroupJoined(row, r, groups, g);
    }
  }
}

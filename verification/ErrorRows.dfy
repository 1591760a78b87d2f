/** Unifying the two forms in which one failure reaches the store: a record on the
    errors sink, and an `ERROR` trace event. The relation `error_rows` joins each
    record to at most one trace-error group and adds the groups no record claims.
 */
module ErrorRows {
  import opened Wrappers
  import opened Order

  // ----- the two inputs -----

  /** An `ERROR` event that carries a reason. */
  datatype TraceError = TraceError(entityKey: string, seqNo: int, reason: string, startMs: int, errorType: Option<string>)

  datatype Record = Record(entityKey: string, seqNo: Option<int>, reason: string, detail: string, eventTimeMs: int)

  // ----- trace_errors: GROUP BY entity_key, seq, reason -----

  datatype Group = Group(entityKey: string, seqNo: int, reason: string, eventTimeMs: int, errorType: Option<string>)

  predicate SameGroup(g: Group, e: TraceError) {
    g.entityKey == e.entityKey && g.seqNo == e.seqNo && g.reason == e.reason
  }

  /** `MAX` ignores NULL. */
  function MaxText(a: Option<string>, b: Option<string>): Option<string> {
    if a.None? then b
    else if b.None? || StringLess(b.value, a.value) then a
    else b
  }

  function Merge(g: Group, e: TraceError): Group {
    g.(eventTimeMs := if e.startMs < g.eventTimeMs then e.startMs else g.eventTimeMs,
       errorType := MaxText(g.errorType, e.errorType))
  }

  function AddTo(groups: seq<Group>, e: TraceError): seq<Group> {
    if groups == [] then [Group(e.entityKey, e.seqNo, e.reason, e.startMs, e.errorType)]
    else if SameGroup(groups[0], e) then [Merge(groups[0], e)] + groups[1..]
    else [groups[0]] + AddTo(groups[1..], e)
  }

  function Grouped(events: seq<TraceError>): seq<Group> {
    if events == [] then [] else AddTo(Grouped(events[..|events| - 1]), events[|events| - 1])
  }

  predicate SameKey(g: Group, h: Group) {
    g.entityKey == h.entityKey && g.seqNo == h.seqNo && g.reason == h.reason
  }

  /** One group per (entity, seq, reason). */
  ghost predicate Keyed(groups: seq<Group>) {
    forall i, j :: 0 <= i < j < |groups| ==> !SameKey(groups[i], groups[j])
  }

  lemma {:induction false} AddToKeepsKeys(groups: seq<Group>, e: TraceError)
    requires Keyed(groups)
    ensures Keyed(AddTo(groups, e))
    ensures forall g :: g in AddTo(groups, e) ==> SameGroup(g, e) || g in groups
    decreases |groups|
  {
    if groups != [] && !SameGroup(groups[0], e) {
      AddToKeepsKeys(groups[1..], e);
      var rest := AddTo(groups[1..], e);
      forall j | 0 <= j < |rest| ensures !SameKey(groups[0], rest[j]) {
        assert rest[j] in rest;
        if rest[j] in groups[1..] {
          var k :| 0 <= k < |groups[1..]| && groups[1..][k] == rest[j];
          assert groups[k + 1] == rest[j];
        }
      }
    }
  }

  lemma {:induction false} GroupedIsKeyed(events: seq<TraceError>)
    ensures Keyed(Grouped(events))
    decreases |events|
  {
    if events != [] {
      GroupedIsKeyed(events[..|events| - 1]);
      AddToKeepsKeys(Grouped(events[..|events| - 1]), events[|events| - 1]);
    }
  }

  // ----- matched and error_rows -----

  const NO_MATCH: int := -1

  predicate Candidate(r: Record, g: Group) {
    g.entityKey == r.entityKey && g.reason == r.reason && (r.seqNo.None? || g.seqNo == r.seqNo.value)
  }

  /** `MIN(seq)` over the candidates, if there are any. */
  function LeastSeq(r: Record, groups: seq<Group>): Option<int> {
    if groups == [] then None
    else
      var rest := LeastSeq(r, groups[1..]);
      if !Candidate(r, groups[0]) then rest
      else if rest.Some? && rest.value < groups[0].seqNo then rest
      else Some(groups[0].seqNo)
  }

  /** `trace_seq`: the least candidate, or the sentinel. */
  function TraceSeq(r: Record, groups: seq<Group>): int {
    var least := LeastSeq(r, groups);
    if least.Some? then least.value else NO_MATCH
  }

  predicate Joins(r: Record, g: Group, groups: seq<Group>) {
    g.entityKey == r.entityKey && g.reason == r.reason && g.seqNo == TraceSeq(r, groups)
  }

  datatype Row = Row(
    entityKey: string, seqNo: Option<int>, seqKey: int, reason: string, detail: string, eventTimeMs: int,
    errorType: Option<string>)

  function RecordRow(r: Record, g: Option<Group>): Row {
    Row(r.entityKey, r.seqNo, if r.seqNo.Some? then r.seqNo.value else NO_MATCH, r.reason, r.detail, r.eventTimeMs,
        if g.Some? then g.value.errorType else None)
  }

  function GroupRow(g: Group): Row {
    Row(g.entityKey, Some(g.seqNo), g.seqNo, g.reason, "", g.eventTimeMs, g.errorType)
  }

  /** The groups a record's `LEFT JOIN` finds, out of `some`. */
  function JoinedGroups(r: Record, some: seq<Group>, groups: seq<Group>): seq<Group> {
    if some == [] then []
    else (if Joins(r, some[0], groups) then [some[0]] else []) + JoinedGroups(r, some[1..], groups)
  }

  function RowsOf(r: Record, groups: seq<Group>): seq<Row> {
    var joined := JoinedGroups(r, groups, groups);
    if joined == [] then [RecordRow(r, None)]
    else seq(|joined|, i requires 0 <= i < |joined| => RecordRow(r, Some(joined[i])))
  }

  function RecordRows(records: seq<Record>, groups: seq<Group>): seq<Row> {
    if records == [] then [] else RowsOf(records[0], groups) + RecordRows(records[1..], groups)
  }

  predicate Claimed(g: Group, records: seq<Record>, groups: seq<Group>) {
    exists i :: 0 <= i < |records| && Joins(records[i], g, groups)
  }

  function Unclaimed(some: seq<Group>, records: seq<Record>, groups: seq<Group>): seq<Group> {
    if some == [] then []
    else (if Claimed(some[0], records, groups) then [] else [some[0]]) + Unclaimed(some[1..], records, groups)
  }

  function GroupRows(groups: seq<Group>): seq<Row> {
    seq(|groups|, i requires 0 <= i < |groups| => GroupRow(groups[i]))
  }

  function Unify(records: seq<Record>, groups: seq<Group>): seq<Row> {
    RecordRows(records, groups) + GroupRows(Unclaimed(groups, records, groups))
  }

  // ----- which group a record joins -----

  lemma {:induction false} LeastSeqIsLeast(r: Record, groups: seq<Group>)
    ensures LeastSeq(r, groups).None? <==> forall g :: g in groups ==> !Candidate(r, g)
    ensures LeastSeq(r, groups).Some? ==>
              && (exists g :: g in groups && Candidate(r, g) && g.seqNo == LeastSeq(r, groups).value)
              && (forall g :: g in groups && Candidate(r, g) ==> LeastSeq(r, groups).value <= g.seqNo)
    decreases |groups|
  {
    if groups != [] {
      LeastSeqIsLeast(r, groups[1..]);
      assert groups[0] in groups;
      assert forall g :: g in groups <==> g == groups[0] || g in groups[1..];
    }
  }

  /** The group a record ought to join: the candidate with the least seq. */
  ghost predicate Counterpart(r: Record, g: Group, groups: seq<Group>) {
    g in groups && Candidate(r, g) && forall h :: h in groups && Candidate(r, h) ==> g.seqNo <= h.seqNo
  }

  ghost predicate HasCandidate(r: Record, groups: seq<Group>) {
    exists g :: g in groups && Candidate(r, g)
  }

  /** A group of the same entity and reason sits at the sentinel seq. */
  ghost predicate SentinelGroup(r: Record, groups: seq<Group>) {
    exists g :: g in groups && g.entityKey == r.entityKey && g.reason == r.reason && g.seqNo == NO_MATCH
  }

  /** A record that has a candidate joins its counterpart and nothing else. */
  lemma JoinsCounterpart(r: Record, g: Group, groups: seq<Group>)
    requires g in groups && HasCandidate(r, groups)
    ensures Joins(r, g, groups) <==> Counterpart(r, g, groups)
  {
    LeastSeqIsLeast(r, groups);
    var least :| least in groups && Candidate(r, least) && least.seqNo == LeastSeq(r, groups).value;
    if Joins(r, g, groups) {
      assert Candidate(r, g);
    }
  }

  /** A record without a candidate joins nothing, exactly when no group of its entity
      and reason has seq -1: the sentinel for "no match" is also a seq. */
  lemma NoCandidateJoinsNothingIff(r: Record, groups: seq<Group>)
    requires !HasCandidate(r, groups)
    ensures (forall g :: g in groups ==> !Joins(r, g, groups)) <==> !SentinelGroup(r, groups)
  {
    LeastSeqIsLeast(r, groups);
    assert TraceSeq(r, groups) == NO_MATCH;
    if g :| g in groups && g.entityKey == r.entityKey && g.reason == r.reason && g.seqNo == NO_MATCH {
      assert Joins(r, g, groups);
    }
  }

  // ----- one row per record -----

  lemma {:induction false} AtMostOneJoined(r: Record, some: seq<Group>, groups: seq<Group>)
    requires Keyed(some)
    ensures |JoinedGroups(r, some, groups)| <= 1
    ensures forall g :: g in JoinedGroups(r, some, groups) <==> g in some && Joins(r, g, groups)
    decreases |some|
  {
    if some != [] {
      AtMostOneJoined(r, some[1..], groups);
      var rest := JoinedGroups(r, some[1..], groups);
      assert rest == [] || rest[0] in rest;
    }
  }

  /** The error type a record's row shows: that of the group it joins. */
  ghost predicate ShowsGroup(row: Row, r: Record, groups: seq<Group>) {
    || ((forall g :: g in groups ==> !Joins(r, g, groups)) && row == RecordRow(r, None))
    || (exists g :: g in groups && Joins(r, g, groups) && row == RecordRow(r, Some(g)))
  }

  lemma OneRowPerRecord(r: Record, groups: seq<Group>)
    requires Keyed(groups)
    ensures |RowsOf(r, groups)| == 1 && ShowsGroup(RowsOf(r, groups)[0], r, groups)
  {
    AtMostOneJoined(r, groups, groups);
    var joined := JoinedGroups(r, groups, groups);
    if joined != [] {
      assert joined[0] in joined;
    }
  }

  lemma {:induction false} RecordRowsAlign(records: seq<Record>, groups: seq<Group>)
    requires Keyed(groups)
    ensures |RecordRows(records, groups)| == |records|
    ensures forall i :: 0 <= i < |records| ==> ShowsGroup(RecordRows(records, groups)[i], records[i], groups)
    decreases |records|
  {
    if records != [] {
      OneRowPerRecord(records[0], groups);
      RecordRowsAlign(records[1..], groups);
      forall i | 0 < i < |records| ensures ShowsGroup(RecordRows(records, groups)[i], records[i], groups) {
        assert RecordRows(records, groups)[i] == RecordRows(records[1..], groups)[i - 1];
        assert records[i] == records[1..][i - 1];
      }
    }
  }

  lemma {:induction false} UnclaimedAre(some: seq<Group>, records: seq<Record>, groups: seq<Group>)
    ensures forall g :: g in Unclaimed(some, records, groups) <==> g in some && !Claimed(g, records, groups)
    decreases |some|
  {
    if some != [] {
      UnclaimedAre(some[1..], records, groups);
    }
  }

  /** The unification: one row per record, in order, showing the group it joins, then
      one row for each group no record claims. No group is lost. */
  lemma Unified(records: seq<Record>, groups: seq<Group>)
    requires Keyed(groups)
    ensures var rows := Unify(records, groups);
            var alone := Unclaimed(groups, records, groups);
            && |rows| == |records| + |alone|
            && (forall i :: 0 <= i < |records| ==> ShowsGroup(rows[i], records[i], groups))
            && (forall i :: 0 <= i < |alone| ==> rows[|records| + i] == GroupRow(alone[i]))
            && (forall g :: g in groups ==> (g in alone <==> !Claimed(g, records, groups)))
  {
    RecordRowsAlign(records, groups);
    UnclaimedAre(groups, records, groups);
  }

  /** The row shows what the trace knows of a failure: its entity, reason and error type. */
  predicate Shows(row: Row, g: Group) {
    row.entityKey == g.entityKey && row.reason == g.reason && row.errorType == g.errorType
  }

  /** No group is lost: every one is shown by some row, its own or that of a record. */
  lemma EveryGroupIsShown(records: seq<Record>, groups: seq<Group>, g: Group)
    requires Keyed(groups) && g in groups
    ensures exists row :: row in Unify(records, groups) && Shows(row, g)
  {
    hide Unify, Unclaimed, Keyed, Joins, JoinedGroups;
    Unified(records, groups);
    var rows, alone := Unify(records, groups), Unclaimed(groups, records, groups);
    if g in alone {
      var i :| 0 <= i < |alone| && alone[i] == g;
      assert rows[|records| + i] == GroupRow(g) && Shows(rows[|records| + i], g);
    } else {
      var i :| 0 <= i < |records| && Joins(records[i], g, groups);
      ShowsTheGroupJoined(rows[i], records[i], groups, g);
    }
  }

  lemma ShowsTheGroupJoined(row: Row, r: Record, groups: seq<Group>, g: Group)
    requires Keyed(groups) && g in groups && Joins(r, g, groups) && ShowsGroup(row, r, groups)
    ensures Shows(row, g)
  {
    hide TraceSeq;
    var h :| h in groups && Joins(r, h, groups) && row == RecordRow(r, Some(h));
    var i :| 0 <= i < |groups| && groups[i] == g;
    var j :| 0 <= j < |groups| && groups[j] == h;
    assert SameKey(g, h) && SameKey(h, g);
  }

  /** The sentinel is also a seq: a record of seq 5 claims a group of seq -1 that is not
      its counterpart. The group gets no row, and the record shows its error type. */
  lemma SentinelClaimsAStranger(entityKey: string, reason: string, errorType: string)
    ensures var r := Record(entityKey, Some(5), reason, "", 0);
            var groups := Grouped([TraceError(entityKey, NO_MATCH, reason, 0, Some(errorType))]);
            && (forall g :: g in groups ==> !Candidate(r, g))
            && Unify([r], groups) == [RecordRow(r, Some(groups[0]))]
            && Unify([r], groups)[0].errorType == Some(errorType)
  {
    var r, e := Record(entityKey, Some(5), reason, "", 0), TraceError(entityKey, NO_MATCH, reason, 0, Some(errorType));
    var g := Group(entityKey, NO_MATCH, reason, 0, Some(errorType));
    assert [e][..0] == [] && Grouped([e]) == [g];
    var groups := [g];
    LeastSeqIsLeast(r, groups);
    assert forall h :: h in groups ==> h == g;
    assert TraceSeq(r, groups) == NO_MATCH && Joins(r, g, groups);
    assert groups[1..] == [];
    assert JoinedGroups(r, groups, groups) == [g];
    assert RowsOf(r, groups) == [RecordRow(r, Some(g))];
    assert [r][1..] == [] && RecordRows([r], groups) == [RecordRow(r, Some(g))];
    assert Claimed(g, [r], groups) && Unclaimed(groups, [r], groups) == [];
  }

  // ----- is a failure counted once? -----

  /** A failure that arrives on both paths. `carriesSeq` says whether its record
      names the activation; most reasons' records do not. */
  datatype Failure = Failure(
    entityKey: string, seqNo: int, reason: string, carriesSeq: bool, detail: string, atMs: int, errorType: Option<string>)

  function AsRecord(f: Failure): Record {
    Record(f.entityKey, if f.carriesSeq then Some(f.seqNo) else None, f.reason, f.detail, f.atMs)
  }

  function AsGroup(f: Failure): Group {
    Group(f.entityKey, f.seqNo, f.reason, f.atMs, f.errorType)
  }

  function AsTraceError(f: Failure): TraceError {
    TraceError(f.entityKey, f.seqNo, f.reason, f.atMs, f.errorType)
  }

  function RecordsOf(fs: seq<Failure>): seq<Record> {
    seq(|fs|, i requires 0 <= i < |fs| => AsRecord(fs[i]))
  }

  function GroupsOf(fs: seq<Failure>): seq<Group> {
    seq(|fs|, i requires 0 <= i < |fs| => AsGroup(fs[i]))
  }

  function TraceErrorsOf(fs: seq<Failure>): seq<TraceError> {
    seq(|fs|, i requires 0 <= i < |fs| => AsTraceError(fs[i]))
  }

  ghost predicate DistinctFailures(fs: seq<Failure>) {
    forall i, j :: 0 <= i < j < |fs| ==> !SameKey(AsGroup(fs[i]), AsGroup(fs[j]))
  }

  /** The least seq among the failures of the same entity and reason. */
  ghost predicate Earliest(f: Failure, fs: seq<Failure>) {
    forall i :: 0 <= i < |fs| && fs[i].entityKey == f.entityKey && fs[i].reason == f.reason ==> f.seqNo <= fs[i].seqNo
  }

  lemma {:induction false} AddFresh(groups: seq<Group>, e: TraceError)
    requires forall i :: 0 <= i < |groups| ==> !SameGroup(groups[i], e)
    ensures AddTo(groups, e) == groups + [Group(e.entityKey, e.seqNo, e.reason, e.startMs, e.errorType)]
    decreases |groups|
  {
    if groups != [] {
      AddFresh(groups[1..], e);
    }
  }

  lemma {:induction false} DistinctFailuresGroup(fs: seq<Failure>)
    requires DistinctFailures(fs)
    ensures Grouped(TraceErrorsOf(fs)) == GroupsOf(fs)
    decreases |fs|
  {
    if fs != [] {
      var init := fs[..|fs| - 1];
      DistinctFailuresGroup(init);
      assert TraceErrorsOf(fs)[..|fs| - 1] == TraceErrorsOf(init);
      AddFresh(GroupsOf(init), AsTraceError(fs[|fs| - 1]));
      assert GroupsOf(fs) == GroupsOf(init) + [AsGroup(fs[|fs| - 1])];
    }
  }

  /** A failure's trace error is claimed exactly when its own record carries the seq
      or it is the earliest of its entity and reason. */
  lemma ClaimedIff(fs: seq<Failure>, i: nat)
    requires DistinctFailures(fs) && i < |fs|
    ensures Claimed(AsGroup(fs[i]), RecordsOf(fs), GroupsOf(fs)) <==> fs[i].carriesSeq || Earliest(fs[i], fs)
  {
    var records, groups, g := RecordsOf(fs), GroupsOf(fs), AsGroup(fs[i]);
    assert groups[i] == g && g in groups;
    if fs[i].carriesSeq || Earliest(fs[i], fs) {
      assert Candidate(records[i], g);
      JoinsCounterpart(records[i], g, groups);
      forall h | h in groups && Candidate(records[i], h) ensures g.seqNo <= h.seqNo {
        var k :| 0 <= k < |fs| && groups[k] == h;
      }
      assert Joins(records[i], g, groups);
    }
    if j :| 0 <= j < |records| && Joins(records[j], g, groups) {
      assert groups[j] in groups && Candidate(records[j], groups[j]);
      JoinsCounterpart(records[j], g, groups);
      if records[j].seqNo.Some? {
        assert SameKey(g, groups[j]);
        assert i == j;
      } else {
        forall k | 0 <= k < |fs| && fs[k].entityKey == fs[i].entityKey && fs[k].reason == fs[i].reason
          ensures fs[i].seqNo <= fs[k].seqNo
        {
          assert groups[k] in groups && Candidate(records[j], groups[k]);
        }
      }
    }
  }

  /** Failures that arrive on both paths are counted once each exactly when every
      record without a seq belongs to the earliest failure of its entity and reason. */
  lemma CountedOnceIff(fs: seq<Failure>)
    requires DistinctFailures(fs)
    ensures |Unify(RecordsOf(fs), Grouped(TraceErrorsOf(fs)))| == |fs| <==>
              forall i :: 0 <= i < |fs| ==> fs[i].carriesSeq || Earliest(fs[i], fs)
  {
    var records, groups := RecordsOf(fs), GroupsOf(fs);
    DistinctFailuresGroup(fs);
    GroupedIsKeyed(TraceErrorsOf(fs));
    Unified(records, groups);
    UnclaimedAre(groups, records, groups);
    var alone := Unclaimed(groups, records, groups);
    forall i | 0 <= i < |fs| ensures groups[i] in alone <==> !(fs[i].carriesSeq || Earliest(fs[i], fs)) {
      ClaimedIff(fs, i);
      assert groups[i] == AsGroup(fs[i]) && groups[i] in groups;
    }
    if alone != [] {
      assert alone[0] in alone && alone[0] in groups;
      var i :| 0 <= i < |fs| && groups[i] == alone[0];
    }
  }

  /** Otherwise a failure is counted twice: the same activation error at two seqs of
      one entity, delivered on both paths, makes three rows. */
  lemma TwoFailuresThreeRows(entityKey: string, reason: string, early: int, late: int)
    requires early < late
    ensures var fs := [Failure(entityKey, early, reason, false, "", 0, None),
                       Failure(entityKey, late, reason, false, "", 0, None)];
            DistinctFailures(fs) && |Unify(RecordsOf(fs), Grouped(TraceErrorsOf(fs)))| == 3
  {
    var fs := [Failure(entityKey, early, reason, false, "", 0, None),
               Failure(entityKey, late, reason, false, "", 0, None)];
    DistinctFailuresGroup(fs);
    GroupedIsKeyed(TraceErrorsOf(fs));
    var records, groups := RecordsOf(fs), GroupsOf(fs);
    Unified(records, groups);
    ClaimedIff(fs, 0);
    ClaimedIff(fs, 1);
    assert Earliest(fs[0], fs) && !Earliest(fs[1], fs);
    assert groups == [AsGroup(fs[0]), AsGroup(fs[1])] && groups[1..] == [AsGroup(fs[1])];
    assert Unclaimed(groups[1..][1..], records, groups) == [];
  }
}

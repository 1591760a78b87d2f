/** The landing page's figures: headline counts and the series drawn beside them,
    read from one snapshot of the store.
 */
module Overview {
  import opened ErrorRows
  import opened Percentiles
  import opened Rounding
  import opened Series
  import opened Tallies
  import opened Wrappers

  /** An activation in flight has no end yet. */
  datatype Activation = Activation(
    startedMs: int, endedMs: Option<int>, wallMs: Option<int>, totalTokens: Option<int>)

  /** One snapshot. Trace errors are the `ERROR` events with a reason; the starts of
      all other events are listed apart. */
  datatype Store = Store(
    activations: seq<Activation>,
    otherStarts: seq<int>,
    traceErrors: seq<TraceError>,
    records: seq<Record>,
    snapshotTimes: seq<int>)

  // ----- the extent of the store -----

  /** `MAX` ignores NULL. */
  function Ends(rows: seq<Activation>): seq<int> {
    if rows == [] then []
    else (if rows[0].endedMs.Some? then [rows[0].endedMs.value] else []) + Ends(rows[1..])
  }

  function Times(s: Store): seq<int> {
    s.otherStarts
    + seq(|s.traceErrors|, i requires 0 <= i < |s.traceErrors| => s.traceErrors[i].startMs)
    + seq(|s.records|, i requires 0 <= i < |s.records| => s.records[i].eventTimeMs)
    + s.snapshotTimes
    + seq(|s.activations|, i requires 0 <= i < |s.activations| => s.activations[i].startedMs)
    + Ends(s.activations)
  }

  function Newest(times: seq<int>): (newest: Option<int>)
    ensures newest.None? <==> times == []
    ensures newest.Some? ==> newest.value in times && forall t :: t in times ==> t <= newest.value
  {
    if times == [] then None
    else
      var rest := Newest(times[1..]);
      assert times == [times[0]] + times[1..];
      if rest.Some? && times[0] < rest.value then rest else Some(times[0])
  }

  // ----- the rows of the window -----

  function Windowed(rows: seq<Activation>, since: int): (r: seq<Activation>)
    ensures forall a :: a in r <==> a in rows && a.startedMs >= since
  {
    if rows == [] then [] else (if rows[0].startedMs >= since then [rows[0]] else []) + Windowed(rows[1..], since)
  }

  function ErrorsSince(rows: seq<Row>, since: int): (r: seq<Row>)
    ensures forall a :: a in r <==> a in rows && a.eventTimeMs >= since
  {
    if rows == [] then [] else (if rows[0].eventTimeMs >= since then [rows[0]] else []) + ErrorsSince(rows[1..], since)
  }

  function Walls(rows: seq<Activation>): (walls: seq<int>)
    ensures |walls| <= |rows|
  {
    if rows == [] then []
    else (if rows[0].wallMs.Some? then [rows[0].wallMs.value] else []) + Walls(rows[1..])
  }

  function StartSamples(rows: seq<Activation>): seq<Sample> {
    seq(|rows|, i requires 0 <= i < |rows| => Sample(rows[i].startedMs, 1))
  }

  function ErrorSamples(rows: seq<Row>): seq<Sample> {
    seq(|rows|, i requires 0 <= i < |rows| => Sample(rows[i].eventTimeMs, 1))
  }

  /** Activations with no token count are not part of the token series. */
  function TokenSamples(rows: seq<Activation>): seq<Sample> {
    if rows == [] then []
    else
      var init, last := TokenSamples(rows[..|rows| - 1]), rows[|rows| - 1];
      if last.totalTokens.Some? then init + [Sample(last.startedMs, last.totalTokens.value)] else init
  }

  /** SQL `SUM`: NULL when every input is. */
  function SumTokens(rows: seq<Activation>): Option<int> {
    if rows == [] then None
    else
      var init, last := SumTokens(rows[..|rows| - 1]), rows[|rows| - 1];
      if last.totalTokens.None? then init
      else Some((if init.Some? then init.value else 0) + last.totalTokens.value)
  }

  // ----- the figures -----

  datatype Figures = Figures(
    activations: nat, errors: nat, totalTokens: Option<int>, p50: Option<int>, p95: Option<int>,
    activationSeries: seq<Point>, errorSeries: seq<Point>, tokenSeries: seq<Point>)

  /** One pass over the window's activations fills both dictionaries. */
  method CountActivations(rows: seq<Activation>, size: int) returns (starts: map<int, int>, tokens: map<int, int>)
    requires size != 0
    ensures Counts(starts, StartSamples(rows), size)
    ensures Counts(tokens, TokenSamples(rows), size)
  {
    hide Bucket, Counts;
    starts, tokens := map[], map[];
    NothingCounted(size);
    for i := 0 to |rows|
      invariant Counts(starts, StartSamples(rows[..i]), size)
      invariant Counts(tokens, TokenSamples(rows[..i]), size)
    {
      var row := rows[i];
      var bucket := Bucket(row.startedMs, size);
      assert rows[..i + 1][..i] == rows[..i];
      CountsAdd(starts, StartSamples(rows[..i]), Sample(row.startedMs, 1), size);
      assert StartSamples(rows[..i + 1]) == StartSamples(rows[..i]) + [Sample(row.startedMs, 1)];
      starts := Added(starts, bucket, 1);
      if row.totalTokens.Some? {
        CountsAdd(tokens, TokenSamples(rows[..i]), Sample(row.startedMs, row.totalTokens.value), size);
        tokens := Added(tokens, bucket, row.totalTokens.value);
      }
    }
    assert rows[..|rows|] == rows;
  }

  lemma NothingCounted(size: int)
    requires size != 0
    ensures Counts(map[], StartSamples([]), size) && Counts(map[], TokenSamples([]), size)
  {
  }

  /** A series over the window: contiguous buckets, each showing what fell in it. */
  ghost predicate Shows(points: seq<Point>, samples: seq<Sample>, firstMs: int, lastMs: int, size: int)
    requires size != 0
  {
    && |points| == |Axis(firstMs, lastMs, size)|
    && forall i :: 0 <= i < |points| ==>
         && points[i].bucketMs == (FloorDiv(firstMs, size) + i) * size
         && points[i].value == WeightOf(Entries(samples, size), points[i].bucketMs)
  }

  lemma SeriesShows(counts: map<int, int>, samples: seq<Sample>, firstMs: int, lastMs: int, size: int)
    requires size != 0 && Counts(counts, samples, size)
    ensures Shows(SeriesOf(counts, firstMs, lastMs, size), samples, firstMs, lastMs, size)
  {
    hide Axis, Bucket;
    AxisAt(firstMs, lastMs, size);
  }

  ghost predicate Faithful(f: Figures, s: Store, newest: int, windowMs: int, buckets: int) {
    var since, size := newest - windowMs, BucketSize(windowMs, buckets);
    var rows, errors := Windowed(s.activations, since), ErrorsSince(Unify(s.records, Grouped(s.traceErrors)), since);
    && f.activations == |rows|
    && f.errors == |errors|
    && f.totalTokens == SumTokens(rows)
    && f.p50 == Percentile(Walls(rows), 50, 100)
    && f.p95 == Percentile(Walls(rows), 95, 100)
    && Shows(f.activationSeries, StartSamples(rows), since, newest, size)
    && Shows(f.errorSeries, ErrorSamples(errors), since, newest, size)
    && Shows(f.tokenSeries, TokenSamples(rows), since, newest, size)
  }

  /** The sums under the three series are the headline figures, whatever the window,
      and no series has more than one bucket beyond the number asked for. */
  ghost predicate Conserved(f: Figures, buckets: int) {
    && SumOf(f.activationSeries) == f.activations
    && SumOf(f.errorSeries) == f.errors
    && SumOf(f.tokenSeries) == (if f.totalTokens.Some? then f.totalTokens.value else 0)
    && |f.activationSeries| == |f.errorSeries| == |f.tokenSeries| <= Max(1, buckets) + 1
    && (f.p50.Some? <==> f.p95.Some?)
    && (f.p50.Some? ==> f.p50.value <= f.p95.value)
  }

  // ----- everything shown was stored before the window's end -----

  lemma ActivationsAreWithin(s: Store, since: int)
    requires s.activations != []
    ensures Times(s) != []
    ensures Within(StartSamples(Windowed(s.activations, since)), since, Newest(Times(s)).value)
  {
    var times, rows, n := Times(s), Windowed(s.activations, since), |s.activations|;
    var m := |times| - |Ends(s.activations)| - n;
    forall a | a in s.activations ensures a.startedMs in times {
      var i :| 0 <= i < n && s.activations[i] == a;
      assert times[m + i] == a.startedMs;
    }
    forall i | 0 <= i < |rows| ensures since <= rows[i].startedMs <= Newest(times).value {
      assert rows[i] in rows;
    }
  }

  lemma {:induction false} TokensAreWithin(rows: seq<Activation>, firstMs: int, lastMs: int)
    requires Within(StartSamples(rows), firstMs, lastMs)
    ensures Within(TokenSamples(rows), firstMs, lastMs)
    decreases |rows|
  {
    if rows != [] {
      var init := rows[..|rows| - 1];
      assert forall i :: 0 <= i < |init| ==> StartSamples(init)[i] == StartSamples(rows)[i];
      TokensAreWithin(init, firstMs, lastMs);
      assert StartSamples(rows)[|rows| - 1].atMs == rows[|rows| - 1].startedMs;
    }
  }

  lemma RowsAreWithin(s: Store, since: int)
    requires Times(s) != []
    ensures var rows, last := Windowed(s.activations, since), Newest(Times(s)).value;
            Within(StartSamples(rows), since, last) && Within(TokenSamples(rows), since, last)
  {
    hide Times;
    if s.activations != [] {
      ActivationsAreWithin(s, since);
    }
    TokensAreWithin(Windowed(s.activations, since), since, Newest(Times(s)).value);
  }

  lemma {:induction false} GroupTimesAreStarts(groups: seq<Group>, e: TraceError, starts: set<int>)
    requires e.startMs in starts && forall g :: g in groups ==> g.eventTimeMs in starts
    ensures forall g :: g in AddTo(groups, e) ==> g.eventTimeMs in starts
    decreases |groups|
  {
    if groups != [] && !SameGroup(groups[0], e) {
      GroupTimesAreStarts(groups[1..], e, starts);
    }
  }

  lemma {:induction false} GroupedTimes(events: seq<TraceError>, starts: set<int>)
    requires forall e :: e in events ==> e.startMs in starts
    ensures forall g :: g in Grouped(events) ==> g.eventTimeMs in starts
    decreases |events|
  {
    if events != [] {
      var init, last := events[..|events| - 1], events[|events| - 1];
      assert last in events;
      GroupedTimes(init, starts);
      GroupTimesAreStarts(Grouped(init), last, starts);
    }
  }

  /** A unified row is dated by a record or by an event. */
  lemma RowTimesAreStored(s: Store, row: Row)
    requires row in Unify(s.records, Grouped(s.traceErrors))
    ensures row.eventTimeMs in Times(s)
  {
    hide Joins, Grouped, Claimed, Unify, Unclaimed;
    var groups, n, m := Grouped(s.traceErrors), |s.records|, |s.traceErrors|;
    var starts := set e | e in s.traceErrors :: e.startMs;
    GroupedIsKeyed(s.traceErrors);
    GroupedTimes(s.traceErrors, starts);
    Unified(s.records, groups);
    UnclaimedAre(groups, s.records, groups);
    var rows, times := Unify(s.records, groups), Times(s);
    var i :| 0 <= i < |rows| && rows[i] == row;
    if i < n {
      assert ShowsGroup(rows[i], s.records[i], groups);
      assert times[|s.otherStarts| + m + i] == s.records[i].eventTimeMs;
    } else {
      var g := Unclaimed(groups, s.records, groups)[i - n];
      assert rows[n + (i - n)] == GroupRow(g) && g in groups;
      var e :| e in s.traceErrors && e.startMs == g.eventTimeMs;
      var k :| 0 <= k < m && s.traceErrors[k] == e;
      assert times[|s.otherStarts| + k] == e.startMs;
    }
  }

  lemma ErrorsAreWithin(s: Store, since: int)
    requires Times(s) != []
    ensures var errors := ErrorsSince(Unify(s.records, Grouped(s.traceErrors)), since);
            Within(ErrorSamples(errors), since, Newest(Times(s)).value)
  {
    hide Times, Unify, Grouped;
    var errors := ErrorsSince(Unify(s.records, Grouped(s.traceErrors)), since);
    forall i | 0 <= i < |errors| ensures since <= errors[i].eventTimeMs <= Newest(Times(s)).value {
      assert errors[i] in errors;
      RowTimesAreStored(s, errors[i]);
    }
  }

  // ----- the headline figures as sums -----

  lemma {:induction false} UnitWeights(samples: seq<Sample>)
    requires forall i :: 0 <= i < |samples| ==> samples[i].weight == 1
    ensures WeightSum(samples) == |samples|
    decreases |samples|
  {
    if samples != [] {
      UnitWeights(samples[..|samples| - 1]);
    }
  }

  lemma {:induction false} TokenWeights(rows: seq<Activation>)
    ensures WeightSum(TokenSamples(rows)) == if SumTokens(rows).Some? then SumTokens(rows).value else 0
    decreases |rows|
  {
    if rows != [] {
      TokenWeights(rows[..|rows| - 1]);
    }
  }

  /** One series over the window, filled from one dictionary. */
  lemma OneSeries(counts: map<int, int>, samples: seq<Sample>, lastMs: int, windowMs: int, buckets: int)
    requires Counts(counts, samples, BucketSize(windowMs, buckets))
    requires Within(samples, lastMs - windowMs, lastMs)
    ensures var size, since := BucketSize(windowMs, buckets), lastMs - windowMs;
            var points := SeriesOf(counts, since, lastMs, size);
            && Shows(points, samples, since, lastMs, size)
            && SumOf(points) == WeightSum(samples)
            && |points| == |Axis(since, lastMs, size)| <= Max(1, buckets) + 1
  {
    hide Counts, Within, BucketSize, Axis, WeightSum;
    var size, since := BucketSize(windowMs, buckets), lastMs - windowMs;
    SeriesShows(counts, samples, since, lastMs, size);
    SeriesSum(counts, samples, since, lastMs, size);
    WindowSum(samples, since, lastMs, size);
    AxisIsBounded(lastMs, windowMs, buckets);
  }

  lemma PercentilesAgree(walls: seq<int>)
    ensures var p50, p95 := Percentile(walls, 50, 100), Percentile(walls, 95, 100);
            && (p50.Some? <==> p95.Some?)
            && (p50.Some? ==> p50.value <= p95.value)
  {
    if walls != [] {
      MedianBelowTail(walls);
    }
  }

  method Overview(s: Store, windowMs: int, buckets: int) returns (f: Option<Figures>)
    ensures f.None? <==> Times(s) == []
    ensures f.Some? ==> Faithful(f.value, s, Newest(Times(s)).value, windowMs, buckets)
    ensures f.Some? ==> Conserved(f.value, buckets)
  {
    hide Counts, Shows, SeriesOf, Axis, Times, Newest, Percentile, Unify, Grouped, BucketSize, Windowed, ErrorsSince,
      Walls, SumTokens, TokenSamples, WeightSum, SumOf, Within;
    var newest := Newest(Times(s));
    if newest.None? {
      return None;
    }
    var last := newest.value;
    var since, size := last - windowMs, BucketSize(windowMs, buckets);
    var rows := Windowed(s.activations, since);
    var errors := ErrorsSince(Unify(s.records, Grouped(s.traceErrors)), since);
    var starts, tokens := CountActivations(rows, size);
    var failures := CountInto(ErrorSamples(errors), size);
    var walls := Walls(rows);
    f := Some(Figures(
      |rows|, |errors|, SumTokens(rows), Percentile(walls, 50, 100), Percentile(walls, 95, 100),
      SeriesOf(starts, since, last, size), SeriesOf(failures, since, last, size), SeriesOf(tokens, since, last, size)));
    RowsAreWithin(s, since);
    ErrorsAreWithin(s, since);
    OneSeries(starts, StartSamples(rows), last, windowMs, buckets);
    OneSeries(failures, ErrorSamples(errors), last, windowMs, buckets);
    OneSeries(tokens, TokenSamples(rows), last, windowMs, buckets);
    UnitWeights(StartSamples(rows));
    UnitWeights(ErrorSamples(errors));
    TokenWeights(rows);
    PercentilesAgree(walls);
  }
}

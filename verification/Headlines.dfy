/** The landing page's figures, from the rows of the store: which rows each of them counts,
    adds up or ranks.
 */
module Headlines {
  import opened Counting
  import opened ErrorRows
  import opened Overview
  import opened Percentiles
  import opened Rounding
  import opened Series
  import opened Tallies
  import opened Wrappers

  // ----- conditions on a row -----

  ghost function Within(lo: int): Activation -> bool {
    (a: Activation) => lo <= a.startedMs
  }

  ghost function Between(lo: int, from: int, to: int): Activation -> bool {
    (a: Activation) => lo <= a.startedMs && from <= a.startedMs < to
  }

  ghost function Measured(lo: int): Activation -> bool {
    (a: Activation) => lo <= a.startedMs && a.wallMs.Some?
  }

  ghost function NoSlower(lo: int, ms: int): Activation -> bool {
    (a: Activation) => lo <= a.startedMs && a.wallMs.Some? && a.wallMs.value <= ms
  }

  ghost function HasWall(): Activation -> bool {
    (a: Activation) => a.wallMs.Some?
  }

  ghost function UpTo(ms: int): Activation -> bool {
    (a: Activation) => a.wallMs.Some? && a.wallMs.value <= ms
  }

  ghost function Every(): Activation -> bool {
    (a: Activation) => true
  }

  ghost function ErrorWithin(lo: int): Row -> bool {
    (r: Row) => lo <= r.eventTimeMs
  }

  ghost function ErrorBetween(lo: int, from: int, to: int): Row -> bool {
    (r: Row) => lo <= r.eventTimeMs && from <= r.eventTimeMs < to
  }

  ghost function Tokens(): Activation -> int {
    (a: Activation) => if a.totalTokens.Some? then a.totalTokens.value else 0
  }

  // ----- the figures -----

  /** The least measured time that at least `num` in a hundred of those measured keep to. */
  ghost predicate IsPercentile(rows: seq<Activation>, lo: int, num: int, v: Option<int>) {
    && (v == None <==> forall a :: a in rows ==> !Measured(lo)(a))
    && (v.Some? ==>
          && (exists a :: a in rows && Measured(lo)(a) && a.wallMs == v)
          && forall u :: CountOf(rows, NoSlower(lo, u)) * 100 >= num * CountOf(rows, Measured(lo)) <==> v.value <= u)
  }

  /** Contiguous buckets from the one that holds `first` to the one that holds `last`. */
  ghost predicate Covers(points: seq<Point>, first: int, last: int, size: int) {
    && (points == [] ==> last < first)
    && (points != [] ==>
          && points[0].bucketMs <= first < points[0].bucketMs + size
          && points[|points| - 1].bucketMs <= last < points[|points| - 1].bucketMs + size)
    && (forall i :: 0 < i < |points| ==> points[i].bucketMs == points[i - 1].bucketMs + size)
  }

  ghost predicate Figured(f: Figures, s: Store, newest: int, windowMs: int, buckets: int) {
    var lo, size, rows, errors :=
      newest - windowMs, BucketSize(windowMs, buckets), s.activations, Unify(s.records, Grouped(s.traceErrors));
    && f.activations == CountOf(rows, Within(lo))
    && f.errors == CountOf(errors, ErrorWithin(lo))
    && (f.totalTokens == None <==> forall a :: a in rows && Within(lo)(a) ==> a.totalTokens == None)
    && (f.totalTokens.Some? ==> f.totalTokens.value == SumWhere(rows, Within(lo), Tokens()))
    && IsPercentile(rows, lo, 50, f.p50) && IsPercentile(rows, lo, 95, f.p95)
    && Covers(f.activationSeries, lo, newest, size) && Covers(f.errorSeries, lo, newest, size)
    && Covers(f.tokenSeries, lo, newest, size)
    && (forall p :: p in f.activationSeries ==>
          p.value == CountOf(rows, Between(lo, p.bucketMs, p.bucketMs + size)))
    && (forall p :: p in f.errorSeries ==>
          p.value == CountOf(errors, ErrorBetween(lo, p.bucketMs, p.bucketMs + size)))
    && (forall p :: p in f.tokenSeries ==>
          p.value == SumWhere(rows, Between(lo, p.bucketMs, p.bucketMs + size), Tokens()))
  }

  // ----- rows of the window -----

  lemma {:induction false} WindowedCounts(rows: seq<Activation>, lo: int, p: Activation -> bool, q: Activation -> bool)
    requires forall a :: q(a) <==> lo <= a.startedMs && p(a)
    ensures CountOf(Windowed(rows, lo), p) == CountOf(rows, q)
    ensures SumWhere(Windowed(rows, lo), p, Tokens()) == SumWhere(rows, q, Tokens())
    decreases |rows|
  {
    if rows != [] {
      var first := if rows[0].startedMs >= lo then [rows[0]] else [];
      assert Windowed(rows, lo) == first + Windowed(rows[1..], lo);
      WindowedCounts(rows[1..], lo, p, q);
      hide Windowed;
      CountConcat(first, Windowed(rows[1..], lo), p);
      SumConcat(first, Windowed(rows[1..], lo), p, Tokens());
      CountOne(rows[0], p);
      SumOne(rows[0], p, Tokens());
    }
  }

  lemma {:induction false} ErrorsCount(rows: seq<Row>, lo: int, p: Row -> bool, q: Row -> bool)
    requires forall r :: q(r) <==> lo <= r.eventTimeMs && p(r)
    ensures CountOf(ErrorsSince(rows, lo), p) == CountOf(rows, q)
    decreases |rows|
  {
    if rows != [] {
      var first := if rows[0].eventTimeMs >= lo then [rows[0]] else [];
      assert ErrorsSince(rows, lo) == first + ErrorsSince(rows[1..], lo);
      ErrorsCount(rows[1..], lo, p, q);
      hide ErrorsSince;
      CountConcat(first, ErrorsSince(rows[1..], lo), p);
      CountOne(rows[0], p);
    }
  }

  lemma {:induction false} CountsAll<T>(s: seq<T>, p: T -> bool)
    requires forall x :: p(x)
    ensures CountOf(s, p) == |s|
    decreases |s|
  {
    if s != [] {
      CountsAll(s[1..], p);
    }
  }

  // ----- walls and tokens -----

  lemma {:induction false} WallsCount(rows: seq<Activation>, u: int)
    ensures |Walls(rows)| == CountOf(rows, HasWall())
    ensures AtMost(Walls(rows), u) == CountOf(rows, UpTo(u))
    decreases |rows|
  {
    if rows != [] {
      WallsCount(rows[1..], u);
      if rows[0].wallMs.Some? {
        FirstAtMost(rows[0].wallMs.value, Walls(rows[1..]), u);
      } else {
        assert Walls(rows) == Walls(rows[1..]);
      }
    }
  }

  lemma FirstAtMost(v: int, rest: seq<int>, u: int)
    ensures AtMost([v] + rest, u) == (if v <= u then 1 else 0) + AtMost(rest, u)
  {
    assert ([v] + rest)[1..] == rest;
  }

  lemma {:induction false} WallsAre(rows: seq<Activation>, v: int)
    ensures v in Walls(rows) <==> exists a :: a in rows && a.wallMs == Some(v)
    decreases |rows|
  {
    if rows != [] {
      WallsAre(rows[1..], v);
      assert forall a :: a in rows <==> a == rows[0] || a in rows[1..];
    }
  }

  lemma PercentileHolds(rows: seq<Activation>, lo: int, num: int)
    requires 0 < num <= 100
    ensures IsPercentile(rows, lo, num, Percentile(Walls(Windowed(rows, lo)), num, 100))
  {
    hide Windowed, Walls, Percentile, CountOf, NoSlower;
    WallsAny(rows, lo);
    if Walls(Windowed(rows, lo)) == [] {
      NoPercentile(num);
    } else {
      PercentileAt(rows, lo, num, 0);
      PercentileRanks(rows, lo, num);
    }
  }

  lemma PercentileRanks(rows: seq<Activation>, lo: int, num: int)
    requires 0 < num <= 100 && Walls(Windowed(rows, lo)) != []
    ensures var v := Percentile(Walls(Windowed(rows, lo)), num, 100);
            v.Some? && forall u ::
              CountOf(rows, NoSlower(lo, u)) * 100 >= num * CountOf(rows, Measured(lo)) <==> v.value <= u
  {
    hide Windowed, Walls, Percentile, CountOf, NoSlower, Measured;
    PercentileAt(rows, lo, num, 0);
    var v := Percentile(Walls(Windowed(rows, lo)), num, 100);
    forall u ensures CountOf(rows, NoSlower(lo, u)) * 100 >= num * CountOf(rows, Measured(lo)) <==> v.value <= u {
      PercentileAt(rows, lo, num, u);
    }
  }

  lemma PercentileAt(rows: seq<Activation>, lo: int, num: int, u: int)
    requires 0 < num <= 100 && Walls(Windowed(rows, lo)) != []
    ensures var v := Percentile(Walls(Windowed(rows, lo)), num, 100);
            && v.Some? && v.value in Walls(Windowed(rows, lo))
            && (CountOf(rows, NoSlower(lo, u)) * 100 >= num * CountOf(rows, Measured(lo)) <==> v.value <= u)
  {
    var some := Windowed(rows, lo);
    WindowedCounts(rows, lo, HasWall(), Measured(lo));
    WindowedCounts(rows, lo, UpTo(u), NoSlower(lo, u));
    hide Windowed, Walls, Percentile, AtMost, CountOf;
    WallsCount(some, u);
    NearestRank(Walls(some), num, 100, u);
  }

  lemma NoPercentile(num: int)
    ensures Percentile([], num, 100) == None
  {
  }

  lemma WallsAny(rows: seq<Activation>, lo: int)
    ensures forall v :: v in Walls(Windowed(rows, lo)) <==>
                          exists a :: a in rows && Measured(lo)(a) && a.wallMs == Some(v)
    ensures Walls(Windowed(rows, lo)) == [] <==> forall a :: a in rows ==> !Measured(lo)(a)
  {
    var some, walls := Windowed(rows, lo), Walls(Windowed(rows, lo));
    forall v ensures v in walls <==> exists a :: a in some && a.wallMs == Some(v) {
      WallsAre(some, v);
    }
    if a :| a in rows && Measured(lo)(a) {
      assert a in some && a.wallMs == Some(a.wallMs.value);
      assert a.wallMs.value in walls;
    }
    if walls != [] {
      assert walls[0] in walls;
    }
  }

  lemma {:induction false} TokensSum(rows: seq<Activation>)
    ensures SumTokens(rows) == None <==> forall a :: a in rows ==> a.totalTokens == None
    ensures SumTokens(rows).Some? ==> SumTokens(rows).value == SumWhere(rows, Every(), Tokens())
    ensures SumTokens(rows) == None ==> SumWhere(rows, Every(), Tokens()) == 0
    decreases |rows|
  {
    if rows != [] {
      var init, last := rows[..|rows| - 1], rows[|rows| - 1];
      assert rows == init + [last];
      TokensSum(init);
      SumConcat(init, [last], Every(), Tokens());
      SumOne(last, Every(), Tokens());
    }
  }

  // ----- series -----

  ghost function StartIn(from: int, to: int): Activation -> bool {
    (a: Activation) => from <= a.startedMs < to
  }

  ghost function TimeIn(from: int, to: int): Row -> bool {
    (r: Row) => from <= r.eventTimeMs < to
  }

  lemma InBucket(t: int, size: int, k: int)
    requires size > 0
    ensures Bucket(t, size) == k * size <==> k * size <= t < k * size + size
  {
    var q := FloorDiv(t, size);
    hide FloorDiv;
    assert (q + 1) * size == q * size + size && (k + 1) * size == k * size + size;
    ScaleStrictly(q, k, size);
    ScaleStrictly(k, q, size);
    ScaleStrictly(q, k + 1, size);
    ScaleStrictly(k, q + 1, size);
  }

  lemma {:induction false} StartsWeigh(rows: seq<Activation>, size: int, k: int)
    requires size > 0
    ensures WeightOf(Entries(StartSamples(rows), size), k * size) == CountOf(rows, StartIn(k * size, k * size + size))
    decreases |rows|
  {
    if rows != [] {
      hide Bucket, CountOf;
      var init, last := rows[..|rows| - 1], rows[|rows| - 1];
      var p := StartIn(k * size, k * size + size);
      StartsWeigh(init, size, k);
      assert rows == init + [last];
      assert Entries(StartSamples(rows), size) ==
               Entries(StartSamples(init), size) + [Entry(Bucket(last.startedMs, size), 1)];
      WeightOfAppend(Entries(StartSamples(init), size), Entry(Bucket(last.startedMs, size), 1), k * size);
      CountConcat(init, [last], p);
      CountOne(last, p);
      InBucket(last.startedMs, size, k);
    } else {
      assert Entries(StartSamples([]), size) == [];
    }
  }

  lemma {:induction false} ErrorsWeigh(rows: seq<Row>, size: int, k: int)
    requires size > 0
    ensures WeightOf(Entries(ErrorSamples(rows), size), k * size) == CountOf(rows, TimeIn(k * size, k * size + size))
    decreases |rows|
  {
    if rows != [] {
      hide Bucket, CountOf;
      var init, last := rows[..|rows| - 1], rows[|rows| - 1];
      var p := TimeIn(k * size, k * size + size);
      ErrorsWeigh(init, size, k);
      assert rows == init + [last];
      assert Entries(ErrorSamples(rows), size) ==
               Entries(ErrorSamples(init), size) + [Entry(Bucket(last.eventTimeMs, size), 1)];
      WeightOfAppend(Entries(ErrorSamples(init), size), Entry(Bucket(last.eventTimeMs, size), 1), k * size);
      CountConcat(init, [last], p);
      CountOne(last, p);
      InBucket(last.eventTimeMs, size, k);
    } else {
      assert Entries(ErrorSamples([]), size) == [];
    }
  }

  lemma {:induction false} TokensWeigh(rows: seq<Activation>, size: int, k: int)
    requires size > 0
    ensures WeightOf(Entries(TokenSamples(rows), size), k * size)
         == SumWhere(rows, StartIn(k * size, k * size + size), Tokens())
    decreases |rows|
  {
    if rows != [] {
      hide Bucket, SumWhere;
      var init, last := rows[..|rows| - 1], rows[|rows| - 1];
      var p := StartIn(k * size, k * size + size);
      TokensWeigh(init, size, k);
      assert rows == init + [last];
      SumConcat(init, [last], p, Tokens());
      SumOne(last, p, Tokens());
      InBucket(last.startedMs, size, k);
      if last.totalTokens.Some? {
        var entry := Entry(Bucket(last.startedMs, size), last.totalTokens.value);
        assert Entries(TokenSamples(rows), size) == Entries(TokenSamples(init), size) + [entry];
        WeightOfAppend(Entries(TokenSamples(init), size), entry, k * size);
      }
    } else {
      assert Entries(TokenSamples([]), size) == [];
    }
  }

  lemma ShownCovers(points: seq<Point>, samples: seq<Sample>, first: int, last: int, size: int)
    requires size > 0 && Overview.Shows(points, samples, first, last, size)
    ensures Covers(points, first, last, size)
  {
    hide Axis, FloorDiv;
    AxisAt(first, last, size);
    var p, q := FloorDiv(first, size), FloorDiv(last, size);
    forall i | 0 < i < |points| ensures points[i].bucketMs == points[i - 1].bucketMs + size {
      assert (p + i) * size == (p + (i - 1)) * size + size;
    }
    if q < p {
      ScaleUp(q + 1, p, size);
      assert (q + 1) * size == q * size + size;
    }
  }

  lemma ErrorPoint(errors: seq<Row>, lo: int, size: int, k: int)
    requires size > 0
    ensures WeightOf(Entries(ErrorSamples(ErrorsSince(errors, lo)), size), k * size)
         == CountOf(errors, ErrorBetween(lo, k * size, k * size + size))
  {
    ErrorsWeigh(ErrorsSince(errors, lo), size, k);
    ErrorsCount(errors, lo, TimeIn(k * size, k * size + size), ErrorBetween(lo, k * size, k * size + size));
  }

  lemma ActivationPoint(rows: seq<Activation>, lo: int, size: int, k: int)
    requires size > 0
    ensures var some := Windowed(rows, lo);
            && WeightOf(Entries(StartSamples(some), size), k * size)
               == CountOf(rows, Between(lo, k * size, k * size + size))
            && WeightOf(Entries(TokenSamples(some), size), k * size)
               == SumWhere(rows, Between(lo, k * size, k * size + size), Tokens())
  {
    StartsWeigh(Windowed(rows, lo), size, k);
    TokensWeigh(Windowed(rows, lo), size, k);
    WindowedCounts(rows, lo, StartIn(k * size, k * size + size), Between(lo, k * size, k * size + size));
  }

  lemma Totals(s: Store, lo: int)
    ensures var rows, errors := s.activations, Unify(s.records, Grouped(s.traceErrors));
            && |Windowed(rows, lo)| == CountOf(rows, Within(lo))
            && |ErrorsSince(errors, lo)| == CountOf(errors, ErrorWithin(lo))
            && (SumTokens(Windowed(rows, lo)) == None <==>
                  forall a :: a in rows && Within(lo)(a) ==> a.totalTokens == None)
            && (SumTokens(Windowed(rows, lo)).Some? ==>
                  SumTokens(Windowed(rows, lo)).value == SumWhere(rows, Within(lo), Tokens()))
  {
    hide Unify, Grouped;
    var rows, errors := s.activations, Unify(s.records, Grouped(s.traceErrors));
    WindowedCounts(rows, lo, Every(), Within(lo));
    CountsAll(Windowed(rows, lo), Every());
    ErrorsCount(errors, lo, (r: Row) => true, ErrorWithin(lo));
    CountsAll(ErrorsSince(errors, lo), (r: Row) => true);
    TokensSum(Windowed(rows, lo));
  }

  /** What the landing page shows, for every store and window. */
  lemma FiguresAre(f: Figures, s: Store, newest: int, windowMs: int, buckets: int)
    requires Faithful(f, s, newest, windowMs, buckets)
    ensures Figured(f, s, newest, windowMs, buckets)
  {
    hide Unify, Grouped, Percentile, Walls, Windowed, ErrorsSince, SumTokens, StartSamples, TokenSamples, ErrorSamples,
      Entries, WeightOf, CountOf, SumWhere, IsPercentile, Covers, BucketSize, Axis, FloorDiv;
    var lo, size, rows, errors :=
      newest - windowMs, BucketSize(windowMs, buckets), s.activations, Unify(s.records, Grouped(s.traceErrors));
    Totals(s, lo);
    PercentileHolds(rows, lo, 50);
    PercentileHolds(rows, lo, 95);
    ShownCovers(f.activationSeries, StartSamples(Windowed(rows, lo)), lo, newest, size);
    ShownCovers(f.errorSeries, ErrorSamples(ErrorsSince(errors, lo)), lo, newest, size);
    ShownCovers(f.tokenSeries, TokenSamples(Windowed(rows, lo)), lo, newest, size);
    forall p | p in f.activationSeries
      ensures p.value == CountOf(rows, Between(lo, p.bucketMs, p.bucketMs + size))
    {
      var i :| 0 <= i < |f.activationSeries| && f.activationSeries[i] == p;
      ActivationPoint(rows, lo, size, FloorDiv(lo, size) + i);
    }
    forall p | p in f.tokenSeries
      ensures p.value == SumWhere(rows, Between(lo, p.bucketMs, p.bucketMs + size), Tokens())
    {
      var i :| 0 <= i < |f.tokenSeries| && f.tokenSeries[i] == p;
      ActivationPoint(rows, lo, size, FloorDiv(lo, size) + i);
    }
    forall p | p in f.errorSeries
      ensures p.value == CountOf(errors, ErrorBetween(lo, p.bucketMs, p.bucketMs + size))
    {
      var i :| 0 <= i < |f.errorSeries| && f.errorSeries[i] == p;
      ErrorPoint(errors, lo, size, FloorDiv(lo, size) + i);
    }
  }

  /** The newest time of anything stored. */
  lemma NewestIs(s: Store, newest: int)
    ensures Newest(Times(s)) == Some(newest) <==> IsTime(s, newest) && forall t :: IsTime(s, t) ==> t <= newest
    ensures Newest(Times(s)) == None <==> forall t :: !IsTime(s, t)
  {
    forall t ensures t in Times(s) <==> IsTime(s, t) {
      TimeIff(s, t);
    }
    hide Times, Newest, IsTime;
    if Times(s) != [] {
      assert Times(s)[0] in Times(s);
    }
  }

  ghost predicate IsTime(s: Store, t: int) {
    || t in s.otherStarts
    || t in s.snapshotTimes
    || (exists e :: e in s.traceErrors && e.startMs == t)
    || (exists r :: r in s.records && r.eventTimeMs == t)
    || (exists a :: a in s.activations && (a.startedMs == t || a.endedMs == Some(t)))
  }

  lemma {:induction false} EndsAre(rows: seq<Activation>, t: int)
    ensures t in Ends(rows) <==> exists a :: a in rows && a.endedMs == Some(t)
    decreases |rows|
  {
    if rows != [] {
      EndsAre(rows[1..], t);
      assert forall a :: a in rows <==> a == rows[0] || a in rows[1..];
    }
  }

  lemma TimeIff(s: Store, t: int)
    ensures t in Times(s) <==> IsTime(s, t)
  {
    EndsAre(s.activations, t);
    var events := seq(|s.traceErrors|, i requires 0 <= i < |s.traceErrors| => s.traceErrors[i].startMs);
    var records := seq(|s.records|, i requires 0 <= i < |s.records| => s.records[i].eventTimeMs);
    var starts := seq(|s.activations|, i requires 0 <= i < |s.activations| => s.activations[i].startedMs);
    assert t in events <==> exists e :: e in s.traceErrors && e.startMs == t by {
      if e :| e in s.traceErrors && e.startMs == t {
        var i :| 0 <= i < |s.traceErrors| && s.traceErrors[i] == e;
        assert events[i] == t;
      }
    }
    assert t in records <==> exists r :: r in s.records && r.eventTimeMs == t by {
      if r :| r in s.records && r.eventTimeMs == t {
        var i :| 0 <= i < |s.records| && s.records[i] == r;
        assert records[i] == t;
      }
    }
    assert t in starts <==> exists a :: a in s.activations && a.startedMs == t by {
      if a :| a in s.activations && a.startedMs == t {
        var i :| 0 <= i < |s.activations| && s.activations[i] == a;
        assert starts[i] == t;
      }
    }
    assert Times(s) == s.otherStarts + events + records + s.snapshotTimes + starts + Ends(s.activations);
    hide Times, Ends;
  }
}

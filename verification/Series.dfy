/** Bucketed series: contiguous, with an explicit zero in every empty bucket. */
module Series {
  import opened OrderedDict
  import opened Rounding
  import opened Tallies

  datatype Point = Point(bucketMs: int, value: int)

  function Max(a: int, b: int): int {
    if a < b then b else a
  }

  /** How wide a bucket must be for at most `buckets` of them to cover the span. */
  function BucketSize(spanMs: int, buckets: int): (size: int)
    ensures size >= 1
    ensures var n := if buckets < 1 then 1 else buckets;
            spanMs <= size * n && (size > 1 ==> (size - 1) * n < spanMs)
  {
    ScaleUp(CeilDiv(spanMs, Max(1, buckets)), Max(1, CeilDiv(spanMs, Max(1, buckets))), Max(1, buckets));
    Max(1, CeilDiv(spanMs, Max(1, buckets)))
  }

  /** The bucket a time falls in, named by a multiple of the size. */
  function Bucket(atMs: int, size: int): int
    requires size != 0
  {
    FloorDiv(atMs, size) * size
  }

  function Range(start: int, stop: int, step: int): seq<int>
    requires step != 0
    decreases if step > 0 then stop - start else start - stop
  {
    if (if step > 0 then start < stop else start > stop) then [start] + Range(start + step, stop, step) else []
  }

  /** The buckets of a series. */
  function Axis(firstMs: int, lastMs: int, size: int): seq<int>
    requires size != 0
  {
    Range(Bucket(firstMs, size), Bucket(lastMs, size) + size, size)
  }

  function Lookup(counts: map<int, int>, bucket: int): int {
    if bucket in counts then counts[bucket] else 0
  }

  function SeriesOf(counts: map<int, int>, firstMs: int, lastMs: int, size: int): seq<Point>
    requires size != 0
  {
    var axis := Axis(firstMs, lastMs, size);
    seq(|axis|, i requires 0 <= i < |axis| => Point(axis[i], Lookup(counts, axis[i])))
  }

  // ----- counting -----

  datatype Sample = Sample(atMs: int, weight: int)

  function Entries(samples: seq<Sample>, size: int): seq<Entry<int>>
    requires size != 0
  {
    seq(|samples|, i requires 0 <= i < |samples| => Entry(Bucket(samples[i].atMs, size), samples[i].weight))
  }

  /** `counts` holds the weight that fell in each bucket. */
  ghost predicate Counts(counts: map<int, int>, samples: seq<Sample>, size: int)
    requires size != 0
  {
    forall b :: Lookup(counts, b) == WeightOf(Entries(samples, size), b)
  }

  function Added(counts: map<int, int>, bucket: int, weight: int): map<int, int> {
    counts[bucket := Lookup(counts, bucket) + weight]
  }

  lemma CountsAdd(counts: map<int, int>, samples: seq<Sample>, s: Sample, size: int)
    requires size != 0 && Counts(counts, samples, size)
    ensures Counts(Added(counts, Bucket(s.atMs, size), s.weight), samples + [s], size)
  {
    var entry := Entry(Bucket(s.atMs, size), s.weight);
    assert Entries(samples + [s], size) == Entries(samples, size) + [entry];
    forall b ensures Lookup(Added(counts, entry.key, s.weight), b) == WeightOf(Entries(samples + [s], size), b) {
      WeightOfAppend(Entries(samples, size), entry, b);
    }
  }

  method CountInto(samples: seq<Sample>, size: int) returns (counts: map<int, int>)
    requires size != 0
    ensures Counts(counts, samples, size)
  {
    hide Bucket;
    counts := map[];
    for i := 0 to |samples|
      invariant Counts(counts, samples[..i], size)
    {
      CountsAdd(counts, samples[..i], samples[i], size);
      assert samples[..i + 1] == samples[..i] + [samples[i]];
      counts := Added(counts, Bucket(samples[i].atMs, size), samples[i].weight);
    }
    assert samples[..|samples|] == samples;
  }

  // ----- the axis -----

  lemma ScaleStrictly(a: int, b: int, size: int)
    requires size != 0
    ensures size > 0 ==> (a * size < b * size <==> a < b)
    ensures size < 0 ==> (a * size > b * size <==> a < b)
  {
    assert a * size - b * size == (a - b) * size;
    if a < b {
      assert size > 0 ==> (a - b) * size < 0;
      assert size < 0 ==> (a - b) * size > 0;
    } else {
      assert size > 0 ==> (a - b) * size >= 0;
      assert size < 0 ==> (a - b) * size <= 0;
    }
  }

  lemma {:induction false} RangeAt(p: int, q: int, size: int)
    requires size != 0
    ensures var axis := Range(p * size, q * size, size);
            && |axis| == Max(0, q - p)
            && forall i :: 0 <= i < |axis| ==> axis[i] == (p + i) * size
    decreases q - p
  {
    ScaleStrictly(p, q, size);
    assert p * size + size == (p + 1) * size;
    if p < q {
      RangeAt(p + 1, q, size);
      var rest := Range((p + 1) * size, q * size, size);
      forall i | 0 <= i <= |rest| ensures ([p * size] + rest)[i] == (p + i) * size {
        if i > 0 {
          assert rest[i - 1] == (p + 1 + (i - 1)) * size;
        }
      }
    }
  }

  /** Bucket `i` of the axis is `i` buckets after the first, up to the last time's. */
  lemma AxisAt(firstMs: int, lastMs: int, size: int)
    requires size != 0
    ensures var axis, p, q := Axis(firstMs, lastMs, size), FloorDiv(firstMs, size), FloorDiv(lastMs, size);
            && |axis| == Max(0, q - p + 1)
            && forall i :: 0 <= i < |axis| ==> axis[i] == (p + i) * size
  {
    hide FloorDiv, Range;
    var p, q := FloorDiv(firstMs, size), FloorDiv(lastMs, size);
    RangeAt(p, q + 1, size);
    assert (q + 1) * size == q * size + size;
  }

  lemma AxisIsDistinct(firstMs: int, lastMs: int, size: int)
    requires size != 0
    ensures Distinct(Axis(firstMs, lastMs, size))
  {
    AxisAt(firstMs, lastMs, size);
    var axis, p := Axis(firstMs, lastMs, size), FloorDiv(firstMs, size);
    forall i, j | 0 <= i < j < |axis| ensures axis[i] != axis[j] {
      ScaleStrictly(p + i, p + j, size);
    }
  }

  /** A time's bucket is on the axis exactly if it is between the ends' buckets. */
  lemma OnAxisIff(firstMs: int, lastMs: int, size: int, atMs: int)
    requires size != 0
    ensures Bucket(atMs, size) in Axis(firstMs, lastMs, size) <==>
            FloorDiv(firstMs, size) <= FloorDiv(atMs, size) <= FloorDiv(lastMs, size)
  {
    AxisAt(firstMs, lastMs, size);
    var axis, p, k := Axis(firstMs, lastMs, size), FloorDiv(firstMs, size), FloorDiv(atMs, size);
    if Bucket(atMs, size) in axis {
      var i :| 0 <= i < |axis| && axis[i] == k * size;
      ScaleStrictly(p + i, k, size);
      ScaleStrictly(k, p + i, size);
    }
    if p <= k <= FloorDiv(lastMs, size) {
      assert axis[k - p] == k * size;
    }
  }

  lemma FloorIsMonotone(a: int, b: int, size: int)
    requires size != 0 && a <= b
    ensures size > 0 ==> FloorDiv(a, size) <= FloorDiv(b, size)
    ensures size < 0 ==> FloorDiv(b, size) <= FloorDiv(a, size)
  {
    hide FloorDiv;
    var p, q := FloorDiv(a, size), FloorDiv(b, size);
    assert (q + 1) * size == q * size + size && (p + 1) * size == p * size + size;
    if size > 0 && q < p {
      ScaleUp(q + 1, p, size);
    }
    if size < 0 && p < q {
      ScaleUp(p + 1, q, -size);
    }
  }

  // ----- a series conserves what was counted -----

  function SumOf(points: seq<Point>): int {
    if points == [] then 0 else SumOf(points[..|points| - 1]) + points[|points| - 1].value
  }

  lemma {:induction false} SumIsOverKeys(points: seq<Point>, keys: seq<int>, entries: seq<Entry<int>>)
    requires |points| == |keys|
    requires forall i :: 0 <= i < |keys| ==> points[i].value == WeightOf(entries, keys[i])
    ensures SumOf(points) == OverKeys(entries, keys)
    decreases |keys|
  {
    if keys != [] {
      SumIsOverKeys(points[..|points| - 1], keys[..|keys| - 1], entries);
    }
  }

  lemma {:induction false} EntriesTotal(samples: seq<Sample>, size: int)
    requires size != 0
    ensures Total(Entries(samples, size)) == WeightSum(samples)
    decreases |samples|
  {
    if samples != [] {
      var init := samples[..|samples| - 1];
      EntriesTotal(init, size);
      assert Entries(samples, size)[..|samples| - 1] == Entries(init, size);
    }
  }

  function WeightSum(samples: seq<Sample>): int {
    if samples == [] then 0 else WeightSum(samples[..|samples| - 1]) + samples[|samples| - 1].weight
  }

  ghost predicate Within(samples: seq<Sample>, firstMs: int, lastMs: int) {
    forall i :: 0 <= i < |samples| ==> firstMs <= samples[i].atMs <= lastMs
  }

  /** A series adds up the samples whose buckets are on its axis. */
  lemma SeriesSum(counts: map<int, int>, samples: seq<Sample>, firstMs: int, lastMs: int, size: int)
    requires size != 0 && Counts(counts, samples, size)
    ensures SumOf(SeriesOf(counts, firstMs, lastMs, size)) ==
            Listed(Entries(samples, size), Axis(firstMs, lastMs, size))
  {
    hide Axis;
    AxisIsDistinct(firstMs, lastMs, size);
    var axis := Axis(firstMs, lastMs, size);
    SumIsOverKeys(SeriesOf(counts, firstMs, lastMs, size), axis, Entries(samples, size));
    OverKeysIsListed(Entries(samples, size), axis);
  }

  /** What the axis accounts for. With a positive bucket size nothing between the ends
      is lost; with a negative one, which nothing refuses, the axis is empty unless both
      ends share a bucket. */
  lemma WindowSum(samples: seq<Sample>, firstMs: int, lastMs: int, size: int)
    requires size != 0 && Within(samples, firstMs, lastMs)
    ensures Listed(Entries(samples, size), Axis(firstMs, lastMs, size)) ==
            if size > 0 || firstMs > lastMs || Bucket(firstMs, size) == Bucket(lastMs, size) then WeightSum(samples)
            else 0
  {
    hide Axis, Bucket, FloorDiv;
    var axis, entries := Axis(firstMs, lastMs, size), Entries(samples, size);
    var p, q := FloorDiv(firstMs, size), FloorDiv(lastMs, size);
    SameBucketIff(firstMs, lastMs, size);
    forall i | 0 <= i < |entries| ensures entries[i].key in axis <==> size > 0 || p == q {
      OnAxisIff(firstMs, lastMs, size, samples[i].atMs);
      FloorIsMonotone(firstMs, samples[i].atMs, size);
      FloorIsMonotone(samples[i].atMs, lastMs, size);
    }
    if size > 0 || firstMs > lastMs || p == q {
      AllListed(entries, axis);
      EntriesTotal(samples, size);
    } else {
      NoneListed(entries, axis);
    }
  }

  lemma SameBucketIff(a: int, b: int, size: int)
    requires size != 0
    ensures Bucket(a, size) == Bucket(b, size) <==> FloorDiv(a, size) == FloorDiv(b, size)
  {
    ScaleStrictly(FloorDiv(a, size), FloorDiv(b, size), size);
    ScaleStrictly(FloorDiv(b, size), FloorDiv(a, size), size);
  }

  /** The size chosen for a window keeps the axis within one bucket of the number asked for. */
  lemma AxisIsBounded(lastMs: int, windowMs: int, buckets: int)
    ensures |Axis(lastMs - windowMs, lastMs, BucketSize(windowMs, buckets))| <= Max(1, buckets) + 1
  {
    hide Axis, FloorDiv, CeilDiv;
    var n, size, first := Max(1, buckets), BucketSize(windowMs, buckets), lastMs - windowMs;
    AxisAt(first, lastMs, size);
    ScaleUp(CeilDiv(windowMs, n), size, n);
    FewSteps(FloorDiv(first, size), FloorDiv(lastMs, size), first, lastMs, size, n);
  }

  /** Times at most `n` sizes apart are at most `n` steps apart. */
  lemma FewSteps(p: int, q: int, first: int, last: int, size: nat, n: nat)
    requires p * size <= first < p * size + size && q * size <= last < q * size + size
    requires last - first <= size * n
    ensures q - p <= n
  {
    assert (q - p) * size == q * size - p * size && (n + 1) * size == size * n + size;
    if q - p > n {
      ScaleUp(n + 1, q - p, size);
    }
  }
}

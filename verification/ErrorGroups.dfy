/** Error groups: the unified rows by reason and error type, each with its own series. */
module ErrorGroups {
  import opened ErrorRows
  import opened Order
  import opened OrderedDict
  import opened Series
  import opened Tallies
  import opened Wrappers

  const DEFAULT_BUCKETS := 48

  datatype Kind = Kind(reason: string, errorType: Option<string>)

  datatype ErrorGroup = ErrorGroup(
    kind: Kind, count: nat, entities: nat, firstSeenMs: int, lastSeenMs: int, series: seq<Point>, sampleDetail: string)

  /** The outcome: dividing by an explicit bucket size of zero raises. */
  datatype Outcome = Groups(groups: seq<ErrorGroup>) | DivisionByZero

  function KindOf(row: Row): Kind {
    Kind(row.reason, row.errorType)
  }

  function KindsOf(rows: seq<Row>): seq<Kind> {
    seq(|rows|, i requires 0 <= i < |rows| => KindOf(rows[i]))
  }

  // ----- what a group is made of -----

  /** The rows of one kind, in order. */
  function Members(rows: seq<Row>, k: Kind): (r: seq<Row>)
    ensures forall row :: row in r <==> row in rows && KindOf(row) == k
  {
    if rows == [] then []
    else
      var init, last := Members(rows[..|rows| - 1], k), rows[|rows| - 1];
      assert rows == rows[..|rows| - 1] + [last];
      if KindOf(last) == k then init + [last] else init
  }

  function Samples(rows: seq<Row>): seq<Sample> {
    seq(|rows|, i requires 0 <= i < |rows| => Sample(rows[i].eventTimeMs, 1))
  }

  function Entities(rows: seq<Row>): set<string> {
    set row | row in rows :: row.entityKey
  }

  function Earliest(rows: seq<Row>): (ms: int)
    requires rows != []
    ensures exists row :: row in rows && row.eventTimeMs == ms
    ensures forall row :: row in rows ==> ms <= row.eventTimeMs
  {
    var first := rows[0].eventTimeMs;
    assert rows == [rows[0]] + rows[1..];
    if |rows| == 1 then first
    else
      var rest := Earliest(rows[1..]);
      if rest < first then rest else first
  }

  function Latest(rows: seq<Row>): (ms: int)
    requires rows != []
    ensures exists row :: row in rows && row.eventTimeMs == ms
    ensures forall row :: row in rows ==> row.eventTimeMs <= ms
  {
    var first := rows[0].eventTimeMs;
    assert rows == [rows[0]] + rows[1..];
    if |rows| == 1 then first
    else
      var rest := Latest(rows[1..]);
      if rest > first then rest else first
  }

  function FirstDetail(rows: seq<Row>): string {
    if rows == [] then "" else if rows[0].detail != "" then rows[0].detail else FirstDetail(rows[1..])
  }

  /** `g` describes the rows of its kind. */
  ghost predicate Describes(g: ErrorGroup, rows: seq<Row>, size: int)
    requires size != 0
  {
    var members := Members(rows, g.kind);
    && members != []
    && g.count == |members|
    && g.entities == |Entities(members)|
    && g.firstSeenMs == Earliest(members) && g.lastSeenMs == Latest(members)
    && g.sampleDetail == FirstDetail(members)
    && g.series == SeriesFor(members, size)
  }

  /** The occurrences in each bucket between the first and the last. */
  function SeriesFor(members: seq<Row>, size: int): seq<Point>
    requires size != 0 && members != []
  {
    var axis := Axis(Earliest(members), Latest(members), size);
    seq(|axis|, i requires 0 <= i < |axis| => Point(axis[i], WeightOf(Entries(Samples(members), size), axis[i])))
  }

  // ----- the list's order -----

  function TypeText(k: Kind): string {
    if k.errorType.Some? then k.errorType.value else ""
  }

  /** Most frequent first, then by reason and error type; no type sorts as empty text. */
  predicate Before(g: ErrorGroup, h: ErrorGroup) {
    || g.count > h.count
    || (g.count == h.count && StringLess(g.kind.reason, h.kind.reason))
    || (g.count == h.count && g.kind.reason == h.kind.reason && StringLess(TypeText(g.kind), TypeText(h.kind)))
  }

  function Insert(g: ErrorGroup, sorted: seq<ErrorGroup>): seq<ErrorGroup> {
    if sorted == [] || !Before(sorted[0], g) then [g] + sorted else [sorted[0]] + Insert(g, sorted[1..])
  }

  /** The stable sort. */
  function Sorted(groups: seq<ErrorGroup>): seq<ErrorGroup> {
    if groups == [] then [] else Insert(groups[0], Sorted(groups[1..]))
  }

  ghost predicate InOrder(groups: seq<ErrorGroup>) {
    forall i, j :: 0 <= i < j < |groups| ==> !Before(groups[j], groups[i])
  }

  lemma BeforeIsAnOrder(f: ErrorGroup, g: ErrorGroup, h: ErrorGroup)
    ensures Before(f, g) ==> !Before(g, f)
    ensures !Before(g, f) && !Before(h, g) ==> !Before(h, f)
  {
    var a, b, c := TypeText(f.kind), TypeText(g.kind), TypeText(h.kind);
    StringOrder(f.kind.reason, g.kind.reason);
    StringOrder(g.kind.reason, h.kind.reason);
    StringOrder(f.kind.reason, h.kind.reason);
    StringOrder(a, b);
    NotAfterIsTransitive(f.kind.reason, g.kind.reason, h.kind.reason);
    NotAfterIsTransitive(a, b, c);
  }

  lemma NotAfterIsTransitive(a: string, b: string, c: string)
    ensures !StringLess(b, a) && !StringLess(c, b) ==> !StringLess(c, a)
  {
    StringOrder(a, b);
    StringOrder(b, c);
    StringOrder(a, c);
    if StringLess(a, b) && StringLess(b, c) {
      StringTransitive(a, b, c);
    }
  }

  lemma {:induction false} InsertInOrder(g: ErrorGroup, sorted: seq<ErrorGroup>)
    requires InOrder(sorted)
    ensures InOrder(Insert(g, sorted))
    ensures multiset(Insert(g, sorted)) == multiset(sorted) + multiset{g}
    decreases |sorted|
  {
    hide Before;
    if sorted != [] {
      assert sorted == [sorted[0]] + sorted[1..];
      BeforeIsAnOrder(sorted[0], g, g);
      if Before(sorted[0], g) {
        InsertInOrder(g, sorted[1..]);
        var rest := Insert(g, sorted[1..]);
        forall j | 0 <= j < |rest| ensures !Before(rest[j], sorted[0]) {
          assert rest[j] in multiset(rest);
          assert rest[j] == g || rest[j] in sorted[1..];
        }
      } else {
        forall j | 0 <= j < |sorted| ensures !Before(sorted[j], g) {
          BeforeIsAnOrder(g, sorted[0], sorted[j]);
        }
      }
    }
  }

  lemma {:induction false} SortedInOrder(groups: seq<ErrorGroup>)
    ensures InOrder(Sorted(groups)) && multiset(Sorted(groups)) == multiset(groups)
    decreases |groups|
  {
    if groups != [] {
      assert groups == [groups[0]] + groups[1..];
      SortedInOrder(groups[1..]);
      InsertInOrder(groups[0], Sorted(groups[1..]));
    }
  }

  // ----- grouping -----

  ghost predicate GroupedBy(grouped: Dict<Kind, seq<Row>>, rows: seq<Row>) {
    && grouped.keys == FirstArrivals(KindsOf(rows))
    && (forall k :: grouped.Has(k) <==> k in KindsOf(rows))
    && (forall k :: grouped.Get(k, []) == Members(rows, k))
  }

  lemma GroupedByAppend(grouped: Dict<Kind, seq<Row>>, rows: seq<Row>, row: Row)
    requires GroupedBy(grouped, rows)
    ensures var k := KindOf(row);
            GroupedBy(grouped.Put(k, grouped.Get(k, []) + [row]), rows + [row])
  {
    var k := KindOf(row);
    var more := grouped.Put(k, grouped.Get(k, []) + [row]);
    KindsAppend(rows, row);
    FirstArrivalsAreDistinct(KindsOf(rows));
    hide FirstArrivals, KindsOf, Members, Distinct;
    forall x ensures more.Get(x, []) == Members(rows + [row], x) {
      MembersAppend(rows, row, x);
    }
  }

  lemma KindsAppend(rows: seq<Row>, row: Row)
    ensures KindsOf(rows + [row]) == KindsOf(rows) + [KindOf(row)]
    ensures FirstArrivals(KindsOf(rows + [row])) ==
            FirstArrivals(KindsOf(rows)) + (if KindOf(row) in KindsOf(rows) then [] else [KindOf(row)])
  {
    var kinds := KindsOf(rows + [row]);
    assert kinds == KindsOf(rows) + [KindOf(row)];
    assert kinds[..|kinds| - 1] == KindsOf(rows);
  }

  lemma MembersAppend(rows: seq<Row>, row: Row, k: Kind)
    ensures Members(rows + [row], k) == Members(rows, k) + (if KindOf(row) == k then [row] else [])
  {
    assert (rows + [row])[..|rows|] == rows;
  }

  method GroupRows(rows: seq<Row>) returns (grouped: Dict<Kind, seq<Row>>)
    ensures GroupedBy(grouped, rows)
  {
    hide GroupedBy;
    grouped := Empty();
    assert GroupedBy(grouped, rows[..0]) by {
      NothingGrouped();
      assert rows[..0] == [];
    }
    for i := 0 to |rows|
      invariant GroupedBy(grouped, rows[..i])
    {
      var k := KindOf(rows[i]);
      GroupedByAppend(grouped, rows[..i], rows[i]);
      assert rows[..i + 1] == rows[..i] + [rows[i]];
      grouped := grouped.Put(k, grouped.Get(k, []) + [rows[i]]);
    }
    assert rows[..|rows|] == rows;
  }

  lemma NothingGrouped()
    ensures GroupedBy(Empty(), [])
  {
  }

  method Describe(k: Kind, members: seq<Row>, ghost rows: seq<Row>, size: int) returns (g: ErrorGroup)
    requires size != 0 && members == Members(rows, k) && members != []
    ensures g.kind == k && Describes(g, rows, size)
  {
    hide Bucket, Axis;
    var counts := CountInto(Samples(members), size);
    var first, last := Earliest(members), Latest(members);
    var series := SeriesOf(counts, first, last, size);
    assert series == SeriesFor(members, size);
    g := ErrorGroup(k, |members|, |Entities(members)|, first, last, series, FirstDetail(members));
  }

  /** The groups in the order in which their kinds first occur. */
  ghost predicate Arrivals(groups: seq<ErrorGroup>, rows: seq<Row>, size: int)
    requires size != 0
  {
    var kinds := FirstArrivals(KindsOf(rows));
    && |groups| == |kinds|
    && forall i :: 0 <= i < |groups| ==> groups[i].kind == kinds[i] && Describes(groups[i], rows, size)
  }

  method ErrorGroups(rows: seq<Row>, bucketMs: Option<int>) returns (r: Outcome)
    ensures rows == [] ==> r == Groups([])
    ensures r.DivisionByZero? <==> rows != [] && bucketMs == Some(0)
    ensures rows != [] && r.Groups? ==>
              var size := SizeFor(rows, bucketMs);
              size != 0 && exists groups :: Arrivals(groups, rows, size) && r.groups == Sorted(groups)
  {
    hide Describes, Sorted, FirstArrivals, BucketSize;
    if rows == [] {
      return Groups([]);
    }
    var first, last := Earliest(rows), Latest(rows);
    var size := if bucketMs.Some? then bucketMs.value else BucketSize(last - first + 1, DEFAULT_BUCKETS);
    if size == 0 {
      return DivisionByZero;
    }
    var grouped := GroupRows(rows);
    FirstArrivalsAreDistinct(KindsOf(rows));
    var groups: seq<ErrorGroup> := [];
    for i := 0 to |grouped.keys|
      invariant |groups| == i
      invariant forall j :: 0 <= j < i ==> groups[j].kind == grouped.keys[j] && Describes(groups[j], rows, size)
    {
      var k := grouped.keys[i];
      assert k in grouped.keys && k in KindsOf(rows);
      ghost var at :| 0 <= at < |rows| && KindsOf(rows)[at] == k;
      assert rows[at] in Members(rows, k);
      var g := Describe(k, grouped.Get(k, []), rows, size);
      groups := groups + [g];
    }
    assert Arrivals(groups, rows, size);
    r := Groups(Sorted(groups));
  }

  function SizeFor(rows: seq<Row>, bucketMs: Option<int>): int
    requires rows != []
  {
    if bucketMs.Some? then bucketMs.value else BucketSize(Latest(rows) - Earliest(rows) + 1, DEFAULT_BUCKETS)
  }

  // ----- what the list accounts for -----

  function CountSum(groups: seq<ErrorGroup>): nat {
    if groups == [] then 0 else CountSum(groups[..|groups| - 1]) + groups[|groups| - 1].count
  }

  lemma {:induction false} CountSumPrepend(g: ErrorGroup, groups: seq<ErrorGroup>)
    ensures CountSum([g] + groups) == g.count + CountSum(groups)
    decreases |groups|
  {
    var more := [g] + groups;
    if groups == [] {
      assert more == [g] && more[..0] == [];
    } else {
      CountSumPrepend(g, groups[..|groups| - 1]);
      assert more[..|more| - 1] == [g] + groups[..|groups| - 1];
    }
  }

  lemma {:induction false} CountSumInsert(g: ErrorGroup, sorted: seq<ErrorGroup>)
    ensures CountSum(Insert(g, sorted)) == g.count + CountSum(sorted)
    decreases |sorted|
  {
    CountSumPrepend(g, sorted);
    if sorted != [] && Before(sorted[0], g) {
      CountSumInsert(g, sorted[1..]);
      CountSumPrepend(sorted[0], Insert(g, sorted[1..]));
      assert sorted == [sorted[0]] + sorted[1..];
      CountSumPrepend(sorted[0], sorted[1..]);
    }
  }

  lemma {:induction false} CountSumSorted(groups: seq<ErrorGroup>)
    ensures CountSum(Sorted(groups)) == CountSum(groups)
    decreases |groups|
  {
    if groups != [] {
      CountSumSorted(groups[1..]);
      CountSumInsert(groups[0], Sorted(groups[1..]));
      assert groups == [groups[0]] + groups[1..];
      CountSumPrepend(groups[0], groups[1..]);
    }
  }

  /** One entry of weight one per row, under its kind. */
  function KindEntries(rows: seq<Row>): seq<Entry<Kind>> {
    seq(|rows|, i requires 0 <= i < |rows| => Entry(KindOf(rows[i]), 1))
  }

  lemma {:induction false} MembersAreCounted(rows: seq<Row>, k: Kind)
    ensures WeightOf(KindEntries(rows), k) == |Members(rows, k)|
    decreases |rows|
  {
    if rows != [] {
      var init := rows[..|rows| - 1];
      MembersAreCounted(init, k);
      assert KindEntries(rows)[..|rows| - 1] == KindEntries(init);
    }
  }

  lemma {:induction false} RowsAreCounted(rows: seq<Row>)
    ensures Total(KindEntries(rows)) == |rows|
    decreases |rows|
  {
    if rows != [] {
      var init := rows[..|rows| - 1];
      RowsAreCounted(init);
      assert KindEntries(rows)[..|rows| - 1] == KindEntries(init);
    }
  }

  lemma {:induction false} CountSumIsOverKeys(groups: seq<ErrorGroup>, kinds: seq<Kind>, rows: seq<Row>, size: int)
    requires size != 0 && |groups| == |kinds|
    requires forall i :: 0 <= i < |groups| ==> groups[i].kind == kinds[i] && Describes(groups[i], rows, size)
    ensures CountSum(groups) == OverKeys(KindEntries(rows), kinds)
    decreases |groups|
  {
    hide Describes;
    if groups != [] {
      var n := |groups| - 1;
      CountSumIsOverKeys(groups[..n], kinds[..n], rows, size);
      assert groups[n].count == |Members(rows, kinds[n])| by {
        DescribedCount(groups[n], rows, size);
      }
      MembersAreCounted(rows, kinds[n]);
    }
  }

  lemma DescribedCount(g: ErrorGroup, rows: seq<Row>, size: int)
    requires size != 0 && Describes(g, rows, size)
    ensures g.count == |Members(rows, g.kind)|
  {
  }

  /** No row is lost and none is counted twice: every row's kind has one group, in the
      list's order, and the groups' counts add up to the rows. */
  lemma {:induction false} GroupsPartitionRows(groups: seq<ErrorGroup>, rows: seq<Row>, size: int)
    requires size != 0 && Arrivals(groups, rows, size)
    ensures CountSum(Sorted(groups)) == |rows|
    ensures InOrder(Sorted(groups)) && multiset(Sorted(groups)) == multiset(groups)
    ensures forall i, j :: 0 <= i < j < |groups| ==> groups[i].kind != groups[j].kind
    ensures forall row :: row in rows ==> exists i :: 0 <= i < |groups| && groups[i].kind == KindOf(row)
  {
    hide Describes, Sorted, FirstArrivals, CountSum, InOrder;
    var kinds, entries := FirstArrivals(KindsOf(rows)), KindEntries(rows);
    FirstArrivalsAreDistinct(KindsOf(rows));
    CountSumIsOverKeys(groups, kinds, rows, size);
    OverKeysIsListed(entries, kinds);
    forall i | 0 <= i < |entries| ensures entries[i].key in kinds {
      assert KindsOf(rows)[i] == entries[i].key;
    }
    AllListed(entries, kinds);
    RowsAreCounted(rows);
    CountSumSorted(groups);
    SortedInOrder(groups);
    forall row | row in rows ensures exists i :: 0 <= i < |groups| && groups[i].kind == KindOf(row) {
      var at :| 0 <= at < |rows| && rows[at] == row;
      assert KindsOf(rows)[at] in kinds;
      var i :| 0 <= i < |kinds| && kinds[i] == KindOf(row);
    }
  }

  // ----- a group's series against its count -----

  lemma {:induction false} UnitWeights(members: seq<Row>)
    ensures WeightSum(Samples(members)) == |members|
    decreases |members|
  {
    if members != [] {
      var init := members[..|members| - 1];
      UnitWeights(init);
      assert Samples(members)[..|members| - 1] == Samples(init);
    }
  }

  lemma MembersAreWithin(members: seq<Row>)
    requires members != []
    ensures Within(Samples(members), Earliest(members), Latest(members)) && Earliest(members) <= Latest(members)
  {
    assert members[0] in members;
    forall i | 0 <= i < |members| ensures Earliest(members) <= members[i].eventTimeMs <= Latest(members) {
      assert members[i] in members;
    }
  }

  /** Some dictionary of counts behind a group's series. */
  lemma SeriesSums(members: seq<Row>, size: int)
    requires size != 0 && members != []
    ensures SumOf(SeriesFor(members, size)) ==
            Listed(Entries(Samples(members), size), Axis(Earliest(members), Latest(members), size))
  {
    hide Axis, Bucket;
    var axis, entries := Axis(Earliest(members), Latest(members), size), Entries(Samples(members), size);
    AxisIsDistinct(Earliest(members), Latest(members), size);
    SumIsOverKeys(SeriesFor(members, size), axis, entries);
    OverKeysIsListed(entries, axis);
  }

  /** A group's series adds up to its count exactly when the bucket size is positive or
      all its rows share a bucket. The interface accepts any size. */
  lemma SeriesConservesIff(g: ErrorGroup, rows: seq<Row>, size: int)
    requires size != 0 && Describes(g, rows, size)
    ensures SumOf(g.series) == g.count <==> size > 0 || Bucket(g.firstSeenMs, size) == Bucket(g.lastSeenMs, size)
  {
    hide Axis, Bucket, Members, WeightSum, SumOf;
    var members := Members(rows, g.kind);
    var first, last := Earliest(members), Latest(members);
    SeriesSums(members, size);
    MembersAreWithin(members);
    UnitWeights(members);
    WindowSum(Samples(members), first, last, size);
  }

  /** Two failures one millisecond apart, in buckets of size -1: two rows, and no bucket. */
  lemma NegativeSizeShowsNothing(first: Row, second: Row, g: ErrorGroup)
    requires KindOf(first) == KindOf(second) == g.kind && first.eventTimeMs == 0 && second.eventTimeMs == 1
    requires Describes(g, [first, second], -1)
    ensures g.count == 2 && g.series == []
  {
    var rows := [first, second];
    assert rows[..1] == [first] && [first][..0] == [];
    assert Members([first], g.kind) == [first] && Members(rows, g.kind) == rows;
    assert rows[1..] == [second] && Earliest(rows) == 0 && Latest(rows) == 1;
    AxisAt(0, 1, -1);
  }
}

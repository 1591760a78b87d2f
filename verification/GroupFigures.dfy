/** The grouped view of the errors, from the rows: what each group counts and shows, and in
    which order the groups are listed.
 */
module GroupFigures {
  import opened Counting
  import opened ErrorGroups
  import opened ErrorRows
  import opened Headlines
  import opened Order
  import opened OrderedDict
  import Overview
  import opened Rounding
  import opened Series
  import opened Tallies
  import opened Wrappers

  ghost function Of(k: Kind): Row -> bool {
    (r: Row) => r.reason == k.reason && r.errorType == k.errorType
  }

  ghost function OfIn(k: Kind, from: int, to: int): Row -> bool {
    (r: Row) => r.reason == k.reason && r.errorType == k.errorType && from <= r.eventTimeMs < to
  }

  /** The first detail that is not empty, among the rows of a kind. */
  ghost predicate SampleOf(detail: string, rows: seq<Row>, k: Kind) {
    || (detail == "" && forall r :: r in rows && Of(k)(r) ==> r.detail == "")
    || (detail != "" && exists i :: 0 <= i < |rows| && Of(k)(rows[i]) && rows[i].detail == detail
                                    && forall j :: 0 <= j < i && Of(k)(rows[j]) ==> rows[j].detail == "")
  }

  /** What a group says of the rows of its kind. Its series is stated for a positive size. */
  ghost predicate Accounts(g: ErrorGroup, rows: seq<Row>, size: int) {
    && g.count == CountOf(rows, Of(g.kind)) > 0
    && g.entities == |set r | r in rows && Of(g.kind)(r) :: r.entityKey|
    && (exists r :: r in rows && Of(g.kind)(r) && r.eventTimeMs == g.firstSeenMs)
    && (exists r :: r in rows && Of(g.kind)(r) && r.eventTimeMs == g.lastSeenMs)
    && (forall r :: r in rows && Of(g.kind)(r) ==> g.firstSeenMs <= r.eventTimeMs <= g.lastSeenMs)
    && SampleOf(g.sampleDetail, rows, g.kind)
    && (size > 0 ==>
          && Covers(g.series, g.firstSeenMs, g.lastSeenMs, size)
          && forall p :: p in g.series ==> p.value == CountOf(rows, OfIn(g.kind, p.bucketMs, p.bucketMs + size)))
  }

  lemma {:induction false} MembersCount(rows: seq<Row>, k: Kind, p: Row -> bool, q: Row -> bool)
    requires forall r :: q(r) <==> Of(k)(r) && p(r)
    ensures CountOf(Members(rows, k), p) == CountOf(rows, q)
    decreases |rows|
  {
    if rows != [] {
      var init, last := rows[..|rows| - 1], rows[|rows| - 1];
      var more := if KindOf(last) == k then [last] else [];
      assert Members(rows, k) == Members(init, k) + more;
      MembersCount(init, k, p, q);
      hide Members, CountOf;
      assert rows == init + [last];
      CountConcat(init, [last], q);
      CountConcat(Members(init, k), more, p);
      CountOne(last, p);
      CountOne(last, q);
      CountsNothing(p);
    }
  }

  lemma CountsNothing<T>(p: T -> bool)
    ensures CountOf([], p) == 0
  {
  }

  lemma {:induction false} FirstDetailIn(members: seq<Row>)
    ensures FirstDetail(members) == "" ==> forall r :: r in members ==> r.detail == ""
    ensures FirstDetail(members) != "" ==>
              exists i :: 0 <= i < |members| && members[i].detail == FirstDetail(members)
                          && forall j :: 0 <= j < i ==> members[j].detail == ""
    decreases |members|
  {
    if members != [] && members[0].detail == "" {
      var rest := members[1..];
      FirstDetailIn(rest);
      assert members == [members[0]] + rest;
      if FirstDetail(rest) != "" {
        var i :|
          0 <= i < |rest| && rest[i].detail == FirstDetail(rest) && forall j :: 0 <= j < i ==> rest[j].detail == "";
        assert members[i + 1] == rest[i] && forall j :: 0 < j < i + 1 ==> members[j] == rest[j - 1];
      }
    } else if members != [] {
      assert members[0].detail == FirstDetail(members);
    }
  }

  /** The members of a kind before one of them are the rows of the kind before it. */
  lemma {:induction false} MemberAt(rows: seq<Row>, k: Kind, i: nat) returns (at: nat)
    requires i < |Members(rows, k)|
    ensures at < |rows| && rows[at] == Members(rows, k)[i] && Of(k)(rows[at])
    ensures forall j :: 0 <= j < at && Of(k)(rows[j]) ==> rows[j] in Members(rows, k)[..i]
    decreases |rows|
  {
    var n := |rows| - 1;
    var init := rows[..n];
    if i < |Members(init, k)| {
      at := MemberAt(init, k, i);
      assert Members(rows, k)[..i] == Members(init, k)[..i];
      assert forall j :: 0 <= j < at ==> rows[j] == init[j];
    } else {
      at := n;
      assert Members(rows, k)[..i] == Members(init, k);
      forall j | 0 <= j < n && Of(k)(rows[j]) ensures rows[j] in Members(init, k) {
        assert rows[j] == init[j] && init[j] in init;
      }
    }
  }

  lemma SampleIs(rows: seq<Row>, k: Kind)
    ensures SampleOf(FirstDetail(Members(rows, k)), rows, k)
  {
    var members := Members(rows, k);
    var detail := FirstDetail(members);
    FirstDetailIn(members);
    hide FirstDetail, Members;
    if detail != "" {
      var i :| 0 <= i < |members| && members[i].detail == detail && forall j :: 0 <= j < i ==> members[j].detail == "";
      var at := MemberAt(rows, k, i);
      forall j | 0 <= j < at && Of(k)(rows[j]) ensures rows[j].detail == "" {
        var m :| 0 <= m < i && members[..i][m] == rows[j];
      }
    }
  }

  lemma {:induction false} SamplesWeigh(members: seq<Row>, size: int, b: int)
    requires size > 0
    ensures WeightOf(Entries(Samples(members), size), b * size)
         == CountOf(members, TimeIn(b * size, b * size + size))
  {
    ErrorsWeigh(members, size, b);
    assert Samples(members) == Overview.ErrorSamples(members);
  }

  lemma PointsAre(g: ErrorGroup, rows: seq<Row>, size: int)
    requires size > 0 && Describes(g, rows, size)
    ensures Covers(g.series, g.firstSeenMs, g.lastSeenMs, size)
    ensures forall p :: p in g.series ==> p.value == CountOf(rows, OfIn(g.kind, p.bucketMs, p.bucketMs + size))
  {
    hide Axis, FloorDiv, Members, CountOf, WeightOf, Entries, Samples, Covers;
    var members := Members(rows, g.kind);
    var first, last := ErrorGroups.Earliest(members), Latest(members);
    AxisAt(first, last, size);
    ShownCovers(g.series, Samples(members), first, last, size);
    forall p | p in g.series ensures p.value == CountOf(rows, OfIn(g.kind, p.bucketMs, p.bucketMs + size)) {
      var i :| 0 <= i < |g.series| && g.series[i] == p;
      var b := FloorDiv(first, size) + i;
      assert p.bucketMs == b * size;
      SamplesWeigh(members, size, b);
      MembersCount(rows, g.kind, TimeIn(p.bucketMs, p.bucketMs + size), OfIn(g.kind, p.bucketMs, p.bucketMs + size));
    }
  }

  /** Every group accounts for the rows of its kind. */
  lemma GroupAccounts(g: ErrorGroup, rows: seq<Row>, size: int)
    requires size != 0 && Describes(g, rows, size)
    ensures Accounts(g, rows, size)
  {
    hide CountOf, SampleOf, Covers, FirstDetail, SeriesFor;
    var members := Members(rows, g.kind);
    MembersCount(rows, g.kind, (r: Row) => true, Of(g.kind));
    CountsAll(members, (r: Row) => true);
    SampleIs(rows, g.kind);
    assert Entities(members) == set r | r in rows && Of(g.kind)(r) :: r.entityKey;
    if size > 0 {
      PointsAre(g, rows, size);
    }
  }

  // ----- the list -----

  /** More occurrences first, then by reason, then by error type, none before any. */
  ghost predicate ListedBefore(g: ErrorGroup, h: ErrorGroup) {
    var a, b := if g.kind.errorType.Some? then g.kind.errorType.value else "",
                if h.kind.errorType.Some? then h.kind.errorType.value else "";
    && g.count >= h.count
    && (g.count == h.count ==>
          || StringLess(g.kind.reason, h.kind.reason)
          || (g.kind.reason == h.kind.reason && (a == b || StringLess(a, b))))
  }

  lemma InOrderListed(groups: seq<ErrorGroup>, i: nat, j: nat)
    requires InOrder(groups) && i < j < |groups|
    ensures ListedBefore(groups[i], groups[j])
  {
    var g, h := groups[i], groups[j];
    StringOrder(g.kind.reason, h.kind.reason);
    StringOrder(TypeText(g.kind), TypeText(h.kind));
  }

  /** One group for every kind among the rows, each accounting for its rows, in order. */
  ghost predicate FullList(list: seq<ErrorGroup>, rows: seq<Row>, size: int) {
    && (forall r :: r in rows ==> exists g :: g in list && Of(g.kind)(r))
    && (forall i, j :: 0 <= i < j < |list| ==> list[i].kind != list[j].kind && ListedBefore(list[i], list[j]))
    && (forall g :: g in list ==> Accounts(g, rows, size))
  }

  /** The list that is returned is such a list. */
  lemma ListAccounts(groups: seq<ErrorGroup>, rows: seq<Row>, size: int)
    requires size != 0 && Arrivals(groups, rows, size)
    ensures FullList(Sorted(groups), rows, size)
  {
    hide Describes, Sorted, FirstArrivals, Accounts, InOrder, ListedBefore;
    var list := Sorted(groups);
    GroupsPartitionRows(groups, rows, size);
    forall g | g in list ensures Accounts(g, rows, size) {
      assert g in multiset(list) && g in groups;
      GroupAccounts(g, rows, size);
    }
    forall r | r in rows ensures exists g :: g in list && Of(g.kind)(r) {
      var i :| 0 <= i < |groups| && groups[i].kind == KindOf(r);
      assert groups[i] in multiset(groups) && groups[i] in list;
    }
    forall i, j | 0 <= i < j < |list| ensures list[i].kind != list[j].kind && ListedBefore(list[i], list[j]) {
      InOrderListed(list, i, j);
      DistinctKinds(groups, list, i, j);
    }
  }

  lemma DistinctKinds(groups: seq<ErrorGroup>, list: seq<ErrorGroup>, i: nat, j: nat)
    requires multiset(list) == multiset(groups) && i < j < |list|
    requires forall a, b :: 0 <= a < b < |groups| ==> groups[a].kind != groups[b].kind
    ensures list[i].kind != list[j].kind
  {
    var g, h := list[i], list[j];
    if g == h {
      OccursTwice(list, i, j);
    }
    assert g in multiset(groups) && h in multiset(groups);
    var a :| 0 <= a < |groups| && groups[a] == g;
    var b :| 0 <= b < |groups| && groups[b] == h;
    OccursOnce(groups, a);
  }

  lemma OccursTwice<T>(list: seq<T>, i: nat, j: nat)
    requires i < j < |list| && list[i] == list[j]
    ensures multiset(list)[list[i]] >= 2
  {
    var rest := list[i + 1..];
    assert list == list[..i] + [list[i]] + rest;
    assert rest[j - i - 1] == list[i] && list[i] in rest;
  }

  lemma OccursOnce<T>(list: seq<T>, a: nat)
    requires a < |list| && forall b :: 0 <= b < |list| && b != a ==> list[b] != list[a]
    ensures multiset(list)[list[a]] == 1
  {
    assert list == list[..a] + [list[a]] + list[a + 1..];
    assert list[a] !in list[..a] && list[a] !in list[a + 1..];
  }

  /** The bucket size: the one asked for, or the least that covers first to last in 48. */
  lemma SizeIs(rows: seq<Row>, bucketMs: Option<int>, first: int, last: int)
    requires rows != [] && forall r :: r in rows ==> first <= r.eventTimeMs <= last
    requires exists r :: r in rows && r.eventTimeMs == first
    requires exists r :: r in rows && r.eventTimeMs == last
    ensures var size := SizeFor(rows, bucketMs);
            if bucketMs.Some? then size == bucketMs.value
            else size >= 1 && last - first < size * 48 && (size > 1 ==> (size - 1) * 48 <= last - first)
  {
  }
}

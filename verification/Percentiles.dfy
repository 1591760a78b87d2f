/** Nearest-rank percentiles: an observed value, never an interpolated one. */
module Percentiles {
  import opened Rounding
  import opened Wrappers

  function Insert(x: int, sorted: seq<int>): seq<int> {
    if sorted == [] || x <= sorted[0] then [x] + sorted else [sorted[0]] + Insert(x, sorted[1..])
  }

  function Sorted(values: seq<int>): seq<int> {
    if values == [] then [] else Insert(values[0], Sorted(values[1..]))
  }

  function Clamp(lo: int, k: int, hi: int): int {
    var atLeast := if k < lo then lo else k;
    if hi < atLeast then hi else atLeast
  }

  /** The percentile for the fraction `num / den`. */
  function Percentile(values: seq<int>, num: int, den: int): (v: Option<int>)
    requires den > 0
  {
    if values == [] then None
    else
      var ordered := Sorted(values);
      SortedLength(values);
      Some(ordered[Clamp(0, CeilDiv(num * |ordered|, den) - 1, |ordered| - 1)])
  }

  // ----- sorting -----

  lemma {:induction false} InsertLength(x: int, sorted: seq<int>)
    ensures |Insert(x, sorted)| == |sorted| + 1
    decreases |sorted|
  {
    if sorted != [] && x > sorted[0] {
      InsertLength(x, sorted[1..]);
    }
  }

  lemma {:induction false} SortedLength(values: seq<int>)
    ensures |Sorted(values)| == |values|
    decreases |values|
  {
    if values != [] {
      SortedLength(values[1..]);
      InsertLength(values[0], Sorted(values[1..]));
    }
  }

  /** How many of `values` are at most `v`. */
  function AtMost(values: seq<int>, v: int): (n: nat)
    ensures n <= |values|
  {
    if values == [] then 0 else (if values[0] <= v then 1 else 0) + AtMost(values[1..], v)
  }

  ghost predicate Ascending(s: seq<int>) {
    forall i, j :: 0 <= i <= j < |s| ==> s[i] <= s[j]
  }

  lemma {:induction false} InsertAscends(x: int, sorted: seq<int>)
    requires Ascending(sorted)
    ensures Ascending(Insert(x, sorted))
    ensures forall y :: y in Insert(x, sorted) <==> y == x || y in sorted
    decreases |sorted|
  {
    if sorted != [] && x > sorted[0] {
      InsertAscends(x, sorted[1..]);
      var rest := Insert(x, sorted[1..]);
      forall j | 0 <= j < |rest| ensures sorted[0] <= rest[j] {
        assert rest[j] in rest;
      }
    }
  }

  lemma {:induction false} SortedAscends(values: seq<int>)
    ensures Ascending(Sorted(values))
    ensures forall y :: y in Sorted(values) <==> y in values
    decreases |values|
  {
    if values != [] {
      SortedAscends(values[1..]);
      InsertAscends(values[0], Sorted(values[1..]));
    }
  }

  lemma {:induction false} InsertAtMost(x: int, sorted: seq<int>, v: int)
    ensures AtMost(Insert(x, sorted), v) == AtMost(sorted, v) + (if x <= v then 1 else 0)
    decreases |sorted|
  {
    if sorted != [] && x > sorted[0] {
      InsertAtMost(x, sorted[1..], v);
    }
  }

  lemma {:induction false} SortedAtMost(values: seq<int>, v: int)
    ensures AtMost(Sorted(values), v) == AtMost(values, v)
    decreases |values|
  {
    if values != [] {
      SortedAtMost(values[1..], v);
      InsertAtMost(values[0], Sorted(values[1..]), v);
    }
  }

  lemma {:induction false} NothingAtMost(s: seq<int>, v: int)
    requires forall y :: y in s ==> v < y
    ensures AtMost(s, v) == 0
    decreases |s|
  {
    if s != [] {
      assert s[0] in s && forall y :: y in s[1..] ==> y in s;
      NothingAtMost(s[1..], v);
    }
  }

  /** In a sorted list more than `i` entries are at most entry `i`, and at most `i`
      entries are at most anything smaller.
   */
  lemma {:induction false} RankOf(s: seq<int>, i: nat, v: int)
    requires Ascending(s) && i < |s|
    ensures s[i] <= v ==> AtMost(s, v) >= i + 1
    ensures v < s[i] ==> AtMost(s, v) <= i
    decreases |s|
  {
    if i > 0 {
      RankOf(s[1..], i - 1, v);
    } else if v < s[0] {
      NothingAtMost(s, v);
    }
  }

  // ----- what the percentile is -----

  /** `v` is high enough: at least the fraction `num / den` of the values are at most `v`. */
  predicate Reaches(values: seq<int>, num: int, den: int, v: int) {
    AtMost(values, v) * den >= num * |values|
  }

  lemma ScaleRank(count: int, rank: int, num: int, den: int, n: int)
    requires den > 0 && rank == CeilDiv(num * n, den)
    ensures count >= rank <==> count * den >= num * n
  {
    if count >= rank {
      assert count * den >= rank * den;
    } else {
      assert count * den <= (rank - 1) * den;
    }
  }

  lemma RankInRange(num: int, den: int, n: int)
    requires 0 < num <= den && n > 0
    ensures 1 <= CeilDiv(num * n, den) <= n
  {
    var rank := CeilDiv(num * n, den);
    assert num * n > 0;
    assert num * n <= den * n;
  }

  /** The percentile is an observed value, and the values that reach the fraction are
      exactly those from it upwards: it is the least observed one that does.
   */
  lemma NearestRank(values: seq<int>, num: int, den: int, v: int)
    requires 0 < num <= den && values != []
    ensures Percentile(values, num, den).Some?
    ensures Percentile(values, num, den).value in values
    ensures Reaches(values, num, den, v) <==> Percentile(values, num, den).value <= v
  {
    var ordered, n := Sorted(values), |values|;
    SortedLength(values);
    SortedAscends(values);
    SortedAtMost(values, v);
    RankInRange(num, den, n);
    var rank := CeilDiv(num * n, den);
    assert Percentile(values, num, den).value == ordered[rank - 1];
    assert ordered[rank - 1] in ordered;
    RankOf(ordered, rank - 1, v);
    ScaleRank(AtMost(values, v), rank, num, den, n);
  }

  lemma {:induction false} AtMostWithout(values: seq<int>, k: nat, v: int)
    requires k < |values|
    ensures AtMost(values, v) == AtMost(values[..k] + values[k + 1..], v) + (if values[k] <= v then 1 else 0)
    decreases |values|
  {
    var less := values[..k] + values[k + 1..];
    if k == 0 {
      assert less == values[1..];
    } else {
      AtMostWithout(values[1..], k - 1, v);
      assert less[1..] == values[1..][..k - 1] + values[1..][k..];
    }
  }

  lemma {:induction false} AtMostIgnoresOrder(a: seq<int>, b: seq<int>, v: int)
    requires multiset(a) == multiset(b)
    ensures |a| == |b| && AtMost(a, v) == AtMost(b, v)
    decreases |a|
  {
    assert |multiset(a)| == |a| && |multiset(b)| == |b|;
    if a != [] {
      assert a[0] in multiset(a) && a[0] in b;
      var k :| 0 <= k < |b| && b[k] == a[0];
      SameRest(a, b, k);
      AtMostIgnoresOrder(a[1..], b[..k] + b[k + 1..], v);
      AtMostWithout(b, k, v);
    }
  }

  lemma SameRest(a: seq<int>, b: seq<int>, k: nat)
    requires multiset(a) == multiset(b) && a != [] && k < |b| && b[k] == a[0]
    ensures multiset(a[1..]) == multiset(b[..k] + b[k + 1..])
  {
    assert a == [a[0]] + a[1..];
    assert b == b[..k] + [b[k]] + b[k + 1..];
    assert multiset(b) == multiset(b[..k] + b[k + 1..]) + multiset{a[0]};
    assert multiset(a) == multiset(a[1..]) + multiset{a[0]};
    assert multiset(a[1..]) == multiset(a) - multiset{a[0]};
  }

  /** The order in which the values were read does not matter. */
  lemma IgnoresOrder(a: seq<int>, b: seq<int>, num: int, den: int)
    requires 0 < num <= den && multiset(a) == multiset(b)
    ensures Percentile(a, num, den) == Percentile(b, num, den)
  {
    AtMostIgnoresOrder(a, b, 0);
    if a != [] {
      var p, q := NearestValue(a, num, den), NearestValue(b, num, den);
      AtMostIgnoresOrder(a, b, p);
      AtMostIgnoresOrder(a, b, q);
      NearestRank(a, num, den, p);
      NearestRank(a, num, den, q);
      NearestRank(b, num, den, p);
      NearestRank(b, num, den, q);
    }
  }

  function NearestValue(values: seq<int>, num: int, den: int): int
    requires den > 0 && values != []
  {
    Percentile(values, num, den).value
  }

  lemma CrossMultiply(count: int, num: int, den: nat, num': int, den': nat, n: nat)
    requires den' > 0 && num * den' <= num' * den && count * den' >= num' * n
    ensures count * den >= num * n
  {
    ScaleUp(num' * n, count * den', den);
    ScaleUp(num * den', num' * den, n);
    assert count * den' * den == count * den * den';
    assert num' * n * den == num' * den * n;
    assert num * den' * n == num * n * den';
    if count * den < num * n {
      ScaleUp(count * den + 1, num * n, den');
    }
  }

  /** A larger fraction never reports a smaller value. */
  lemma Monotone(values: seq<int>, num: int, den: int, num': int, den': int)
    requires 0 < num <= den && 0 < num' <= den' && num * den' <= num' * den
    requires values != []
    ensures NearestValue(values, num, den) <= NearestValue(values, num', den')
  {
    var v, n := NearestValue(values, num', den'), |values|;
    NearestRank(values, num', den', v);
    var count := AtMost(values, v);
    CrossMultiply(count, num, den, num', den', n);
    NearestRank(values, num, den, v);
  }

  /** The two figures on the landing page: p50 never exceeds p95. */
  lemma MedianBelowTail(walls: seq<int>)
    requires walls != []
    ensures NearestValue(walls, 50, 100) <= NearestValue(walls, 95, 100)
  {
    Monotone(walls, 50, 100, 95, 100);
  }
}

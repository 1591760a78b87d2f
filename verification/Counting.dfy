/** How many members of a list satisfy a condition, and what they add up to. */
module Counting {

  ghost function CountOf<T>(s: seq<T>, p: T -> bool): (n: nat)
    ensures n <= |s|
  {
    if s == [] then 0 else (if p(s[0]) then 1 else 0) + CountOf(s[1..], p)
  }

  /** The sum of `f` over the members that satisfy `p`. */
  ghost function SumWhere<T>(s: seq<T>, p: T -> bool, f: T -> int): int {
    if s == [] then 0 else (if p(s[0]) then f(s[0]) else 0) + SumWhere(s[1..], p, f)
  }

  lemma {:induction false} CountConcat<T>(a: seq<T>, b: seq<T>, p: T -> bool)
    ensures CountOf(a + b, p) == CountOf(a, p) + CountOf(b, p)
    decreases |a|
  {
    if a == [] {
      assert a + b == b;
    } else {
      assert (a + b)[1..] == a[1..] + b;
      CountConcat(a[1..], b, p);
    }
  }

  lemma {:induction false} SumConcat<T>(a: seq<T>, b: seq<T>, p: T -> bool, f: T -> int)
    ensures SumWhere(a + b, p, f) == SumWhere(a, p, f) + SumWhere(b, p, f)
    decreases |a|
  {
    if a == [] {
      assert a + b == b;
    } else {
      assert (a + b)[1..] == a[1..] + b;
      SumConcat(a[1..], b, p, f);
    }
  }

  lemma CountOne<T>(x: T, p: T -> bool)
    ensures CountOf([x], p) == if p(x) then 1 else 0
  {
    assert [x][1..] == [];
  }

  lemma SumOne<T>(x: T, p: T -> bool, f: T -> int)
    ensures SumWhere([x], p, f) == if p(x) then f(x) else 0
  {
    assert [x][1..] == [];
  }

  lemma {:induction false} CountSame<T>(s: seq<T>, p: T -> bool, q: T -> bool)
    requires forall x :: x in s ==> p(x) == q(x)
    ensures CountOf(s, p) == CountOf(s, q)
    decreases |s|
  {
    if s != [] {
      CountSame(s[1..], p, q);
    }
  }

  /** Something is counted exactly if some member satisfies the condition. */
  lemma {:induction false} CountsAny<T>(s: seq<T>, p: T -> bool)
    ensures CountOf(s, p) > 0 <==> exists x :: x in s && p(x)
    decreases |s|
  {
    if s != [] {
      CountsAny(s[1..], p);
      assert forall x :: x in s <==> x == s[0] || x in s[1..];
    }
  }
}

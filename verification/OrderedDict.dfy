/** A dictionary that iterates in insertion order: assigning to a key that is
    already present keeps its place, deleting forgets it.
 */
module OrderedDict {

  ghost predicate Distinct<K>(keys: seq<K>) {
    forall i, j :: 0 <= i < j < |keys| ==> keys[i] != keys[j]
  }

  function Without<K(==, !new)>(keys: seq<K>, k: K): (r: seq<K>)
    ensures forall x :: x in r <==> x in keys && x != k
    ensures k !in keys ==> r == keys
  {
    if keys == [] then []
    else if keys[0] == k then Without(keys[1..], k)
    else [keys[0]] + Without(keys[1..], k)
  }

  lemma {:induction false} WithoutIsDistinct<K(!new)>(keys: seq<K>, k: K)
    requires Distinct(keys)
    ensures Distinct(Without(keys, k))
    decreases |keys|
  {
    if keys != [] {
      WithoutIsDistinct(keys[1..], k);
      var rest := Without(keys[1..], k);
      assert keys[0] !in keys[1..];
      assert forall j :: 0 <= j < |rest| ==> rest[j] in rest;
    }
  }

  /** With distinct keys, `Without` drops at most the one entry. */
  lemma {:induction false} WithoutLength<K(!new)>(keys: seq<K>, k: K)
    requires Distinct(keys)
    ensures |Without(keys, k)| == if k in keys then |keys| - 1 else |keys|
    decreases |keys|
  {
    if keys != [] {
      WithoutLength(keys[1..], k);
      if keys[0] == k {
        assert k !in keys[1..];
      }
    }
  }

  datatype Dict<K(==, !new), V> = Dict(keys: seq<K>, vals: map<K, V>) {

    ghost predicate Valid() {
      && Distinct(keys)
      && forall k :: k in keys <==> k in vals
    }

    predicate Has(k: K) {
      k in vals
    }

    function Put(k: K, v: V): Dict<K, V> {
      if k in vals then Dict(keys, vals[k := v]) else Dict(keys + [k], vals[k := v])
    }

    function Del(k: K): Dict<K, V> {
      Dict(Without(keys, k), vals - {k})
    }

    function Get(k: K, default: V): V {
      if k in vals then vals[k] else default
    }
  }

  /** The distinct keys of a sequence, in the order in which they first occur. */
  function FirstArrivals<K(==, !new)>(keys: seq<K>): seq<K> {
    if keys == [] then []
    else
      var init, last := keys[..|keys| - 1], keys[|keys| - 1];
      FirstArrivals(init) + (if last in init then [] else [last])
  }

  lemma {:induction false} FirstArrivalsAreDistinct<K(!new)>(keys: seq<K>)
    ensures Distinct(FirstArrivals(keys))
    ensures forall k :: k in FirstArrivals(keys) <==> k in keys
    decreases |keys|
  {
    if keys != [] {
      var init, last := keys[..|keys| - 1], keys[|keys| - 1];
      assert keys == init + [last];
      FirstArrivalsAreDistinct(init);
    }
  }

  function Empty<K(==, !new), V>(): Dict<K, V> {
    Dict([], map[])
  }

  lemma PutIsValid<K(!new), V>(d: Dict<K, V>, k: K, v: V)
    requires d.Valid()
    ensures d.Put(k, v).Valid()
  {
  }

  lemma DelIsValid<K(!new), V>(d: Dict<K, V>, k: K)
    requires d.Valid()
    ensures d.Del(k).Valid()
    ensures |d.Del(k).keys| == if d.Has(k) then |d.keys| - 1 else |d.keys|
  {
    WithoutIsDistinct(d.keys, k);
    WithoutLength(d.keys, k);
  }
}

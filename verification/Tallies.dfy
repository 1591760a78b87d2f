/** Adding up weights by key, and what the sum over a list of keys accounts for. */
module Tallies {
  import opened OrderedDict

  datatype Entry<K(==, !new)> = Entry(key: K, weight: int)

  /** The weight recorded under one key. */
  function WeightOf<K(==, !new)>(entries: seq<Entry<K>>, k: K): int {
    if entries == [] then 0
    else
      var init, last := entries[..|entries| - 1], entries[|entries| - 1];
      WeightOf(init, k) + (if last.key == k then last.weight else 0)
  }

  function Total<K(==, !new)>(entries: seq<Entry<K>>): int {
    if entries == [] then 0 else Total(entries[..|entries| - 1]) + entries[|entries| - 1].weight
  }

  /** The weight of the entries whose key is listed. */
  function Listed<K(==, !new)>(entries: seq<Entry<K>>, keys: seq<K>): int {
    if entries == [] then 0
    else
      var init, last := entries[..|entries| - 1], entries[|entries| - 1];
      Listed(init, keys) + (if last.key in keys then last.weight else 0)
  }

  /** The weights under each key of a list, added up. */
  function OverKeys<K(==, !new)>(entries: seq<Entry<K>>, keys: seq<K>): int {
    if keys == [] then 0 else OverKeys(entries, keys[..|keys| - 1]) + WeightOf(entries, keys[|keys| - 1])
  }

  lemma WeightOfAppend<K(!new)>(entries: seq<Entry<K>>, e: Entry<K>, k: K)
    ensures WeightOf(entries + [e], k) == WeightOf(entries, k) + (if e.key == k then e.weight else 0)
  {
    assert (entries + [e])[..|entries|] == entries;
  }

  lemma {:induction false} OverKeysAppend<K(!new)>(entries: seq<Entry<K>>, e: Entry<K>, keys: seq<K>)
    requires Distinct(keys)
    ensures OverKeys(entries + [e], keys) == OverKeys(entries, keys) + (if e.key in keys then e.weight else 0)
    decreases |keys|
  {
    if keys != [] {
      var init, last := keys[..|keys| - 1], keys[|keys| - 1];
      assert keys == init + [last];
      OverKeysAppend(entries, e, init);
      WeightOfAppend(entries, e, last);
    }
  }

  lemma {:induction false} OverNothing<K(!new)>(keys: seq<K>)
    ensures OverKeys([], keys) == 0
    decreases |keys|
  {
    if keys != [] {
      OverNothing(keys[..|keys| - 1]);
    }
  }

  /** A list of distinct keys accounts for exactly the entries it lists. */
  lemma {:induction false} OverKeysIsListed<K(!new)>(entries: seq<Entry<K>>, keys: seq<K>)
    requires Distinct(keys)
    ensures OverKeys(entries, keys) == Listed(entries, keys)
    decreases |entries|
  {
    if entries == [] {
      OverNothing(keys);
    } else {
      var init, last := entries[..|entries| - 1], entries[|entries| - 1];
      assert entries == init + [last];
      OverKeysIsListed(init, keys);
      OverKeysAppend(init, last, keys);
    }
  }

  lemma {:induction false} AllListed<K(!new)>(entries: seq<Entry<K>>, keys: seq<K>)
    requires forall i :: 0 <= i < |entries| ==> entries[i].key in keys
    ensures Listed(entries, keys) == Total(entries)
    decreases |entries|
  {
    if entries != [] {
      AllListed(entries[..|entries| - 1], keys);
    }
  }

  lemma {:induction false} NoneListed<K(!new)>(entries: seq<Entry<K>>, keys: seq<K>)
    requires forall i :: 0 <= i < |entries| ==> entries[i].key !in keys
    ensures Listed(entries, keys) == 0
    decreases |entries|
  {
    if entries != [] {
      NoneListed(entries[..|entries| - 1], keys);
    }
  }
}

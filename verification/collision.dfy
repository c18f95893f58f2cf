/**
 * The entry lists of collision nodes: the linear key search
 * `collisionIndexOf` and how the map of a list changes when an entry is
 * replaced, appended or spliced out.
 */
module Collision {
  import opened Arrays
  import opened Nodes

  /** `collisionIndexOf(root, key)`: the position of the first entry with key `key`, or -1. */
  function IndexOf<K(==), V>(es: seq<Entry<K, V>>, key: K): (r: int)
    ensures -1 <= r < |es|
    ensures r == -1 <==> forall i :: 0 <= i < |es| ==> es[i].key != key
    ensures r >= 0 ==> es[r].key == key && forall i :: 0 <= i < r ==> es[i].key != key
  {
    IndexFrom(es, key, 0)
  }

  /** The scan of `collisionIndexOf` from position `i` on. */
  function IndexFrom<K(==), V>(es: seq<Entry<K, V>>, key: K, i: nat): (r: int)
    requires i <= |es|
    ensures r == -1 || i <= r < |es|
    ensures r == -1 <==> forall j :: i <= j < |es| ==> es[j].key != key
    ensures r >= 0 ==> es[r].key == key && forall j :: i <= j < r ==> es[j].key != key
    decreases |es| - i
  {
    if i == |es| then -1
    else if es[i].key == key then i
    else IndexFrom(es, key, i + 1)
  }

  /** The loop of `collisionIndexOf` as written. */
  method IndexOfLoop<K(==), V>(es: seq<Entry<K, V>>, key: K) returns (r: int)
    ensures r == IndexOf(es, key)
  {
    var i := 0;
    while i < |es|
      invariant 0 <= i <= |es| && forall j :: 0 <= j < i ==> es[j].key != key
    {
      if es[i].key == key {
        return i;
      }
      i := i + 1;
    }
    return -1;
  }

  // ---------------------------------------------------------------------------
  // The map of an entry list
  // ---------------------------------------------------------------------------

  /** With distinct keys, every entry of the list is an entry of its map. */
  lemma {:induction false} EntriesAt<K, V>(es: seq<Entry<K, V>>, i: nat)
    requires DistinctKeys(es) && i < |es|
    ensures es[i].key in EntriesMap(es) && EntriesMap(es)[es[i].key] == es[i].val
    decreases |es|
  {
    if i < |es| - 1 {
      EntriesAt(es[..|es| - 1], i);
    }
  }

  /** The keys of the map are the keys of the list. */
  lemma {:induction false} EntriesKeys<K, V>(es: seq<Entry<K, V>>, k: K)
    ensures k in EntriesMap(es) <==> exists i :: 0 <= i < |es| && es[i].key == k
    decreases |es|
  {
    if |es| > 0 {
      var init := es[..|es| - 1];
      EntriesKeys(init, k);
      if k in EntriesMap(init) {
        var i :| 0 <= i < |init| && init[i].key == k;
        assert es[i].key == k;
      }
      if exists i :: 0 <= i < |es| && es[i].key == k {
        var i :| 0 <= i < |es| && es[i].key == k;
        if i < |es| - 1 {
          assert init[i].key == k;
        }
      }
    }
  }

  /** A key's lookup in a list with distinct keys is the entry `IndexOf` finds. */
  lemma EntriesLookup<K, V>(es: seq<Entry<K, V>>, k: K)
    requires DistinctKeys(es)
    ensures k in EntriesMap(es) <==> IndexOf(es, k) >= 0
    ensures IndexOf(es, k) >= 0 ==> EntriesMap(es)[k] == es[IndexOf(es, k)].val
  {
    EntriesKeys(es, k);
    if IndexOf(es, k) >= 0 {
      EntriesAt(es, IndexOf(es, k));
    }
  }

  /** Appending an entry adds it to the map. */
  lemma EntriesAppend<K, V>(es: seq<Entry<K, V>>, e: Entry<K, V>)
    ensures EntriesMap(es + [e]) == EntriesMap(es)[e.key := e.val]
  {
    assert (es + [e])[..|es|] == es;
  }

  /** Replacing the entry of a key replaces its value in the map. */
  lemma {:induction false} EntriesSet<K, V>(es: seq<Entry<K, V>>, i: nat, v: V)
    requires DistinctKeys(es) && i < |es|
    ensures EntriesMap(es[i := Entry(es[i].key, v)]) == EntriesMap(es)[es[i].key := v]
    decreases |es|
  {
    var es' := es[i := Entry(es[i].key, v)];
    var init := es[..|es| - 1];
    assert es'[..|es| - 1] == if i == |es| - 1 then init else init[i := Entry(es[i].key, v)];
    if i < |es| - 1 {
      EntriesSet(init, i, v);
    }
  }

  /** Splicing out an entry removes its key from the map. */
  lemma {:induction false} EntriesRemove<K, V>(es: seq<Entry<K, V>>, i: nat)
    requires DistinctKeys(es) && i < |es|
    ensures DistinctKeys(SpliceOut(es, i))
    ensures EntriesMap(SpliceOut(es, i)) == EntriesMap(es) - {es[i].key}
    decreases |es|
  {
    var init := es[..|es| - 1];
    var last := es[|es| - 1];
    if i == |es| - 1 {
      assert SpliceOut(es, i) == init;
      forall j | 0 <= j < |init|
        ensures init[j].key != last.key
      {
      }
      EntriesAbsent(init, last.key);
    } else {
      EntriesRemove(init, i);
      assert SpliceOut(es, i) == SpliceOut(init, i) + [last];
      assert SpliceOut(es, i)[..|es| - 2] == SpliceOut(init, i);
    }
  }

  /** A key no entry has is not in the map. */
  lemma EntriesAbsent<K, V>(es: seq<Entry<K, V>>, k: K)
    requires forall j :: 0 <= j < |es| ==> es[j].key != k
    ensures k !in EntriesMap(es)
  {
    EntriesKeys(es, k);
  }
}

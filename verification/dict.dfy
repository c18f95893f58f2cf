/**
 * The `Dict` class: a root node, `undefined` for the empty dict, and the
 * number of entries. Every dict the class builds satisfies `Inv`: the root is
 * a valid, non-empty branch or collision node whose map has `size` keys. The
 * map a dict stands for is `Map(d)`, and each operation is stated against it.
 *
 * `getHash` on keys is the function `H` every operation receives; `getHash`
 * on values (only `hashCode` hashes values) is `HV`.
 */
module Dicts {
  import opened Wrappers
  import opened Bits
  import opened Nodes
  import opened Collision
  import opened Find
  import opened Assoc
  import opened Without
  import opened Walk
  import opened Hashing
  import opened Sums

  datatype Dict<K, V> = Dict(root: Option<Node<K, V>>, size: int)

  /** What `get(key, notFound)` returns: the value, or the caller's `notFound`, tagged. */
  datatype Found<V, N> = Value(val: V) | Missing(notFound: N)

  /** The invariant every dict the class hands out keeps. */
  ghost predicate Inv<K, V>(H: K -> bv32, d: Dict<K, V>)
  {
    match d.root
    case None => d.size == 0
    case Some(n) => Valid(H, n, 0) && !n.Leaf? && Populated(n) && d.size == |Contents(n)|
  }

  /** The map a dict stands for. */
  ghost function Map<K, V>(d: Dict<K, V>): map<K, V>
  {
    OptContents(d.root)
  }

  /** Under the invariant the root is missing exactly when the map is empty, and `size` counts the keys. */
  lemma Sized<K, V>(H: K -> bv32, d: Dict<K, V>)
    requires Inv(H, d)
    ensures d.root.None? <==> Map(d) == map[]
    ensures d.size == |Map(d)|
  {
    if d.root.Some? {
      ValidNonEmpty(H, d.root.value, 0);
    }
  }

  /** At the root no chunk has been consumed, so every node is on every path. */
  lemma RootOnPath<K, V>(H: K -> bv32, n: Node<K, V>, hash: bv32)
    ensures OnPath(H, n, hash, 0)
  {
    forall k | k in Contents(n)
      ensures Agree(H(k), hash, 0)
    {
      AgreeZero(H(k), hash);
    }
  }

  // ---------------------------------------------------------------------------
  // The operations
  // ---------------------------------------------------------------------------

  /** `Dict.new()`: no root, size 0. */
  function New<K, V>(): (r: Dict<K, V>)
    ensures Map(r) == map[] && r.size == 0
  {
    Dict(None, 0)
  }

  /** `Dict.new()` keeps the invariant, whatever the hash. */
  lemma NewInv<K, V>(H: K -> bv32)
    ensures Inv(H, New<K, V>())
  {
  }

  /** `get(key, notFound)`: the key's value, or `notFound` when it has none. */
  function Get<K(==), V, N>(H: K -> bv32, d: Dict<K, V>, key: K, notFound: N): (r: Found<V, N>)
    requires Inv(H, d)
    ensures key in Map(d) ==> r == Value(Map(d)[key])
    ensures key !in Map(d) ==> r == Missing(notFound)
  {
    match d.root
    case None => Missing(notFound)
    case Some(root) =>
      match Find.Find(H, root, 0, key)
      case None => Missing(notFound)
      case Some(e) => Value(e.val)
  }

  /** `has(key)`: whether `find` returns an entry. */
  function Has<K(==), V>(H: K -> bv32, d: Dict<K, V>, key: K): (r: bool)
    requires Inv(H, d)
    ensures r <==> key in Map(d)
  {
    match d.root
    case None => false
    case Some(root) => Find.Find(H, root, 0, key).Some?
  }

  /**
   * `set(key, val)`: `assoc` from the root, or from EMPTY when there is none.
   * The same dict comes back when the root did not change; otherwise the size
   * grows by one exactly when `addedLeaf` was raised.
   */
  function Set<K(==), V(==)>(H: K -> bv32, d: Dict<K, V>, key: K, val: V): (r: Dict<K, V>)
    requires Inv(H, d)
    ensures Inv(H, r)
    ensures Map(r) == Map(d)[key := val]
    ensures r.size == if key in Map(d) then d.size else d.size + 1
    ensures key in Map(d) && Map(d)[key] == val ==> r == d
  {
    var root := if d.root.None? then EmptyNode() else d.root.value;
    SetRoot(H, d, key);
    var ins := Assoc.Assoc(H, root, 0, key, val);
    SetSize(H, d, root, key, val, ins);
    if Some(ins.node) == d.root then d
    else Dict(Some(ins.node), if ins.addedLeaf then d.size + 1 else d.size)
  }

  /** The node `set` starts from is a valid branch or collision node at the root. */
  lemma SetRoot<K, V>(H: K -> bv32, d: Dict<K, V>, key: K)
    requires Inv(H, d)
    ensures Valid(H, if d.root.None? then EmptyNode() else d.root.value, 0)
    ensures !(if d.root.None? then EmptyNode<K, V>() else d.root.value).Leaf?
    ensures OnPath(H, if d.root.None? then EmptyNode() else d.root.value, H(key), 0)
    ensures Contents(if d.root.None? then EmptyNode() else d.root.value) == Map(d)
  {
    EmptyValid<K, V>(H, 0);
    RootOnPath(H, if d.root.None? then EmptyNode() else d.root.value, H(key));
  }

  /** What `assoc` returned gives a dict that keeps the invariant. */
  lemma SetSize<K, V>(H: K -> bv32, d: Dict<K, V>, root: Node<K, V>, key: K, val: V, ins: Inserted<K, V>)
    requires Inv(H, d) && Contents(root) == Map(d) && Inserts(H, root, 0, key, val, ins)
    ensures Inv(H, Dict(Some(ins.node), if ins.addedLeaf then d.size + 1 else d.size))
  {
    Sized(H, d);
    if key !in Map(d) {
      assert Map(d)[key := val].Keys == Map(d).Keys + {key};
    } else {
      assert Map(d)[key := val].Keys == Map(d).Keys;
    }
  }

  /**
   * `delete(key)`: `without` from the root. The same dict comes back when
   * there is no root or the root did not change; an emptied root gives
   * `Dict.new()`; otherwise the size drops by one.
   */
  function Delete<K(==), V(==)>(H: K -> bv32, d: Dict<K, V>, key: K): (r: Dict<K, V>)
    requires Inv(H, d)
    ensures Inv(H, r)
    ensures Map(r) == Map(d) - {key}
    ensures r.size == if key in Map(d) then d.size - 1 else d.size
    ensures key !in Map(d) ==> r == d
    ensures Map(d).Keys == {key} ==> r == New()
  {
    match d.root
    case None => d
    case Some(root) =>
      var w := Without.Without(H, root, 0, key);
      DeleteSize(H, d, key, w);
      if w == d.root then d
      else if w.None? then NewInv<K, V>(H); New()
      else Dict(w, d.size - 1)
  }

  /** What `without` returned gives a dict that keeps the invariant. */
  lemma DeleteSize<K, V>(H: K -> bv32, d: Dict<K, V>, key: K, w: Option<Node<K, V>>)
    requires Inv(H, d) && d.root.Some? && Removes(H, d.root.value, 0, key, w)
    ensures w != d.root ==> key in Map(d)
    ensures w.Some? && w != d.root ==> Inv(H, Dict(w, d.size - 1))
    ensures w.None? ==> Map(d) - {key} == map[]
  {
    Sized(H, d);
    if key in Map(d) {
      Shrinks(Map(d), key);
      if w.None? {
        assert Map(d) - {key} == map[];
      }
    }
  }

  // ---------------------------------------------------------------------------
  // Traversal, hashing, equality
  // ---------------------------------------------------------------------------

  /** The entries `forEach` visits: none without a root, else the walk of the root. */
  function Listing<K, V>(d: Dict<K, V>): seq<Entry<K, V>>
  {
    match d.root
    case None => []
    case Some(root) => Walk.Walk(root)
  }

  /** The walk of a dict lists its map: each entry once, `size` of them. */
  lemma ListingSound<K, V>(H: K -> bv32, d: Dict<K, V>)
    requires Inv(H, d)
    ensures EntriesMap(Listing(d)) == Map(d)
    ensures DistinctKeys(Listing(d)) && |Listing(d)| == d.size
  {
    if d.root.Some? {
      WalkSound(H, d.root.value, 0);
      DistinctSize(Listing(d));
    }
  }

  /** `entries()`: every entry of the map once, as `forEach` visits them. */
  method Entries<K, V>(H: K -> bv32, d: Dict<K, V>) returns (es: seq<Entry<K, V>>)
    requires Inv(H, d)
    ensures es == Listing(d)
    ensures DistinctKeys(es) && |es| == d.size
    ensures forall i :: 0 <= i < |es| ==> es[i].key in Map(d) && Map(d)[es[i].key] == es[i].val
    ensures forall k :: k in Map(d) ==> exists i :: 0 <= i < |es| && es[i] == Entry(k, Map(d)[k])
  {
    if d.root.None? {
      es := [];
    } else {
      es := ForEach(d.root.value);
      Visits(H, d.root.value, 0);
    }
  }

  /** The term `hashCode` adds for one entry: `hashMerge(getHash(v), getHash(k))`,
      the two hashes read as the signed 32-bit numbers `getHash` returns. */
  function EntryHash<K, V>(H: K -> bv32, HV: V -> bv32): (K, V) -> int
  {
    (k: K, v: V) => HashMerge(Signed(HV(v) as int), Signed(H(k) as int))
  }

  /** `hashCode()`: the 32-bit wrapping sum of the entry terms, in walk order, read as
      the signed 32-bit number JavaScript's `| 0` leaves. */
  function HashCode<K, V>(H: K -> bv32, HV: V -> bv32, d: Dict<K, V>): (r: int)
    ensures -Word / 2 <= r < Word / 2
    ensures (r - Total(EntryHash(H, HV), Listing(d))) % Word == 0
  {
    var t := Total(EntryHash(H, HV), Listing(d));
    Signed(t)
  }

  /** Dicts with the same map hash alike, however their tries are shaped. */
  lemma HashCodeOfMap<K, V>(H: K -> bv32, HV: V -> bv32, a: Dict<K, V>, b: Dict<K, V>)
    requires Inv(H, a) && Inv(H, b) && Map(a) == Map(b)
    ensures HashCode(H, HV, a) == HashCode(H, HV, b)
  {
    ListingSound(H, a);
    ListingSound(H, b);
    TotalOrder(EntryHash(H, HV), Listing(a), Listing(b));
  }

  /**
   * `equals(o)`: the sizes agree and every visited entry `(k, v)` of this dict
   * is found in `o` with value `v`. The probe passes `!v` as the not-found
   * value, which can never be equal to `v`; the tag of `Found` keeps a miss
   * apart from a hit in the same way.
   */
  function Equals<K(==), V(==)>(H: K -> bv32, d: Dict<K, V>, o: Dict<K, V>): (r: bool)
    requires Inv(H, d) && Inv(H, o)
  {
    d.size == o.size && AllFound(H, o, Listing(d))
  }

  /** Every entry of `es` is found in `o` with its value; the first miss stops the walk. */
  function AllFound<K(==), V(==)>(H: K -> bv32, o: Dict<K, V>, es: seq<Entry<K, V>>): (r: bool)
    requires Inv(H, o)
    ensures r <==> forall i :: 0 <= i < |es| ==> es[i].key in Map(o) && Map(o)[es[i].key] == es[i].val
  {
    if |es| == 0 then true
    else if Get(H, o, es[0].key, ()) != Value(es[0].val) then false
    else AllFound(H, o, es[1..])
  }

  /** `equals` is equality of the maps. */
  lemma EqualsMap<K, V>(H: K -> bv32, d: Dict<K, V>, o: Dict<K, V>)
    requires Inv(H, d) && Inv(H, o)
    ensures Equals(H, d, o) <==> Map(d) == Map(o)
  {
    ListingSound(H, d);
    Sized(H, d);
    Sized(H, o);
    var es := Listing(d);
    if Map(d) == Map(o) {
      forall i | 0 <= i < |es|
        ensures es[i].key in Map(o) && Map(o)[es[i].key] == es[i].val
      {
        EntriesAt(es, i);
      }
    }
    if Equals(H, d, o) {
      forall k | k in Map(d)
        ensures k in Map(o) && Map(o)[k] == Map(d)[k]
      {
        EntriesKeys(es, k);
        var i :| 0 <= i < |es| && es[i].key == k;
        EntriesAt(es, i);
      }
      SubmapEqual(Map(d), Map(o));
    }
  }

  /** A submap with as many keys as the whole is the whole. */
  lemma SubmapEqual<K, V>(a: map<K, V>, b: map<K, V>)
    requires forall k :: k in a ==> k in b && b[k] == a[k]
    requires |a| == |b|
    ensures a == b
  {
    var extra := b.Keys - a.Keys;
    assert b.Keys == a.Keys + extra;
    assert |b.Keys| == |a.Keys| + |extra|;
    assert |extra| == 0;
    assert a.Keys == b.Keys;
  }

  // ---------------------------------------------------------------------------
  // Building and reading from outside
  // ---------------------------------------------------------------------------

  /** `Dict.fromMap` / `Dict.fromObject`: `set` of each pair in turn, from `Dict.new()`. */
  method FromEntries<K(==), V(==)>(H: K -> bv32, es: seq<Entry<K, V>>) returns (d: Dict<K, V>)
    ensures Inv(H, d)
    ensures Map(d) == EntriesMap(es)
  {
    d := New();
    NewInv<K, V>(H);
    var i := 0;
    while i < |es|
      invariant i <= |es|
      invariant Inv(H, d)
      invariant Map(d) == EntriesMap(es[..i])
    {
      assert es[..i + 1][..i] == es[..i];
      d := Set(H, d, es[i].key, es[i].val);
      i := i + 1;
    }
    assert es[..|es|] == es;
  }

  /** `map_get`: `Ok` of the value, or `Error(Nil)` when `get` returns the `NOT_FOUND` sentinel. */
  function MapGet<K(==), V>(H: K -> bv32, d: Dict<K, V>, key: K): (r: Result<V, ()>)
    requires Inv(H, d)
    ensures r.Ok? <==> key in Map(d)
    ensures r.Ok? ==> r.value == Map(d)[key]
  {
    match Get(H, d, key, ())
    case Missing(_) => Error(())
    case Value(v) => Ok(v)
  }

  // ---------------------------------------------------------------------------
  // Laws relating the operations
  // ---------------------------------------------------------------------------

  /** After `set(k, v)`, `get(k)` finds `v` and every other key reads as before. */
  lemma GetAfterSet<K, V, N>(H: K -> bv32, d: Dict<K, V>, k: K, v: V, j: K, notFound: N)
    requires Inv(H, d)
    ensures Get(H, Set(H, d, k, v), k, notFound) == Value(v)
    ensures j != k ==> Get(H, Set(H, d, k, v), j, notFound) == Get(H, d, j, notFound)
  {
    var s := Set(H, d, k, v);
    assert Map(s) == Map(d)[k := v];
  }

  /** After `delete(k)`, `has(k)` is false and every other key reads as before. */
  lemma GetAfterDelete<K, V, N>(H: K -> bv32, d: Dict<K, V>, k: K, j: K, notFound: N)
    requires Inv(H, d)
    ensures !Has(H, Delete(H, d, k), k)
    ensures j != k ==> Get(H, Delete(H, d, k), j, notFound) == Get(H, d, j, notFound)
  {
    var r := Delete(H, d, k);
    assert Map(r) == Map(d) - {k};
  }

  /** Setting a key to the value it already has, twice or once, gives the very same dict. */
  lemma SetTwice<K, V>(H: K -> bv32, d: Dict<K, V>, k: K, v: V)
    requires Inv(H, d)
    ensures Set(H, Set(H, d, k, v), k, v) == Set(H, d, k, v)
  {
    var s := Set(H, d, k, v);
    assert k in Map(s) && Map(s)[k] == v;
  }

  /** Deleting twice is deleting once. */
  lemma DeleteTwice<K, V>(H: K -> bv32, d: Dict<K, V>, k: K)
    requires Inv(H, d)
    ensures Delete(H, Delete(H, d, k), k) == Delete(H, d, k)
  {
    var r := Delete(H, d, k);
    assert k !in Map(r);
  }

  /**
   * Inserting a fresh key and deleting it again gives back a dict `equals`
   * to the first, of the same size, though not necessarily the same trie.
   */
  lemma SetThenDelete<K, V>(H: K -> bv32, d: Dict<K, V>, k: K, v: V)
    requires Inv(H, d) && k !in Map(d)
    ensures Delete(H, Set(H, d, k, v), k).size == d.size
    ensures Equals(H, Delete(H, Set(H, d, k, v), k), d)
  {
    var s := Set(H, d, k, v);
    var r := Delete(H, s, k);
    assert Map(r) == Map(d)[k := v] - {k};
    assert Map(r) == Map(d);
    EqualsMap(H, r, d);
  }

  /** Two dicts built from the same entries in different orders are `equals` and hash alike. */
  lemma SameEntries<K, V>(H: K -> bv32, HV: V -> bv32, a: Dict<K, V>, b: Dict<K, V>)
    requires Inv(H, a) && Inv(H, b) && Map(a) == Map(b)
    ensures Equals(H, a, b) && Equals(H, b, a)
    ensures HashCode(H, HV, a) == HashCode(H, HV, b)
  {
    EqualsMap(H, a, b);
    EqualsMap(H, b, a);
    HashCodeOfMap(H, HV, a, b);
  }
}

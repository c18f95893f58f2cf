/**
 * Wrapping 32-bit sums over the entries of a map. `Dict.hashCode` adds one
 * term per entry in walk order with `h + term | 0`; the sum is kept
 * here as the unsigned value of its 32 bits, an `int` below 2^32. Because the
 * wrapping addition is commutative and associative, the sum depends only on
 * the map, which lets two dicts holding the same entries in differently
 * shaped tries hash alike.
 */
module Sums {
  import opened Bits
  import opened Nodes
  import opened Collision

  /** `a + b | 0` on the unsigned values of two 32-bit words. */
  function Add(a: int, b: int): (r: int)
    ensures 0 <= r < Word
  {
    (a + b) % Word
  }

  /** The terms of a list, added in list order with 32-bit wrap-around. */
  function Total<K, V>(f: (K, V) -> int, es: seq<Entry<K, V>>): (r: int)
    ensures 0 <= r < Word
  {
    if |es| == 0 then 0 else Add(Total(f, es[..|es| - 1]), f(es[|es| - 1].key, es[|es| - 1].val))
  }

  /** The terms of a map, in an arbitrary order of its keys. */
  ghost function MapSum<K, V>(f: (K, V) -> int, m: map<K, V>): int
    decreases |m|
  {
    if |m| == 0 then 0
    else
      Shrinks(m, Pick(m));
      Add(MapSum(f, m - {Pick(m)}), f(Pick(m), m[Pick(m)]))
  }

  /** Some key of a non-empty map. */
  ghost function Pick<K, V>(m: map<K, V>): (k: K)
    requires |m| > 0
    ensures k in m
  {
    var k :| k in m; k
  }

  lemma Shrinks<K, V>(m: map<K, V>, k: K)
    requires k in m
    ensures |m - {k}| == |m| - 1
  {
    assert (m - {k}).Keys == m.Keys - {k};
  }

  /** Any key can be taken out last: the map sum does not depend on the order of the keys. */
  lemma {:induction false} MapSumPick<K, V>(f: (K, V) -> int, m: map<K, V>, k: K)
    requires k in m
    ensures MapSum(f, m) == Add(MapSum(f, m - {k}), f(k, m[k]))
    decreases |m|
  {
    var j := Pick(m);
    if j != k {
      var mj, mk := m - {j}, m - {k};
      Shrinks(m, j);
      Shrinks(m, k);
      assert k in mj && mj[k] == m[k];
      assert j in mk && mk[j] == m[j];
      MapSumPick(f, mj, k);
      MapSumPick(f, mk, j);
      assert mj - {k} == mk - {j};
      AddSwap(MapSum(f, mj - {k}), f(k, m[k]), f(j, m[j]));
    }
  }

  /** Two terms can be added in either order. */
  lemma AddSwap(r: int, a: int, b: int)
    ensures Add(Add(r, a), b) == Add(Add(r, b), a)
  {
    ModLeft(r + a, b);
    ModLeft(r + b, a);
  }

  /** Reducing the left operand first does not change a sum modulo 2^32. */
  lemma ModLeft(x: int, y: int)
    ensures ((x % Word) + y) % Word == (x + y) % Word
  {
    var q := x / Word;
    assert x == q * Word + x % Word;
    assert (x + y) == q * Word + (x % Word + y);
  }

  /** Adding a new key adds its term. */
  lemma MapSumAdd<K, V>(f: (K, V) -> int, m: map<K, V>, k: K, v: V)
    requires k !in m
    ensures MapSum(f, m[k := v]) == Add(MapSum(f, m), f(k, v))
  {
    MapSumPick(f, m[k := v], k);
    assert m[k := v] - {k} == m;
  }

  /** With distinct keys, the list sum is the sum over the list's map. */
  lemma {:induction false} TotalMap<K, V>(f: (K, V) -> int, es: seq<Entry<K, V>>)
    requires DistinctKeys(es)
    ensures Total(f, es) == MapSum(f, EntriesMap(es))
    decreases |es|
  {
    if |es| > 0 {
      var init := es[..|es| - 1];
      var e := es[|es| - 1];
      TotalMap(f, init);
      EntriesKeys(init, e.key);
      MapSumAdd(f, EntriesMap(init), e.key, e.val);
    }
  }

  /** Two lists with distinct keys and the same map have the same sum, whatever their order. */
  lemma TotalOrder<K, V>(f: (K, V) -> int, a: seq<Entry<K, V>>, b: seq<Entry<K, V>>)
    requires DistinctKeys(a) && DistinctKeys(b) && EntriesMap(a) == EntriesMap(b)
    ensures Total(f, a) == Total(f, b)
  {
    TotalMap(f, a);
    TotalMap(f, b);
  }
}

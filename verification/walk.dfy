/**
 * Traversal: `forEach`. The walk visits the items of a node's array in order,
 * skipping empty slots, reporting entries and descending into nodes; under the
 * trie invariant it lists every entry of the node's map exactly once.
 */
module Walk {
  import opened Wrappers
  import opened Bits
  import opened Nodes
  import opened Collision

  /** The entries `forEach(n, fn)` hands to `fn`, in the order it hands them. */
  function Walk<K, V>(n: Node<K, V>): seq<Entry<K, V>>
    decreases n, 2
  {
    match n
    case Leaf(e) => [e]
    case IndexNode(_, kids) => WalkKids(n, |kids|)
    case ArrayNode(_, slots) => WalkSlots(n, |slots|)
    case CollisionNode(_, es) => es
  }

  /** The walk of the first `i` kids of an index node. */
  function WalkKids<K, V>(n: Node<K, V>, i: nat): seq<Entry<K, V>>
    requires n.IndexNode? && i <= |n.kids|
    decreases n, 1, i
  {
    if i == 0 then [] else WalkKids(n, i - 1) + Walk(n.kids[i - 1])
  }

  /** The walk of the first `i` slots of an array node; an empty slot adds nothing. */
  function WalkSlots<K, V>(n: Node<K, V>, i: nat): seq<Entry<K, V>>
    requires n.ArrayNode? && i <= |n.slots|
    decreases n, 1, i
  {
    if i == 0 then []
    else
      WalkSlots(n, i - 1) + match n.slots[i - 1] { case None => [] case Some(m) => Walk(m) }
  }

  /** `forEach` as written: a loop over the node's array that skips empty slots,
      reports an entry and recurses into any other node. */
  method ForEach<K, V>(n: Node<K, V>) returns (out: seq<Entry<K, V>>)
    ensures out == Walk(n)
    decreases n
  {
    match n {
      case Leaf(e) =>
        out := [e];
      case CollisionNode(_, es) =>
        out := [];
        var i := 0;
        while i < |es|
          invariant i <= |es|
          invariant out == es[..i]
        {
          assert es[..i + 1] == es[..i] + [es[i]];
          out := out + [es[i]];
          i := i + 1;
        }
        assert es[..|es|] == es;
      case IndexNode(_, kids) =>
        out := [];
        var i := 0;
        while i < |kids|
          invariant i <= |kids|
          invariant out == WalkKids(n, i)
        {
          var item := kids[i];
          if item.Leaf? {
            out := out + [item.entry];
          } else {
            var sub := ForEach(item);
            out := out + sub;
          }
          i := i + 1;
        }
      case ArrayNode(_, slots) =>
        out := [];
        var i := 0;
        while i < |slots|
          invariant i <= |slots|
          invariant out == WalkSlots(n, i)
        {
          match slots[i] {
            case None =>
            case Some(item) =>
              if item.Leaf? {
                out := out + [item.entry];
              } else {
                var sub := ForEach(item);
                out := out + sub;
              }
          }
          i := i + 1;
        }
    }
  }

  // ---------------------------------------------------------------------------
  // The walk lists the map
  // ---------------------------------------------------------------------------

  /** Every key of the list has a chunk below `c` at depth `shift`. */
  ghost predicate Below<K, V>(H: K -> bv32, es: seq<Entry<K, V>>, shift: nat, c: int)
  {
    forall i :: 0 <= i < |es| ==> (Chunk(H(es[i].key), shift) as int) < c
  }

  /**
   * The walk of a valid node lists each entry of its map once: the map of the
   * walk is the node's map, and no key occurs twice.
   */
  lemma {:induction false} WalkSound<K, V>(H: K -> bv32, n: Node<K, V>, shift: nat)
    requires Valid(H, n, shift)
    ensures EntriesMap(Walk(n)) == Contents(n)
    ensures DistinctKeys(Walk(n))
    decreases n, 1
  {
    match n
    case Leaf(e) =>
      assert [e][..0] == [];
    case CollisionNode(_, _) =>
    case IndexNode(bitmap, kids) =>
      IndexWalk(H, n, shift, 32);
      assert Walk(n) == WalkKids(n, Rank(bitmap, 32));
    case ArrayNode(_, slots) =>
      SlotsWalk(H, n, shift, 32);
  }

  /** The kids of an index node up to the rank of chunk `c` walk the children of chunks `0 .. c-1`. */
  lemma {:induction false} IndexWalk<K, V>(H: K -> bv32, n: Node<K, V>, shift: nat, c: bv32)
    requires Valid(H, n, shift) && n.IndexNode? && c <= 32
    ensures Rank(n.bitmap, c) <= |n.kids|
    ensures Walks(H, n, shift, c, WalkKids(n, Rank(n.bitmap, c)))
    decreases n, 0, c as int, 1
  {
    RankMonotone(n.bitmap, c, 32);
    if c > 0 {
      IntPred(c);
      IndexWalk(H, n, shift, c - 1);
      IndexWalkNext(H, n, shift, c);
    }
  }

  /** The step of `IndexWalk`: the kid at the rank of chunk `c - 1`, if that bit is set, walks that chunk's child. */
  lemma IndexWalkNext<K, V>(H: K -> bv32, n: Node<K, V>, shift: nat, c: bv32)
    requires Valid(H, n, shift) && n.IndexNode? && 0 < c <= 32
    requires Rank(n.bitmap, c - 1) <= |n.kids|
    requires Walks(H, n, shift, c - 1, WalkKids(n, Rank(n.bitmap, c - 1)))
    ensures Rank(n.bitmap, c) <= |n.kids|
    ensures Walks(H, n, shift, c, WalkKids(n, Rank(n.bitmap, c)))
    decreases n, 0, c as int, 0
  {
    RankMonotone(n.bitmap, c, 32);
    RankNext(n.bitmap, c);
    if Bit(n.bitmap, c - 1) {
      RankBelowPopCount(n.bitmap, c - 1);
      var kid := n.kids[Rank(n.bitmap, c - 1)];
      WalkSound(H, kid, shift + Shift);
      IndexWalkHit(H, n, shift, c);
    } else {
      var a := WalkKids(n, Rank(n.bitmap, c - 1));
      assert a + [] == a;
      Extend(H, n, shift, c, a, []);
    }
  }

  /** A set bit: appending the walk of the kid at the rank of chunk `c - 1`. */
  lemma IndexWalkHit<K, V>(H: K -> bv32, n: Node<K, V>, shift: nat, c: bv32)
    requires n.IndexNode? && Placed(H, n, shift) && 0 < c <= 32 && Bit(n.bitmap, c - 1)
    requires Rank(n.bitmap, c - 1) < |n.kids| && Rank(n.bitmap, c) == Rank(n.bitmap, c - 1) + 1
    requires var kid := n.kids[Rank(n.bitmap, c - 1)]; EntriesMap(Walk(kid)) == Contents(kid) && DistinctKeys(Walk(kid))
    requires Walks(H, n, shift, c - 1, WalkKids(n, Rank(n.bitmap, c - 1)))
    ensures Walks(H, n, shift, c, WalkKids(n, Rank(n.bitmap, c)))
  {
    var r := Rank(n.bitmap, c - 1);
    var kid := n.kids[r];
    Extend(H, n, shift, c, WalkKids(n, r), Walk(kid));
    assert WalkKids(n, r + 1) == WalkKids(n, r) + Walk(kid);
  }

  /** The first `c` slots of an array node walk the children of chunks `0 .. c-1`. */
  lemma {:induction false} SlotsWalk<K, V>(H: K -> bv32, n: Node<K, V>, shift: nat, c: bv32)
    requires Valid(H, n, shift) && n.ArrayNode? && c <= 32
    ensures Walks(H, n, shift, c, WalkSlots(n, c as int))
    decreases n, 0, c as int
  {
    if c > 0 {
      IntPred(c);
      SlotsWalk(H, n, shift, c - 1);
      var i := (c - 1) as int;
      var a := WalkSlots(n, i);
      match n.slots[i]
      case None =>
        assert a + [] == a;
        Extend(H, n, shift, c, a, []);
      case Some(m) =>
        SlotValid(H, n, shift, i);
        WalkSound(H, m, shift + Shift);
        Extend(H, n, shift, c, a, Walk(m));
    }
  }

  lemma SlotValid<K, V>(H: K -> bv32, n: Node<K, V>, shift: nat, i: nat)
    requires Valid(H, n, shift) && n.ArrayNode? && i < |n.slots| && n.slots[i].Some?
    ensures Valid(H, n.slots[i].value, shift + Shift)
  {
  }

  /** `es` lists the children of chunks `0 .. c-1` of `n`: their union, no key twice,
      every key of a chunk below `c`. */
  ghost predicate Walks<K, V>(H: K -> bv32, n: Node<K, V>, shift: nat, c: bv32, es: seq<Entry<K, V>>)
    requires c <= 32
  {
    EntriesMap(es) == Union(n, c) && DistinctKeys(es) && Below(H, es, shift, c as int)
  }

  /** Appending the walk of the child of chunk `c - 1` to a walk of the chunks below it. */
  lemma Extend<K, V>(H: K -> bv32, n: Node<K, V>, shift: nat, c: bv32, a: seq<Entry<K, V>>, b: seq<Entry<K, V>>)
    requires IsBranch(n) && Placed(H, n, shift) && 0 < c <= 32
    requires Walks(H, n, shift, c - 1, a)
    requires DistinctKeys(b) && EntriesMap(b) == ChildMap(n, c - 1)
    ensures Walks(H, n, shift, c, a + b)
  {
    IntPred(c);
    forall j | 0 <= j < |b|
      ensures Chunk(H(b[j].key), shift) == c - 1
    {
      EntriesMapHas(b, j);
    }
    EntriesConcat(a, b);
  }

  /** The map of a concatenation: the second list wins. */
  lemma {:induction false} EntriesConcat<K, V>(a: seq<Entry<K, V>>, b: seq<Entry<K, V>>)
    ensures EntriesMap(a + b) == EntriesMap(a) + EntriesMap(b)
    decreases |b|
  {
    if |b| == 0 {
      assert a + b == a;
    } else {
      var init := b[..|b| - 1];
      EntriesConcat(a, init);
      assert (a + b)[..|a + b| - 1] == a + init;
    }
  }

  // ---------------------------------------------------------------------------
  // What a caller of `forEach` sees
  // ---------------------------------------------------------------------------

  /** With distinct keys, a list has as many entries as its map. */
  lemma {:induction false} DistinctSize<K, V>(es: seq<Entry<K, V>>)
    requires DistinctKeys(es)
    ensures |EntriesMap(es)| == |es|
    decreases |es|
  {
    if |es| > 0 {
      var init := es[..|es| - 1];
      DistinctSize(init);
      EntriesKeys(init, es[|es| - 1].key);
    }
  }

  /**
   * `fn` is called once per entry of the map and with nothing else: every
   * entry of the walk is an entry of the map, every key of the map is walked,
   * no key twice, so the walk is as long as the map.
   */
  lemma Visits<K, V>(H: K -> bv32, n: Node<K, V>, shift: nat)
    requires Valid(H, n, shift)
    ensures DistinctKeys(Walk(n)) && |Walk(n)| == |Contents(n)|
    ensures forall i :: 0 <= i < |Walk(n)| ==>
      Walk(n)[i].key in Contents(n) && Contents(n)[Walk(n)[i].key] == Walk(n)[i].val
    ensures forall k :: k in Contents(n) ==> exists i :: 0 <= i < |Walk(n)| && Walk(n)[i] == Entry(k, Contents(n)[k])
  {
    var w := Walk(n);
    WalkSound(H, n, shift);
    DistinctSize(w);
    forall i | 0 <= i < |w|
      ensures w[i].key in Contents(n) && Contents(n)[w[i].key] == w[i].val
    {
      EntriesAt(w, i);
    }
    forall k | k in Contents(n)
      ensures exists i :: 0 <= i < |w| && w[i] == Entry(k, Contents(n)[k])
    {
      EntriesKeys(w, k);
      var i :| 0 <= i < |w| && w[i].key == k;
      EntriesAt(w, i);
      assert w[i] == Entry(k, Contents(n)[k]);
    }
  }
}

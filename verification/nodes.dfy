/**
 * The nodes of the hash array mapped trie behind `Dict`, the finite map each
 * node stands for, and the structural invariant the operations keep.
 *
 * Keys are compared with `==` and hashed by a function `H` that every
 * operation receives; the trie only ever looks at `H(k)`, so any hash
 * function that is a function of the key works.
 *
 * A branch node (index or array node) is read through `Child(n, c)`: the
 * node its chunk `c` selects. The map of a branch node is the union of the
 * maps of its 32 children, so an index node and an array node with the same
 * children stand for the same map; most lemmas below are about children.
 */
module Nodes {
  import opened Wrappers
  import opened Bits

  /** An ENTRY node: one key and its value. */
  datatype Entry<K, V> = Entry(key: K, val: V)

  /** The four node kinds of the trie. */
  datatype Node<K, V> =
    | Leaf(entry: Entry<K, V>)
      /** INDEX_NODE: the children of the chunks set in `bitmap`, in chunk order. */
    | IndexNode(bitmap: bv32, kids: seq<Node<K, V>>)
      /** ARRAY_NODE: 32 slots, one per chunk, and the number of occupied ones. */
    | ArrayNode(size: nat, slots: seq<Option<Node<K, V>>>)
      /** COLLISION_NODE: entries whose keys share the full hash `hash`. */
    | CollisionNode(hash: bv32, entries: seq<Entry<K, V>>)

  /** EMPTY: the index node with no children that an empty dict starts from. */
  function EmptyNode<K, V>(): Node<K, V>
  {
    IndexNode(0, [])
  }

  predicate IsBranch<K, V>(n: Node<K, V>)
  {
    n.IndexNode? || n.ArrayNode?
  }

  /** The node chunk `c` selects in a branch node: the kid at the rank of bit `c`
      of an index node, the slot `c` of an array node. */
  function Child<K, V>(n: Node<K, V>, c: bv32): Option<Node<K, V>>
    requires c < 32
  {
    match n
    case IndexNode(bitmap, kids) =>
      if Bit(bitmap, c) && Rank(bitmap, c) < |kids| then Some(kids[Rank(bitmap, c)]) else None
    case ArrayNode(_, slots) =>
      if (c as int) < |slots| then slots[c as int] else None
    case _ => None
  }

  // ---------------------------------------------------------------------------
  // The map a node stands for
  // ---------------------------------------------------------------------------

  ghost function Contents<K, V>(n: Node<K, V>): map<K, V>
    decreases n, 2
  {
    match n
    case Leaf(e) => map[e.key := e.val]
    case CollisionNode(_, es) => EntriesMap(es)
    case _ => Union(n, 32)
  }

  /** The union of the maps of the children of chunks `0 .. c-1`. */
  ghost function Union<K, V>(n: Node<K, V>, c: bv32): map<K, V>
    requires c <= 32
    decreases n, 1, c as int
  {
    if c == 0 then map[] else Union(n, c - 1) + ChildMap(n, c - 1)
  }

  /** The map of `Child(n, c)`, empty when there is none. */
  ghost function ChildMap<K, V>(n: Node<K, V>, c: bv32): map<K, V>
    requires c < 32
    decreases n, 0
  {
    match n
    case IndexNode(bitmap, kids) =>
      if Bit(bitmap, c) && Rank(bitmap, c) < |kids| then Contents(kids[Rank(bitmap, c)]) else map[]
    case ArrayNode(_, slots) =>
      if (c as int) < |slots| && slots[c as int].Some? then Contents(slots[c as int].value) else map[]
    case _ => map[]
  }

  /** The map of a list of entries; a later entry wins. */
  function EntriesMap<K, V>(es: seq<Entry<K, V>>): map<K, V>
  {
    if |es| == 0 then map[] else EntriesMap(es[..|es| - 1])[es[|es| - 1].key := es[|es| - 1].val]
  }

  /** The map a possibly missing node stands for. */
  ghost function OptContents<K, V>(n: Option<Node<K, V>>): map<K, V>
  {
    match n
    case None => map[]
    case Some(m) => Contents(m)
  }

  // ---------------------------------------------------------------------------
  // The invariant
  // ---------------------------------------------------------------------------

  /** The occupied slots of an array, as a predicate on chunks. */
  function SlotsOf<K, V>(slots: seq<Option<Node<K, V>>>): bv32 -> bool
  {
    c => (c as int) < |slots| && slots[c as int].Some?
  }

  /** Number of occupied slots among the first 32. */
  function Occupied<K, V>(slots: seq<Option<Node<K, V>>>): nat
  {
    Count(SlotsOf(slots), 32)
  }

  /** A node that is not an index node without children. */
  predicate Populated<K, V>(n: Node<K, V>)
  {
    n.IndexNode? ==> |n.kids| > 0
  }

  /** Every key below the child of chunk `c` has chunk `c` at depth `shift`. */
  ghost predicate Placed<K, V>(H: K -> bv32, n: Node<K, V>, shift: nat)
  {
    forall c: bv32, k: K :: c < 32 && k in ChildMap(n, c) ==> Chunk(H(k), shift) == c
  }

  /** No key occurs twice. */
  predicate DistinctKeys<K(==), V>(es: seq<Entry<K, V>>)
  {
    forall i, j :: 0 <= i < j < |es| ==> es[i].key != es[j].key
  }

  /**
   * The trie invariant for a node at depth `shift`:
   * - an index node has popcount(bitmap) children, at most 16, each populated;
   * - an array node has 32 slots, `size` of them occupied, at least 8;
   * - a collision node holds at least one entry, all with its hash, keys distinct;
   * - every key lies below the child its hash chunk selects;
   * - branch nodes only occur where chunks are left (`shift < 32`).
   */
  ghost predicate Valid<K, V>(H: K -> bv32, n: Node<K, V>, shift: nat)
    decreases n
  {
    match n
    case Leaf(_) => true
    case IndexNode(bitmap, kids) =>
      && shift < 32
      && |kids| == PopCount(bitmap)
      && |kids| <= MaxIndexNode
      && (forall i :: 0 <= i < |kids| ==> Valid(H, kids[i], shift + Shift) && Populated(kids[i]))
      && Placed(H, n, shift)
    case ArrayNode(size, slots) =>
      && shift < 32
      && |slots| == BucketSize
      && size == Occupied(slots)
      && MinArrayNode <= size
      && (forall i :: 0 <= i < |slots| && slots[i].Some? ==>
            Valid(H, slots[i].value, shift + Shift) && Populated(slots[i].value))
      && Placed(H, n, shift)
    case CollisionNode(hash, es) =>
      && |es| >= 1
      && (forall i :: 0 <= i < |es| ==> H(es[i].key) == hash)
      && DistinctKeys(es)
  }

  /** Levels left below depth `shift`: the measure that insertion and removal shrink. */
  function Depth(shift: nat): nat
  {
    if shift < 32 then 32 - shift else 0
  }

  /** Every key below `n` agrees with `hash` on the chunks above depth `shift`:
      the keys a node at depth `shift` can hold once the probe reached it. */
  ghost predicate OnPath<K, V>(H: K -> bv32, n: Node<K, V>, hash: bv32, shift: nat)
  {
    forall k :: k in Contents(n) ==> Agree(H(k), hash, shift)
  }

  // ---------------------------------------------------------------------------
  // Children and the map of a branch node
  // ---------------------------------------------------------------------------

  lemma ChildMapChild<K, V>(n: Node<K, V>, c: bv32)
    requires c < 32
    ensures ChildMap(n, c) == OptContents(Child(n, c))
  {
  }

  /** When only chunk `c0` can hold `k`, the union holds `k` exactly when that child does. */
  lemma {:induction false} UnionLookup<K, V>(n: Node<K, V>, c: bv32, c0: bv32, k: K)
    requires c <= 32 && c0 < 32
    requires forall d: bv32 :: d < 32 && d != c0 ==> k !in ChildMap(n, d)
    ensures k in Union(n, c) <==> c0 < c && k in ChildMap(n, c0)
    ensures k in Union(n, c) ==> Union(n, c)[k] == ChildMap(n, c0)[k]
    decreases c as int
  {
    if c > 0 {
      IntPred(c);
      PredCases(c0, c);
      UnionLookup(n, c - 1, c0, k);
    }
  }

  /** In a placed branch node, a key is where its chunk leads and nowhere else. */
  lemma ChildLookup<K, V>(H: K -> bv32, n: Node<K, V>, shift: nat, k: K)
    requires IsBranch(n) && Placed(H, n, shift)
    ensures k in Contents(n) <==> k in ChildMap(n, Chunk(H(k), shift))
    ensures k in Contents(n) ==> Contents(n)[k] == ChildMap(n, Chunk(H(k), shift))[k]
  {
    UnionLookup(n, 32, Chunk(H(k), shift), k);
  }

  /** A lookup in a placed branch node is a lookup in the child the key's chunk selects. */
  lemma Lookup<K, V>(H: K -> bv32, n: Node<K, V>, shift: nat, k: K)
    requires IsBranch(n) && Placed(H, n, shift)
    ensures k in Contents(n) <==> k in OptContents(Child(n, Chunk(H(k), shift)))
    ensures k in Contents(n) ==> Contents(n)[k] == OptContents(Child(n, Chunk(H(k), shift)))[k]
  {
    ChildLookup(H, n, shift, k);
    ChildMapChild(n, Chunk(H(k), shift));
  }

  /** Every entry of a child is an entry of a placed branch node. */
  lemma ChildIn<K, V>(H: K -> bv32, n: Node<K, V>, shift: nat, c: bv32, k: K)
    requires IsBranch(n) && Placed(H, n, shift)
    requires c < 32 && k in ChildMap(n, c)
    ensures k in Contents(n) && Contents(n)[k] == ChildMap(n, c)[k]
  {
    ChildLookup(H, n, shift, k);
  }

  /**
   * Replacing the child of one chunk `c0`, by anything whose keys have chunk
   * `c0`, replaces exactly the entries of that chunk: the keys of the old child
   * go, the entries of the new one come.
   */
  lemma ReplaceChild<K, V>(H: K -> bv32, n: Node<K, V>, n': Node<K, V>, shift: nat, c0: bv32)
    requires IsBranch(n) && IsBranch(n') && Placed(H, n, shift) && c0 < 32
    requires forall d: bv32 :: d < 32 && d != c0 ==> Child(n', d) == Child(n, d)
    requires forall k :: k in ChildMap(n', c0) ==> Chunk(H(k), shift) == c0
    ensures Placed(H, n', shift)
    ensures Contents(n') == (Contents(n) - ChildMap(n, c0).Keys) + ChildMap(n', c0)
  {
    forall d: bv32 | d < 32 && d != c0
      ensures ChildMap(n', d) == ChildMap(n, d)
    {
      ChildMapChild(n, d);
      ChildMapChild(n', d);
    }
    PlacedReplace(H, n, n', shift, c0);
    var m := (Contents(n) - ChildMap(n, c0).Keys) + ChildMap(n', c0);
    var m' := Contents(n');
    forall k | k in m'
      ensures k in m && m'[k] == m[k]
    {
      ReplaceKey(H, n, n', shift, c0, k);
    }
    forall k | k in m
      ensures k in m'
    {
      ReplaceKey(H, n, n', shift, c0, k);
    }
    MapExt(m', m);
  }

  lemma MapExt<K, V>(a: map<K, V>, b: map<K, V>)
    requires forall k :: k in a <==> k in b
    requires forall k :: k in a ==> a[k] == b[k]
    ensures a == b
  {
  }

  lemma PlacedReplace<K, V>(H: K -> bv32, n: Node<K, V>, n': Node<K, V>, shift: nat, c0: bv32)
    requires Placed(H, n, shift) && c0 < 32
    requires forall d: bv32 :: d < 32 && d != c0 ==> ChildMap(n', d) == ChildMap(n, d)
    requires forall k :: k in ChildMap(n', c0) ==> Chunk(H(k), shift) == c0
    ensures Placed(H, n', shift)
  {
  }

  /** `ReplaceChild` for one key. */
  lemma ReplaceKey<K, V>(H: K -> bv32, n: Node<K, V>, n': Node<K, V>, shift: nat, c0: bv32, k: K)
    requires IsBranch(n) && IsBranch(n') && Placed(H, n, shift) && Placed(H, n', shift) && c0 < 32
    requires Chunk(H(k), shift) != c0 ==> ChildMap(n', Chunk(H(k), shift)) == ChildMap(n, Chunk(H(k), shift))
    ensures k in Contents(n') <==> k in (Contents(n) - ChildMap(n, c0).Keys) + ChildMap(n', c0)
    ensures k in Contents(n') ==> Contents(n')[k] == ((Contents(n) - ChildMap(n, c0).Keys) + ChildMap(n', c0))[k]
  {
    ChildLookup(H, n, shift, k);
    ChildLookup(H, n', shift, k);
    if Chunk(H(k), shift) != c0 {
      assert k !in ChildMap(n', c0);
      assert k !in ChildMap(n, c0);
    }
  }

  /** Setting `key` in the child of its chunk sets it in the node. */
  lemma SetChild<K, V>(H: K -> bv32, n: Node<K, V>, n': Node<K, V>, shift: nat, key: K, val: V)
    requires IsBranch(n) && IsBranch(n') && Placed(H, n, shift)
    requires forall d: bv32 :: d < 32 && d != Chunk(H(key), shift) ==> Child(n', d) == Child(n, d)
    requires ChildMap(n', Chunk(H(key), shift)) == ChildMap(n, Chunk(H(key), shift))[key := val]
    ensures Placed(H, n', shift)
    ensures Contents(n') == Contents(n)[key := val]
  {
    var c0 := Chunk(H(key), shift);
    ReplaceChild(H, n, n', shift, c0);
    forall k | k in ChildMap(n, c0)
      ensures k in Contents(n) && Contents(n)[k] == ChildMap(n, c0)[k]
    {
      ChildIn(H, n, shift, c0, k);
    }
  }

  /** Removing `key` from the child of its chunk removes it from the node. */
  lemma RemoveChild<K, V>(H: K -> bv32, n: Node<K, V>, n': Node<K, V>, shift: nat, key: K)
    requires IsBranch(n) && IsBranch(n') && Placed(H, n, shift)
    requires forall d: bv32 :: d < 32 && d != Chunk(H(key), shift) ==> Child(n', d) == Child(n, d)
    requires ChildMap(n', Chunk(H(key), shift)) == ChildMap(n, Chunk(H(key), shift)) - {key}
    ensures Placed(H, n', shift)
    ensures Contents(n') == Contents(n) - {key}
  {
    var c0 := Chunk(H(key), shift);
    ReplaceChild(H, n, n', shift, c0);
    forall k | k in ChildMap(n, c0)
      ensures k in Contents(n) && Contents(n)[k] == ChildMap(n, c0)[k]
    {
      ChildIn(H, n, shift, c0, k);
    }
    ChildLookup(H, n, shift, key);
  }

  // ---------------------------------------------------------------------------
  // Consequences of the invariant
  // ---------------------------------------------------------------------------

  /** The children of a valid branch node are valid one level down, and populated. */
  lemma ChildValid<K, V>(H: K -> bv32, n: Node<K, V>, shift: nat, c: bv32)
    requires Valid(H, n, shift) && IsBranch(n) && c < 32 && Child(n, c).Some?
    ensures Valid(H, Child(n, c).value, shift + Shift) && Populated(Child(n, c).value)
  {
  }

  /** The child a probe for `hash` descends into holds only keys agreeing with
      `hash` one chunk further. */
  lemma ChildOnPath<K, V>(H: K -> bv32, n: Node<K, V>, hash: bv32, shift: nat)
    requires IsBranch(n) && Placed(H, n, shift) && OnPath(H, n, hash, shift) && shift % Shift == 0
    requires Child(n, Chunk(hash, shift)).Some?
    ensures OnPath(H, Child(n, Chunk(hash, shift)).value, hash, shift + Shift)
    ensures (shift + Shift) % Shift == 0
  {
    var c := Chunk(hash, shift);
    ChildMapChild(n, c);
    forall k | k in Contents(Child(n, c).value)
      ensures Agree(H(k), hash, shift + Shift)
    {
      ChildIn(H, n, shift, c, k);
      AgreeStep(H(k), hash, shift);
    }
  }

  /** A valid populated node holds at least one entry. */
  lemma {:induction false} ValidNonEmpty<K, V>(H: K -> bv32, n: Node<K, V>, shift: nat)
    requires Valid(H, n, shift) && Populated(n)
    ensures Contents(n) != map[]
    decreases n
  {
    match n
    case Leaf(e) =>
      assert e.key in Contents(n);
    case CollisionNode(_, es) =>
      EntriesMapHas(es, |es| - 1);
    case IndexNode(bitmap, kids) =>
      RankSurjective(bitmap, 0, 32);
      var c: bv32 :| c < 32 && Bit(bitmap, c) && Rank(bitmap, c) == 0;
      ValidNonEmpty(H, kids[0], shift + Shift);
      BranchNonEmpty(H, n, shift, c);
    case ArrayNode(_, slots) =>
      CountSurjective(SlotsOf(slots), 0, 32);
      var c: bv32 :| c < 32 && SlotsOf(slots)(c);
      ValidNonEmpty(H, slots[c as int].value, shift + Shift);
      BranchNonEmpty(H, n, shift, c);
  }

  /** A placed branch node with a non-empty child is non-empty. */
  lemma BranchNonEmpty<K, V>(H: K -> bv32, n: Node<K, V>, shift: nat, c: bv32)
    requires IsBranch(n) && Placed(H, n, shift) && c < 32 && ChildMap(n, c) != map[]
    ensures Contents(n) != map[]
  {
    var k :| k in ChildMap(n, c);
    ChildIn(H, n, shift, c, k);
  }

  /** The entry at position `i` is in the map of the entries, unless a later one overrides its key. */
  lemma {:induction false} EntriesMapHas<K, V>(es: seq<Entry<K, V>>, i: nat)
    requires i < |es|
    ensures es[i].key in EntriesMap(es)
    decreases |es|
  {
    if i < |es| - 1 {
      EntriesMapHas(es[..|es| - 1], i);
    }
  }

  /** EMPTY is valid wherever a branch node may stand, and holds nothing. */
  lemma EmptyValid<K, V>(H: K -> bv32, shift: nat)
    requires shift < 32
    ensures Valid(H, EmptyNode<K, V>(), shift) && Contents(EmptyNode<K, V>()) == map[]
  {
    RankZero(32);
    forall c: bv32 | c < 32
      ensures ChildMap(EmptyNode<K, V>(), c) == map[]
    {
      BitZero(c);
    }
    var e := Contents(EmptyNode<K, V>());
    forall k | k in e
      ensures false
    {
      ChildLookup(H, EmptyNode<K, V>(), shift, k);
    }
  }
}

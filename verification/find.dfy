/**
 * Lookup: `find` and its three cases. A probe for `key` follows the chunks of
 * the key's hash down the trie and returns the entry holding `key`, if any;
 * under the trie invariant that is exactly a lookup in the node's map.
 */
module Find {
  import opened Wrappers
  import opened Bits
  import opened Nodes
  import opened Layout
  import opened Collision

  /** `find(root, shift, hash, key)` with `hash == H(key)`: the entry of `key` below `n`. */
  function Find<K(==), V>(H: K -> bv32, n: Node<K, V>, shift: nat, key: K): (r: Option<Entry<K, V>>)
    requires Valid(H, n, shift) && !n.Leaf?
    ensures r.Some? <==> key in Contents(n)
    ensures r.Some? ==> r.value == Entry(key, Contents(n)[key])
    decreases n, 1
  {
    match n
    case ArrayNode(_, _) => FindArray(H, n, shift, key)
    case IndexNode(_, _) => FindIndex(H, n, shift, key)
    case CollisionNode(_, _) => FindCollision(H, n, shift, key)
  }

  /** `findArray`: the slot of the key's chunk; descend into a node, compare an entry. */
  function FindArray<K(==), V>(H: K -> bv32, n: Node<K, V>, shift: nat, key: K): (r: Option<Entry<K, V>>)
    requires Valid(H, n, shift) && n.ArrayNode?
    ensures r.Some? <==> key in Contents(n)
    ensures r.Some? ==> r.value == Entry(key, Contents(n)[key])
    decreases n, 0
  {
    var idx := Mask(H(key), shift);
    ArrayProbe(H, n, shift, key);
    match n.slots[idx]
    case None => None
    case Some(node) =>
      if !node.Leaf? then Find(H, node, shift + Shift, key)
      else if key == node.entry.key then Some(node.entry)
      else None
  }

  /** `findIndex`: a clear bit means absent; otherwise the kid at the chunk's rank. */
  function FindIndex<K(==), V>(H: K -> bv32, n: Node<K, V>, shift: nat, key: K): (r: Option<Entry<K, V>>)
    requires Valid(H, n, shift) && n.IndexNode?
    ensures r.Some? <==> key in Contents(n)
    ensures r.Some? ==> r.value == Entry(key, Contents(n)[key])
    decreases n, 0
  {
    var bit := Bitpos(H(key), shift);
    if n.bitmap & bit == 0 then
      IndexAbsent(H, n, shift, key);
      None
    else
      IndexPresent(H, n, shift, key);
      var node := n.kids[Index(n.bitmap, bit)];
      if !node.Leaf? then Find(H, node, shift + Shift, key)
      else if key == node.entry.key then Some(node.entry)
      else None
  }

  /** `findCollision`: the entry `collisionIndexOf` finds; the node's hash is not consulted. */
  function FindCollision<K(==), V>(H: K -> bv32, n: Node<K, V>, shift: nat, key: K): (r: Option<Entry<K, V>>)
    requires Valid(H, n, shift) && n.CollisionNode?
    ensures r.Some? <==> key in Contents(n)
    ensures r.Some? ==> r.value == Entry(key, Contents(n)[key])
  {
    var idx := IndexOf(n.entries, key);
    EntriesLookup(n.entries, key);
    if idx < 0 then None else Some(n.entries[idx])
  }

  // ---------------------------------------------------------------------------
  // What a probe of a branch node sees
  // ---------------------------------------------------------------------------

  /** The slot `mask(hash, shift)` of a valid array node is the child of the key's chunk. */
  lemma ArrayProbe<K, V>(H: K -> bv32, n: Node<K, V>, shift: nat, key: K)
    requires Valid(H, n, shift) && n.ArrayNode?
    ensures Mask(H(key), shift) < |n.slots|
    ensures n.slots[Mask(H(key), shift)] == Child(n, Chunk(H(key), shift))
    ensures key in Contents(n) <==> key in OptContents(Child(n, Chunk(H(key), shift)))
    ensures key in Contents(n) ==> Contents(n)[key] == OptContents(Child(n, Chunk(H(key), shift)))[key]
    ensures n.slots[Mask(H(key), shift)].Some? ==>
      Valid(H, n.slots[Mask(H(key), shift)].value, shift + Shift) && Populated(n.slots[Mask(H(key), shift)].value)
  {
    Lookup(H, n, shift, key);
  }

  /** A clear bit for the key's chunk: the key is not below an index node. */
  lemma IndexAbsent<K, V>(H: K -> bv32, n: Node<K, V>, shift: nat, key: K)
    requires Valid(H, n, shift) && n.IndexNode? && n.bitmap & Bitpos(H(key), shift) == 0
    ensures key !in Contents(n)
  {
    var c := Chunk(H(key), shift);
    BitTest(n.bitmap, c);
    IndexChild(n, c);
    Lookup(H, n, shift, key);
  }

  /** A set bit for the key's chunk: `index` selects the kid holding the key's part of the map. */
  lemma IndexPresent<K, V>(H: K -> bv32, n: Node<K, V>, shift: nat, key: K)
    requires Valid(H, n, shift) && n.IndexNode? && n.bitmap & Bitpos(H(key), shift) != 0
    ensures Index(n.bitmap, Bitpos(H(key), shift)) < |n.kids|
    ensures Valid(H, n.kids[Index(n.bitmap, Bitpos(H(key), shift))], shift + Shift)
    ensures Populated(n.kids[Index(n.bitmap, Bitpos(H(key), shift))])
    ensures key in Contents(n) <==> key in Contents(n.kids[Index(n.bitmap, Bitpos(H(key), shift))])
    ensures key in Contents(n) ==> Contents(n)[key] == Contents(n.kids[Index(n.bitmap, Bitpos(H(key), shift))])[key]
  {
    var c := Chunk(H(key), shift);
    Probe(n.bitmap, H(key), shift);
    IndexChild(n, c);
    Lookup(H, n, shift, key);
  }

  /** A set bit: `index` is the rank of the key's chunk and selects its child, a valid
      populated node one level down. */
  lemma IndexSelect<K, V>(H: K -> bv32, n: Node<K, V>, shift: nat, key: K)
    requires Valid(H, n, shift) && n.IndexNode? && n.bitmap & Bitpos(H(key), shift) != 0
    ensures Bit(n.bitmap, Chunk(H(key), shift))
    ensures Index(n.bitmap, Bitpos(H(key), shift)) == Rank(n.bitmap, Chunk(H(key), shift)) < |n.kids|
    ensures Child(n, Chunk(H(key), shift)) == Some(n.kids[Index(n.bitmap, Bitpos(H(key), shift))])
    ensures Valid(H, n.kids[Index(n.bitmap, Bitpos(H(key), shift))], shift + Shift)
    ensures Populated(n.kids[Index(n.bitmap, Bitpos(H(key), shift))])
  {
    Probe(n.bitmap, H(key), shift);
    IndexChild(n, Chunk(H(key), shift));
  }
}

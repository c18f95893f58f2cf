/**
 * Insertion: `assoc`, its three cases and `createNode`. Inserting `key`
 * with `val` below a valid node gives a valid node standing for the old map
 * updated at `key`; the `addedLeaf` flag the source threads through the
 * calls is returned with the node and is set exactly when the key was new;
 * and when the key already maps to `val` the very same node comes back.
 *
 * The source passes the key's hash along; here it is always `H(key)`.
 */
module Assoc {
  import opened Wrappers
  import opened Bits
  import opened Arrays
  import opened Nodes
  import opened Layout
  import opened Collision
  import opened Edits
  import opened Find

  /** The node an insertion returns, with the source's `addedLeaf` flag. */
  datatype Inserted<K, V> = Inserted(node: Node<K, V>, addedLeaf: bool)

  /** `r` is what putting `key` with `val` in place of `x` at depth `shift` must give. */
  ghost predicate Replaces<K, V>(H: K -> bv32, x: Node<K, V>, shift: nat, key: K, val: V, r: Inserted<K, V>)
  {
    && Valid(H, r.node, shift) && Populated(r.node)
    && Contents(r.node) == Contents(x)[key := val]
    && (r.addedLeaf <==> key !in Contents(x))
    && (key in Contents(x) && Contents(x)[key] == val ==> r.node == x)
  }

  /** `r` is what inserting `key` with `val` into `n` at depth `shift` must give. */
  ghost predicate Inserts<K, V>(H: K -> bv32, n: Node<K, V>, shift: nat, key: K, val: V, r: Inserted<K, V>)
  {
    !r.node.Leaf? && Replaces(H, n, shift, key, val, r)
  }

  // ---------------------------------------------------------------------------
  // The operations
  // ---------------------------------------------------------------------------

  /** `assoc(root, shift, hash, key, val, addedLeaf)`: dispatch on the node kind. */
  function Assoc<K(==), V(==)>(H: K -> bv32, n: Node<K, V>, shift: nat, key: K, val: V): (r: Inserted<K, V>)
    requires Valid(H, n, shift) && !n.Leaf? && shift % Shift == 0 && OnPath(H, n, H(key), shift)
    ensures Inserts(H, n, shift, key, val, r)
    decreases Depth(shift), 3
  {
    match n
    case ArrayNode(_, _) => AssocArray(H, n, shift, key, val)
    case IndexNode(_, _) => AssocIndex(H, n, shift, key, val)
    case CollisionNode(_, _) => AssocCollision(H, n, shift, key, val)
  }

  /** `assocArray`: fill an empty slot, or rebuild the slot with what `AssocChild`
      makes of its node; an unchanged node gives back `n` itself. */
  function AssocArray<K(==), V(==)>(H: K -> bv32, n: Node<K, V>, shift: nat, key: K, val: V): (r: Inserted<K, V>)
    requires Valid(H, n, shift) && n.ArrayNode? && shift % Shift == 0 && OnPath(H, n, H(key), shift)
    ensures Inserts(H, n, shift, key, val, r)
    decreases Depth(shift), 1
  {
    var idx := Mask(H(key), shift);
    ArrayProbe(H, n, shift, key);
    match n.slots[idx]
    case None =>
      FreshFacts(H, n, shift, key, val);
      ArraySlot(H, n, shift, key, val, Leaf(Entry(key, val)), n.size + 1, true);
      Inserted(ArrayNode(n.size + 1, CloneAndSet(n.slots, idx, Some(Leaf(Entry(key, val))))), true)
    case Some(node) =>
      ChildOnPath(H, n, H(key), shift);
      var sub := AssocChild(H, node, shift + Shift, key, val);
      if sub.node == node then
        KeepFacts(H, n, shift, key, val, sub);
        Keep(H, n, shift, key, val);
        Inserted(n, sub.addedLeaf)
      else
        DescendFacts(H, n, shift, key, val, sub);
        ArraySlot(H, n, shift, key, val, sub.node, n.size, sub.addedLeaf);
        Inserted(ArrayNode(n.size, CloneAndSet(n.slots, idx, Some(sub.node))), sub.addedLeaf)
  }

  /** `assocIndex`: a set bit for the key's chunk rebuilds the kid, a clear bit adds one. */
  function AssocIndex<K(==), V(==)>(H: K -> bv32, n: Node<K, V>, shift: nat, key: K, val: V): (r: Inserted<K, V>)
    requires Valid(H, n, shift) && n.IndexNode? && shift % Shift == 0 && OnPath(H, n, H(key), shift)
    ensures Inserts(H, n, shift, key, val, r)
    decreases Depth(shift), 1
  {
    if n.bitmap & Bitpos(H(key), shift) != 0 then AssocIndexKid(H, n, shift, key, val)
    else AssocIndexGap(H, n, shift, key, val)
  }

  /** The set-bit half of `assocIndex`: rebuild the kid at `index(bitmap, bit)` with what
      `AssocChild` makes of it; an unchanged kid gives back `n` itself. */
  function AssocIndexKid<K(==), V(==)>(H: K -> bv32, n: Node<K, V>, shift: nat, key: K, val: V): (r: Inserted<K, V>)
    requires Valid(H, n, shift) && n.IndexNode? && shift % Shift == 0 && OnPath(H, n, H(key), shift)
    requires n.bitmap & Bitpos(H(key), shift) != 0
    ensures Inserts(H, n, shift, key, val, r)
    decreases Depth(shift), 0
  {
    IndexSelect(H, n, shift, key);
    ChildOnPath(H, n, H(key), shift);
    var node := n.kids[Index(n.bitmap, Bitpos(H(key), shift))];
    var sub := AssocChild(H, node, shift + Shift, key, val);
    if sub.node == node then
      KeepFacts(H, n, shift, key, val, sub);
      Keep(H, n, shift, key, val);
      Inserted(n, sub.addedLeaf)
    else
      DescendFacts(H, n, shift, key, val, sub);
      IndexSlot(H, n, shift, key, val, sub.node, sub.addedLeaf);
      Inserted(IndexNode(n.bitmap, CloneAndSet(n.kids, Index(n.bitmap, Bitpos(H(key), shift)), sub.node)), sub.addedLeaf)
  }

  /** The clear-bit half of `assocIndex`: below `MAX_INDEX_NODE` kids splice in a leaf at
      `index(bitmap, bit)` and set the bit; a full node becomes an array node whose slot
      `mask(hash, shift)` holds `assocIndex(EMPTY, ...)` one level down. */
  function AssocIndexGap<K(==), V(==)>(H: K -> bv32, n: Node<K, V>, shift: nat, key: K, val: V): (r: Inserted<K, V>)
    requires Valid(H, n, shift) && n.IndexNode? && shift % Shift == 0 && OnPath(H, n, H(key), shift)
    requires n.bitmap & Bitpos(H(key), shift) == 0
    ensures Inserts(H, n, shift, key, val, r)
    decreases Depth(shift), 0
  {
    IndexGap(H, n, shift, key);
    if |n.kids| >= MaxIndexNode then
      Shallow(H, n, shift);
      EmptyBelow<K, V>(H, shift, H(key));
      var sub := AssocIndex(H, EmptyNode(), shift + Shift, key, val);
      IndexGrow(H, n, shift, key, val, sub);
      Inserted(ArrayNode(|n.kids| + 1, CloneAndSet(Spread(n, 32), Mask(H(key), shift), Some(sub.node))), sub.addedLeaf)
    else
      IndexFresh(H, n, shift, key, val);
      Inserted(IndexNode(n.bitmap | Bitpos(H(key), shift),
        SpliceIn(n.kids, Index(n.bitmap, Bitpos(H(key), shift)), Leaf(Entry(key, val)))), true)
  }

  /** The step `assocArray` and `assocIndex` share for the node at the key's chunk, one
      level down: a leaf of the key keeps its value or gets `val`, a leaf of another key
      becomes `createNode` of both, and a branch node gets the key inserted. The node
      comes back unchanged exactly where the source returns the parent unchanged. */
  function AssocChild<K(==), V(==)>(H: K -> bv32, node: Node<K, V>, shift: nat, key: K, val: V): (r: Inserted<K, V>)
    requires Valid(H, node, shift) && Populated(node) && shift % Shift == 0 && OnPath(H, node, H(key), shift)
    ensures Replaces(H, node, shift, key, val, r)
    decreases Depth(shift), 5
  {
    match node
    case Leaf(e) =>
      if key == e.key then
        if val == e.val then
          Inserted(node, false)
        else
          assert map[e.key := e.val][key := val] == map[key := val];
          Inserted(Leaf(Entry(key, val)), false)
      else
        assert e.key in Contents(node);
        Inserted(CreateNode(H, shift, e.key, e.val, key, val), true)
    case _ => Assoc(H, node, shift, key, val)
  }

  /** `assocCollision`: with the node's hash, replace or append the entry; with another
      hash, wrap the node in an index node and insert there. */
  function AssocCollision<K(==), V(==)>(H: K -> bv32, n: Node<K, V>, shift: nat, key: K, val: V): (r: Inserted<K, V>)
    requires Valid(H, n, shift) && n.CollisionNode? && shift % Shift == 0 && OnPath(H, n, H(key), shift)
    ensures Inserts(H, n, shift, key, val, r)
    decreases Depth(shift), 2
  {
    if H(key) == n.hash then
      var idx := IndexOf(n.entries, key);
      EntriesLookup(n.entries, key);
      if idx != -1 then
        if n.entries[idx].val == val then
          Keep(H, n, shift, key, val);
          Inserted(n, false)
        else
          CollisionSet(H, n, shift, key, val);
          Inserted(CollisionNode(H(key), CloneAndSet(n.entries, idx, Entry(key, val))), false)
      else
        CollisionAppend(H, n, shift, key, val);
        Inserted(CollisionNode(H(key), CloneAndSet(n.entries, |n.entries|, Entry(key, val))), true)
    else
      Wrap(H, n, shift, key);
      AssocIndex(H, IndexNode(Bitpos(n.hash, shift), [n]), shift, key, val)
  }

  /** `createNode(shift, key1, val1, key2hash, key2, val2)`: a node holding two keys;
      a collision node when their hashes are equal, else EMPTY with both inserted. */
  function CreateNode<K(==), V(==)>(H: K -> bv32, shift: nat, k1: K, v1: V, k2: K, v2: V): (r: Node<K, V>)
    requires k1 != k2 && shift % Shift == 0 && Agree(H(k1), H(k2), shift)
    ensures Valid(H, r, shift) && !r.Leaf? && Populated(r)
    ensures Contents(r) == map[k1 := v1, k2 := v2]
    decreases Depth(shift), 4
  {
    if H(k1) == H(k2) then
      CollisionPair(H, shift, k1, v1, k2, v2);
      CollisionNode(H(k1), [Entry(k1, v1), Entry(k2, v2)])
    else
      AgreeDistinct(H(k1), H(k2), shift);
      EmptyValid<K, V>(H, shift);
      var first := AssocIndex(H, EmptyNode(), shift, k1, v1).node;
      OnPathOne(H, first, shift, k1, v1, H(k2));
      Assoc(H, first, shift, k2, v2).node
  }

  // ---------------------------------------------------------------------------
  // What the key's chunk selects
  // ---------------------------------------------------------------------------

  /** A clear bit: the key's chunk selects nothing, and `index` is its rank. */
  lemma IndexGap<K, V>(H: K -> bv32, n: Node<K, V>, shift: nat, key: K)
    requires Valid(H, n, shift) && n.IndexNode? && n.bitmap & Bitpos(H(key), shift) == 0
    ensures !Bit(n.bitmap, Chunk(H(key), shift))
    ensures Index(n.bitmap, Bitpos(H(key), shift)) == Rank(n.bitmap, Chunk(H(key), shift))
    ensures Child(n, Chunk(H(key), shift)).None?
  {
    Probe(n.bitmap, H(key), shift);
    IndexChild(n, Chunk(H(key), shift));
  }

  /** Nothing at the key's chunk: the key is new, and its leaf is the new child's map. */
  lemma FreshFacts<K, V>(H: K -> bv32, n: Node<K, V>, shift: nat, key: K, val: V)
    requires Valid(H, n, shift) && IsBranch(n) && Child(n, Chunk(H(key), shift)).None?
    ensures key !in Contents(n)
    ensures Contents(Leaf(Entry(key, val))) == OptContents(Child(n, Chunk(H(key), shift)))[key := val]
  {
    Lookup(H, n, shift, key);
  }

  /** The leaf of the key itself at the key's chunk. */
  lemma LeafFacts<K, V>(H: K -> bv32, n: Node<K, V>, shift: nat, key: K, val: V, e: Entry<K, V>)
    requires Valid(H, n, shift) && IsBranch(n) && Child(n, Chunk(H(key), shift)) == Some(Leaf(e)) && e.key == key
    ensures key in Contents(n) && Contents(n)[key] == e.val
    ensures Contents(Leaf(Entry(key, val))) == OptContents(Child(n, Chunk(H(key), shift)))[key := val]
  {
    Lookup(H, n, shift, key);
  }

  /** The leaf of another key at the key's chunk: both hashes agree one level further. */
  lemma LeafAgree<K, V>(H: K -> bv32, n: Node<K, V>, shift: nat, key: K, e: Entry<K, V>)
    requires Valid(H, n, shift) && IsBranch(n) && shift % Shift == 0 && OnPath(H, n, H(key), shift)
    requires Child(n, Chunk(H(key), shift)) == Some(Leaf(e))
    ensures Agree(H(e.key), H(key), shift + Shift)
  {
    ChildMapChild(n, Chunk(H(key), shift));
    ChildIn(H, n, shift, Chunk(H(key), shift), e.key);
    AgreeStep(H(e.key), H(key), shift);
  }

  /** Splitting a leaf of another key: the key is new, and the created node is the new child's map. */
  lemma SplitFacts<K, V>(H: K -> bv32, n: Node<K, V>, shift: nat, key: K, val: V, e: Entry<K, V>, x: Node<K, V>)
    requires Valid(H, n, shift) && IsBranch(n) && Child(n, Chunk(H(key), shift)) == Some(Leaf(e)) && e.key != key
    requires Contents(x) == map[e.key := e.val, key := val]
    ensures key !in Contents(n)
    ensures Contents(x) == OptContents(Child(n, Chunk(H(key), shift)))[key := val]
  {
    Lookup(H, n, shift, key);
  }

  /** A changed child after inserting below it. */
  lemma DescendFacts<K, V>(H: K -> bv32, n: Node<K, V>, shift: nat, key: K, val: V, sub: Inserted<K, V>)
    requires Valid(H, n, shift) && IsBranch(n) && Child(n, Chunk(H(key), shift)).Some?
    requires Replaces(H, Child(n, Chunk(H(key), shift)).value, shift + Shift, key, val, sub)
    requires sub.node != Child(n, Chunk(H(key), shift)).value
    ensures Valid(H, sub.node, shift + Shift) && Populated(sub.node)
    ensures Contents(sub.node) == OptContents(Child(n, Chunk(H(key), shift)))[key := val]
    ensures sub.addedLeaf <==> key !in Contents(n)
    ensures !(key in Contents(n) && Contents(n)[key] == val)
  {
    Lookup(H, n, shift, key);
  }

  /** An unchanged child after inserting below it: the key was there with `val`. */
  lemma KeepFacts<K, V>(H: K -> bv32, n: Node<K, V>, shift: nat, key: K, val: V, sub: Inserted<K, V>)
    requires Valid(H, n, shift) && IsBranch(n) && Child(n, Chunk(H(key), shift)).Some?
    requires Replaces(H, Child(n, Chunk(H(key), shift)).value, shift + Shift, key, val, sub)
    requires sub.node == Child(n, Chunk(H(key), shift)).value
    ensures key in Contents(n) && Contents(n)[key] == val && !sub.addedLeaf
  {
    var m := Contents(sub.node);
    assert m[key := val] == m;
    assert key in m && m[key] == val;
    Lookup(H, n, shift, key);
  }

  // ---------------------------------------------------------------------------
  // The rebuilt node
  // ---------------------------------------------------------------------------

  /** When `key` already maps to `val`, `n` itself is the result. */
  lemma Keep<K, V>(H: K -> bv32, n: Node<K, V>, shift: nat, key: K, val: V)
    requires Valid(H, n, shift) && !n.Leaf? && key in Contents(n) && Contents(n)[key] == val
    ensures Inserts(H, n, shift, key, val, Inserted(n, false))
  {
    assert Contents(n)[key := val] == Contents(n);
    if n.IndexNode? && |n.kids| == 0 {
      PopCountZero(n.bitmap);
      EmptyValid<K, V>(H, shift);
    }
  }

  /** The array node with the key's slot set to `x`. */
  lemma ArraySlot<K, V>(H: K -> bv32, n: Node<K, V>, shift: nat, key: K, val: V, x: Node<K, V>, size': nat, added: bool)
    requires Valid(H, n, shift) && n.ArrayNode?
    requires Valid(H, x, shift + Shift) && Populated(x)
    requires Contents(x) == OptContents(Child(n, Chunk(H(key), shift)))[key := val]
    requires size' == n.size + (if Child(n, Chunk(H(key), shift)).None? then 1 else 0)
    requires added <==> key !in Contents(n)
    requires !(key in Contents(n) && Contents(n)[key] == val)
    ensures Mask(H(key), shift) < |n.slots|
    ensures Inserts(H, n, shift, key, val,
      Inserted(ArrayNode(size', CloneAndSet(n.slots, Mask(H(key), shift), Some(x))), added))
  {
    var c := Chunk(H(key), shift);
    SlotFits(H, n, shift, key, val, x);
    ArrayEdit(H, n, shift, c, Some(x), size');
    var n' := ArrayNode(size', CloneAndSet(n.slots, c as int, Some(x)));
    ChildMapChild(n, c);
    ChildMapChild(n', c);
    SetChild(H, n, n', shift, key, val);
  }

  /** The index node with the kid of the key's set bit replaced by `x`. */
  lemma IndexSlot<K, V>(H: K -> bv32, n: Node<K, V>, shift: nat, key: K, val: V, x: Node<K, V>, added: bool)
    requires Valid(H, n, shift) && n.IndexNode? && Bit(n.bitmap, Chunk(H(key), shift))
    requires Index(n.bitmap, Bitpos(H(key), shift)) == Rank(n.bitmap, Chunk(H(key), shift))
    requires Valid(H, x, shift + Shift) && Populated(x)
    requires Contents(x) == OptContents(Child(n, Chunk(H(key), shift)))[key := val]
    requires added <==> key !in Contents(n)
    requires !(key in Contents(n) && Contents(n)[key] == val)
    ensures Index(n.bitmap, Bitpos(H(key), shift)) < |n.kids|
    ensures Inserts(H, n, shift, key, val,
      Inserted(IndexNode(n.bitmap, CloneAndSet(n.kids, Index(n.bitmap, Bitpos(H(key), shift)), x)), added))
  {
    var c := Chunk(H(key), shift);
    SlotFits(H, n, shift, key, val, x);
    IndexEdit(H, n, shift, c, x);
    var n' := IndexNode(n.bitmap, CloneAndSet(n.kids, Rank(n.bitmap, c), x));
    ChildMapChild(n, c);
    ChildMapChild(n', c);
    SetChild(H, n, n', shift, key, val);
  }

  /** A leaf spliced in at the key's clear bit of an index node with room left. */
  lemma IndexFresh<K, V>(H: K -> bv32, n: Node<K, V>, shift: nat, key: K, val: V)
    requires Valid(H, n, shift) && n.IndexNode? && !Bit(n.bitmap, Chunk(H(key), shift))
    requires Index(n.bitmap, Bitpos(H(key), shift)) == Rank(n.bitmap, Chunk(H(key), shift))
    requires |n.kids| < MaxIndexNode
    ensures Index(n.bitmap, Bitpos(H(key), shift)) <= |n.kids|
    ensures Inserts(H, n, shift, key, val,
      Inserted(IndexNode(n.bitmap | Bitpos(H(key), shift),
        SpliceIn(n.kids, Index(n.bitmap, Bitpos(H(key), shift)), Leaf(Entry(key, val)))), true))
  {
    var c := Chunk(H(key), shift);
    var x := Leaf(Entry(key, val));
    IndexChild(n, c);
    FreshFacts(H, n, shift, key, val);
    SlotFits(H, n, shift, key, val, x);
    IndexAdd(H, n, shift, c, x);
    var n' := IndexNode(n.bitmap | Pos(c), SpliceIn(n.kids, Rank(n.bitmap, c), x));
    ChildMapChild(n, c);
    ChildMapChild(n', c);
    SetChild(H, n, n', shift, key, val);
  }

  /** A full index node promoted to an array node, the key's slot holding `sub.node`. */
  lemma IndexGrow<K, V>(H: K -> bv32, n: Node<K, V>, shift: nat, key: K, val: V, sub: Inserted<K, V>)
    requires Valid(H, n, shift) && n.IndexNode? && !Bit(n.bitmap, Chunk(H(key), shift))
    requires |n.kids| >= MaxIndexNode && shift + Shift < 32
    requires Inserts(H, EmptyNode(), shift + Shift, key, val, sub)
    ensures Mask(H(key), shift) < 32
    ensures Inserts(H, n, shift, key, val,
      Inserted(ArrayNode(|n.kids| + 1, CloneAndSet(Spread(n, 32), Mask(H(key), shift), Some(sub.node))), sub.addedLeaf))
  {
    var c := Chunk(H(key), shift);
    EmptyValid<K, V>(H, shift + Shift);
    IndexChild(n, c);
    FreshFacts(H, n, shift, key, val);
    SlotFits(H, n, shift, key, val, sub.node);
    Promote(H, n, shift, c, sub.node);
    var n' := ArrayNode(|n.kids| + 1, CloneAndSet(Spread(n, 32), c as int, Some(sub.node)));
    ChildMapChild(n, c);
    ChildMapChild(n', c);
    SetChild(H, n, n', shift, key, val);
  }

  /** EMPTY one level down is a valid node on every probe path. */
  lemma EmptyBelow<K, V>(H: K -> bv32, shift: nat, hash: bv32)
    requires shift % Shift == 0 && shift + Shift < 32
    ensures (shift + Shift) % Shift == 0
    ensures Valid(H, EmptyNode<K, V>(), shift + Shift) && OnPath(H, EmptyNode<K, V>(), hash, shift + Shift)
  {
    EmptyValid<K, V>(H, shift + Shift);
  }

  /** The new child of the key's chunk fits there. */
  lemma SlotFits<K, V>(H: K -> bv32, n: Node<K, V>, shift: nat, key: K, val: V, x: Node<K, V>)
    requires Valid(H, n, shift) && IsBranch(n)
    requires Valid(H, x, shift + Shift) && Populated(x)
    requires Contents(x) == OptContents(Child(n, Chunk(H(key), shift)))[key := val]
    ensures Fits(H, Some(x), shift, Chunk(H(key), shift))
  {
    ChildMapChild(n, Chunk(H(key), shift));
  }

  // ---------------------------------------------------------------------------
  // Collision nodes
  // ---------------------------------------------------------------------------

  /** Two entries with equal hashes and distinct keys. */
  lemma CollisionPair<K, V>(H: K -> bv32, shift: nat, k1: K, v1: V, k2: K, v2: V)
    requires k1 != k2 && H(k1) == H(k2)
    ensures Valid(H, CollisionNode(H(k1), [Entry(k1, v1), Entry(k2, v2)]), shift)
    ensures Contents(CollisionNode(H(k1), [Entry(k1, v1), Entry(k2, v2)])) == map[k1 := v1, k2 := v2]
  {
    var es := [Entry(k1, v1), Entry(k2, v2)];
    assert es[..1] == [Entry(k1, v1)];
    assert es[..1][..0] == [];
    assert EntriesMap(es[..1]) == map[k1 := v1];
    assert EntriesMap(es) == map[k1 := v1, k2 := v2];
  }

  /** The entry of the key given the new value with `cloneAndSet`. */
  lemma CollisionSet<K, V>(H: K -> bv32, n: Node<K, V>, shift: nat, key: K, val: V)
    requires Valid(H, n, shift) && n.CollisionNode? && H(key) == n.hash
    requires IndexOf(n.entries, key) != -1 && n.entries[IndexOf(n.entries, key)].val != val
    ensures Inserts(H, n, shift, key, val,
      Inserted(CollisionNode(H(key), CloneAndSet(n.entries, IndexOf(n.entries, key), Entry(key, val))), false))
  {
    var es := n.entries;
    var i := IndexOf(es, key);
    var es' := CloneAndSet(es, i, Entry(key, val));
    assert es' == es[i := Entry(es[i].key, val)];
    EntriesLookup(es, key);
    EntriesSet(es, i, val);
    assert DistinctKeys(es') by {
      forall a, b | 0 <= a < b < |es'|
        ensures es'[a].key != es'[b].key
      {
        assert es'[a].key == es[a].key && es'[b].key == es[b].key;
      }
    }
  }

  /** A new entry appended with `cloneAndSet` at the length. */
  lemma CollisionAppend<K, V>(H: K -> bv32, n: Node<K, V>, shift: nat, key: K, val: V)
    requires Valid(H, n, shift) && n.CollisionNode? && H(key) == n.hash && IndexOf(n.entries, key) == -1
    ensures Inserts(H, n, shift, key, val,
      Inserted(CollisionNode(H(key), CloneAndSet(n.entries, |n.entries|, Entry(key, val))), true))
  {
    var es := n.entries;
    var es' := CloneAndSet(es, |es|, Entry(key, val));
    assert es' == es + [Entry(key, val)];
    EntriesLookup(es, key);
    EntriesAppend(es, Entry(key, val));
  }

  /** A collision node under an index node of its own, at a depth where another hash
      still agrees with it. */
  lemma Wrap<K, V>(H: K -> bv32, n: Node<K, V>, shift: nat, key: K)
    requires Valid(H, n, shift) && n.CollisionNode? && shift % Shift == 0 && OnPath(H, n, H(key), shift)
    requires H(key) != n.hash
    ensures key !in Contents(n)
    ensures Valid(H, IndexNode(Bitpos(n.hash, shift), [n]), shift)
    ensures Contents(IndexNode(Bitpos(n.hash, shift), [n])) == Contents(n)
    ensures OnPath(H, IndexNode(Bitpos(n.hash, shift), [n]), H(key), shift)
  {
    EntriesKeys(n.entries, key);
    EntriesMapHas(n.entries, 0);
    AgreeDistinct(n.hash, H(key), shift);
    WrapValid(H, n, shift);
  }

  /** At a depth with chunks left, the index node with the collision node as its only kid. */
  lemma WrapValid<K, V>(H: K -> bv32, n: Node<K, V>, shift: nat)
    requires Valid(H, n, shift) && n.CollisionNode? && shift < 32
    ensures Valid(H, IndexNode(Bitpos(n.hash, shift), [n]), shift)
    ensures Contents(IndexNode(Bitpos(n.hash, shift), [n])) == Contents(n)
  {
    var c := Chunk(n.hash, shift);
    EmptyValid<K, V>(H, shift);
    BitZero(c);
    RankZero(c);
    WrapFits(H, n, shift);
    IndexAdd(H, EmptyNode(), shift, c, n);
    assert IndexNode(0 | Pos(c), SpliceIn([], Rank(0, c), n)) == IndexNode(Bitpos(n.hash, shift), [n]);
    OnlyChild(H, IndexNode(Bitpos(n.hash, shift), [n]), shift, c, n);
  }

  /** A branch node whose only child is `x` has the map of `x`. */
  lemma OnlyChild<K, V>(H: K -> bv32, w: Node<K, V>, shift: nat, c: bv32, x: Node<K, V>)
    requires IsBranch(w) && Placed(H, w, shift) && shift < 32 && c < 32
    requires Edited(EmptyNode(), w, c, Some(x))
    ensures Contents(w) == Contents(x)
  {
    EmptyValid<K, V>(H, shift);
    ReplaceChild(H, EmptyNode(), w, shift, c);
    ChildMapChild(w, c);
    assert (map[] - ChildMap(EmptyNode<K, V>(), c).Keys) + ChildMap(w, c) == Contents(x);
  }

  /** A collision node fits under the chunk of its hash. */
  lemma WrapFits<K, V>(H: K -> bv32, n: Node<K, V>, shift: nat)
    requires Valid(H, n, shift) && n.CollisionNode?
    ensures Fits(H, Some(n), shift, Chunk(n.hash, shift))
  {
    forall k | k in Contents(n)
      ensures Chunk(H(k), shift) == Chunk(n.hash, shift)
    {
      EntriesKeys(n.entries, k);
    }
  }

  /** A node holding one key that agrees with `hash` lies on the path of `hash`. */
  lemma OnPathOne<K, V>(H: K -> bv32, n: Node<K, V>, shift: nat, k: K, v: V, hash: bv32)
    requires Contents(n) == map[][k := v] && Agree(H(k), hash, shift)
    ensures OnPath(H, n, hash, shift)
  {
  }
}

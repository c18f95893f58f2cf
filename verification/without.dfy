/**
 * Removal: `without`, its three cases and the demotion of a thinned array
 * node. Removing `key` below a valid node gives either nothing, exactly when
 * `key` was the node's only key, or a valid node standing for the old map
 * without `key`; when `key` is absent the very same node comes back.
 *
 * The source passes the key's hash along; here it is always `H(key)`.
 */
module Without {
  import opened Wrappers
  import opened Bits
  import opened Arrays
  import opened Nodes
  import opened Layout
  import opened Collision
  import opened Edits
  import opened Find

  /** `r` is what removing `key` in place of `x` at depth `shift` must give: nothing
      exactly when `key` was the only key, else a valid node without `key`, populated
      unless it is `x` itself, and `x` itself when `key` is absent. */
  ghost predicate Drops<K, V>(H: K -> bv32, x: Node<K, V>, shift: nat, key: K, r: Option<Node<K, V>>)
  {
    && (r.None? <==> Contents(x).Keys == {key})
    && (key !in Contents(x) ==> r == Some(x))
    && (r.Some? ==> Valid(H, r.value, shift) && Contents(r.value) == Contents(x) - {key})
    && (r.Some? && key in Contents(x) ==> Populated(r.value))
  }

  /** `r` is what removing `key` from the branch or collision node `n` must give. */
  ghost predicate Removes<K, V>(H: K -> bv32, n: Node<K, V>, shift: nat, key: K, r: Option<Node<K, V>>)
  {
    Drops(H, n, shift, key, r) && (r.Some? ==> !r.value.Leaf?)
  }

  // ---------------------------------------------------------------------------
  // The operations
  // ---------------------------------------------------------------------------

  /** `without(root, shift, hash, key)`: dispatch on the node kind. */
  function Without<K(==), V(==)>(H: K -> bv32, n: Node<K, V>, shift: nat, key: K): (r: Option<Node<K, V>>)
    requires Valid(H, n, shift) && !n.Leaf?
    ensures Removes(H, n, shift, key, r)
    decreases Depth(shift), 2
  {
    match n
    case ArrayNode(_, _) => WithoutArray(H, n, shift, key)
    case IndexNode(_, _) => WithoutIndex(H, n, shift, key)
    case CollisionNode(_, _) => WithoutCollision(H, n, shift, key)
  }

  /** `withoutArray`: an empty slot or an unchanged child gives back `n`; a changed child
      is set in its slot; a removed child empties its slot, and at `MIN_ARRAY_NODE`
      occupied slots the rest are packed into an index node. */
  function WithoutArray<K(==), V(==)>(H: K -> bv32, n: Node<K, V>, shift: nat, key: K): (r: Option<Node<K, V>>)
    requires Valid(H, n, shift) && n.ArrayNode?
    ensures Removes(H, n, shift, key, r)
    decreases Depth(shift), 1
  {
    ArrayProbe(H, n, shift, key);
    match n.slots[Mask(H(key), shift)]
    case None =>
      Absent(H, n, shift, key);
      Some(n)
    case Some(node) =>
      var sub := WithoutChild(H, node, shift + Shift, key);
      if sub == Some(node) then
        DropKeep(H, n, shift, key, sub);
        Some(n)
      else if sub.Some? then
        ArrayReplace(H, n, shift, key, sub);
        Some(ArrayNode(n.size, CloneAndSet(n.slots, Mask(H(key), shift), sub)))
      else if n.size <= MinArrayNode then
        ArrayDemote(H, n, shift, key);
        Some(Pack(n.slots, Chunk(H(key), shift), 32))
      else
        ArrayShrink(H, n, shift, key);
        Some(ArrayNode(n.size - 1, CloneAndSet(n.slots, Mask(H(key), shift), None)))
  }

  /** `withoutIndex`: a clear bit or an unchanged kid gives back `n`; a changed kid is set
      in its place; a removed kid is spliced out with its bit, and the last one leaves
      nothing. */
  function WithoutIndex<K(==), V(==)>(H: K -> bv32, n: Node<K, V>, shift: nat, key: K): (r: Option<Node<K, V>>)
    requires Valid(H, n, shift) && n.IndexNode?
    ensures Removes(H, n, shift, key, r)
    decreases Depth(shift), 1
  {
    if n.bitmap & Bitpos(H(key), shift) == 0 then
      IndexAbsent(H, n, shift, key);
      Some(n)
    else
      IndexSelect(H, n, shift, key);
      var node := n.kids[Index(n.bitmap, Bitpos(H(key), shift))];
      var sub := WithoutChild(H, node, shift + Shift, key);
      if sub == Some(node) then
        DropKeep(H, n, shift, key, sub);
        Some(n)
      else if sub.Some? then
        IndexReplace(H, n, shift, key, sub.value);
        Some(IndexNode(n.bitmap, CloneAndSet(n.kids, Index(n.bitmap, Bitpos(H(key), shift)), sub.value)))
      else if n.bitmap == Bitpos(H(key), shift) then
        IndexLast(H, n, shift, key);
        None
      else
        IndexPrune(H, n, shift, key);
        Some(IndexNode(n.bitmap ^ Bitpos(H(key), shift), SpliceOut(n.kids, Index(n.bitmap, Bitpos(H(key), shift)))))
  }

  /** The step `withoutArray` and `withoutIndex` share for the node at the key's chunk,
      one level down: a leaf of the key goes, a leaf of another key stays, and a branch
      or collision node loses the key. An unchanged node comes back as itself. */
  function WithoutChild<K(==), V(==)>(H: K -> bv32, node: Node<K, V>, shift: nat, key: K): (r: Option<Node<K, V>>)
    requires Valid(H, node, shift) && Populated(node)
    ensures Drops(H, node, shift, key, r)
    ensures r.Some? ==> Populated(r.value)
    decreases Depth(shift), 3
  {
    match node
    case Leaf(e) =>
      if key == e.key then None else Some(node)
    case _ => Without(H, node, shift, key)
  }

  /** `withoutCollision`: the entry `collisionIndexOf` finds is spliced out, and the last
      one leaves nothing. */
  function WithoutCollision<K(==), V(==)>(H: K -> bv32, n: Node<K, V>, shift: nat, key: K): (r: Option<Node<K, V>>)
    requires Valid(H, n, shift) && n.CollisionNode?
    ensures Removes(H, n, shift, key, r)
    decreases Depth(shift), 0
  {
    EntriesLookup(n.entries, key);
    if IndexOf(n.entries, key) < 0 then
      Some(n)
    else if |n.entries| == 1 then
      CollisionLast(H, n, shift, key);
      None
    else
      CollisionDrop(H, n, shift, key);
      Some(CollisionNode(n.hash, SpliceOut(n.entries, IndexOf(n.entries, key))))
  }

  // ---------------------------------------------------------------------------
  // What the key's chunk selects
  // ---------------------------------------------------------------------------

  /** Nothing at the key's chunk: the key is not below `n`. */
  lemma Absent<K, V>(H: K -> bv32, n: Node<K, V>, shift: nat, key: K)
    requires Valid(H, n, shift) && IsBranch(n) && Child(n, Chunk(H(key), shift)).None?
    ensures key !in Contents(n)
  {
    Lookup(H, n, shift, key);
  }

  /** An unchanged child after removing below it: the key was not there. */
  lemma DropKeep<K, V>(H: K -> bv32, n: Node<K, V>, shift: nat, key: K, sub: Option<Node<K, V>>)
    requires Valid(H, n, shift) && IsBranch(n) && Child(n, Chunk(H(key), shift)).Some?
    requires Drops(H, Child(n, Chunk(H(key), shift)).value, shift + Shift, key, sub)
    requires sub == Child(n, Chunk(H(key), shift))
    ensures key !in Contents(n)
  {
    Lookup(H, n, shift, key);
  }

  /** A changed child: the key was below it, and the new child fits the key's chunk. */
  lemma DropFits<K, V>(H: K -> bv32, n: Node<K, V>, shift: nat, key: K, sub: Option<Node<K, V>>)
    requires Valid(H, n, shift) && IsBranch(n) && Child(n, Chunk(H(key), shift)).Some?
    requires Drops(H, Child(n, Chunk(H(key), shift)).value, shift + Shift, key, sub)
    requires sub != Child(n, Chunk(H(key), shift))
    ensures key in Contents(n)
    ensures Fits(H, sub, shift, Chunk(H(key), shift))
    ensures ChildMap(n, Chunk(H(key), shift)) - {key} == OptContents(sub)
  {
    var c := Chunk(H(key), shift);
    ChildValid(H, n, shift, c);
    ChildMapChild(n, c);
    Lookup(H, n, shift, key);
    Within(H, n, shift, c, OptContents(sub));
    if sub.None? {
      assert ChildMap(n, c) - {key} == map[];
    }
  }

  /** Keys taken from the child of chunk `c` have chunk `c`. */
  lemma Within<K, V>(H: K -> bv32, n: Node<K, V>, shift: nat, c: bv32, m: map<K, V>)
    requires IsBranch(n) && Placed(H, n, shift) && c < 32 && Child(n, c).Some?
    requires m.Keys <= Contents(Child(n, c).value).Keys
    ensures forall k :: k in m ==> Chunk(H(k), shift) == c
  {
    ChildMapChild(n, c);
  }

  /** A branch node that keeps a valid populated node with `key` gone held another key. */
  lemma Others<K, V>(H: K -> bv32, n: Node<K, V>, n': Node<K, V>, shift: nat, key: K)
    requires Valid(H, n', shift) && Populated(n') && Contents(n') == Contents(n) - {key}
    ensures Contents(n).Keys != {key}
  {
    ValidNonEmpty(H, n', shift);
    var k :| k in Contents(n');
    assert k in Contents(n).Keys && k != key;
  }

  // ---------------------------------------------------------------------------
  // The rebuilt node
  // ---------------------------------------------------------------------------

  /** The array node with the key's slot set to the changed child. */
  lemma ArrayReplace<K, V>(H: K -> bv32, n: Node<K, V>, shift: nat, key: K, sub: Option<Node<K, V>>)
    requires Valid(H, n, shift) && n.ArrayNode? && Child(n, Chunk(H(key), shift)).Some?
    requires Drops(H, Child(n, Chunk(H(key), shift)).value, shift + Shift, key, sub)
    requires sub != Child(n, Chunk(H(key), shift)) && sub.Some?
    ensures Mask(H(key), shift) < |n.slots|
    ensures Removes(H, n, shift, key, Some(ArrayNode(n.size, CloneAndSet(n.slots, Mask(H(key), shift), sub))))
  {
    var c := Chunk(H(key), shift);
    DropFits(H, n, shift, key, sub);
    ArrayEdit(H, n, shift, c, sub, n.size);
    var n' := ArrayNode(n.size, CloneAndSet(n.slots, c as int, sub));
    ChildMapChild(n', c);
    RemoveChild(H, n, n', shift, key);
    Others(H, n, n', shift, key);
  }

  /** The array node with the key's slot emptied, above `MIN_ARRAY_NODE` occupied slots. */
  lemma ArrayShrink<K, V>(H: K -> bv32, n: Node<K, V>, shift: nat, key: K)
    requires Valid(H, n, shift) && n.ArrayNode? && Child(n, Chunk(H(key), shift)).Some?
    requires Drops(H, Child(n, Chunk(H(key), shift)).value, shift + Shift, key, None)
    requires n.size > MinArrayNode
    ensures Mask(H(key), shift) < |n.slots|
    ensures Removes(H, n, shift, key, Some(ArrayNode(n.size - 1, CloneAndSet(n.slots, Mask(H(key), shift), None))))
  {
    var c := Chunk(H(key), shift);
    DropFits(H, n, shift, key, None);
    ArrayEdit(H, n, shift, c, None, n.size - 1);
    var n' := ArrayNode(n.size - 1, CloneAndSet(n.slots, c as int, None));
    ChildMapChild(n', c);
    RemoveChild(H, n, n', shift, key);
    Others(H, n, n', shift, key);
  }

  /** The array node at `MIN_ARRAY_NODE` occupied slots packed, without the key's slot,
      into an index node. */
  lemma ArrayDemote<K, V>(H: K -> bv32, n: Node<K, V>, shift: nat, key: K)
    requires Valid(H, n, shift) && n.ArrayNode? && Child(n, Chunk(H(key), shift)).Some?
    requires Drops(H, Child(n, Chunk(H(key), shift)).value, shift + Shift, key, None)
    requires n.size <= MinArrayNode
    ensures Removes(H, n, shift, key, Some(Pack(n.slots, Chunk(H(key), shift), 32)))
  {
    var c := Chunk(H(key), shift);
    var n' := Pack(n.slots, c, 32);
    DropFits(H, n, shift, key, None);
    Demote(H, n, shift, c);
    PackEdited(n.size, n.slots, c);
    ChildMapChild(n', c);
    RemoveChild(H, n, n', shift, key);
    Others(H, n, n', shift, key);
  }

  /** The index node with the kid of the key's set bit replaced by the changed kid. */
  lemma IndexReplace<K, V>(H: K -> bv32, n: Node<K, V>, shift: nat, key: K, x: Node<K, V>)
    requires Valid(H, n, shift) && n.IndexNode? && Bit(n.bitmap, Chunk(H(key), shift))
    requires Index(n.bitmap, Bitpos(H(key), shift)) == Rank(n.bitmap, Chunk(H(key), shift))
    requires Child(n, Chunk(H(key), shift)).Some?
    requires Drops(H, Child(n, Chunk(H(key), shift)).value, shift + Shift, key, Some(x))
    requires Some(x) != Child(n, Chunk(H(key), shift))
    ensures Index(n.bitmap, Bitpos(H(key), shift)) < |n.kids|
    ensures Removes(H, n, shift, key,
      Some(IndexNode(n.bitmap, CloneAndSet(n.kids, Index(n.bitmap, Bitpos(H(key), shift)), x))))
  {
    var c := Chunk(H(key), shift);
    DropFits(H, n, shift, key, Some(x));
    IndexEdit(H, n, shift, c, x);
    var n' := IndexNode(n.bitmap, CloneAndSet(n.kids, Rank(n.bitmap, c), x));
    ChildMapChild(n', c);
    RemoveChild(H, n, n', shift, key);
    Others(H, n, n', shift, key);
  }

  /** The index node with the removed kid spliced out and its bit cleared with `^`. */
  lemma IndexPrune<K, V>(H: K -> bv32, n: Node<K, V>, shift: nat, key: K)
    requires Valid(H, n, shift) && n.IndexNode? && Bit(n.bitmap, Chunk(H(key), shift))
    requires Index(n.bitmap, Bitpos(H(key), shift)) == Rank(n.bitmap, Chunk(H(key), shift))
    requires Child(n, Chunk(H(key), shift)).Some?
    requires Drops(H, Child(n, Chunk(H(key), shift)).value, shift + Shift, key, None)
    requires n.bitmap != Bitpos(H(key), shift)
    ensures Index(n.bitmap, Bitpos(H(key), shift)) < |n.kids|
    ensures Removes(H, n, shift, key,
      Some(IndexNode(n.bitmap ^ Bitpos(H(key), shift), SpliceOut(n.kids, Index(n.bitmap, Bitpos(H(key), shift))))))
  {
    var c := Chunk(H(key), shift);
    PruneKid(H, n, shift, key, c);
    Others(H, n, IndexNode(n.bitmap ^ Pos(c), SpliceOut(n.kids, Rank(n.bitmap, c))), shift, key);
  }

  /** The spliced index node, with the chunk `c` of the key as a parameter. */
  lemma PruneKid<K, V>(H: K -> bv32, n: Node<K, V>, shift: nat, key: K, c: bv32)
    requires Valid(H, n, shift) && n.IndexNode? && c == Chunk(H(key), shift) && Bit(n.bitmap, c)
    requires Child(n, c).Some? && Drops(H, Child(n, c).value, shift + Shift, key, None)
    requires n.bitmap != Pos(c)
    ensures Rank(n.bitmap, c) < |n.kids| && key in Contents(n)
    ensures Valid(H, IndexNode(n.bitmap ^ Pos(c), SpliceOut(n.kids, Rank(n.bitmap, c))), shift)
    ensures Populated(IndexNode(n.bitmap ^ Pos(c), SpliceOut(n.kids, Rank(n.bitmap, c))))
    ensures Contents(IndexNode(n.bitmap ^ Pos(c), SpliceOut(n.kids, Rank(n.bitmap, c)))) == Contents(n) - {key}
  {
    DropFits(H, n, shift, key, None);
    IndexDrop(H, n, shift, c);
    var n' := IndexNode(n.bitmap ^ Pos(c), SpliceOut(n.kids, Rank(n.bitmap, c)));
    Remaining(n.bitmap, c);
    ChildMapChild(n', c);
    RemoveChild(H, n, n', shift, key);
  }

  /** Clearing a bit other than the only one leaves a bit set. */
  lemma Remaining(b: bv32, c: bv32)
    requires c < 32 && b != Pos(c)
    ensures PopCount(b ^ Pos(c)) > 0
  {
    XorLast(b, c);
    PopCountZero(b ^ Pos(c));
  }

  /** The removed kid was the only one: the key was the node's only key. */
  lemma IndexLast<K, V>(H: K -> bv32, n: Node<K, V>, shift: nat, key: K)
    requires Valid(H, n, shift) && n.IndexNode? && Bit(n.bitmap, Chunk(H(key), shift))
    requires Child(n, Chunk(H(key), shift)).Some?
    requires Drops(H, Child(n, Chunk(H(key), shift)).value, shift + Shift, key, None)
    requires n.bitmap == Bitpos(H(key), shift)
    ensures Contents(n).Keys == {key}
  {
    var c := Chunk(H(key), shift);
    DropFits(H, n, shift, key, None);
    IndexDrop(H, n, shift, c);
    var n' := IndexNode(n.bitmap ^ Pos(c), SpliceOut(n.kids, Rank(n.bitmap, c)));
    XorLast(n.bitmap, c);
    EmptyValid<K, V>(H, shift);
    assert n' == EmptyNode();
    ChildMapChild(n', c);
    RemoveChild(H, n, n', shift, key);
    assert Contents(n) - {key} == map[];
  }

  // ---------------------------------------------------------------------------
  // Collision nodes
  // ---------------------------------------------------------------------------

  /** The key's entry was the only one. */
  lemma CollisionLast<K, V>(H: K -> bv32, n: Node<K, V>, shift: nat, key: K)
    requires Valid(H, n, shift) && n.CollisionNode? && |n.entries| == 1 && IndexOf(n.entries, key) >= 0
    ensures Contents(n).Keys == {key}
  {
    var e := n.entries[0];
    assert n.entries[..0] == [];
    assert Contents(n) == EntriesMap(n.entries) == EntriesMap(n.entries[..0])[e.key := e.val];
    assert e.key == key;
  }

  /** The key's entry spliced out of a collision node with others left. */
  lemma CollisionDrop<K, V>(H: K -> bv32, n: Node<K, V>, shift: nat, key: K)
    requires Valid(H, n, shift) && n.CollisionNode? && |n.entries| > 1 && IndexOf(n.entries, key) >= 0
    ensures Removes(H, n, shift, key, Some(CollisionNode(n.hash, SpliceOut(n.entries, IndexOf(n.entries, key)))))
  {
    var es := n.entries;
    var i := IndexOf(es, key);
    var es' := SpliceOut(es, i);
    EntriesRemove(es, i);
    EntriesLookup(es, key);
    EntriesMapHas(es', 0);
    forall j | 0 <= j < |es'|
      ensures H(es'[j].key) == n.hash
    {
      if j >= i {
        assert es'[j] == es[j + 1];
      }
    }
    assert es'[0].key in Contents(n).Keys - {key};
  }
}

/**
 * Rebuilding a branch node with one child changed keeps the trie invariant:
 * the five ways `assoc` and `without` rebuild a node (set a slot of an array
 * node, replace, add or drop a kid of an index node, promote an index node
 * to an array node, demote an array node to an index node) each produce a
 * valid node whose children are those of the old one except at one chunk.
 */
module Edits {
  import opened Wrappers
  import opened Bits
  import opened Arrays
  import opened Nodes
  import opened Layout

  /** The new child of chunk `c`, if any, is valid and populated one level down. */
  ghost predicate Fits<K, V>(H: K -> bv32, x: Option<Node<K, V>>, shift: nat, c: bv32)
  {
    && (x.Some? ==> Valid(H, x.value, shift + Shift) && Populated(x.value))
    && forall k :: k in OptContents(x) ==> Chunk(H(k), shift) == c
  }

  /** Changing one child keeps every key under the child its chunk selects. */
  lemma EditPlaced<K, V>(H: K -> bv32, n: Node<K, V>, n': Node<K, V>, shift: nat, c: bv32, x: Option<Node<K, V>>)
    requires Placed(H, n, shift) && c < 32 && Edited(n, n', c, x)
    requires forall k :: k in OptContents(x) ==> Chunk(H(k), shift) == c
    ensures Placed(H, n', shift)
  {
    forall d: bv32 | d < 32 && d != c
      ensures ChildMap(n', d) == ChildMap(n, d)
    {
      ChildMapChild(n, d);
      ChildMapChild(n', d);
    }
    ChildMapChild(n', c);
    PlacedReplace(H, n, n', shift, c);
  }

  /** `cloneAndSet` on the slots of an array node, with the size moved by what left and what came. */
  lemma ArrayEdit<K, V>(H: K -> bv32, n: Node<K, V>, shift: nat, c: bv32, x: Option<Node<K, V>>, size': nat)
    requires Valid(H, n, shift) && n.ArrayNode? && c < 32 && Fits(H, x, shift, c)
    requires size' + (if Child(n, c).Some? then 1 else 0) == n.size + (if x.Some? then 1 else 0)
    requires MinArrayNode <= size'
    ensures |CloneAndSet(n.slots, c as int, x)| == BucketSize
    ensures Valid(H, ArrayNode(size', CloneAndSet(n.slots, c as int, x)), shift)
    ensures Edited(n, ArrayNode(size', CloneAndSet(n.slots, c as int, x)), c, x)
  {
    var slots' := CloneAndSet(n.slots, c as int, x);
    SmallInt(c);
    ArraySet(n.size, n.slots, c, x, size');
    EditPlaced(H, n, ArrayNode(size', slots'), shift, c, x);
    forall i | 0 <= i < |slots'| && slots'[i].Some?
      ensures Valid(H, slots'[i].value, shift + Shift) && Populated(slots'[i].value)
    {
      if i != c as int {
        assert slots'[i] == n.slots[i];
      }
    }
  }

  /** `cloneAndSet` on the kids of an index node, at the rank of a set bit. */
  lemma IndexEdit<K, V>(H: K -> bv32, n: Node<K, V>, shift: nat, c: bv32, x: Node<K, V>)
    requires Valid(H, n, shift) && n.IndexNode? && c < 32 && Bit(n.bitmap, c) && Fits(H, Some(x), shift, c)
    ensures Rank(n.bitmap, c) < |n.kids|
    ensures Valid(H, IndexNode(n.bitmap, CloneAndSet(n.kids, Rank(n.bitmap, c), x)), shift)
    ensures Edited(n, IndexNode(n.bitmap, CloneAndSet(n.kids, Rank(n.bitmap, c), x)), c, Some(x))
  {
    RankBelowPopCount(n.bitmap, c);
    var kids' := CloneAndSet(n.kids, Rank(n.bitmap, c), x);
    IndexSet(n.bitmap, n.kids, c, x);
    EditPlaced(H, n, IndexNode(n.bitmap, kids'), shift, c, Some(x));
    forall i | 0 <= i < |kids'|
      ensures Valid(H, kids'[i], shift + Shift) && Populated(kids'[i])
    {
      if i != Rank(n.bitmap, c) {
        assert kids'[i] == n.kids[i];
      }
    }
  }

  /** `spliceIn` on the kids of an index node with room left, at the rank of a clear bit. */
  lemma IndexAdd<K, V>(H: K -> bv32, n: Node<K, V>, shift: nat, c: bv32, x: Node<K, V>)
    requires Valid(H, n, shift) && n.IndexNode? && c < 32 && !Bit(n.bitmap, c) && Fits(H, Some(x), shift, c)
    requires |n.kids| < MaxIndexNode
    ensures Rank(n.bitmap, c) <= |n.kids|
    ensures Valid(H, IndexNode(n.bitmap | Pos(c), SpliceIn(n.kids, Rank(n.bitmap, c), x)), shift)
    ensures Edited(n, IndexNode(n.bitmap | Pos(c), SpliceIn(n.kids, Rank(n.bitmap, c), x)), c, Some(x))
  {
    RankMonotone(n.bitmap, c, 32);
    var n' := IndexNode(n.bitmap | Pos(c), SpliceIn(n.kids, Rank(n.bitmap, c), x));
    IndexInsert(n.bitmap, n.kids, c, x);
    EditPlaced(H, n, n', shift, c, Some(x));
    forall i | 0 <= i < |n'.kids|
      ensures Valid(H, n'.kids[i], shift + Shift) && Populated(n'.kids[i])
    {
      if i < Rank(n.bitmap, c) {
        assert n'.kids[i] == n.kids[i];
      } else if i > Rank(n.bitmap, c) {
        assert n'.kids[i] == n.kids[i - 1];
      }
    }
  }

  /** `spliceOut` on the kids of an index node and the bit cleared with `^`. */
  lemma IndexDrop<K, V>(H: K -> bv32, n: Node<K, V>, shift: nat, c: bv32)
    requires Valid(H, n, shift) && n.IndexNode? && c < 32 && Bit(n.bitmap, c)
    ensures Rank(n.bitmap, c) < |n.kids|
    ensures Valid(H, IndexNode(n.bitmap ^ Pos(c), SpliceOut(n.kids, Rank(n.bitmap, c))), shift)
    ensures Edited(n, IndexNode(n.bitmap ^ Pos(c), SpliceOut(n.kids, Rank(n.bitmap, c))), c, None)
  {
    RankBelowPopCount(n.bitmap, c);
    var n' := IndexNode(n.bitmap ^ Pos(c), SpliceOut(n.kids, Rank(n.bitmap, c)));
    IndexRemove(n.bitmap, n.kids, c);
    EditPlaced(H, n, n', shift, c, None);
    forall i | 0 <= i < |n'.kids|
      ensures Valid(H, n'.kids[i], shift + Shift) && Populated(n'.kids[i])
    {
      if i < Rank(n.bitmap, c) {
        assert n'.kids[i] == n.kids[i];
      } else {
        assert n'.kids[i] == n.kids[i + 1];
      }
    }
  }

  /** A full index node spread over 32 slots, with the clear chunk `c` then set. */
  lemma Promote<K, V>(H: K -> bv32, n: Node<K, V>, shift: nat, c: bv32, x: Node<K, V>)
    requires Valid(H, n, shift) && n.IndexNode? && c < 32 && !Bit(n.bitmap, c) && Fits(H, Some(x), shift, c)
    requires |n.kids| >= MaxIndexNode
    ensures |CloneAndSet(Spread(n, 32), c as int, Some(x))| == BucketSize
    ensures Valid(H, ArrayNode(|n.kids| + 1, CloneAndSet(Spread(n, 32), c as int, Some(x))), shift)
    ensures Edited(n, ArrayNode(|n.kids| + 1, CloneAndSet(Spread(n, 32), c as int, Some(x))), c, Some(x))
  {
    var slots' := CloneAndSet(Spread(n, 32), c as int, Some(x));
    var n' := ArrayNode(|n.kids| + 1, slots');
    SmallInt(c);
    SpreadEdited(n, |n.kids| + 1, c, Some(x));
    SpreadOccupied(n);
    IndexChild(n, c);
    EditPlaced(H, n, n', shift, c, Some(x));
    PromoteKids(H, n, shift, c, x);
  }

  /** The slots of the promoted node hold valid, populated children one level down. */
  lemma PromoteKids<K, V>(H: K -> bv32, n: Node<K, V>, shift: nat, c: bv32, x: Node<K, V>)
    requires Valid(H, n, shift) && n.IndexNode? && c < 32 && Fits(H, Some(x), shift, c)
    ensures var slots' := CloneAndSet(Spread(n, 32), c as int, Some(x));
      forall i | 0 <= i < |slots'| && slots'[i].Some? :: Valid(H, slots'[i].value, shift + Shift) && Populated(slots'[i].value)
  {
    var slots' := CloneAndSet(Spread(n, 32), c as int, Some(x));
    SmallInt(c);
    SpreadValid(H, n, shift, 32);
    forall i | 0 <= i < |slots'| && slots'[i].Some?
      ensures Valid(H, slots'[i].value, shift + Shift) && Populated(slots'[i].value)
    {
      if i != c as int {
        assert slots'[i] == Spread(n, 32)[i];
      }
    }
  }

  /** Every child the spread holds is valid and populated one level down. */
  lemma {:induction false} SpreadValid<K, V>(H: K -> bv32, n: Node<K, V>, shift: nat, c: bv32)
    requires Valid(H, n, shift) && IsBranch(n) && c <= 32
    ensures forall i :: 0 <= i < |Spread(n, c)| && Spread(n, c)[i].Some? ==>
      Valid(H, Spread(n, c)[i].value, shift + Shift) && Populated(Spread(n, c)[i].value)
    decreases c as int
  {
    if c > 0 {
      IntPred(c);
      SpreadValid(H, n, shift, c - 1);
      if Child(n, c - 1).Some? {
        ChildValid(H, n, shift, c - 1);
      }
    }
  }

  /** An array node at the minimum size packed, without chunk `c`, into an index node. */
  lemma Demote<K, V>(H: K -> bv32, n: Node<K, V>, shift: nat, c: bv32)
    requires Valid(H, n, shift) && n.ArrayNode? && c < 32 && Child(n, c).Some? && n.size <= MinArrayNode
    ensures Valid(H, Pack(n.slots, c, 32), shift)
    ensures Edited(n, Pack(n.slots, c, 32), c, None)
  {
    SmallInt(c);
    PackEdited(n.size, n.slots, c);
    EditPlaced(H, n, Pack(n.slots, c, 32), shift, c, None);
    PackValid(H, n.slots, c, 32, shift);
  }

  /** Every kid of a pack is a valid, populated child of the slots. */
  lemma {:induction false} PackValid<K, V>(H: K -> bv32, slots: seq<Option<Node<K, V>>>, skip: bv32, c: bv32, shift: nat)
    requires |slots| == BucketSize && c <= 32
    requires forall i :: 0 <= i < |slots| && slots[i].Some? ==> Valid(H, slots[i].value, shift + Shift) && Populated(slots[i].value)
    ensures forall i :: 0 <= i < |Pack(slots, skip, c).kids| ==>
      Valid(H, Pack(slots, skip, c).kids[i], shift + Shift) && Populated(Pack(slots, skip, c).kids[i])
    decreases c as int
  {
    if c > 0 {
      IntPred(c);
      SmallInt(c - 1);
      PackValid(H, slots, skip, c - 1, shift);
    }
  }

  // ---------------------------------------------------------------------------
  // The last level
  // ---------------------------------------------------------------------------

  /** An index node with more than four kids is not at depth 30: only chunks 0..3
      remain there, so promotion never needs a level below 30. */
  lemma Shallow<K, V>(H: K -> bv32, n: Node<K, V>, shift: nat)
    requires Valid(H, n, shift) && n.IndexNode? && shift % Shift == 0 && |n.kids| > 4
    ensures shift + Shift < 32
  {
    if shift + Shift >= 32 {
      forall c: bv32 | 4 <= c < 32
        ensures !BitsOf(n.bitmap)(c)
      {
        DeepClear(H, n, shift, c);
      }
      CountFlat(BitsOf(n.bitmap), 4, 32);
      RankAtMost(n.bitmap, 4);
    }
  }

  /** At depth 30 no key has a chunk of 4 or more, so those bits are clear. */
  lemma DeepClear<K, V>(H: K -> bv32, n: Node<K, V>, shift: nat, c: bv32)
    requires Valid(H, n, shift) && n.IndexNode? && shift == 30 && 4 <= c < 32
    ensures !Bit(n.bitmap, c)
  {
    if Bit(n.bitmap, c) {
      IndexChild(n, c);
      ChildValid(H, n, shift, c);
      ValidNonEmpty(H, Child(n, c).value, shift + Shift);
      var k :| k in Contents(Child(n, c).value);
      ChildMapChild(n, c);
      ChunkTop(H(k));
    }
  }
}

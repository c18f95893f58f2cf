/**
 * How the edits the trie makes to a branch node change its children.
 *
 * Every edit of an index node or an array node changes the child of one
 * chunk and leaves the other 31 alone; `Edited` says so, and the lemmas here
 * prove it for each edit the source makes: setting a kid, splicing a kid in
 * with its bit, splicing one out with its bit, setting a slot, spreading an
 * index node over 32 slots (promotion) and packing the occupied slots of an
 * array node into an index node (demotion).
 */
module Layout {
  import opened Wrappers
  import opened Bits
  import opened Arrays
  import opened Nodes

  /** `n'` has the children of `n`, except that chunk `c0` selects `x`. */
  ghost predicate Edited<K, V>(n: Node<K, V>, n': Node<K, V>, c0: bv32, x: Option<Node<K, V>>)
    requires c0 < 32
  {
    && Child(n', c0) == x
    && forall d: bv32 :: d < 32 && d != c0 ==> Child(n', d) == Child(n, d)
  }

  /** An index node whose kids match its bitmap. */
  predicate Shaped<K, V>(n: Node<K, V>)
  {
    n.IndexNode? ==> |n.kids| == PopCount(n.bitmap)
  }

  /** In a shaped index node a set bit selects a kid. */
  lemma IndexChild<K, V>(n: Node<K, V>, c: bv32)
    requires n.IndexNode? && Shaped(n) && c < 32
    ensures Child(n, c).Some? <==> Bit(n.bitmap, c)
    ensures Bit(n.bitmap, c) ==> Rank(n.bitmap, c) < |n.kids| && Child(n, c) == Some(n.kids[Rank(n.bitmap, c)])
  {
    if Bit(n.bitmap, c) {
      RankBelowPopCount(n.bitmap, c);
    }
  }

  // ---------------------------------------------------------------------------
  // Index node edits
  // ---------------------------------------------------------------------------

  /** `cloneAndSet(array, idx, m)` on the kid of a set bit replaces that child only. */
  lemma IndexSet<K, V>(bitmap: bv32, kids: seq<Node<K, V>>, c0: bv32, m: Node<K, V>)
    requires c0 < 32 && Bit(bitmap, c0) && |kids| == PopCount(bitmap) && Rank(bitmap, c0) < |kids|
    ensures Shaped(IndexNode(bitmap, CloneAndSet(kids, Rank(bitmap, c0), m)))
    ensures Edited(IndexNode(bitmap, kids), IndexNode(bitmap, CloneAndSet(kids, Rank(bitmap, c0), m)), c0, Some(m))
  {
    forall d: bv32 | d < 32 && d != c0
      ensures Child(IndexNode(bitmap, CloneAndSet(kids, Rank(bitmap, c0), m)), d) == Child(IndexNode(bitmap, kids), d)
    {
      IndexSetAt(bitmap, kids, c0, m, d);
    }
  }

  lemma IndexSetAt<K, V>(bitmap: bv32, kids: seq<Node<K, V>>, c0: bv32, m: Node<K, V>, d: bv32)
    requires c0 < 32 && d < 32 && d != c0 && Bit(bitmap, c0) && |kids| == PopCount(bitmap) && Rank(bitmap, c0) < |kids|
    ensures Child(IndexNode(bitmap, CloneAndSet(kids, Rank(bitmap, c0), m)), d) == Child(IndexNode(bitmap, kids), d)
  {
    if Bit(bitmap, d) {
      RankBelowPopCount(bitmap, d);
      if Rank(bitmap, d) == Rank(bitmap, c0) {
        RankInjective(bitmap, c0, d);
      }
    }
  }

  /** Setting bit `c0` and splicing `m` in at its rank gives chunk `c0` the child `m`. */
  lemma IndexInsert<K, V>(bitmap: bv32, kids: seq<Node<K, V>>, c0: bv32, m: Node<K, V>)
    requires c0 < 32 && !Bit(bitmap, c0) && |kids| == PopCount(bitmap) && Rank(bitmap, c0) <= |kids|
    ensures Shaped(IndexNode(bitmap | Pos(c0), SpliceIn(kids, Rank(bitmap, c0), m)))
    ensures Edited(IndexNode(bitmap, kids), IndexNode(bitmap | Pos(c0), SpliceIn(kids, Rank(bitmap, c0), m)), c0, Some(m))
  {
    forall d: bv32 | d < 32
      ensures Bit(bitmap | Pos(c0), d) <==> d == c0 || Bit(bitmap, d)
    {
      BitOr(bitmap, c0, d);
    }
    forall d: bv32 | d <= 32
      ensures Rank(bitmap | Pos(c0), d) == Rank(bitmap, d) + (if c0 < d then 1 else 0)
    {
      RankOr(bitmap, c0, d);
    }
    InsertShape(bitmap, bitmap | Pos(c0), kids, c0, m);
  }

  /** `IndexInsert` for any bitmap `b'` with the bits and ranks of `b` plus bit `c0`. */
  lemma InsertShape<K, V>(b: bv32, b': bv32, kids: seq<Node<K, V>>, c0: bv32, m: Node<K, V>)
    requires c0 < 32 && !Bit(b, c0) && |kids| == PopCount(b) && Rank(b, c0) <= |kids|
    requires forall d: bv32 :: d < 32 ==> (Bit(b', d) <==> d == c0 || Bit(b, d))
    requires forall d: bv32 :: d <= 32 ==> Rank(b', d) == Rank(b, d) + (if c0 < d then 1 else 0)
    ensures Shaped(IndexNode(b', SpliceIn(kids, Rank(b, c0), m)))
    ensures Edited(IndexNode(b, kids), IndexNode(b', SpliceIn(kids, Rank(b, c0), m)), c0, Some(m))
  {
    assert Rank(b', 32) == Rank(b, 32) + 1;
    assert Bit(b', c0) && Rank(b', c0) == Rank(b, c0);
    forall d: bv32 | d < 32 && d != c0
      ensures Child(IndexNode(b', SpliceIn(kids, Rank(b, c0), m)), d) == Child(IndexNode(b, kids), d)
    {
      InsertShapeAt(b, b', kids, c0, m, d);
    }
  }

  lemma InsertShapeAt<K, V>(b: bv32, b': bv32, kids: seq<Node<K, V>>, c0: bv32, m: Node<K, V>, d: bv32)
    requires c0 < 32 && d < 32 && d != c0 && |kids| == PopCount(b) && Rank(b, c0) <= |kids|
    requires Bit(b', d) <==> Bit(b, d)
    requires Rank(b', d) == Rank(b, d) + (if c0 < d then 1 else 0)
    requires Rank(b', 32) == Rank(b, 32) + 1
    ensures Child(IndexNode(b', SpliceIn(kids, Rank(b, c0), m)), d) == Child(IndexNode(b, kids), d)
  {
    if Bit(b, d) {
      RankBelowPopCount(b, d);
      if c0 < d {
        RankMonotone(b, c0, d);
      } else {
        RankMonotone(b, d, c0);
      }
      InsertMoved(IndexNode(b, kids), b', Rank(b, c0), m, d);
    }
  }

  /** A kid at position `r` stays put below the insertion point and moves up one above it. */
  lemma InsertMoved<K, V>(n: Node<K, V>, b': bv32, at: nat, m: Node<K, V>, d: bv32)
    requires n.IndexNode? && d < 32 && at <= |n.kids|
    requires Bit(n.bitmap, d) && Bit(b', d)
    requires Rank(n.bitmap, d) < |n.kids|
    requires Rank(b', d) == if Rank(n.bitmap, d) < at then Rank(n.bitmap, d) else Rank(n.bitmap, d) + 1
    ensures Child(IndexNode(b', SpliceIn(n.kids, at, m)), d) == Child(n, d)
  {
  }

  /** Chunk `d` selects the same kid in two index nodes that keep it at positions `r` and `r'`. */
  lemma KidMoved<K, V>(n: Node<K, V>, n': Node<K, V>, d: bv32, r: nat, r': nat)
    requires n.IndexNode? && n'.IndexNode? && d < 32
    requires Bit(n.bitmap, d) && Bit(n'.bitmap, d)
    requires Rank(n.bitmap, d) == r < |n.kids| && Rank(n'.bitmap, d) == r' < |n'.kids|
    requires n'.kids[r'] == n.kids[r]
    ensures Child(n', d) == Child(n, d)
  {
  }

  /** Clearing bit `c0` and splicing out its kid leaves chunk `c0` without a child. */
  lemma IndexRemove<K, V>(bitmap: bv32, kids: seq<Node<K, V>>, c0: bv32)
    requires c0 < 32 && Bit(bitmap, c0) && |kids| == PopCount(bitmap) && Rank(bitmap, c0) < |kids|
    ensures Shaped(IndexNode(bitmap ^ Pos(c0), SpliceOut(kids, Rank(bitmap, c0))))
    ensures Edited(IndexNode(bitmap, kids), IndexNode(bitmap ^ Pos(c0), SpliceOut(kids, Rank(bitmap, c0))), c0, None)
  {
    forall d: bv32 | d < 32
      ensures Bit(bitmap ^ Pos(c0), d) <==> d != c0 && Bit(bitmap, d)
    {
      BitXor(bitmap, c0, d);
    }
    forall d: bv32 | d <= 32
      ensures Rank(bitmap ^ Pos(c0), d) + (if c0 < d then 1 else 0) == Rank(bitmap, d)
    {
      RankXor(bitmap, c0, d);
    }
    RemoveShape(bitmap, bitmap ^ Pos(c0), kids, c0);
  }

  /** `IndexRemove` for any bitmap `b'` with the bits and ranks of `b` less bit `c0`. */
  lemma RemoveShape<K, V>(b: bv32, b': bv32, kids: seq<Node<K, V>>, c0: bv32)
    requires c0 < 32 && Bit(b, c0) && |kids| == PopCount(b) && Rank(b, c0) < |kids|
    requires forall d: bv32 :: d < 32 ==> (Bit(b', d) <==> d != c0 && Bit(b, d))
    requires forall d: bv32 :: d <= 32 ==> Rank(b', d) + (if c0 < d then 1 else 0) == Rank(b, d)
    ensures Shaped(IndexNode(b', SpliceOut(kids, Rank(b, c0))))
    ensures Edited(IndexNode(b, kids), IndexNode(b', SpliceOut(kids, Rank(b, c0))), c0, None)
  {
    assert Rank(b', 32) + 1 == Rank(b, 32);
    assert !Bit(b', c0);
    forall d: bv32 | d < 32 && d != c0
      ensures Child(IndexNode(b', SpliceOut(kids, Rank(b, c0))), d) == Child(IndexNode(b, kids), d)
    {
      if c0 < d {
        RankMonotone(b, c0, d);
      }
      RemoveShapeAt(b, b', kids, c0, d);
    }
  }

  lemma RemoveShapeAt<K, V>(b: bv32, b': bv32, kids: seq<Node<K, V>>, c0: bv32, d: bv32)
    requires c0 < 32 && d < 32 && d != c0 && |kids| == PopCount(b) && Rank(b, c0) < |kids|
    requires c0 < d ==> Rank(b, c0) < Rank(b, d)
    requires Bit(b', d) <==> Bit(b, d)
    requires Rank(b', d) + (if c0 < d then 1 else 0) == Rank(b, d)
    ensures Child(IndexNode(b', SpliceOut(kids, Rank(b, c0))), d) == Child(IndexNode(b, kids), d)
  {
    if Bit(b, d) {
      RankBelowPopCount(b, d);
      if d < c0 {
        RankMonotone(b, d, c0);
      }
      RemoveMoved(IndexNode(b, kids), b', Rank(b, c0), d);
    }
  }

  /** A kid at position `r` other than `at` stays put below it and moves down one above it. */
  lemma RemoveMoved<K, V>(n: Node<K, V>, b': bv32, at: nat, d: bv32)
    requires n.IndexNode? && d < 32 && at < |n.kids|
    requires Bit(n.bitmap, d) && Bit(b', d)
    requires Rank(n.bitmap, d) < |n.kids| && Rank(n.bitmap, d) != at
    requires Rank(b', d) == if Rank(n.bitmap, d) < at then Rank(n.bitmap, d) else Rank(n.bitmap, d) - 1
    ensures Child(IndexNode(b', SpliceOut(n.kids, at)), d) == Child(n, d)
  {
  }

  // ---------------------------------------------------------------------------
  // Array node edits
  // ---------------------------------------------------------------------------

  /** `cloneAndSet(array, idx, x)` on the slots sets the child of chunk `idx`, and the
      occupied count moves by what was there and what comes. */
  lemma ArraySet<K, V>(size: nat, slots: seq<Option<Node<K, V>>>, c0: bv32, x: Option<Node<K, V>>, size': nat)
    requires |slots| == BucketSize && c0 < 32
    ensures |CloneAndSet(slots, c0 as int, x)| == BucketSize
    ensures Edited(ArrayNode(size, slots), ArrayNode(size', CloneAndSet(slots, c0 as int, x)), c0, x)
    ensures Occupied(CloneAndSet(slots, c0 as int, x)) + (if slots[c0 as int].Some? then 1 else 0)
         == Occupied(slots) + (if x.Some? then 1 else 0)
  {
    var slots' := CloneAndSet(slots, c0 as int, x);
    forall d: bv32 | d < 32
      ensures SlotsOf(slots')(d) <==> if d == c0 then x.Some? else SlotsOf(slots)(d)
      ensures d != c0 ==> Child(ArrayNode(size', slots'), d) == Child(ArrayNode(size, slots), d)
    {
      ArraySetAt(size, slots, c0, x, size', d);
    }
    ArraySetCount(size, slots, c0, x, size');
  }

  /** Setting one slot changes the number of occupied slots by the change at that slot. */
  lemma ArraySetCount<K, V>(size: nat, slots: seq<Option<Node<K, V>>>, c0: bv32, x: Option<Node<K, V>>, size': nat)
    requires |slots| == BucketSize && c0 < 32
    ensures Occupied(CloneAndSet(slots, c0 as int, x)) + (if slots[c0 as int].Some? then 1 else 0)
         == Occupied(slots) + (if x.Some? then 1 else 0)
  {
    var slots' := CloneAndSet(slots, c0 as int, x);
    forall d: bv32 | d < 32
      ensures SlotsOf(slots')(d) <==> if d == c0 then x.Some? else SlotsOf(slots)(d)
    {
      ArraySetAt(size, slots, c0, x, size', d);
    }
    SmallInt(c0);
    if slots[c0 as int].Some? == x.Some? {
      CountSame(SlotsOf(slots'), SlotsOf(slots), 32);
    } else if x.Some? {
      CountAdd(SlotsOf(slots), SlotsOf(slots'), c0, 32);
    } else {
      CountAdd(SlotsOf(slots'), SlotsOf(slots), c0, 32);
    }
  }

  lemma ArraySetAt<K, V>(size: nat, slots: seq<Option<Node<K, V>>>, c0: bv32, x: Option<Node<K, V>>, size': nat, d: bv32)
    requires |slots| == BucketSize && c0 < 32 && d < 32
    ensures SlotsOf(CloneAndSet(slots, c0 as int, x))(d) <==> if d == c0 then x.Some? else SlotsOf(slots)(d)
    ensures d != c0 ==> Child(ArrayNode(size', CloneAndSet(slots, c0 as int, x)), d) == Child(ArrayNode(size, slots), d)
  {
    SlotEq(d, c0);
  }

  // ---------------------------------------------------------------------------
  // Promotion: an index node spread over 32 slots
  // ---------------------------------------------------------------------------

  /** The children of chunks `0 .. c-1` of `n`, one slot per chunk: the slots the
      promotion loop fills by walking the bitmap and taking the next kid for each set bit. */
  function Spread<K, V>(n: Node<K, V>, c: bv32): (r: seq<Option<Node<K, V>>>)
    requires c <= 32
    ensures |r| == c as int
    decreases c as int
  {
    if c == 0 then []
    else
      IntPred(c);
      Spread(n, c - 1) + [Child(n, c - 1)]
  }

  /** Slot `d` of the spread holds the child of chunk `d`. */
  lemma {:induction false} SpreadAt<K, V>(n: Node<K, V>, c: bv32, d: bv32)
    requires d < c <= 32
    ensures Spread(n, c)[d as int] == Child(n, d)
    decreases c as int
  {
    IntPred(c);
    if d != c - 1 {
      PredCases(d, c);
      IntOrder(d, c - 1);
      SpreadAt(n, c - 1, d);
    }
  }

  /** An array node with the spread slots, chunk `c0` then set to `x`, has the children
      of `n` except at `c0`. */
  lemma SpreadEdited<K, V>(n: Node<K, V>, size: nat, c0: bv32, x: Option<Node<K, V>>)
    requires c0 < 32
    ensures |CloneAndSet(Spread(n, 32), c0 as int, x)| == BucketSize
    ensures Edited(n, ArrayNode(size, CloneAndSet(Spread(n, 32), c0 as int, x)), c0, x)
    ensures Occupied(CloneAndSet(Spread(n, 32), c0 as int, x)) + (if Child(n, c0).Some? then 1 else 0)
         == Occupied(Spread(n, 32)) + (if x.Some? then 1 else 0)
  {
    ArraySet(size, Spread(n, 32), c0, x, size);
    forall d: bv32 | d < 32
      ensures Child(ArrayNode(size, Spread(n, 32)), d) == Child(n, d)
    {
      SpreadAt(n, 32, d);
      SmallInt(d);
    }
  }

  /** Spread over 32 slots, a shaped index node occupies one slot per set bit. */
  lemma SpreadOccupied<K, V>(n: Node<K, V>)
    requires n.IndexNode? && Shaped(n)
    ensures Occupied(Spread(n, 32)) == PopCount(n.bitmap)
  {
    forall d: bv32 | d < 32
      ensures SlotsOf(Spread(n, 32))(d) <==> BitsOf(n.bitmap)(d)
    {
      SpreadAt(n, 32, d);
      SmallInt(d);
      IndexChild(n, d);
    }
    CountSame(SlotsOf(Spread(n, 32)), BitsOf(n.bitmap), 32);
  }

  /**
   * The promotion loop as written: the new child `x` goes into slot `jdx`
   * first; then, for each of the 32 slots, the low bit of the bitmap shifted
   * right once per slot says whether the next kid goes there.
   */
  method SpreadLoop<K, V>(n: Node<K, V>, jdx: bv32, x: Node<K, V>) returns (nodes: seq<Option<Node<K, V>>>)
    requires n.IndexNode? && Shaped(n) && jdx < 32 && !Bit(n.bitmap, jdx)
    ensures nodes == CloneAndSet(Spread(n, 32), jdx as int, Some(x))
  {
    nodes := FillStart(n, jdx, x);
    var j := 0;
    var bitmap := n.bitmap;
    var i: bv32 := 0;
    while i < 32
      invariant i <= 32 && Shifted(n.bitmap, i, bitmap) && j == Rank(n.bitmap, i)
      invariant Filled(n, jdx, x, nodes, i)
      decreases 32 - i as int
    {
      nodes, j, bitmap := SpreadSlot(n, jdx, x, i, bitmap, j, nodes);
      i := i + 1;
    }
    SpreadFilled(n, jdx, x, nodes);
  }

  /** Before the loop only the new child's slot is filled. */
  function FillStart<K, V>(n: Node<K, V>, jdx: bv32, x: Node<K, V>): (nodes: seq<Option<Node<K, V>>>)
    requires jdx < 32
    ensures Filled(n, jdx, x, nodes, 0)
  {
    SmallInt(jdx);
    seq(32, _ => None)[jdx as int := Some(x)]
  }

  /** `bitmap` is `b` shifted right `i` places: the loop's copy of the bitmap before turn `i`. */
  ghost predicate Shifted(b: bv32, i: bv32, bitmap: bv32)
    requires i <= 32
  {
    bitmap == b >> i
  }

  /** Shifting right once more moves bit `i + 1` to the bottom; the bottom bit is bit `i`. */
  lemma ShiftStep(b: bv32, i: bv32, bitmap: bv32)
    requires i < 32 && Shifted(b, i, bitmap)
    ensures Shifted(b, i + 1, bitmap >> 1)
    ensures bitmap & 1 != 0 <==> Bit(b, i)
  {
    ShiftBits(b, i);
  }

  lemma ShiftBits(b: bv32, i: bv32)
    requires i < 32
    ensures (b >> i) >> 1 == b >> (i + 1)
    ensures (b >> i) & 1 != 0 <==> Bit(b, i)
  {
  }

  /** The promotion loop before turn `i`: slot `jdx` holds the new child, the
      slots below `i` the spread of `n`, the others nothing. */
  ghost predicate Filled<K, V>(n: Node<K, V>, jdx: bv32, x: Node<K, V>, nodes: seq<Option<Node<K, V>>>, i: bv32)
    requires i <= 32
  {
    FilledTo(Spread(n, 32), jdx as int, x, nodes, i as int)
  }

  /** `Filled` on slot numbers: `nodes` agrees with `spread` below `i`, holds `x` at `at`
      and nothing elsewhere. */
  ghost predicate FilledTo<T>(spread: seq<Option<T>>, at: int, x: T, nodes: seq<Option<T>>, i: int)
  {
    && |nodes| == |spread| == 32
    && forall d :: 0 <= d < 32 ==>
         nodes[d] == if d == at then Some(x) else if d < i then spread[d] else None
  }

  /** The body of the promotion loop: the kid at rank `i` goes to slot `i` when bit `i` is set. */
  method SpreadSlot<K, V>(n: Node<K, V>, jdx: bv32, x: Node<K, V>, i: bv32, bitmap: bv32, j0: nat, nodes0: seq<Option<Node<K, V>>>)
    returns (nodes: seq<Option<Node<K, V>>>, j: nat, bitmap': bv32)
    requires n.IndexNode? && Shaped(n) && jdx < 32 && !Bit(n.bitmap, jdx)
    requires i < 32 && Shifted(n.bitmap, i, bitmap) && j0 == Rank(n.bitmap, i)
    requires Filled(n, jdx, x, nodes0, i)
    ensures Shifted(n.bitmap, i + 1, bitmap') && j == Rank(n.bitmap, i + 1)
    ensures Filled(n, jdx, x, nodes, i + 1)
  {
    ShiftStep(n.bitmap, i, bitmap);
    nodes, j := nodes0, j0;
    if bitmap & 1 != 0 {
      FillStep(n, jdx, x, nodes0, i, true);
      nodes := nodes[i as int := Some(n.kids[j])];
      j := j + 1;
    } else {
      FillStep(n, jdx, x, nodes0, i, false);
    }
    bitmap' := bitmap >> 1;
  }

  /** Turn `i` of the promotion loop, `take` telling whether bit `i` is set: the
      kid at rank `i` goes to slot `i` and the rank moves on, or nothing happens. */
  lemma FillStep<K, V>(n: Node<K, V>, jdx: bv32, x: Node<K, V>, nodes: seq<Option<Node<K, V>>>, i: bv32, take: bool)
    requires n.IndexNode? && Shaped(n) && jdx < 32 && !Bit(n.bitmap, jdx)
    requires i < 32 && Filled(n, jdx, x, nodes, i) && (take <==> Bit(n.bitmap, i))
    ensures take ==> Rank(n.bitmap, i) < |n.kids| && Rank(n.bitmap, i + 1) == Rank(n.bitmap, i) + 1
    ensures take ==> Filled(n, jdx, x, nodes[i as int := Some(n.kids[Rank(n.bitmap, i)])], i + 1)
    ensures !take ==> Rank(n.bitmap, i + 1) == Rank(n.bitmap, i) && Filled(n, jdx, x, nodes, i + 1)
  {
    RankStep(n.bitmap, i);
    IntSucc(i);
    SlotEq(i, jdx);
    SpreadKid(n, i);
    if take {
      FillSlot(Spread(n, 32), jdx as int, x, nodes, i as int, Some(n.kids[Rank(n.bitmap, i)]));
    } else {
      FillSlot(Spread(n, 32), jdx as int, x, nodes, i as int, None);
    }
  }

  /** Slot `i` of the spread of a shaped index node: the kid at rank `i` when bit `i` is set. */
  lemma SpreadKid<K, V>(n: Node<K, V>, i: bv32)
    requires n.IndexNode? && Shaped(n) && i < 32
    ensures Bit(n.bitmap, i) ==> Rank(n.bitmap, i) < |n.kids|
    ensures Spread(n, 32)[i as int] == if Bit(n.bitmap, i) then Some(n.kids[Rank(n.bitmap, i)]) else None
  {
    SpreadAt(n, 32, i);
    IndexChild(n, i);
  }

  lemma RankStep(b: bv32, i: bv32)
    requires i < 32
    ensures Rank(b, i + 1) == Rank(b, i) + if Bit(b, i) then 1 else 0
  {
    RankNext(b, i + 1);
  }

  /** Turn `i` with slot `i` of the spread known to be `y`, empty at the new child's slot. */
  lemma FillSlot<T>(spread: seq<Option<T>>, at: int, x: T, nodes: seq<Option<T>>, i: int, y: Option<T>)
    requires 0 <= i < 32 && FilledTo(spread, at, x, nodes, i)
    requires spread[i] == y && (i == at ==> y == None)
    ensures y.Some? ==> FilledTo(spread, at, x, nodes[i := y], i + 1)
    ensures y.None? ==> FilledTo(spread, at, x, nodes, i + 1)
  {
  }

  /** After the last turn the slots are the spread with the new child at `jdx`. */
  lemma SpreadFilled<K, V>(n: Node<K, V>, jdx: bv32, x: Node<K, V>, nodes: seq<Option<Node<K, V>>>)
    requires jdx < 32 && Filled(n, jdx, x, nodes, 32)
    ensures nodes == CloneAndSet(Spread(n, 32), jdx as int, Some(x))
  {
    var r := CloneAndSet(Spread(n, 32), jdx as int, Some(x));
    assert forall d :: 0 <= d < 32 ==> nodes[d] == r[d];
  }

  // ---------------------------------------------------------------------------
  // Demotion: the occupied slots of an array node packed into an index node
  // ---------------------------------------------------------------------------

  /** The index node holding the occupied slots `0 .. c-1` of `slots` except slot
      `skip`, each with its bit: what the two demotion loops build. */
  function Pack<K, V>(slots: seq<Option<Node<K, V>>>, skip: bv32, c: bv32): (r: Node<K, V>)
    requires |slots| == BucketSize && c <= 32
    ensures r.IndexNode?
    decreases c as int
  {
    if c == 0 then EmptyNode()
    else
      var r := Pack(slots, skip, c - 1);
      SmallInt(c - 1);
      if c - 1 != skip && slots[(c - 1) as int].Some? then
        IndexNode(r.bitmap | Pos(c - 1), r.kids + [slots[(c - 1) as int].value])
      else
        r
  }

  /** The packed node is shaped and chunk `d` selects slot `d`, for the chunks packed. */
  lemma {:induction false} PackChildren<K, V>(slots: seq<Option<Node<K, V>>>, skip: bv32, c: bv32)
    requires |slots| == BucketSize && c <= 32
    ensures Shaped(Pack(slots, skip, c))
    ensures forall d: bv32 :: d < 32 ==>
      Child(Pack(slots, skip, c), d) == if d < c && d != skip then slots[d as int] else None
    decreases c as int
  {
    if c == 0 {
      PackEmpty<K, V>();
    } else {
      PackChildren(slots, skip, c - 1);
      PackStep(slots, skip, c, Pack(slots, skip, c - 1), Pack(slots, skip, c));
    }
  }

  /** One step of `PackChildren`: from the chunks below `c - 1` to the chunks below `c`. */
  lemma PackStep<K, V>(slots: seq<Option<Node<K, V>>>, skip: bv32, c: bv32, r: Node<K, V>, r': Node<K, V>)
    requires |slots| == BucketSize && 0 < c <= 32
    requires r == Pack(slots, skip, c - 1) && r' == Pack(slots, skip, c)
    requires Shaped(r)
    requires forall d: bv32 :: d < 32 ==> Child(r, d) == if d < c - 1 && d != skip then slots[d as int] else None
    ensures Shaped(r')
    ensures forall d: bv32 :: d < 32 ==> Child(r', d) == if d < c && d != skip then slots[d as int] else None
  {
    SmallInt(c - 1);
    if c - 1 != skip && slots[(c - 1) as int].Some? {
      PackGrow(slots, skip, c, r, r');
    } else {
      forall d: bv32 | d < 32
        ensures Child(r', d) == if d < c && d != skip then slots[d as int] else None
      {
        PredCases(d, c);
      }
    }
  }

  lemma PackGrow<K, V>(slots: seq<Option<Node<K, V>>>, skip: bv32, c: bv32, r: Node<K, V>, r': Node<K, V>)
    requires |slots| == BucketSize && 0 < c <= 32 && c - 1 != skip && slots[(c - 1) as int].Some?
    requires r.IndexNode? && Shaped(r)
    requires r' == IndexNode(r.bitmap | Pos(c - 1), r.kids + [slots[(c - 1) as int].value])
    requires forall d: bv32 :: d < 32 ==> Child(r, d) == if d < c - 1 && d != skip then slots[d as int] else None
    ensures Shaped(r')
    ensures forall d: bv32 :: d < 32 ==> Child(r', d) == if d < c && d != skip then slots[d as int] else None
  {
    var top := c - 1;
    forall d: bv32 | top <= d < 32
      ensures Child(r, d) == None
    {
    }
    PackAppend(r, top, slots[top as int].value);
    forall d: bv32 | d < 32
      ensures Child(r', d) == if d < c && d != skip then slots[d as int] else None
    {
      PackGrowAt(slots, skip, c, r, r', d);
    }
  }

  /** A shaped index node without children at `top` and above takes a new last kid there. */
  lemma PackAppend<K, V>(r: Node<K, V>, top: bv32, x: Node<K, V>)
    requires r.IndexNode? && Shaped(r) && top < 32
    requires forall d: bv32 :: top <= d < 32 ==> Child(r, d) == None
    ensures Shaped(IndexNode(r.bitmap | Pos(top), r.kids + [x]))
    ensures Edited(r, IndexNode(r.bitmap | Pos(top), r.kids + [x]), top, Some(x))
  {
    PackTop(r, top);
    IndexInsert(r.bitmap, r.kids, top, x);
    assert SpliceIn(r.kids, Rank(r.bitmap, top), x) == r.kids + [x];
  }

  lemma PackGrowAt<K, V>(slots: seq<Option<Node<K, V>>>, skip: bv32, c: bv32, r: Node<K, V>, r': Node<K, V>, d: bv32)
    requires |slots| == BucketSize && 0 < c <= 32 && d < 32 && c - 1 != skip
    requires Child(r, d) == if d < c - 1 && d != skip then slots[d as int] else None
    requires Child(r', d) == if d == c - 1 then slots[(c - 1) as int] else Child(r, d)
    ensures Child(r', d) == if d < c && d != skip then slots[d as int] else None
  {
    PredCases(d, c);
  }

  lemma PackEmpty<K, V>()
    ensures Shaped(EmptyNode<K, V>())
    ensures forall d: bv32 :: d < 32 ==> Child(EmptyNode<K, V>(), d) == None
  {
    RankZero(32);
    forall d: bv32 | d < 32
      ensures Child(EmptyNode<K, V>(), d) == None
    {
      BitZero(d);
    }
  }

  /** A shaped index node without children at `top` and above appends there. */
  lemma PackTop<K, V>(r: Node<K, V>, top: bv32)
    requires r.IndexNode? && Shaped(r) && top < 32
    requires forall d: bv32 :: top <= d < 32 ==> Child(r, d) == None
    ensures !Bit(r.bitmap, top) && Rank(r.bitmap, top) == |r.kids|
  {
    IndexChild(r, top);
    forall d: bv32 | top <= d < 32
      ensures !BitsOf(r.bitmap)(d)
    {
      IndexChild(r, d);
    }
    CountFlat(BitsOf(r.bitmap), top, 32);
  }

  /** The packed node of all chunks but `skip` has the children of the array node but that one,
      and one bit per occupied slot but `skip`. */
  lemma PackEdited<K, V>(size: nat, slots: seq<Option<Node<K, V>>>, skip: bv32)
    requires |slots| == BucketSize && skip < 32
    ensures Shaped(Pack(slots, skip, 32))
    ensures Edited(ArrayNode(size, slots), Pack(slots, skip, 32), skip, None)
    ensures PopCount(Pack(slots, skip, 32).bitmap) + (if slots[skip as int].Some? then 1 else 0) == Occupied(slots)
  {
    var r := Pack(slots, skip, 32);
    PackChildren(slots, skip, 32);
    forall d: bv32 | d < 32
      ensures d != skip ==> Child(r, d) == Child(ArrayNode(size, slots), d)
      ensures BitsOf(r.bitmap)(d) <==> d != skip && SlotsOf(slots)(d)
    {
      PackedAt(size, slots, skip, r, d);
    }
    SmallInt(skip);
    if slots[skip as int].Some? {
      CountAdd(BitsOf(r.bitmap), SlotsOf(slots), skip, 32);
    } else {
      CountSame(SlotsOf(slots), BitsOf(r.bitmap), 32);
    }
  }

  lemma PackedAt<K, V>(size: nat, slots: seq<Option<Node<K, V>>>, skip: bv32, r: Node<K, V>, d: bv32)
    requires |slots| == BucketSize && d < 32 && r.IndexNode? && Shaped(r)
    requires Child(r, d) == if d != skip then slots[d as int] else None
    ensures d != skip ==> Child(r, d) == Child(ArrayNode(size, slots), d)
    ensures BitsOf(r.bitmap)(d) <==> d != skip && SlotsOf(slots)(d)
  {
    SmallInt(d);
    IndexChild(r, d);
  }

  lemma PackNext<K, V>(slots: seq<Option<Node<K, V>>>, skip: bv32, i: bv32)
    requires |slots| == BucketSize && i < 32
    ensures i as int < 32
    ensures Pack(slots, skip, i + 1) ==
      if i != skip && slots[i as int].Some? then
        IndexNode(Pack(slots, skip, i).bitmap | Pos(i), Pack(slots, skip, i).kids + [slots[i as int].value])
      else Pack(slots, skip, i)
  {
    SmallInt(i);
  }

  lemma PackTake<K, V>(slots: seq<Option<Node<K, V>>>, skip: bv32, i: bv32)
    requires |slots| == BucketSize && i < 32 && i != skip && slots[i as int].Some?
    ensures Pack(slots, skip, i + 1) ==
      IndexNode(Pack(slots, skip, i).bitmap | Pos(i), Pack(slots, skip, i).kids + [slots[i as int].value])
  {
    PackNext(slots, skip, i);
  }

  lemma PackPass<K, V>(slots: seq<Option<Node<K, V>>>, skip: bv32, i: bv32)
    requires |slots| == BucketSize && i < 32 && (i == skip || slots[i as int].None?)
    ensures Pack(slots, skip, i + 1) == Pack(slots, skip, i)
  {
    PackNext(slots, skip, i);
  }

  /**
   * The demotion loops as written: copy the occupied slots below `skip`, then
   * those above it, setting a bit for each.
   */
  method PackLoop<K, V>(slots: seq<Option<Node<K, V>>>, skip: bv32) returns (bitmap: bv32, out: seq<Node<K, V>>)
    requires |slots| == BucketSize && skip < 32
    ensures IndexNode(bitmap, out) == Pack(slots, skip, 32)
  {
    bitmap, out := CopyOccupied(slots, skip, 0, skip, 0, []);
    PackPass(slots, skip, skip);
    bitmap, out := CopyOccupied(slots, skip, skip + 1, 32, bitmap, out);
  }

  /** One of the two demotion loops: the occupied slots `from .. to-1`, none of them `skip`. */
  method CopyOccupied<K, V>(slots: seq<Option<Node<K, V>>>, skip: bv32, from: bv32, to: bv32, bitmap0: bv32, out0: seq<Node<K, V>>)
    returns (bitmap: bv32, out: seq<Node<K, V>>)
    requires |slots| == BucketSize && from <= to <= 32 && (skip < from || to <= skip)
    requires IndexNode(bitmap0, out0) == Pack(slots, skip, from)
    ensures IndexNode(bitmap, out) == Pack(slots, skip, to)
  {
    bitmap, out := bitmap0, out0;
    var i := from;
    while i < to
      invariant from <= i <= to && IndexNode(bitmap, out) == Pack(slots, skip, i)
      decreases 32 - i as int
    {
      bitmap, out := CopySlot(slots, skip, i, bitmap, out);
      i := i + 1;
    }
  }

  /** The body of both demotion loops: slot `i` copied, with its bit set, when occupied. */
  method CopySlot<K, V>(slots: seq<Option<Node<K, V>>>, skip: bv32, i: bv32, bitmap0: bv32, out0: seq<Node<K, V>>)
    returns (bitmap: bv32, out: seq<Node<K, V>>)
    requires |slots| == BucketSize && i < 32 && i != skip
    requires IndexNode(bitmap0, out0) == Pack(slots, skip, i)
    ensures IndexNode(bitmap, out) == Pack(slots, skip, i + 1)
  {
    SmallInt(i);
    bitmap, out := bitmap0, out0;
    if slots[i as int].Some? {
      PackTake(slots, skip, i);
      bitmap := bitmap | Pos(i);
      out := out + [slots[i as int].value];
    } else {
      PackPass(slots, skip, i);
    }
  }
}

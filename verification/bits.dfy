/**
 * The 32-bit helpers the trie is built on (the dict part of web.mjs):
 * hash chunks (`mask`), bit positions (`bitpos`), the population count
 * (`bitcount`) and the compact-array position of a chunk (`index`).
 *
 * JavaScript hashes are signed 32-bit integers; here they are `bv32` values
 * with the same bits. JavaScript shift counts are taken modulo 32, and `>>`
 * is an arithmetic (sign-propagating) shift; both are written out. Bit
 * positions and chunks are `bv32` values below 32.
 */
module Bits {

  /** Bits of the hash consumed per trie level (SHIFT). */
  const Shift: nat := 5
  /** Slots of an ArrayNode (BUCKET_SIZE = 2^SHIFT). */
  const BucketSize: nat := 32
  /** An IndexNode is rebuilt as an ArrayNode once it would exceed this many children. */
  const MaxIndexNode: nat := 16
  /** An ArrayNode of at most this size is rebuilt as an IndexNode when a slot empties. */
  const MinArrayNode: nat := 8

  /** 2^32: the unsigned values of 32-bit words are the integers below it. */
  const Word: int := 0x1_0000_0000

  /** The signed reading of the 32 bits whose unsigned value is `u`. */
  function Signed(u: int): (r: int)
    requires 0 <= u < Word
    ensures -Word / 2 <= r < Word / 2
    ensures (r - u) % Word == 0
  {
    if u < Word / 2 then u else u - Word
  }

  // ---------------------------------------------------------------------------
  // Words, bits and positions
  // ---------------------------------------------------------------------------

  /** A shift count `n < 32` as a bit-vector, by table. */
  function ToBv(n: nat): bv32
    requires n < 32
  {
    if n < 16 then
      if n < 8 then
        if n < 4 then (if n == 0 then 0 else if n == 1 then 1 else if n == 2 then 2 else 3)
        else (if n == 4 then 4 else if n == 5 then 5 else if n == 6 then 6 else 7)
      else if n < 12 then (if n == 8 then 8 else if n == 9 then 9 else if n == 10 then 10 else 11)
      else (if n == 12 then 12 else if n == 13 then 13 else if n == 14 then 14 else 15)
    else if n < 24 then
      if n < 20 then (if n == 16 then 16 else if n == 17 then 17 else if n == 18 then 18 else 19)
      else (if n == 20 then 20 else if n == 21 then 21 else if n == 22 then 22 else 23)
    else if n < 28 then (if n == 24 then 24 else if n == 25 then 25 else if n == 26 then 26 else 27)
    else (if n == 28 then 28 else if n == 29 then 29 else if n == 30 then 30 else 31)
  }

  /** Bit `i` of `b`. */
  predicate Bit(b: bv32, i: bv32)
    requires i < 32
  {
    (b >> i) & 1 == 1
  }

  /** The word with only bit `c` set (`1 << c`). */
  function Pos(c: bv32): bv32
    requires c < 32
  {
    1 << c
  }

  /** The word with bits `0 .. c-1` set. */
  function LowMask(c: bv32): bv32
    requires c <= 32
  {
    (1 << c) - 1
  }

  /** JavaScript's `x >> n` on a 32-bit integer: the sign bit is copied in. */
  function Asr(x: bv32, n: bv32): bv32
    requires n < 32
  {
    if x & 0x8000_0000 == 0 then x >> n else !((!x) >> n)
  }

  // ---------------------------------------------------------------------------
  // The operations of the source
  // ---------------------------------------------------------------------------

  /** `mask(hash, shift)`: the 5-bit chunk `hash >>> shift & 31`; the shift count is taken mod 32. */
  function Chunk(hash: bv32, shift: nat): (r: bv32)
    ensures r < 32
  {
    var count := if shift < 32 then shift else shift % 32;
    (hash >> ToBv(count)) & 31
  }

  /** The chunk as a slot number of an ArrayNode. */
  function Mask(hash: bv32, shift: nat): (r: nat)
    ensures r < BucketSize && r == Chunk(hash, shift) as int
  {
    SmallInt(Chunk(hash, shift));
    Chunk(hash, shift) as int
  }

  /** `bitpos(hash, shift)`: `1 << mask(hash, shift)`. */
  function Bitpos(hash: bv32, shift: nat): bv32
  {
    Pos(Chunk(hash, shift))
  }

  /** `index(bitmap, bit)`: how many set bits of `bitmap` lie below `bit`. */
  function Index(bitmap: bv32, bit: bv32): nat
  {
    PopCount(bitmap & (bit - 1))
  }

  // ---------------------------------------------------------------------------
  // Hash prefixes
  // ---------------------------------------------------------------------------

  /** `a` and `b` have the same chunks at the levels `0, 5, 10, ...` below `s`:
      the part of a hash a trie path at depth `s` has already consumed. */
  ghost predicate Agree(a: bv32, b: bv32, s: nat)
  {
    forall d: nat :: Shift * d < s ==> Chunk(a, Shift * d) == Chunk(b, Shift * d)
  }

  /** At the root nothing has been consumed yet. */
  lemma AgreeZero(a: bv32, b: bv32)
    ensures Agree(a, b, 0)
  {
  }

  /** Consuming one more equal chunk extends the agreement by one level. */
  lemma AgreeStep(a: bv32, b: bv32, s: nat)
    requires s % Shift == 0 && Agree(a, b, s) && Chunk(a, s) == Chunk(b, s)
    ensures Agree(a, b, s + Shift)
  {
    var p := s / Shift;
    assert s == Shift * p;
    forall d: nat | Shift * d < s + Shift
      ensures Chunk(a, Shift * d) == Chunk(b, Shift * d)
    {
      if Shift * d >= s {
        assert d == p;
      }
    }
  }

  /** Agreeing on the seven chunks `0, 5, ..., 30` is equality. */
  lemma AgreeFull(a: bv32, b: bv32, s: nat)
    requires s > 30 && Agree(a, b, s)
    ensures a == b
  {
    AgreeChunks(a, b, s);
    ChunksEqual(a, b);
  }

  /** Distinct hashes cannot agree below depth 35: they part by depth 30 at the latest. */
  lemma AgreeDistinct(a: bv32, b: bv32, s: nat)
    requires a != b && Agree(a, b, s)
    ensures s <= 30
  {
    if s > 30 {
      AgreeFull(a, b, s);
    }
  }

  lemma AgreeChunks(a: bv32, b: bv32, s: nat)
    requires s > 30 && Agree(a, b, s)
    ensures Chunk(a, 0) == Chunk(b, 0) && Chunk(a, 5) == Chunk(b, 5)
    ensures Chunk(a, 10) == Chunk(b, 10) && Chunk(a, 15) == Chunk(b, 15)
    ensures Chunk(a, 20) == Chunk(b, 20) && Chunk(a, 25) == Chunk(b, 25)
    ensures Chunk(a, 30) == Chunk(b, 30)
  {
    assert Shift * 0 < s && Shift * 1 < s && Shift * 2 < s && Shift * 3 < s;
    assert Shift * 4 < s && Shift * 5 < s && Shift * 6 < s;
  }

  lemma ChunksEqual(a: bv32, b: bv32)
    requires Chunk(a, 0) == Chunk(b, 0) && Chunk(a, 5) == Chunk(b, 5)
    requires Chunk(a, 10) == Chunk(b, 10) && Chunk(a, 15) == Chunk(b, 15)
    requires Chunk(a, 20) == Chunk(b, 20) && Chunk(a, 25) == Chunk(b, 25)
    requires Chunk(a, 30) == Chunk(b, 30)
    ensures a == b
  {
    ChunksLow(a, b);
    ChunksHigh(a, b);
    ChunksLit(a, b);
  }

  lemma ChunksLow(a: bv32, b: bv32)
    requires Chunk(a, 0) == Chunk(b, 0) && Chunk(a, 5) == Chunk(b, 5) && Chunk(a, 10) == Chunk(b, 10)
    ensures a & 31 == b & 31 && (a >> 5) & 31 == (b >> 5) & 31 && (a >> 10) & 31 == (b >> 10) & 31
  {
  }

  lemma ChunksHigh(a: bv32, b: bv32)
    requires Chunk(a, 15) == Chunk(b, 15) && Chunk(a, 20) == Chunk(b, 20)
    requires Chunk(a, 25) == Chunk(b, 25) && Chunk(a, 30) == Chunk(b, 30)
    ensures (a >> 15) & 31 == (b >> 15) & 31 && (a >> 20) & 31 == (b >> 20) & 31
    ensures (a >> 25) & 31 == (b >> 25) & 31 && (a >> 30) & 31 == (b >> 30) & 31
  {
  }

  lemma ChunksLit(a: bv32, b: bv32)
    requires a & 31 == b & 31
    requires (a >> 5) & 31 == (b >> 5) & 31
    requires (a >> 10) & 31 == (b >> 10) & 31
    requires (a >> 15) & 31 == (b >> 15) & 31
    requires (a >> 20) & 31 == (b >> 20) & 31
    requires (a >> 25) & 31 == (b >> 25) & 31
    requires (a >> 30) & 31 == (b >> 30) & 31
    ensures a == b
  {
  }

  /** At depth 30 only the two top bits are left, so the chunk is below 4. */
  lemma ChunkTop(a: bv32)
    ensures Chunk(a, 30) < 4
  {
  }

  // ---------------------------------------------------------------------------
  // Reference definitions
  // ---------------------------------------------------------------------------

  /** How many of the positions `0 .. c-1` satisfy `P`. */
  function Count(P: bv32 -> bool, c: bv32): nat
    requires c <= 32
    decreases c as int
  {
    if c == 0 then 0 else Count(P, c - 1) + (if P(c - 1) then 1 else 0)
  }

  /** The set bits of `b`, as a predicate on positions. */
  function BitsOf(b: bv32): bv32 -> bool
  {
    i => i < 32 && Bit(b, i)
  }

  /** Number of set bits of `b` at positions below `c`. */
  function Rank(b: bv32, c: bv32): nat
    requires c <= 32
  {
    Count(BitsOf(b), c)
  }

  /** Number of set bits of `b`. */
  function PopCount(b: bv32): nat
  {
    Rank(b, 32)
  }

  /** One more position adds its bit. */
  lemma RankNext(b: bv32, c: bv32)
    requires 0 < c <= 32
    ensures Rank(b, c) == Rank(b, c - 1) + if Bit(b, c - 1) then 1 else 0
  {
  }

  // ---------------------------------------------------------------------------
  // Properties of the source operations
  // ---------------------------------------------------------------------------

  /** `index(bitmap, 1 << c)` is the rank of chunk `c` in `bitmap`. */
  lemma IndexIsRank(bitmap: bv32, c: bv32)
    requires c < 32
    ensures Index(bitmap, Pos(c)) == Rank(bitmap, c)
  {
    assert Pos(c) - 1 == LowMask(c);
    RankLow(bitmap, c, 32);
  }

  /** `bitpos` sets exactly the bit of the chunk. */
  lemma BitposBits(hash: bv32, shift: nat, i: bv32)
    requires i < 32
    ensures Bit(Bitpos(hash, shift), i) <==> i == Chunk(hash, shift)
  {
    BitPos(Chunk(hash, shift), i);
  }

  // ---------------------------------------------------------------------------
  // Positions and integers
  // ---------------------------------------------------------------------------

  lemma SmallInt(x: bv32)
    requires x < 32
    ensures x as int < 32
  {
  }

  lemma IntEq(x: bv32, y: bv32)
    requires x as int == y as int
    ensures x == y
  {
    CastRoundTrip(x);
    CastRoundTrip(y);
  }

  /** Two positions are equal exactly when their slot numbers are. */
  lemma SlotEq(x: bv32, y: bv32)
    requires x < 32 && y < 32
    ensures x as int < 32 && y as int < 32 && (x == y <==> x as int == y as int)
  {
    if x as int == y as int {
      IntEq(x, y);
    }
  }

  lemma CastRoundTrip(x: bv32)
    ensures (x as int) as bv32 == x
  {
  }

  lemma IntOrder(x: bv32, y: bv32)
    requires x <= 32 && y <= 32
    ensures x < y <==> x as int < y as int
  {
  }

  lemma IntPred(x: bv32)
    requires 0 < x <= 32
    ensures (x - 1) as int == x as int - 1
  {
  }

  lemma PredCases(n: bv32, c: bv32)
    requires 0 < c <= 32
    ensures c - 1 < 32 && (n < c <==> n < c - 1 || n == c - 1)
  {
  }

  lemma IntSucc(x: bv32)
    requires x < 32
    ensures (x + 1) as int == x as int + 1
  {
  }

  // ---------------------------------------------------------------------------
  // Single bits
  // ---------------------------------------------------------------------------

  lemma BitOr(b: bv32, n: bv32, i: bv32)
    requires n < 32 && i < 32
    ensures Bit(b | Pos(n), i) <==> i == n || Bit(b, i)
  {
  }

  lemma BitXor(b: bv32, n: bv32, i: bv32)
    requires n < 32 && i < 32
    ensures Bit(b ^ Pos(n), i) <==> (i == n) != Bit(b, i)
  {
  }

  lemma BitPos(c: bv32, i: bv32)
    requires c < 32 && i < 32
    ensures Bit(Pos(c), i) <==> i == c
  {
  }

  /** A probe for `hash` at depth `shift` tests the bit of its chunk and finds the
      rank of that chunk. */
  lemma Probe(bitmap: bv32, hash: bv32, shift: nat)
    ensures bitmap & Bitpos(hash, shift) != 0 <==> Bit(bitmap, Chunk(hash, shift))
    ensures Index(bitmap, Bitpos(hash, shift)) == Rank(bitmap, Chunk(hash, shift))
  {
    BitTest(bitmap, Chunk(hash, shift));
    IndexIsRank(bitmap, Chunk(hash, shift));
  }

  /** The source's test `(bitmap & bit) !== 0` reads bit `c` of `bitmap`. */
  lemma BitTest(b: bv32, c: bv32)
    requires c < 32
    ensures b & Pos(c) != 0 <==> Bit(b, c)
  {
  }

  /** Clearing bit `c` leaves nothing exactly when it was the only bit. */
  lemma XorLast(b: bv32, c: bv32)
    requires c < 32
    ensures b ^ Pos(c) == 0 <==> b == Pos(c)
  {
  }

  lemma BitZero(i: bv32)
    requires i < 32
    ensures !Bit(0, i)
  {
  }

  lemma BitLow(b: bv32, c: bv32, i: bv32)
    requires c <= 32 && i < 32
    ensures Bit(b & LowMask(c), i) <==> i < c && Bit(b, i)
  {
  }

  /** A word with no set bit is zero. */
  lemma AllClear(b: bv32)
    requires forall i: bv32 :: i < 32 ==> !Bit(b, i)
    ensures b == 0
  {
    assert !Bit(b, 0) && !Bit(b, 1) && !Bit(b, 2) && !Bit(b, 3) && !Bit(b, 4) && !Bit(b, 5) && !Bit(b, 6) && !Bit(b, 7);
    assert !Bit(b, 8) && !Bit(b, 9) && !Bit(b, 10) && !Bit(b, 11) && !Bit(b, 12) && !Bit(b, 13) && !Bit(b, 14) && !Bit(b, 15);
    assert !Bit(b, 16) && !Bit(b, 17) && !Bit(b, 18) && !Bit(b, 19) && !Bit(b, 20) && !Bit(b, 21) && !Bit(b, 22) && !Bit(b, 23);
    assert !Bit(b, 24) && !Bit(b, 25) && !Bit(b, 26) && !Bit(b, 27) && !Bit(b, 28) && !Bit(b, 29) && !Bit(b, 30) && !Bit(b, 31);
    ClearWord(b);
  }

  lemma ClearWord(b: bv32)
    requires !Bit(b, 0) && !Bit(b, 1) && !Bit(b, 2) && !Bit(b, 3) && !Bit(b, 4) && !Bit(b, 5) && !Bit(b, 6) && !Bit(b, 7)
    requires !Bit(b, 8) && !Bit(b, 9) && !Bit(b, 10) && !Bit(b, 11) && !Bit(b, 12) && !Bit(b, 13) && !Bit(b, 14) && !Bit(b, 15)
    requires !Bit(b, 16) && !Bit(b, 17) && !Bit(b, 18) && !Bit(b, 19) && !Bit(b, 20) && !Bit(b, 21) && !Bit(b, 22) && !Bit(b, 23)
    requires !Bit(b, 24) && !Bit(b, 25) && !Bit(b, 26) && !Bit(b, 27) && !Bit(b, 28) && !Bit(b, 29) && !Bit(b, 30) && !Bit(b, 31)
    ensures b == 0
  {
  }

  // ---------------------------------------------------------------------------
  // Counting positions
  // ---------------------------------------------------------------------------

  /** Positions where `P` and `Q` agree below `c` count the same. */
  lemma {:induction false} CountSame(P: bv32 -> bool, Q: bv32 -> bool, c: bv32)
    requires c <= 32
    requires forall i: bv32 :: i < c ==> (P(i) <==> Q(i))
    ensures Count(P, c) == Count(Q, c)
    decreases c as int
  {
    if c > 0 {
      IntPred(c);
      CountSame(P, Q, c - 1);
    }
  }

  /** `Q` is `P` with position `n` added. */
  lemma {:induction false} CountAdd(P: bv32 -> bool, Q: bv32 -> bool, n: bv32, c: bv32)
    requires n < 32 && c <= 32 && !P(n)
    requires forall i: bv32 :: i < 32 ==> (Q(i) <==> i == n || P(i))
    ensures Count(Q, c) == Count(P, c) + (if n < c then 1 else 0)
    decreases c as int
  {
    if c > 0 {
      IntPred(c);
      PredCases(n, c);
      CountAdd(P, Q, n, c - 1);
    }
  }

  /** No position from `c` up to `d` counts. */
  lemma {:induction false} CountFlat(P: bv32 -> bool, c: bv32, d: bv32)
    requires c <= d <= 32
    requires forall i: bv32 :: c <= i < d ==> !P(i)
    ensures Count(P, d) == Count(P, c)
    decreases d as int
  {
    if c < d {
      IntPred(d);
      CountFlat(P, c, d - 1);
    }
  }

  /** `Q` is `P` cut off at `c`. */
  lemma CountPrefix(P: bv32 -> bool, Q: bv32 -> bool, c: bv32, j: bv32)
    requires c <= 32 && j <= 32
    requires forall i: bv32 :: i < 32 ==> (Q(i) <==> i < c && P(i))
    ensures Count(Q, j) == Count(P, if j < c then j else c)
  {
    if j < c {
      CountSame(Q, P, j);
    } else {
      CountSame(Q, P, c);
      CountFlat(Q, c, j);
    }
  }

  /** The count grows with the position, strictly past a position that counts. */
  lemma {:induction false} CountMonotone(P: bv32 -> bool, c: bv32, d: bv32)
    requires c <= d <= 32
    ensures Count(P, c) + (if c < d && P(c) then 1 else 0) <= Count(P, d)
    decreases d as int
  {
    if c < d {
      IntPred(d);
      CountMonotone(P, c, d - 1);
    }
  }

  /** Every count below the total is reached at some position that counts. */
  lemma {:induction false} CountSurjective(P: bv32 -> bool, r: nat, d: bv32)
    requires d <= 32 && r < Count(P, d)
    ensures exists c: bv32 :: c < d && P(c) && Count(P, c) == r
    decreases d as int
  {
    IntPred(d);
    if r < Count(P, d - 1) {
      CountSurjective(P, r, d - 1);
    } else {
      assert P(d - 1) && Count(P, d - 1) == r;
    }
  }

  /** At most `c` of the first `c` positions count. */
  lemma {:induction false} CountAtMost(P: bv32 -> bool, c: bv32)
    requires c <= 32
    ensures Count(P, c) <= c as int
    decreases c as int
  {
    if c > 0 {
      IntPred(c);
      CountAtMost(P, c - 1);
    }
  }

  /** The count is zero exactly when no position counts. */
  lemma {:induction false} CountZero(P: bv32 -> bool, c: bv32)
    requires c <= 32
    ensures Count(P, c) == 0 <==> forall i: bv32 :: i < c ==> !P(i)
    decreases c as int
  {
    if c > 0 {
      IntPred(c);
      CountZero(P, c - 1);
      forall i: bv32 | i < c && P(i)
        ensures i < c - 1 || i == c - 1
      {
        PredCases(i, c);
      }
    }
  }

  // ---------------------------------------------------------------------------
  // Rank
  // ---------------------------------------------------------------------------

  lemma RankZero(c: bv32)
    requires c <= 32
    ensures Rank(0, c) == 0
  {
    forall i: bv32 | i < c
      ensures !BitsOf(0)(i)
    {
      if i < 32 {
        BitZero(i);
      }
    }
    CountZero(BitsOf(0), c);
  }

  /** Setting a clear bit `n` adds one to the rank of every position above `n`. */
  lemma RankOr(b: bv32, n: bv32, c: bv32)
    requires n < 32 && c <= 32 && !Bit(b, n)
    ensures Rank(b | Pos(n), c) == Rank(b, c) + (if n < c then 1 else 0)
  {
    forall i: bv32 | i < 32
      ensures BitsOf(b | Pos(n))(i) <==> i == n || BitsOf(b)(i)
    {
      BitOr(b, n, i);
    }
    CountAdd(BitsOf(b), BitsOf(b | Pos(n)), n, c);
  }

  /** Clearing a set bit `n` takes one from the rank of every position above `n`. */
  lemma RankXor(b: bv32, n: bv32, c: bv32)
    requires n < 32 && c <= 32 && Bit(b, n)
    ensures Rank(b ^ Pos(n), c) + (if n < c then 1 else 0) == Rank(b, c)
  {
    forall i: bv32 | i < 32
      ensures BitsOf(b)(i) <==> i == n || BitsOf(b ^ Pos(n))(i)
    {
      BitXor(b, n, i);
    }
    BitXor(b, n, n);
    CountAdd(BitsOf(b ^ Pos(n)), BitsOf(b), n, c);
  }

  /** Masking off the bits from `c` up freezes the rank at `c`. */
  lemma RankLow(b: bv32, c: bv32, j: bv32)
    requires c <= 32 && j <= 32
    ensures Rank(b & LowMask(c), j) == Rank(b, if j < c then j else c)
  {
    BitsOfLow(b, c);
    CountPrefix(BitsOf(b), BitsOf(b & LowMask(c)), c, j);
  }

  lemma BitsOfLow(b: bv32, c: bv32)
    requires c <= 32
    ensures forall i: bv32 :: i < 32 ==> (BitsOf(b & LowMask(c))(i) <==> i < c && BitsOf(b)(i))
  {
    forall i: bv32 | i < 32
      ensures BitsOf(b & LowMask(c))(i) <==> i < c && BitsOf(b)(i)
    {
      BitLow(b, c, i);
    }
  }

  /** Rank grows with the position, strictly past a set bit. */
  lemma RankMonotone(b: bv32, c: bv32, d: bv32)
    requires c <= d <= 32
    ensures Rank(b, c) + (if c < d && Bit(b, c) then 1 else 0) <= Rank(b, d)
  {
    CountMonotone(BitsOf(b), c, d);
  }

  lemma RankBelowPopCount(b: bv32, c: bv32)
    requires c < 32 && Bit(b, c)
    ensures Rank(b, c) < PopCount(b)
  {
    RankMonotone(b, c, 32);
  }

  /** Distinct set bits have distinct ranks. */
  lemma RankInjective(b: bv32, c: bv32, d: bv32)
    requires c < 32 && d < 32 && Bit(b, c) && Bit(b, d)
    requires Rank(b, c) == Rank(b, d)
    ensures c == d
  {
    if c < d {
      RankMonotone(b, c, d);
    } else if d < c {
      RankMonotone(b, d, c);
    }
  }

  /** Every rank below the population count belongs to some set bit. */
  lemma RankSurjective(b: bv32, r: nat, d: bv32)
    requires d <= 32 && r < Rank(b, d)
    ensures exists c: bv32 :: c < d && Bit(b, c) && Rank(b, c) == r
  {
    CountSurjective(BitsOf(b), r, d);
    var c: bv32 :| c < d && BitsOf(b)(c) && Count(BitsOf(b), c) == r;
    assert Bit(b, c) && Rank(b, c) == r;
  }

  /** The rank of a position is at most the position. */
  lemma RankAtMost(b: bv32, c: bv32)
    requires c <= 32
    ensures Rank(b, c) <= c as int
  {
    CountAtMost(BitsOf(b), c);
  }

  /** The only set bit of `1 << c` is `c`. */
  lemma PopCountPos(c: bv32)
    requires c < 32
    ensures PopCount(Pos(c)) == 1 && Rank(Pos(c), c) == 0
  {
    BitZero(c);
    RankOr(0, c, 32);
    RankOr(0, c, c);
    RankZero(32);
    RankZero(c);
    assert 0 | Pos(c) == Pos(c);
  }

  /** A word with a set bit has one at some position. */
  lemma NonzeroHasBit(b: bv32)
    requires b != 0
    ensures exists i: bv32 :: i < 32 && Bit(b, i)
  {
    if forall i: bv32 :: i < 32 ==> !Bit(b, i) {
      AllClear(b);
    }
  }

  /** Only the zero word has no set bit. */
  lemma PopCountZero(b: bv32)
    ensures PopCount(b) == 0 <==> b == 0
  {
    CountZero(BitsOf(b), 32);
    if b == 0 {
      RankZero(32);
    } else {
      NonzeroHasBit(b);
      var i: bv32 :| i < 32 && Bit(b, i);
      assert BitsOf(b)(i);
    }
  }
}

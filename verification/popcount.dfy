/**
 * `bitcount(x)`: the population count of a 32-bit word by the parallel
 * ("SWAR") method, one statement per stage. Each stage adds neighbouring
 * fields of the previous one: 2-bit fields holding the count of their two
 * bits, then 4-bit fields, then bytes, and finally the four bytes, whose
 * sum fits in the low 7 bits.
 *
 * The source's `>>` copies the sign bit in; every stage masks those bits
 * away or works on a word whose sign bit is clear, so each shift agrees
 * with the logical shift the field arithmetic below is stated with.
 */
module Popcount {
  import opened Bits

  /**
   * `bitcount(x)` as written, statement by statement, with the source's
   * sign-propagating shift; `s1 .. s5` are its five shifted words and
   * `x1 .. x5` the successive values of `x`. The result is the number of
   * set bits of `x`, whatever the sign of `x`.
   */
  method BitCount(x: bv32) returns (r: bv32)
    ensures r <= 32 && r as int == PopCount(x)
  {
    var s1 := Asr(x, 1);
    var x1 := x - (s1 & 0x5555_5555);
    var s2 := Asr(x1, 2);
    var x2 := (x1 & 0x3333_3333) + (s2 & 0x3333_3333);
    var s3 := Asr(x2, 4);
    var x3 := (x2 + s3) & 0x0F0F_0F0F;
    var s4 := Asr(x3, 8);
    var x4 := x3 + s4;
    var s5 := Asr(x4, 16);
    var x5 := x4 + s5;
    r := x5 & 127;
    Stages(x, s1, x1, s2, x2, s3, x3, s4, x4, s5, x5);
  }

  /** `index(bitmap, bit)` as written, with `bitcount`: the rank `Index` names. */
  method IndexAsWritten(bitmap: bv32, bit: bv32) returns (r: bv32)
    ensures r as int == Index(bitmap, bit)
  {
    r := BitCount(bitmap & (bit - 1));
  }

  /** The five stages of `bitcount` leave the count of the bits of `x` in the low 7 bits. */
  lemma Stages(x: bv32, s1: bv32, x1: bv32, s2: bv32, x2: bv32, s3: bv32, x3: bv32, s4: bv32, x4: bv32, s5: bv32, x5: bv32)
    requires s1 == Asr(x, 1) && x1 == x - (s1 & 0x5555_5555)
    requires s2 == Asr(x1, 2) && x2 == (x1 & 0x3333_3333) + (s2 & 0x3333_3333)
    requires s3 == Asr(x2, 4) && x3 == (x2 + s3) & 0x0F0F_0F0F
    requires s4 == Asr(x3, 8) && x4 == x3 + s4
    requires s5 == Asr(x4, 16) && x5 == x4 + s5
    ensures x5 & 127 <= 32 && (x5 & 127) as int == PopCount(x)
  {
    PairsShift(x);
    CountPairs(x, s1, x1);
    NibblesShift(x1);
    SumPairs(x, x1, s2, x2);
    SignClear4(x2);
    SumQuads(x, x2, s3, x3);
    SignClear8(x3);
    AddBytes(x3, s4, x4);
    SignClear16(x4);
    AddHalves(x4, s5, x5);
    Total(x, x3, x4, x5);
  }

  // ---------------------------------------------------------------------------
  // The sign-propagating shifts agree with the logical ones
  // ---------------------------------------------------------------------------

  /** The copied-in sign bits of the first stage are masked away. */
  lemma PairsShift(x: bv32)
    ensures Asr(x, 1) & 0x5555_5555 == (x >> 1) & 0x5555_5555
  {
  }

  /** So are those of the second stage. */
  lemma NibblesShift(x: bv32)
    ensures Asr(x, 2) & 0x3333_3333 == (x >> 2) & 0x3333_3333
  {
  }

  /** The last three stages shift words whose sign bit is clear. */
  lemma SignClear4(x: bv32)
    requires x & 0x8000_0000 == 0
    ensures Asr(x, 4) == x >> 4
  {
  }

  lemma SignClear8(x: bv32)
    requires x & 0x8000_0000 == 0
    ensures Asr(x, 8) == x >> 8
  {
  }

  lemma SignClear16(x: bv32)
    requires x & 0x8000_0000 == 0
    ensures Asr(x, 16) == x >> 16
  {
  }

  // ---------------------------------------------------------------------------
  // What each stage leaves in its fields. The field facts are spelt out one
  // field per line: the bit-level solver needs them as they stand.
  // ---------------------------------------------------------------------------

  /** `x -= x >> 1 & 0x55555555`: each 2-bit field holds the count of its two bits. */
  lemma CountPairs(x: bv32, s1: bv32, x1: bv32)
    requires s1 & 0x5555_5555 == (x >> 1) & 0x5555_5555 && x1 == x - (s1 & 0x5555_5555)
    ensures (x1 & 3) == (x & 1) + ((x >> 1) & 1)
      && ((x1 >> 2) & 3) == ((x >> 2) & 1) + ((x >> 3) & 1)
      && ((x1 >> 4) & 3) == ((x >> 4) & 1) + ((x >> 5) & 1)
      && ((x1 >> 6) & 3) == ((x >> 6) & 1) + ((x >> 7) & 1)
      && ((x1 >> 8) & 3) == ((x >> 8) & 1) + ((x >> 9) & 1)
      && ((x1 >> 10) & 3) == ((x >> 10) & 1) + ((x >> 11) & 1)
      && ((x1 >> 12) & 3) == ((x >> 12) & 1) + ((x >> 13) & 1)
      && ((x1 >> 14) & 3) == ((x >> 14) & 1) + ((x >> 15) & 1)
      && ((x1 >> 16) & 3) == ((x >> 16) & 1) + ((x >> 17) & 1)
      && ((x1 >> 18) & 3) == ((x >> 18) & 1) + ((x >> 19) & 1)
      && ((x1 >> 20) & 3) == ((x >> 20) & 1) + ((x >> 21) & 1)
      && ((x1 >> 22) & 3) == ((x >> 22) & 1) + ((x >> 23) & 1)
      && ((x1 >> 24) & 3) == ((x >> 24) & 1) + ((x >> 25) & 1)
      && ((x1 >> 26) & 3) == ((x >> 26) & 1) + ((x >> 27) & 1)
      && ((x1 >> 28) & 3) == ((x >> 28) & 1) + ((x >> 29) & 1)
      && ((x1 >> 30) & 3) == ((x >> 30) & 1) + ((x >> 31) & 1)
  {
  }

  /** `x = (x & 0x33333333) + (x >> 2 & 0x33333333)`: each 4-bit field holds the count of its four bits. */
  lemma SumPairs(x: bv32, x1: bv32, s2: bv32, x2: bv32)
    requires (x1 & 3) == (x & 1) + ((x >> 1) & 1)
       && ((x1 >> 2) & 3) == ((x >> 2) & 1) + ((x >> 3) & 1)
       && ((x1 >> 4) & 3) == ((x >> 4) & 1) + ((x >> 5) & 1)
       && ((x1 >> 6) & 3) == ((x >> 6) & 1) + ((x >> 7) & 1)
       && ((x1 >> 8) & 3) == ((x >> 8) & 1) + ((x >> 9) & 1)
       && ((x1 >> 10) & 3) == ((x >> 10) & 1) + ((x >> 11) & 1)
       && ((x1 >> 12) & 3) == ((x >> 12) & 1) + ((x >> 13) & 1)
       && ((x1 >> 14) & 3) == ((x >> 14) & 1) + ((x >> 15) & 1)
       && ((x1 >> 16) & 3) == ((x >> 16) & 1) + ((x >> 17) & 1)
       && ((x1 >> 18) & 3) == ((x >> 18) & 1) + ((x >> 19) & 1)
       && ((x1 >> 20) & 3) == ((x >> 20) & 1) + ((x >> 21) & 1)
       && ((x1 >> 22) & 3) == ((x >> 22) & 1) + ((x >> 23) & 1)
       && ((x1 >> 24) & 3) == ((x >> 24) & 1) + ((x >> 25) & 1)
       && ((x1 >> 26) & 3) == ((x >> 26) & 1) + ((x >> 27) & 1)
       && ((x1 >> 28) & 3) == ((x >> 28) & 1) + ((x >> 29) & 1)
       && ((x1 >> 30) & 3) == ((x >> 30) & 1) + ((x >> 31) & 1)
    requires s2 & 0x3333_3333 == (x1 >> 2) & 0x3333_3333 && x2 == (x1 & 0x3333_3333) + (s2 & 0x3333_3333)
    ensures (x2 & 15) == (x & 1) + ((x >> 1) & 1) + ((x >> 2) & 1) + ((x >> 3) & 1)
      && ((x2 >> 4) & 15) == ((x >> 4) & 1) + ((x >> 5) & 1) + ((x >> 6) & 1) + ((x >> 7) & 1)
      && ((x2 >> 8) & 15) == ((x >> 8) & 1) + ((x >> 9) & 1) + ((x >> 10) & 1) + ((x >> 11) & 1)
      && ((x2 >> 12) & 15) == ((x >> 12) & 1) + ((x >> 13) & 1) + ((x >> 14) & 1) + ((x >> 15) & 1)
      && ((x2 >> 16) & 15) == ((x >> 16) & 1) + ((x >> 17) & 1) + ((x >> 18) & 1) + ((x >> 19) & 1)
      && ((x2 >> 20) & 15) == ((x >> 20) & 1) + ((x >> 21) & 1) + ((x >> 22) & 1) + ((x >> 23) & 1)
      && ((x2 >> 24) & 15) == ((x >> 24) & 1) + ((x >> 25) & 1) + ((x >> 26) & 1) + ((x >> 27) & 1)
      && ((x2 >> 28) & 15) == ((x >> 28) & 1) + ((x >> 29) & 1) + ((x >> 30) & 1) + ((x >> 31) & 1)
    ensures x2 & 0x8000_0000 == 0
  {
  }

  /** `x = x + (x >> 4) & 0x0F0F0F0F`: each byte holds the count of its eight bits. */
  lemma SumQuads(x: bv32, x2: bv32, s3: bv32, x3: bv32)
    requires (x2 & 15) == (x & 1) + ((x >> 1) & 1) + ((x >> 2) & 1) + ((x >> 3) & 1)
       && ((x2 >> 4) & 15) == ((x >> 4) & 1) + ((x >> 5) & 1) + ((x >> 6) & 1) + ((x >> 7) & 1)
       && ((x2 >> 8) & 15) == ((x >> 8) & 1) + ((x >> 9) & 1) + ((x >> 10) & 1) + ((x >> 11) & 1)
       && ((x2 >> 12) & 15) == ((x >> 12) & 1) + ((x >> 13) & 1) + ((x >> 14) & 1) + ((x >> 15) & 1)
       && ((x2 >> 16) & 15) == ((x >> 16) & 1) + ((x >> 17) & 1) + ((x >> 18) & 1) + ((x >> 19) & 1)
       && ((x2 >> 20) & 15) == ((x >> 20) & 1) + ((x >> 21) & 1) + ((x >> 22) & 1) + ((x >> 23) & 1)
       && ((x2 >> 24) & 15) == ((x >> 24) & 1) + ((x >> 25) & 1) + ((x >> 26) & 1) + ((x >> 27) & 1)
       && ((x2 >> 28) & 15) == ((x >> 28) & 1) + ((x >> 29) & 1) + ((x >> 30) & 1) + ((x >> 31) & 1)
    requires s3 == x2 >> 4 && x3 == (x2 + s3) & 0x0F0F_0F0F
    ensures (x3 & 0xFF) == (x & 1) + ((x >> 1) & 1) + ((x >> 2) & 1) + ((x >> 3) & 1) + ((x >> 4) & 1) + ((x >> 5) & 1) + ((x >> 6) & 1) + ((x >> 7) & 1)
      && ((x3 >> 8) & 0xFF) == ((x >> 8) & 1) + ((x >> 9) & 1) + ((x >> 10) & 1) + ((x >> 11) & 1) + ((x >> 12) & 1) + ((x >> 13) & 1) + ((x >> 14) & 1) + ((x >> 15) & 1)
      && ((x3 >> 16) & 0xFF) == ((x >> 16) & 1) + ((x >> 17) & 1) + ((x >> 18) & 1) + ((x >> 19) & 1) + ((x >> 20) & 1) + ((x >> 21) & 1) + ((x >> 22) & 1) + ((x >> 23) & 1)
      && ((x3 >> 24) & 0xFF) == ((x >> 24) & 1) + ((x >> 25) & 1) + ((x >> 26) & 1) + ((x >> 27) & 1) + ((x >> 28) & 1) + ((x >> 29) & 1) + ((x >> 30) & 1) + ((x >> 31) & 1)
    ensures x3 & 0xF0F0_F0F0 == 0 && x3 & 0x8000_0000 == 0
  {
  }

  /** `x += x >> 8`: bytes 0 and 2 now hold the sums of the byte pairs. */
  lemma AddBytes(x3: bv32, s4: bv32, x4: bv32)
    requires x3 & 0xF0F0_F0F0 == 0
    requires s4 == x3 >> 8 && x4 == x3 + s4
    ensures x4 & 0xFF == (x3 & 0xFF) + ((x3 >> 8) & 0xFF)
    ensures (x4 >> 16) & 0xFF == ((x3 >> 16) & 0xFF) + ((x3 >> 24) & 0xFF)
    ensures x4 & 0xE0E0_E0E0 == 0 && x4 & 0x8000_0000 == 0
  {
  }

  /** `x += x >> 16`: the low byte holds the sum of the four, which fits in 7 bits. */
  lemma AddHalves(x4: bv32, s5: bv32, x5: bv32)
    requires x4 & 0xE0E0_E0E0 == 0
    requires s5 == x4 >> 16 && x5 == x4 + s5
    ensures x5 & 127 == (x4 & 0xFF) + ((x4 >> 16) & 0xFF)
  {
  }

  // ---------------------------------------------------------------------------
  // From the fields to the number
  // ---------------------------------------------------------------------------

  /** The low 7 bits after the last stage, as a number: the count of all bits of `x`. */
  lemma Total(x: bv32, x3: bv32, x4: bv32, x5: bv32)
    requires (x3 & 0xFF) == (x & 1) + ((x >> 1) & 1) + ((x >> 2) & 1) + ((x >> 3) & 1) + ((x >> 4) & 1) + ((x >> 5) & 1) + ((x >> 6) & 1) + ((x >> 7) & 1)
       && ((x3 >> 8) & 0xFF) == ((x >> 8) & 1) + ((x >> 9) & 1) + ((x >> 10) & 1) + ((x >> 11) & 1) + ((x >> 12) & 1) + ((x >> 13) & 1) + ((x >> 14) & 1) + ((x >> 15) & 1)
       && ((x3 >> 16) & 0xFF) == ((x >> 16) & 1) + ((x >> 17) & 1) + ((x >> 18) & 1) + ((x >> 19) & 1) + ((x >> 20) & 1) + ((x >> 21) & 1) + ((x >> 22) & 1) + ((x >> 23) & 1)
       && ((x3 >> 24) & 0xFF) == ((x >> 24) & 1) + ((x >> 25) & 1) + ((x >> 26) & 1) + ((x >> 27) & 1) + ((x >> 28) & 1) + ((x >> 29) & 1) + ((x >> 30) & 1) + ((x >> 31) & 1)
    requires x4 & 0xFF == (x3 & 0xFF) + ((x3 >> 8) & 0xFF)
    requires (x4 >> 16) & 0xFF == ((x3 >> 16) & 0xFF) + ((x3 >> 24) & 0xFF)
    requires x5 & 127 == (x4 & 0xFF) + ((x4 >> 16) & 0xFF)
    ensures x5 & 127 <= 32 && (x5 & 127) as int == PopCount(x)
  {
    LowHalf(x, x3);
    HighHalf(x, x3);
    AddSmall(x4 & 0xFF, (x4 >> 16) & 0xFF, 16);
    RankBytes(x);
  }

  /** Bytes 0 and 1 add up to the count of bits `0 .. 15`. */
  lemma LowHalf(x: bv32, y: bv32)
    requires (y & 0xFF) == (x & 1) + ((x >> 1) & 1) + ((x >> 2) & 1) + ((x >> 3) & 1) + ((x >> 4) & 1) + ((x >> 5) & 1) + ((x >> 6) & 1) + ((x >> 7) & 1)
    requires ((y >> 8) & 0xFF) == ((x >> 8) & 1) + ((x >> 9) & 1) + ((x >> 10) & 1) + ((x >> 11) & 1) + ((x >> 12) & 1) + ((x >> 13) & 1) + ((x >> 14) & 1) + ((x >> 15) & 1)
    ensures var s := (y & 0xFF) + ((y >> 8) & 0xFF); s <= 16 && s as int == ByteCount(x, 0) + ByteCount(x, 8)
  {
    Octet0(x, y);
    Octet1(x, y);
    ByteInt(x, 0);
    ByteInt(x, 8);
    AddSmall(y & 0xFF, (y >> 8) & 0xFF, 8);
  }

  /** Bytes 2 and 3 add up to the count of bits `16 .. 31`. */
  lemma HighHalf(x: bv32, y: bv32)
    requires ((y >> 16) & 0xFF) == ((x >> 16) & 1) + ((x >> 17) & 1) + ((x >> 18) & 1) + ((x >> 19) & 1) + ((x >> 20) & 1) + ((x >> 21) & 1) + ((x >> 22) & 1) + ((x >> 23) & 1)
    requires ((y >> 24) & 0xFF) == ((x >> 24) & 1) + ((x >> 25) & 1) + ((x >> 26) & 1) + ((x >> 27) & 1) + ((x >> 28) & 1) + ((x >> 29) & 1) + ((x >> 30) & 1) + ((x >> 31) & 1)
    ensures var s := ((y >> 16) & 0xFF) + ((y >> 24) & 0xFF); s <= 16 && s as int == ByteCount(x, 16) + ByteCount(x, 24)
  {
    Octet2(x, y);
    Octet3(x, y);
    ByteInt(x, 16);
    ByteInt(x, 24);
    AddSmall((y >> 16) & 0xFF, (y >> 24) & 0xFF, 8);
  }

  /** Adding two small counts does not wrap around. */
  lemma AddSmall(a: bv32, b: bv32, n: bv32)
    requires n <= 16 && a <= n && b <= n
    ensures a + b <= n + n && (a + b) as int == a as int + b as int
  {
  }

  lemma Octet0(x: bv32, y: bv32)
    requires (y & 0xFF) == (x & 1) + ((x >> 1) & 1) + ((x >> 2) & 1) + ((x >> 3) & 1) + ((x >> 4) & 1) + ((x >> 5) & 1) + ((x >> 6) & 1) + ((x >> 7) & 1)
    ensures y & 0xFF == ByteBits(x, 0)
  {
  }

  lemma Octet1(x: bv32, y: bv32)
    requires ((y >> 8) & 0xFF) == ((x >> 8) & 1) + ((x >> 9) & 1) + ((x >> 10) & 1) + ((x >> 11) & 1) + ((x >> 12) & 1) + ((x >> 13) & 1) + ((x >> 14) & 1) + ((x >> 15) & 1)
    ensures (y >> 8) & 0xFF == ByteBits(x, 8)
  {
  }

  lemma Octet2(x: bv32, y: bv32)
    requires ((y >> 16) & 0xFF) == ((x >> 16) & 1) + ((x >> 17) & 1) + ((x >> 18) & 1) + ((x >> 19) & 1) + ((x >> 20) & 1) + ((x >> 21) & 1) + ((x >> 22) & 1) + ((x >> 23) & 1)
    ensures (y >> 16) & 0xFF == ByteBits(x, 16)
  {
  }

  lemma Octet3(x: bv32, y: bv32)
    requires ((y >> 24) & 0xFF) == ((x >> 24) & 1) + ((x >> 25) & 1) + ((x >> 26) & 1) + ((x >> 27) & 1) + ((x >> 28) & 1) + ((x >> 29) & 1) + ((x >> 30) & 1) + ((x >> 31) & 1)
    ensures (y >> 24) & 0xFF == ByteBits(x, 24)
  {
  }

  /** Bit `i` of `x` as a word. */
  function B(x: bv32, i: bv32): bv32
    requires i < 32
  {
    (x >> i) & 1
  }

  /** The bits `j .. j+7` of `x`, added as words. */
  function ByteBits(x: bv32, j: bv32): bv32
    requires j <= 24
  {
    B(x, j) + B(x, j + 1) + B(x, j + 2) + B(x, j + 3) + B(x, j + 4) + B(x, j + 5) + B(x, j + 6) + B(x, j + 7)
  }

  /** Bit `i` of `x` as a number. */
  function One(x: bv32, i: bv32): nat
    requires i < 32
  {
    if Bit(x, i) then 1 else 0
  }

  /** The bits `j .. j+7` of `x`, added as numbers. */
  function ByteCount(x: bv32, j: bv32): nat
    requires j <= 24
  {
    One(x, j) + One(x, j + 1) + One(x, j + 2) + One(x, j + 3) + One(x, j + 4) + One(x, j + 5) + One(x, j + 6) + One(x, j + 7)
  }

  /** Adding eight bits as words loses nothing. */
  lemma ByteInt(x: bv32, j: bv32)
    requires j <= 24
    ensures ByteBits(x, j) <= 8 && ByteBits(x, j) as int == ByteCount(x, j)
  {
  }

  // ---------------------------------------------------------------------------
  // The population count, byte by byte
  // ---------------------------------------------------------------------------

  lemma RankBytes(x: bv32)
    ensures PopCount(x) == ByteCount(x, 0) + ByteCount(x, 8) + ByteCount(x, 16) + ByteCount(x, 24)
  {
    RankByte(x, 0);
    RankByte(x, 8);
    RankByte(x, 16);
    RankByte(x, 24);
    assert Rank(x, 0) == 0;
  }

  lemma RankByte(x: bv32, j: bv32)
    requires j <= 24
    ensures Rank(x, j + 8) == Rank(x, j) + ByteCount(x, j)
  {
    RankHalf(x, j);
    RankHalf(x, j + 4);
  }

  lemma RankHalf(x: bv32, j: bv32)
    requires j <= 28
    ensures Rank(x, j + 4) == Rank(x, j) + One(x, j) + One(x, j + 1) + One(x, j + 2) + One(x, j + 3)
  {
    RankNext(x, j + 4);
    RankNext(x, j + 3);
    RankNext(x, j + 2);
    RankNext(x, j + 1);
  }
}

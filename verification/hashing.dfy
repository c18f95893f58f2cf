/**
 * The string hash and the hash mixer of the dict code.
 *
 * JavaScript strings are sequences of UTF-16 code units (`charCodeAt`), so a
 * string is a `seq<bv16>` here. Both functions are written in JavaScript
 * number semantics on `int`: `Math.imul`, `| 0` and the bitwise operators cut
 * a number to a signed 32-bit integer (`ToInt32`), and `+` on the integers
 * involved is exact.
 */
module Hashing {
  import opened Bits

  type CodeUnits = seq<bv16>

  // ---------------------------------------------------------------------------
  // 32-bit reduction of numbers
  // ---------------------------------------------------------------------------

  /** `x` and `y` are equal modulo 2^32. */
  predicate Congruent(x: int, y: int)
  {
    (x - y) % Word == 0
  }

  /** `ToInt32(x)`, what `x | 0` yields for an integral number: the signed
      32-bit integer equal to `x` modulo 2^32. */
  function ToInt32(x: int): (r: int)
    ensures -Word / 2 <= r < Word / 2
    ensures Congruent(x, r)
  {
    var u := x % Word;
    assert x == Word * (x / Word) + u;
    Signed(u)
  }

  /** Numbers equal modulo 2^32 have the same ToInt32. */
  lemma SameInt32(x: int, y: int)
    requires Congruent(x, y)
    ensures ToInt32(x) == ToInt32(y)
  {
    var q := (x - y) / Word;
    assert x == y + Word * q;
    assert x % Word == y % Word;
  }

  lemma CongruentTrans(x: int, y: int, z: int)
    requires Congruent(x, y) && Congruent(y, z)
    ensures Congruent(x, z)
  {
    var p, q := (x - y) / Word, (y - z) / Word;
    assert x - z == Word * (p + q);
  }

  /** Multiplying by `m` and adding `c` keep numbers equal modulo 2^32. */
  lemma CongruentStep(x: int, y: int, m: int, c: int)
    requires Congruent(x, y)
    ensures Congruent(m * x + c, m * y + c)
  {
    var q := (x - y) / Word;
    assert x - y == Word * q;
    assert (m * x + c) - (m * y + c) == m * (x - y) == Word * (m * q);
  }

  // ---------------------------------------------------------------------------
  // hashString
  // ---------------------------------------------------------------------------

  /** `Math.imul(a, b)`: the product cut to a signed 32-bit integer. */
  function Imul(a: int, b: int): int
  {
    ToInt32(a * b)
  }

  /** One step of `hashString`: `Math.imul(31, hash) + code | 0`. */
  function HashStep(hash: int, code: bv16): int
  {
    ToInt32(Imul(31, hash) + code as int)
  }

  /** `hashString(s)`: the steps over the code units, from 0. */
  function HashString(s: CodeUnits): int
  {
    if |s| == 0 then 0 else HashStep(HashString(s[..|s| - 1]), s[|s| - 1])
  }

  /** `hashString` as written: one loop over the code units. */
  method HashStringLoop(s: CodeUnits) returns (hash: int)
    ensures hash == HashString(s)
  {
    hash := 0;
    var i := 0;
    while i < |s|
      invariant i <= |s|
      invariant hash == HashString(s[..i])
    {
      assert s[..i + 1][..i] == s[..i];
      hash := HashStep(hash, s[i]);
      i := i + 1;
    }
    assert s[..|s|] == s;
  }

  /** `31^n`. */
  function Pow31(n: nat): nat
  {
    if n == 0 then 1 else 31 * Pow31(n - 1)
  }

  /** The string as a polynomial in 31 over the integers:
      `s[0] * 31^(n-1) + s[1] * 31^(n-2) + ... + s[n-1]`. */
  function Poly(s: CodeUnits): int
  {
    if |s| == 0 then 0 else s[0] as int * Pow31(|s| - 1) + Poly(s[1..])
  }

  /** Appending a code unit multiplies the polynomial by 31 and adds the unit. */
  lemma {:induction false} PolySnoc(s: CodeUnits, c: bv16)
    ensures Poly(s + [c]) == 31 * Poly(s) + c as int
    decreases |s|
  {
    if |s| == 0 {
      assert (s + [c])[1..] == [];
    } else {
      var t := s + [c];
      assert t[0] == s[0] && t[1..] == s[1..] + [c];
      PolySnoc(s[1..], c);
      Scale31(s[0] as int, Pow31(|s| - 1));
      assert Poly(t) == s[0] as int * Pow31(|s|) + Poly(t[1..]);
    }
  }

  lemma Scale31(x: int, n: nat)
    ensures x * (31 * n) == 31 * (x * n)
  {
  }

  /**
   * `hashString` is the string's polynomial in 31 cut to a signed 32-bit
   * integer: the cuts `Math.imul` and `| 0` make at every step do not change
   * the result modulo 2^32.
   */
  lemma {:induction false} HashStringPoly(s: CodeUnits)
    ensures HashString(s) == ToInt32(Poly(s))
    decreases |s|
  {
    if |s| > 0 {
      var init, c := s[..|s| - 1], s[|s| - 1];
      assert init + [c] == s;
      HashStringPoly(init);
      PolySnoc(init, c);
      StepPoly(Poly(init), c);
    }
  }

  /** One step of `hashString` on the cut of `p` is the cut of `31 * p + c`. */
  lemma StepPoly(p: int, c: bv16)
    ensures HashStep(ToInt32(p), c) == ToInt32(31 * p + c as int)
  {
    var h := ToInt32(p);
    // h is p modulo 2^32, so 31 * h + c and 31 * p + c agree modulo 2^32 ...
    CongruentStep(p, h, 31, c as int);
    // ... and so does imul(31, h) + c, the number `| 0` cuts.
    CongruentStep(31 * h, Imul(31, h), 1, c as int);
    CongruentTrans(31 * p + c as int, 31 * h + c as int, Imul(31, h) + c as int);
    SameInt32(31 * p + c as int, Imul(31, h) + c as int);
  }

  // ---------------------------------------------------------------------------
  // hashMerge
  // ---------------------------------------------------------------------------

  /** Bitwise xor of two naturals, one binary digit at a time. */
  function Xor(x: nat, y: nat): nat
    decreases x + y
  {
    if x == 0 && y == 0 then 0 else 2 * Xor(x / 2, y / 2) + (x % 2 + y % 2) % 2
  }

  /** `x ^ y`: the xor of the 32-bit patterns of the operands, read as a signed 32-bit integer. */
  function BitXor(x: int, y: int): int
  {
    ToInt32(Xor(x % Word, y % Word))
  }

  /** `a << 6`: the 32 bits of `a` moved up six places, read as a signed 32-bit integer. */
  function ShiftLeft6(a: int): int
  {
    ToInt32(a * 64)
  }

  /** `a >> 2`: the signed 32-bit value of `a` divided by 4, rounded down (the sign bit is copied in). */
  function ShiftRight2(a: int): int
  {
    ToInt32(a) / 4
  }

  /**
   * `hashMerge(a, b)`: `a ^ b + 2654435769 + (a << 6) + (a >> 2) | 0`. The `+`
   * operators bind tighter than `^`, their sum of integers is exact, `^` cuts
   * both operands to 32 bits and `| 0` leaves its signed result alone.
   */
  function HashMerge(a: int, b: int): (r: int)
    ensures -Word / 2 <= r < Word / 2
  {
    BitXor(a, b + 0x9E37_79B9 + ShiftLeft6(a) + ShiftRight2(a))
  }

  /** Undoes `hashMerge` for a known first hash: xor with `a`, then take the other terms away. */
  function Unmerge(a: int, r: int): int
  {
    ToInt32(BitXor(a, r) - 0x9E37_79B9 - ShiftLeft6(a) - ShiftRight2(a))
  }

  /** `Unmerge` recovers the second hash, cut to 32 bits, from `hashMerge(a, b)`. */
  lemma MergeInverse(a: int, b: int)
    ensures Unmerge(a, HashMerge(a, b)) == ToInt32(b)
  {
    var t := 0x9E37_79B9 + ShiftLeft6(a) + ShiftRight2(a);
    var s := b + t;
    assert HashMerge(a, b) == BitXor(a, s);
    XorTwice(a, s);
    CongruentStep(ToInt32(s), s, 1, -t);
    assert Congruent(ToInt32(s) - t, b);
    SameInt32(ToInt32(s) - t, b);
  }

  /** Xor with `a` twice: `a ^ (a ^ s)` is `s` cut to 32 bits. */
  lemma XorTwice(a: int, s: int)
    ensures BitXor(a, BitXor(a, s)) == ToInt32(s)
    ensures Congruent(ToInt32(s), s)
  {
    var p, q := a % Word, s % Word;
    var x := Xor(p, q);
    Pow2Word();
    XorBelow(p, q, 32);
    ToInt32Mod(x);
    XorCancel(p, q);
    ModCongruent(s);
    SameInt32(q, s);
    CongruentSym(s, ToInt32(s));
  }

  /** For a fixed first hash, `hashMerge` tells second hashes apart exactly when they differ in 32 bits. */
  lemma MergeInjective(a: int, b1: int, b2: int)
    ensures HashMerge(a, b1) == HashMerge(a, b2) <==> Congruent(b1, b2)
  {
    if HashMerge(a, b1) == HashMerge(a, b2) {
      MergeInverse(a, b1);
      MergeInverse(a, b2);
      CongruentSym(b2, ToInt32(b2));
      CongruentTrans(b1, ToInt32(b1), b2);
    } else {
      var t := 0x9E37_79B9 + ShiftLeft6(a) + ShiftRight2(a);
      if Congruent(b1, b2) {
        CongruentStep(b1, b2, 1, t);
        SameMod(b1 + t, b2 + t);
        assert false;
      }
    }
  }

  lemma CongruentSym(x: int, y: int)
    requires Congruent(x, y)
    ensures Congruent(y, x)
  {
    var q := (x - y) / Word;
    assert y - x == Word * -q;
  }

  /** Numbers equal modulo 2^32 leave the same remainder. */
  lemma SameMod(x: int, y: int)
    requires Congruent(x, y)
    ensures x % Word == y % Word
  {
    var q := (x - y) / Word;
    assert x == y + Word * q;
  }

  lemma ModCongruent(x: int)
    ensures Congruent(x % Word, x)
  {
    assert x == Word * (x / Word) + x % Word;
  }

  /** ToInt32 of a 32-bit pattern keeps its bits. */
  lemma ToInt32Mod(x: int)
    requires 0 <= x < Word
    ensures ToInt32(x) % Word == x
  {
  }

  /** `2^n`. */
  function Pow2(n: nat): nat
  {
    if n == 0 then 1 else 2 * Pow2(n - 1)
  }

  lemma Pow2Word()
    ensures Pow2(32) == Word
  {
    Pow2Plus4(0);
    Pow2Plus4(4);
    Pow2Plus4(8);
    Pow2Plus4(12);
    Pow2Plus4(16);
    Pow2Plus4(20);
    Pow2Plus4(24);
    Pow2Plus4(28);
  }

  lemma Pow2Plus4(n: nat)
    ensures Pow2(n + 4) == 16 * Pow2(n)
  {
    assert Pow2(n + 4) == 2 * Pow2(n + 3);
    assert Pow2(n + 3) == 2 * Pow2(n + 2);
    assert Pow2(n + 2) == 2 * Pow2(n + 1);
  }

  /** The xor of two `n`-bit naturals has `n` bits. */
  lemma {:induction false} XorBelow(x: nat, y: nat, n: nat)
    requires x < Pow2(n) && y < Pow2(n)
    ensures Xor(x, y) < Pow2(n)
    decreases n
  {
    if n > 0 && !(x == 0 && y == 0) {
      XorBelow(x / 2, y / 2, n - 1);
    }
  }

  lemma {:induction false} XorZero(y: nat)
    ensures Xor(0, y) == y
    decreases y
  {
    if y > 0 {
      XorZero(y / 2);
    }
  }

  /** Xor with the same number twice gives the other operand back. */
  lemma {:induction false} XorCancel(p: nat, q: nat)
    ensures Xor(p, Xor(p, q)) == q
    decreases p + q
  {
    if p == 0 {
      XorZero(q);
      XorZero(q);
    } else {
      var z := Xor(p, q);
      XorDigits(p, q);
      XorCancel(p / 2, q / 2);
      XorDigits(p, z);
      XorParity(p % 2, q % 2, z % 2);
    }
  }

  /** The low digit and the other digits of a xor. */
  lemma XorDigits(x: nat, y: nat)
    ensures Xor(x, y) / 2 == Xor(x / 2, y / 2)
    ensures Xor(x, y) % 2 == (x % 2 + y % 2) % 2
  {
    if x == 0 && y == 0 {
      assert x / 2 == 0 && y / 2 == 0;
    } else {
      var w, r := Xor(x / 2, y / 2), (x % 2 + y % 2) % 2;
      assert Xor(x, y) == 2 * w + r;
      Halves(w, r);
    }
  }

  lemma Halves(w: int, r: int)
    requires 0 <= r < 2
    ensures (2 * w + r) / 2 == w && (2 * w + r) % 2 == r
  {
  }

  /** Xor of single digits cancels too. */
  lemma XorParity(a: nat, b: nat, c: nat)
    requires a < 2 && b < 2 && c == (a + b) % 2
    ensures (a + c) % 2 == b
  {
  }
}

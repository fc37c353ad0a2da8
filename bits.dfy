/** Go's `uint16` digit masks, modelled on naturals below 2^16 with the bitwise
    operators defined bit by bit. Bit d of a usage mask stands for the digit d + 1. */
module Bits {

  /** A value of Go's `uint16`. */
  type U16 = x: int | 0 <= x < 0x1_0000

  /** ALL_BITS: the nine low bits, one per digit. */
  const AllBits: U16 := 0x1FF

  function Pow2(n: nat): (p: nat)
    ensures p >= 1
  {
    if n == 0 then 1 else 2 * Pow2(n - 1)
  }

  /** Bit i of m is set. */
  predicate BitSet(m: nat, i: nat)
  {
    Halved(m, i) % 2 == 1
  }

  /** m shifted right by i places. */
  function Halved(m: nat, i: nat): nat
  {
    if i == 0 then m else Halved(m / 2, i - 1)
  }

  /** The bitwise or `a | b`. */
  function Or(a: nat, b: nat): nat
    decreases a + b
  {
    if a == 0 && b == 0 then 0
    else 2 * Or(a / 2, b / 2) + (if a % 2 == 1 || b % 2 == 1 then 1 else 0)
  }

  /** The bitwise and `a & b`. */
  function And(a: nat, b: nat): (r: nat)
    ensures r <= a && r <= b
    decreases a + b
  {
    if a == 0 || b == 0 then 0
    else 2 * And(a / 2, b / 2) + (if a % 2 == 1 && b % 2 == 1 then 1 else 0)
  }

  /** Go's `^a` on a `uint16`: every one of the sixteen bits flipped. */
  function Not16(a: U16): (r: U16)
    ensures forall i: nat :: BitSet(r, i) <==> i < 16 && !BitSet(a, i)
  {
    NotBits(a, 0xFFFF - a);
    0xFFFF - a
  }

  /** The mask of digit d + 1, Go's `1 << d` for a digit index d. */
  function DigitBit(d: nat): (b: U16)
    requires d < 9
    ensures forall i: nat :: BitSet(b, i) <==> i == d
  {
    Pow2Bits(d);
    Pow2Monotone(d, 9);
    Pow2(d)
  }

  /** The 16-bit or of two `uint16` values, as a `uint16`. */
  function Or16(a: U16, b: U16): (r: U16)
    ensures forall i: nat :: BitSet(r, i) <==> BitSet(a, i) || BitSet(b, i)
  {
    Pow2Constants();
    OrBelow(a, b, 16);
    OrBits(a, b);
    Or(a, b)
  }

  /** The 16-bit and of two `uint16` values, as a `uint16`. */
  function And16(a: U16, b: U16): (r: U16)
    ensures r <= a && r <= b
    ensures forall i: nat :: BitSet(r, i) <==> BitSet(a, i) && BitSet(b, i)
  {
    AndBits(a, b);
    And(a, b)
  }

  /** The number of set bits among bits 0 .. n - 1 of m. */
  function CountBits(m: nat, n: nat): (k: nat)
    ensures k <= n
  {
    if n == 0 then 0 else CountBits(m, n - 1) + (if BitSet(m, n - 1) then 1 else 0)
  }

  /** The number of digits recorded in m: the population count of its nine low bits. */
  function PopCount(m: nat): (k: nat)
    ensures k <= 9
  {
    CountBits(m, 9)
  }

  /** The index of the lowest set bit of m among bits j .. 8, or -1 if they are all clear. */
  function LowestFrom(m: nat, j: nat): (d: int)
    requires j <= 9
    ensures -1 <= d < 9
    ensures d == -1 <==> forall e :: j <= e < 9 ==> !BitSet(m, e)
    ensures d != -1 ==> j <= d && BitSet(m, d) && forall e :: j <= e < d ==> !BitSet(m, e)
    decreases 9 - j
  {
    if j == 9 then -1
    else if BitSet(m, j) then
      assert !(forall e :: j <= e < 9 ==> !BitSet(m, e));
      j
    else
      var d := LowestFrom(m, j + 1);
      assert forall e :: j <= e < 9 ==> (!BitSet(m, e) <==> e == j || (j + 1 <= e && !BitSet(m, e)));
      d
  }

  /** The index of the lowest set bit of m among bits 0 .. 8, or -1 if there is none. */
  function LowestBit(m: nat): int
  {
    LowestFrom(m, 0)
  }

  // ---- bits of the operators ----

  lemma {:induction false} ZeroBits(i: nat)
    ensures !BitSet(0, i)
  {
    if i > 0 {
      ZeroBits(i - 1);
    }
  }

  lemma {:induction false} OrBit(a: nat, b: nat, i: nat)
    ensures BitSet(Or(a, b), i) <==> BitSet(a, i) || BitSet(b, i)
    decreases i
  {
    if a == 0 && b == 0 {
      ZeroBits(i);
    } else if i > 0 {
      OrBit(a / 2, b / 2, i - 1);
    }
  }

  lemma OrBits(a: nat, b: nat)
    ensures forall i: nat :: BitSet(Or(a, b), i) <==> BitSet(a, i) || BitSet(b, i)
  {
    forall i: nat
      ensures BitSet(Or(a, b), i) <==> BitSet(a, i) || BitSet(b, i)
    {
      OrBit(a, b, i);
    }
  }

  lemma {:induction false} AndBit(a: nat, b: nat, i: nat)
    ensures BitSet(And(a, b), i) <==> BitSet(a, i) && BitSet(b, i)
    decreases i
  {
    if a == 0 || b == 0 {
      ZeroBits(i);
      ZeroBits(if a == 0 then i else 0);
      if i > 0 {
        ZeroBits(i - 1);
      }
    } else if i > 0 {
      AndBit(a / 2, b / 2, i - 1);
    }
  }

  lemma AndBits(a: nat, b: nat)
    ensures forall i: nat :: BitSet(And(a, b), i) <==> BitSet(a, i) && BitSet(b, i)
  {
    forall i: nat
      ensures BitSet(And(a, b), i) <==> BitSet(a, i) && BitSet(b, i)
    {
      AndBit(a, b, i);
    }
  }

  lemma {:induction false} Pow2Bit(n: nat, i: nat)
    ensures BitSet(Pow2(n), i) <==> i == n
    decreases n
  {
    if n == 0 {
      if i > 0 {
        ZeroBits(i - 1);
      }
    } else if i > 0 {
      Pow2Bit(n - 1, i - 1);
    }
  }

  lemma Pow2Bits(n: nat)
    ensures forall i: nat :: BitSet(Pow2(n), i) <==> i == n
  {
    forall i: nat
      ensures BitSet(Pow2(n), i) <==> i == n
    {
      Pow2Bit(n, i);
    }
  }

  lemma {:induction false} Pow2Monotone(m: nat, n: nat)
    requires m < n
    ensures 2 * Pow2(m) <= Pow2(n)
    decreases n
  {
    if m + 1 < n {
      Pow2Monotone(m, n - 1);
    }
  }

  /** The two powers of two the model needs as constants: 2^9 bounds the nine-bit masks
      and 2^16 bounds a `uint16`. */
  lemma Pow2Constants()
    ensures Pow2(9) == 0x200 && Pow2(16) == 0x1_0000
  {
    assert Pow2(4) == 16;
    assert Pow2(9) == 512;
    assert Pow2(12) == 4096;
  }

  lemma {:induction false} OrBelow(a: nat, b: nat, n: nat)
    requires a < Pow2(n) && b < Pow2(n)
    ensures Or(a, b) < Pow2(n)
    decreases n
  {
    if n > 0 && !(a == 0 && b == 0) {
      OrBelow(a / 2, b / 2, n - 1);
    }
  }

  // ---- single-bit unfolding ----

  lemma BitSetHalf(m: nat, i: nat)
    ensures BitSet(m, 0) <==> m % 2 == 1
    ensures BitSet(m, i + 1) <==> BitSet(m / 2, i)
  {
  }

  /** The bits of Pow2(n) - 1 - a are the complement of those of a among bits 0 .. n - 1. */
  lemma {:induction false} ComplementBit(a: nat, n: nat, i: nat)
    requires a < Pow2(n)
    ensures BitSet(Pow2(n) - 1 - a, i) <==> i < n && !BitSet(a, i)
    decreases n
  {
    if n == 0 {
      ZeroBits(i);
    } else {
      var x := Pow2(n) - 1 - a;
      assert x == 2 * (Pow2(n - 1) - 1 - a / 2) + (1 - a % 2);
      if i > 0 {
        BitSetHalf(x, i - 1);
        BitSetHalf(a, i - 1);
        ComplementBit(a / 2, n - 1, i - 1);
      }
    }
  }

  lemma NotBits(a: U16, r: nat)
    requires r == 0xFFFF - a
    ensures forall i: nat :: BitSet(r, i) <==> i < 16 && !BitSet(a, i)
  {
    Pow2Constants();
    forall i: nat
      ensures BitSet(r, i) <==> i < 16 && !BitSet(a, i)
    {
      ComplementBit(a, 16, i);
    }
  }

  /** A value below 2^n has no set bit at or above n. */
  lemma {:induction false} BelowBit(m: nat, n: nat, i: nat)
    requires m < Pow2(n) && n <= i
    ensures !BitSet(m, i)
    decreases n
  {
    if n == 0 {
      ZeroBits(i);
    } else {
      BitSetHalf(m, i - 1);
      BelowBit(m / 2, n - 1, i - 1);
    }
  }

  /** Two naturals with the same bits are equal. */
  lemma {:induction false} BitsEqual(a: nat, b: nat)
    requires forall i: nat :: BitSet(a, i) <==> BitSet(b, i)
    ensures a == b
    decreases a + b
  {
    if a != 0 || b != 0 {
      BitSetHalf(a, 0);
      BitSetHalf(b, 0);
      forall i: nat
        ensures BitSet(a / 2, i) <==> BitSet(b / 2, i)
      {
        BitSetHalf(a, i);
        BitSetHalf(b, i);
      }
      BitsEqual(a / 2, b / 2);
    }
  }

  /** A natural is zero exactly when none of its bits is set. */
  lemma ZeroIffNoBits(m: nat)
    ensures m == 0 <==> forall i: nat :: !BitSet(m, i)
  {
    if forall i: nat :: !BitSet(m, i) {
      forall i: nat
        ensures BitSet(m, i) <==> BitSet(0, i)
      {
        ZeroBits(i);
      }
      BitsEqual(m, 0);
    } else {
      forall i: nat
        ensures !BitSet(0, i)
      {
        ZeroBits(i);
      }
    }
  }

  /** ALL_BITS has exactly the nine digit bits set. */
  lemma AllBitsBits()
    ensures forall i: nat :: BitSet(AllBits, i) <==> i < 9
  {
    Pow2Constants();
    forall i: nat
      ensures BitSet(AllBits, i) <==> i < 9
    {
      ComplementBit(0, 9, i);
      ZeroBits(i);
    }
  }

  /** A mask within the nine low bits is zero exactly when none of bits 0 .. 8 is set. */
  lemma NineBitZero(m: nat)
    requires m <= AllBits
    ensures m == 0 <==> forall i: nat :: 0 <= i < 9 ==> !BitSet(m, i)
  {
    Pow2Constants();
    forall i: nat | 9 <= i
      ensures !BitSet(m, i)
    {
      BelowBit(m, 9, i);
    }
    ZeroIffNoBits(m);
  }

  /** A `uint16` has no set bit at or above 16. */
  lemma U16Bits(m: U16)
    ensures forall i: nat :: 16 <= i ==> !BitSet(m, i)
  {
    Pow2Constants();
    forall i: nat | 16 <= i
      ensures !BitSet(m, i)
    {
      BelowBit(m, 16, i);
    }
  }

  // ---- the mask operations the solver performs ----

  /** `i & (1 << j) != 0`, the table loops' bit test, holds exactly when bit j of m is set. */
  lemma AndPow2(m: nat, j: nat)
    ensures And(m, Pow2(j)) != 0 <==> BitSet(m, j)
  {
    AndBits(m, Pow2(j));
    Pow2Bits(j);
    ZeroIffNoBits(And(m, Pow2(j)));
  }

  /** Clearing a bit that setting it added gives back the original mask: the masks half
      of clearCell undoing setCell. */
  lemma ClearAfterSet(m: U16, d: nat)
    requires d < 9 && !BitSet(m, d)
    ensures And16(Or16(m, DigitBit(d)), Not16(DigitBit(d))) == m
  {
    U16Bits(m);
    BitsEqual(And16(Or16(m, DigitBit(d)), Not16(DigitBit(d))), m);
  }

  /** Clearing a set bit makes the mask strictly smaller: the measure of solve's loop. */
  lemma ClearDecreases(m: U16, d: nat)
    requires d < 9 && BitSet(m, d)
    ensures And16(m, Not16(DigitBit(d))) < m
  {
    var r := And16(m, Not16(DigitBit(d)));
    assert !BitSet(r, d);
  }

  /** The candidate mask ^(a | b | c) & ALL_BITS has bit i set exactly when i is a digit
      index that none of a, b, c records. */
  lemma ComplementMask(a: U16, b: U16, c: U16)
    ensures And16(Not16(Or16(Or16(a, b), c)), AllBits) <= AllBits
    ensures forall i: nat :: BitSet(And16(Not16(Or16(Or16(a, b), c)), AllBits), i) <==>
      i < 9 && !BitSet(a, i) && !BitSet(b, i) && !BitSet(c, i)
  {
    AllBitsBits();
  }

  /** CountBits is zero exactly when none of the counted bits is set. */
  lemma {:induction false} CountBitsZero(m: nat, n: nat)
    ensures CountBits(m, n) == 0 <==> forall e :: 0 <= e < n ==> !BitSet(m, e)
  {
    if n > 0 {
      CountBitsZero(m, n - 1);
    }
  }

  /** A nine-bit mask has no digits counted exactly when it is zero. */
  lemma PopCountZero(m: nat)
    requires m <= AllBits
    ensures PopCount(m) == 0 <==> m == 0
  {
    CountBitsZero(m, 9);
    NineBitZero(m);
  }

  /** LowestBit gives the least digit index recorded in a nine-bit mask, and -1 exactly for
      the empty mask. */
  lemma LowestBitSpec(m: nat)
    requires m <= AllBits
    ensures LowestBit(m) == -1 <==> m == 0
    ensures m != 0 ==> 0 <= LowestBit(m) < 9 && BitSet(m, LowestBit(m))
    ensures m != 0 ==> forall e :: 0 <= e < LowestBit(m) ==> !BitSet(m, e)
  {
    NineBitZero(m);
  }

  /** Taking the lowest bit out of a mask whose bit i, from lo up, records digit i + 1 of
      s: that bit is the least such digit's, and the rest records the digits above it. */
  lemma DropLowest(m: U16, lo: nat, s: set<int>)
    requires m <= AllBits && m != 0
    requires forall i: nat :: BitSet(m, i) <==> lo <= i < 9 && i + 1 in s
    ensures lo <= LowestBit(m) < 9 && LowestBit(m) + 1 in s
    ensures forall v :: lo < v <= LowestBit(m) ==> v !in s
    ensures forall i: nat :: BitSet(And16(m, Not16(DigitBit(LowestBit(m)))), i) <==> LowestBit(m) < i < 9 && i + 1 in s
    ensures And16(m, Not16(DigitBit(LowestBit(m)))) < m
  {
    var d := LowestBit(m);
    LowestBitSpec(m);
    ClearDecreases(m, d);
    assert BitSet(m, d);
    forall v | lo < v <= d
      ensures v !in s
    {
      assert !BitSet(m, v - 1);
    }
    var r := And16(m, Not16(DigitBit(d)));
    forall i: nat
      ensures BitSet(r, i) <==> d < i < 9 && i + 1 in s
    {
      assert BitSet(r, i) <==> BitSet(m, i) && i != d;
      assert i < d ==> !BitSet(m, i);
    }
  }
}

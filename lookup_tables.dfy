/** The lookup tables built once by `init`: for every nine-bit mask, how many digits it
    records and which is the lowest. */
module LookupTables {
  import opened Bits

  /** The number of nine-bit masks. */
  const MaskCount := 512

  class Tables {
    /** bitCount[m]: the number of set bits among bits 0 .. 8 of m. */
    const bitCount: array<int>
    /** firstDigit[m]: the index of the lowest set bit of m, or -1 when m is zero. */
    const firstDigit: array<int>

    ghost predicate Valid()
      reads this, bitCount, firstDigit
    {
      bitCount.Length == MaskCount && firstDigit.Length == MaskCount &&
      (forall m :: 0 <= m < MaskCount ==> bitCount[m] == PopCount(m)) &&
      (forall m :: 0 <= m < MaskCount ==> firstDigit[m] == LowestBit(m))
    }

    /** `init` as main.go writes it: one pass counting bits, then one pass finding the
        lowest bit. */
    constructor SeparateLoops()
      ensures Valid()
    {
      var counts := new int[MaskCount];
      var firsts := new int[MaskCount];
      var i := 0;
      while i < MaskCount
        invariant 0 <= i <= MaskCount
        invariant forall m :: 0 <= m < i ==> counts[m] == PopCount(m)
      {
        counts[i] := CountSetBits(i);
        i := i + 1;
      }
      i := 0;
      while i < MaskCount
        invariant 0 <= i <= MaskCount
        invariant forall m :: 0 <= m < MaskCount ==> counts[m] == PopCount(m)
        invariant forall m :: 0 <= m < i ==> firsts[m] == LowestBit(m)
      {
        firsts[i] := FindFirstBit(i);
        i := i + 1;
      }
      bitCount := counts;
      firstDigit := firsts;
    }

    /** `init` as singleThread.go writes it: one pass over the masks computing both
        entries. */
    constructor CombinedLoop()
      ensures Valid()
    {
      var counts := new int[MaskCount];
      var firsts := new int[MaskCount];
      var i := 0;
      while i < MaskCount
        invariant 0 <= i <= MaskCount
        invariant forall m :: 0 <= m < i ==> counts[m] == PopCount(m)
        invariant forall m :: 0 <= m < i ==> firsts[m] == LowestBit(m)
      {
        var count, first := CountAndFindFirst(i);
        counts[i] := count;
        firsts[i] := first;
        i := i + 1;
      }
      bitCount := counts;
      firstDigit := firsts;
    }
  }

  /** The inner loop of main.go's first table pass: counts the j in 0 .. 8 with
      `i & (1 << j) != 0`. */
  method CountSetBits(i: nat) returns (count: int)
    ensures count == PopCount(i)
    ensures 0 <= count <= 9
  {
    count := 0;
    var j := 0;
    while j < 9
      invariant 0 <= j <= 9
      invariant count == CountBits(i, j)
    {
      AndPow2(i, j);
      if And(i, Pow2(j)) != 0 {
        count := count + 1;
      }
      j := j + 1;
    }
  }

  /** The inner loop of main.go's second table pass: the first j in 0 .. 8 with
      `i & (1 << j) != 0`, found with an early `break`, or -1. */
  method FindFirstBit(i: nat) returns (first: int)
    ensures first == LowestBit(i)
    ensures first == -1 <==> forall e :: 0 <= e < 9 ==> !BitSet(i, e)
    ensures first != -1 ==> 0 <= first < 9 && BitSet(i, first)
  {
    first := -1;
    var j := 0;
    while j < 9
      invariant 0 <= j <= 9
      invariant forall e :: 0 <= e < j ==> !BitSet(i, e)
    {
      AndPow2(i, j);
      if And(i, Pow2(j)) != 0 {
        first := j;
        break;
      }
      j := j + 1;
    }
    LowestBitIs(i, first);
  }

  /** The inner loop of singleThread.go's table pass: the bit count and the first set bit
      of i, tracked together over j in 0 .. 8. */
  method CountAndFindFirst(i: nat) returns (count: int, first: int)
    ensures count == PopCount(i)
    ensures first == LowestBit(i)
    ensures first == -1 <==> count == 0
  {
    count := 0;
    first := -1;
    var j := 0;
    while j < 9
      invariant 0 <= j <= 9
      invariant count == CountBits(i, j)
      invariant first == -1 ==> forall e :: 0 <= e < j ==> !BitSet(i, e)
      invariant first != -1 ==> 0 <= first < j && BitSet(i, first) && (forall e :: 0 <= e < first ==> !BitSet(i, e))
    {
      AndPow2(i, j);
      if And(i, Pow2(j)) != 0 {
        if first == -1 {
          first := j;
        }
        count := count + 1;
      }
      j := j + 1;
    }
    LowestBitIs(i, first);
    CountBitsZero(i, 9);
  }

  /** The lowest set bit is the one below which every bit is clear; -1 when bits 0 .. 8
      are all clear. */
  lemma LowestBitIs(m: nat, d: int)
    requires -1 <= d < 9
    requires d == -1 ==> forall e :: 0 <= e < 9 ==> !BitSet(m, e)
    requires d != -1 ==> BitSet(m, d) && forall e :: 0 <= e < d ==> !BitSet(m, e)
    ensures LowestBit(m) == d
  {
  }
}

/** The 64-bit result of filling a window: two `jint`s in one `jlong`. */
module PackedResult {
  import opened Machine

  const WORD := 0x1_0000_0000

  /** The result as a number; `WordIsPack` ties it to the shift and bitwise or of the code. */
  function Pack(iStart: count, nRow: count): int {
    iStart * WORD + nRow
  }

  /** What a caller reads from the upper and the lower half. */
  function StartOf(word: int): int {
    word / WORD
  }

  function CountOf(word: int): int {
    word % WORD
  }

  /** The word fits a `jlong` and gives back both integers, so different pairs give different words. */
  lemma Unpack(iStart: count, nRow: count)
    ensures 0 <= Pack(iStart, nRow) < 0x8000_0000_0000_0000
    ensures StartOf(Pack(iStart, nRow)) == iStart && CountOf(Pack(iStart, nRow)) == nRow
  {
  }

  // ---------- the expression of the code, on bit patterns ----------

  /** Not negative as a `jint`. */
  predicate IsCount(b: bv64) {
    b < 0x8000_0000
  }

  /** The shift and the or, for two `jint`s already converted to `jlong`. */
  function Bits(iStart: bv64, nRow: bv64): bv64 {
    (iStart << 32) | nRow
  }

  function UpperHalf(word: bv64): bv64 {
    word >> 32
  }

  function LowerHalf(word: bv64): bv64 {
    word & 0xffff_ffff
  }

  /** When the count is not negative, the or is a sum. */
  lemma ShiftOrIsSum(iStart: bv64, nRow: bv64)
    requires IsCount(nRow)
    ensures Bits(iStart, nRow) == (iStart << 32) + nRow
  {
  }

  /** When neither is negative, the word is not, and its halves are the two patterns. */
  lemma HalvesOfBits(iStart: bv64, nRow: bv64)
    requires IsCount(iStart) && IsCount(nRow)
    ensures Bits(iStart, nRow) < 0x8000_0000_0000_0000
    ensures UpperHalf(Bits(iStart, nRow)) == iStart && LowerHalf(Bits(iStart, nRow)) == nRow
  {
  }

  /** A negative count, being sign-extended, wipes out the start: every start is read back as -1. */
  lemma NegativeCountHidesStart(iStart: bv64, nRow: bv64)
    requires nRow >= 0xffff_ffff_8000_0000
    ensures UpperHalf(Bits(iStart, nRow)) == 0xffff_ffff
  {
  }

  // ---------- bit patterns as numbers ----------

  function Half(b: bv64): bv64 {
    b >> 1
  }

  function Twice(b: bv64): bv64 {
    b << 1
  }

  predicate Odd(b: bv64) {
    b & 1 == 1
  }

  function Next(b: bv64): bv64 {
    b + 1
  }

  function Or(a: bv64, b: bv64): bv64 {
    a | b
  }

  predicate Disjoint(a: bv64, b: bv64) {
    a & b == 0
  }

  lemma HalfIsLess(b: bv64)
    requires b != 0
    ensures Half(b) < b && (Half(b) == 0 ==> Odd(b))
  {
  }

  /** The number a bit pattern stands for, in binary. */
  function Number(b: bv64): (n: nat)
    ensures n == 0 <==> b == 0
    decreases b
  {
    if b == 0 then 0
    else
      HalfIsLess(b);
      2 * Number(Half(b)) + if Odd(b) then 1 else 0
  }

  lemma ByHalf(b: bv64)
    ensures Number(b) == 2 * Number(Half(b)) + if Odd(b) then 1 else 0
  {
  }

  lemma AfterEven(b: bv64)
    requires !Odd(b)
    ensures Half(Next(b)) == Half(b) && Odd(Next(b))
  {
  }

  lemma AfterOdd(b: bv64)
    requires Odd(b) && b != 0xffff_ffff_ffff_ffff
    ensures Half(Next(b)) == Next(Half(b)) && !Odd(Next(b))
  {
  }

  lemma HalfIsNotLast(b: bv64)
    ensures Half(b) != 0xffff_ffff_ffff_ffff
  {
  }

  lemma {:induction false} Increment(b: bv64)
    requires b != 0xffff_ffff_ffff_ffff
    ensures Number(Next(b)) == Number(b) + 1
    decreases Number(b)
  {
    hide *;
    ByHalf(b);
    ByHalf(Next(b));
    if Odd(b) {
      AfterOdd(b);
      HalfIsNotLast(b);
      Increment(Half(b));
    } else {
      AfterEven(b);
    }
  }

  lemma HalfOfOr(a: bv64, b: bv64)
    ensures Half(Or(a, b)) == Or(Half(a), Half(b))
  {
  }

  lemma OddOr(a: bv64, b: bv64)
    ensures Odd(Or(a, b)) <==> Odd(a) || Odd(b)
  {
  }

  lemma DisjointHalves(a: bv64, b: bv64)
    requires Disjoint(a, b)
    ensures Disjoint(Half(a), Half(b)) && !(Odd(a) && Odd(b))
  {
  }

  lemma OrIsZero(a: bv64, b: bv64)
    requires Or(a, b) == 0
    ensures a == 0 && b == 0
  {
  }

  lemma {:induction false} DisjointSum(a: bv64, b: bv64)
    requires Disjoint(a, b)
    ensures Number(Or(a, b)) == Number(a) + Number(b)
    decreases Number(Or(a, b))
  {
    hide *;
    if Or(a, b) == 0 {
      OrIsZero(a, b);
    } else {
      HalfOfOr(a, b);
      OddOr(a, b);
      DisjointHalves(a, b);
      ByHalf(a);
      ByHalf(b);
      ByHalf(Or(a, b));
      DisjointSum(Half(a), Half(b));
    }
  }

  lemma TwiceBack(b: bv64)
    requires b < 0x8000_0000_0000_0000
    ensures Half(Twice(b)) == b && !Odd(Twice(b))
  {
  }

  lemma ShiftedBy2(b: bv64)
    requires b < 0x4000_0000_0000_0000
    ensures Number(b << 2) == 4 * Number(b)
  {
    assert Twice(b) < 0x8000_0000_0000_0000 && Twice(Twice(b)) == b << 2;
    hide *;
    TwiceBack(b);
    TwiceBack(Twice(b));
    ByHalf(Twice(b));
    ByHalf(Twice(Twice(b)));
  }

  lemma ShiftedBy4(b: bv64)
    requires b < 0x1000_0000_0000_0000
    ensures Number(b << 4) == 0x10 * Number(b)
  {
    assert b << 2 < 0x4000_0000_0000_0000 && (b << 2) << 2 == b << 4;
    hide *;
    ShiftedBy2(b);
    ShiftedBy2(b << 2);
  }

  lemma ShiftedBy8(b: bv64)
    requires b < 0x100_0000_0000_0000
    ensures Number(b << 8) == 0x100 * Number(b)
  {
    assert b << 4 < 0x1000_0000_0000_0000 && (b << 4) << 4 == b << 8;
    hide *;
    ShiftedBy4(b);
    ShiftedBy4(b << 4);
  }

  lemma ShiftedBy16(b: bv64)
    requires b < 0x1_0000_0000_0000
    ensures Number(b << 16) == 0x1_0000 * Number(b)
  {
    assert b << 8 < 0x100_0000_0000_0000 && (b << 8) << 8 == b << 16;
    hide *;
    ShiftedBy8(b);
    ShiftedBy8(b << 8);
  }

  lemma ShiftedBy32(b: bv64)
    requires b < 0x1_0000_0000
    ensures Number(b << 32) == WORD * Number(b)
  {
    assert b << 16 < 0x1_0000_0000_0000 && (b << 16) << 16 == b << 32;
    hide *;
    ShiftedBy16(b);
    ShiftedBy16(b << 16);
  }

  /** A non-negative `jint` as a `jlong`, its pattern counted up from zero. */
  function Jlong(n: nat): bv64 {
    if n == 0 then 0 else Next(Jlong(n - 1))
  }

  lemma LargestJint()
    ensures Number(0x7fff_ffff) == 0x7fff_ffff
  {
    assert Number(0x80) == 0x80 && 0x80 << 8 == 0x8000 as bv64 && 0x8000 << 16 == 0x8000_0000 as bv64;
    assert Next(0x7fff_ffff) == 0x8000_0000;
    hide *;
    ShiftedBy8(0x80);
    ShiftedBy16(0x8000);
    Increment(0x7fff_ffff);
  }

  lemma NextIsCount(b: bv64)
    requires IsCount(b) && b != 0x7fff_ffff
    ensures IsCount(Next(b)) && b != 0xffff_ffff_ffff_ffff
  {
  }

  lemma Successor(b: bv64)
    requires IsCount(b) && Number(b) < 0x7fff_ffff
    ensures IsCount(Next(b)) && Number(Next(b)) == Number(b) + 1
  {
    hide *;
    LargestJint();
    NextIsCount(b);
    Increment(b);
  }

  lemma {:induction false} JlongIsNumber(n: count)
    ensures IsCount(Jlong(n)) && Number(Jlong(n)) == n
  {
    if n > 0 {
      JlongIsNumber(n - 1);
      Successor(Jlong(n - 1));
    }
  }

  lemma BitsIsSum(iStart: bv64, nRow: bv64)
    requires IsCount(iStart) && IsCount(nRow)
    ensures Number(Bits(iStart, nRow)) == Number(iStart) * WORD + Number(nRow)
  {
    assert Disjoint(iStart << 32, nRow) && Bits(iStart, nRow) == Or(iStart << 32, nRow);
    hide *;
    DisjointSum(iStart << 32, nRow);
    ShiftedBy32(iStart);
  }

  /** The word of the code stands for `Pack`, and its halves for the two integers. */
  lemma WordIsPack(iStart: count, nRow: count)
    ensures Number(Bits(Jlong(iStart), Jlong(nRow))) == Pack(iStart, nRow) == iStart * 0x1_0000_0000 + nRow
    ensures Number(UpperHalf(Bits(Jlong(iStart), Jlong(nRow)))) == iStart
    ensures Number(LowerHalf(Bits(Jlong(iStart), Jlong(nRow)))) == nRow
  {
    hide Number, Bits, UpperHalf, LowerHalf, Jlong, IsCount;
    JlongIsNumber(iStart);
    JlongIsNumber(nRow);
    BitsIsSum(Jlong(iStart), Jlong(nRow));
    HalvesOfBits(Jlong(iStart), Jlong(nRow));
  }
}

/** Byte-level helpers shared by the kernels: byte masks, single-bit tests and
    the popcount parity that the autoscheduled workload applies to each cell. */
module Bytes {

  /** The expanded form of one bitmatrix bit: every bit of the byte set, or none. */
  predicate IsMask(b: bv8) {
    b == 0x00 || b == 0xFF
  }

  /** Widens a bit into a byte mask (`0xFF` when set, `0x00` otherwise). */
  function Mask(bit: bool): (r: bv8)
    ensures IsMask(r)
    ensures r != 0 <==> bit
  {
    if bit then 0xFF else 0x00
  }

  /** ANDing with a mask either keeps the byte or clears it: the mask acts as a selector. */
  lemma MaskSelects(bit: bool, b: bv8)
    ensures Mask(bit) & b == (if bit then b else 0)
  {
  }

  /** `1 << s` in a byte, written out so that the solver sees a constant per position. */
  function BitWeight(s: nat): (w: bv8)
    requires s < 8
    ensures w != 0 && w & (w - 1) == 0
  {
    if s == 0 then 0x01 else if s == 1 then 0x02 else if s == 2 then 0x04
    else if s == 3 then 0x08 else if s == 4 then 0x10 else if s == 5 then 0x20
    else if s == 6 then 0x40 else 0x80
  }

  /** Bit `s` of a byte, 0 being the least significant. */
  predicate BitSet(b: bv8, s: nat)
    requires s < 8
  {
    b & BitWeight(s) != 0
  }

  /** Number of set bits among the `n` least significant bits of `b`. */
  function CountBits(b: bv8, n: nat): (c: nat)
    requires n <= 8
    ensures c <= n
    ensures b == 0 ==> c == 0
  {
    if n == 0 then 0 else CountBits(b, n - 1) + (if BitSet(b, n - 1) then 1 else 0)
  }

  /** Population count of a byte, as `te.popcount` and `int.bit_count` compute it. */
  function PopCount(b: bv8): (c: nat)
    ensures c <= 8
    ensures b == 0 ==> c == 0
  {
    CountBits(b, 8)
  }

  /** `popcount(b) & 1`: the low bit of the population count, taken in the byte's own width. */
  function Parity(b: bv8): (r: bv8)
    ensures r == 0 || r == 1
    ensures b == 0 ==> r == 0
  {
    (PopCount(b) as bv8) & 1
  }

  /** `& 1` on the (at most 8) popcount is the count modulo two. */
  lemma ParityIsOddCount(b: bv8)
    ensures Parity(b) == (if PopCount(b) % 2 == 1 then 1 else 0)
  {
    var p := PopCount(b);
    if p == 0 {} else if p == 1 {} else if p == 2 {} else if p == 3 {}
    else if p == 4 {} else if p == 5 {} else if p == 6 {} else if p == 7 {}
    else {
      assert p == 8;
    }
  }

  lemma BitSetXor(x: bv8, y: bv8, s: nat)
    requires s < 8
    ensures BitSet(x ^ y, s) <==> BitSet(x, s) != BitSet(y, s)
  {
    SingleBitXor(x, y, BitWeight(s));
  }

  lemma SingleBitXor(x: bv8, y: bv8, w: bv8)
    requires w != 0 && w & (w - 1) == 0
    ensures ((x ^ y) & w != 0) == ((x & w != 0) != (y & w != 0))
  {
  }

  /** Adding one more bit to each count keeps the counts' parities in step. */
  lemma ParityStep(cxy: nat, cx: nat, cy: nat, bitX: bool, bitY: bool)
    requires cxy % 2 == (cx + cy) % 2
    ensures (cxy + (if bitX != bitY then 1 else 0)) % 2
         == ((cx + (if bitX then 1 else 0)) + (cy + (if bitY then 1 else 0))) % 2
  {
  }

  /** The number of set bits of `x ^ y` has the parity of the set bits of `x` and `y` together. */
  lemma {:induction false} CountBitsXor(x: bv8, y: bv8, n: nat)
    requires n <= 8
    ensures CountBits(x ^ y, n) % 2 == (CountBits(x, n) + CountBits(y, n)) % 2
  {
    if n > 0 {
      var z := x ^ y;
      CountBitsXor(x, y, n - 1);
      var bitX, bitY, bitZ := BitSet(x, n - 1), BitSet(y, n - 1), BitSet(z, n - 1);
      BitSetXor(x, y, n - 1);
      assert bitZ == (bitX != bitY);
      ParityStep(CountBits(z, n - 1), CountBits(x, n - 1), CountBits(y, n - 1), bitX, bitY);
    }
  }

  /** The low bit of a sum of two counts is the XOR of their low bits. */
  lemma OddSum(cz: nat, cx: nat, cy: nat)
    requires cz % 2 == (cx + cy) % 2
    ensures (if cz % 2 == 1 then 1 else 0) as bv8
         == ((if cx % 2 == 1 then 1 else 0) as bv8) ^ ((if cy % 2 == 1 then 1 else 0) as bv8)
  {
  }

  /** Popcount parity distributes over XOR. */
  lemma {:induction false} ParityXor(x: bv8, y: bv8)
    ensures Parity(x ^ y) == Parity(x) ^ Parity(y)
  {
    CountBitsXor(x, y, 8);
    ParityIsOddCount(x);
    ParityIsOddCount(y);
    ParityIsOddCount(x ^ y);
    OddSum(PopCount(x ^ y), PopCount(x), PopCount(y));
  }
}

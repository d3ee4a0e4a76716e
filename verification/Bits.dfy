/** The bits of a 64-bit value, and what XOR does to each of them. */
module Bits {

  function XorOf(a: bv64, b: bv64): bv64 {
    a ^ b
  }

  predicate LowBit(v: bv64) {
    v & 1 == 1
  }

  function Half(v: bv64): bv64 {
    v >> 1
  }

  /** Bit i of a value. */
  predicate Bit(v: bv64, i: nat) {
    if i == 0 then LowBit(v) else Bit(Half(v), i - 1)
  }

  lemma HalfXor(a: bv64, b: bv64)
    ensures Half(XorOf(a, b)) == XorOf(Half(a), Half(b))
  {
  }

  lemma LowBitXor(a: bv64, b: bv64)
    ensures LowBit(XorOf(a, b)) <==> LowBit(a) != LowBit(b)
  {
  }

  /** A bit of a XOR b is set if and only if it is set in exactly one of them. */
  lemma {:induction false} BitXor(a: bv64, b: bv64, i: nat)
    ensures Bit(XorOf(a, b), i) <==> Bit(a, i) != Bit(b, i)
    decreases i
  {
    hide XorOf, LowBit, Half;
    LowBitXor(a, b);
    if i > 0 {
      HalfXor(a, b);
      BitXor(Half(a), Half(b), i - 1);
    }
  }

  lemma ZeroHalf()
    ensures Half(0) == 0 && !LowBit(0)
  {
  }

  lemma {:induction false} ZeroBit(i: nat)
    ensures !Bit(0, i)
    decreases i
  {
    hide LowBit, Half;
    ZeroHalf();
    if i > 0 {
      ZeroBit(i - 1);
    }
  }

  lemma XorAssoc(a: bv64, b: bv64, c: bv64)
    ensures XorOf(a, XorOf(b, c)) == XorOf(XorOf(a, b), c)
  {
  }

  lemma XorZero(v: bv64)
    ensures XorOf(0, v) == v && XorOf(v, 0) == v
  {
  }
}

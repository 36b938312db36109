/**
 * The 64-bit finaliser mix `hash64` (grouping_policy_hash.c): two rounds of
 * xor-shift and multiplication by an odd constant, then a final xor-shift.
 */
module Mixer {
  function Hash64(x: bv64): bv64
  {
    var x1 := x ^ (x >> 30);
    var x2 := x1 * 0xbf58476d1ce4e5b9;
    var x3 := x2 ^ (x2 >> 27);
    var x4 := x3 * 0x94d049bb133111eb;
    x4 ^ (x4 >> 31)
  }

  /**
   * Known answers of the mixer: zero is a fixed point, and the zero-extended
   * and the sign-extended 16-bit -1 hash differently.
   */
  lemma {:induction false} Hash64KnownAnswers()
    ensures Hash64(0) == 0
    ensures Hash64(1) == 0x5692161d100b05e5
    ensures Hash64(2) == 0xdbd238973a2b148a
    ensures Hash64(0xFFFF) == 0xb2647e0ec6567475
    ensures Hash64(0xFFFF_FFFF_FFFF_FFFF) == 0xb4d055fcf2cbbd7b
  {
  }
}

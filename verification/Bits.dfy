// Bits of a byte and the number it stands for.
module Bits {
  function Weight(bit: nat): nat
    requires bit <= 7
  {
    [1, 2, 4, 8, 16, 32, 64, 128][bit]
  }

  lemma {:induction false} ShiftDivides(b: bv8, bit: nat)
    requires bit <= 7
    ensures (b >> (bit as bv8)) as int == b as int / Weight(bit)
  {
    if bit < 2 {
      assert (b >> 0) as int == b as int;
      assert (b >> 1) as int == b as int / 2;
    } else if bit < 4 {
      ShiftDividesMiddle(b, bit);
    } else {
      ShiftDividesHigh(b, bit);
    }
  }

  lemma {:induction false} ShiftDividesMiddle(b: bv8, bit: nat)
    requires 2 <= bit < 4
    ensures (b >> (bit as bv8)) as int == b as int / Weight(bit)
  {
    assert (b >> 2) as int == b as int / 4;
    assert (b >> 3) as int == b as int / 8;
  }

  lemma {:induction false} ShiftDividesHigh(b: bv8, bit: nat)
    requires 4 <= bit < 8
    ensures (b >> (bit as bv8)) as int == b as int / Weight(bit)
  {
    assert (b >> 4) as int == b as int / 16;
    assert (b >> 5) as int == b as int / 32;
    assert (b >> 6) as int == b as int / 64;
    assert (b >> 7) as int == b as int / 128;
  }

  lemma {:induction false} LowBitIsOdd(b: bv8)
    ensures b & 1 == 1 <==> b as int % 2 == 1
  {
  }

  lemma {:induction false} BitsOfNumber(n: nat)
    requires n < 256
    ensures (n as bv8) as int == n
  {
    if n < 64 {
      assert (n as bv8) as int == n;
    } else if n < 128 {
      assert (n as bv8) as int == n;
    } else if n < 192 {
      assert (n as bv8) as int == n;
    } else {
      assert (n as bv8) as int == n;
    }
  }
}

/** Bytes as numbers: a uint8_t holds the numbers 0..255, and converting
    between the two loses nothing. */
module Bytes {

  /** The byte reached by counting up k times from 0. */
  function Count8(k: nat): bv8
    requires k < 256
  {
    if k == 0 then 0 else Count8(k - 1) + 1
  }

  /** Adding one to a byte below 255 adds one to its value. */
  lemma Inc8(x: bv8)
    requires x as int < 255
    ensures (x + 1) as int == x as int + 1
  {
  }

  lemma {:induction false} Count8Value(k: nat)
    requires k < 256
    ensures Count8(k) as int == k
  {
    if k > 0 {
      Count8Value(k - 1);
      Inc8(Count8(k - 1));
    }
  }

  /** A byte's value stored back in a byte is that byte. */
  lemma ValueByte(x: bv8)
    ensures (x as int) as bv8 == x
  {
  }

  /** A number 0..255 stored in a byte converts back to that number. */
  lemma ByteValue(n: nat)
    requires n < 256
    ensures (n as bv8) as int == n
  {
    Count8Value(n);
    ValueByte(Count8(n));
  }

  /** Bytes with the same value are the same byte. */
  lemma ByteInjective(a: bv8, b: bv8)
    requires a as int == b as int
    ensures a == b
  {
    ValueByte(a);
    ValueByte(b);
  }
}

/** The C++ `BYTE` type and its conversions from numbers. */
module Bytes {

  /** `BYTE` (`unsigned char`): eight bits; arithmetic on it wraps modulo 256. */
  type Byte = bv8

  /** A number below 256 converts to the byte of the same value. */
  lemma ByteOfNat(k: nat)
    requires k < 256
    ensures (k as Byte) as int == k
  {
  }

  /** A number below 256 as a `BYTE`. */
  function SmallByte(k: nat): (b: Byte)
    requires k < 256
    ensures b as int == k
  {
    ByteOfNat(k);
    k as Byte
  }
}

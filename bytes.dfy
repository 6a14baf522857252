/** Machine-level value types shared by every part of the model. */
module Bytes {

  /** uint8_t */
  type byte = bv8

  /** An optional value. */
  datatype Option<T> = None | Some(value: T)

  const TWO_TO_32: int := 0x1_0000_0000

  /** uint32_t, as a number; C arithmetic on it wraps modulo 2^32 (see Wrap32). */
  type u32 = x: int | 0 <= x < TWO_TO_32

  /** The byte whose numeric value is `n`. */
  function ToByte(n: int): (b: byte)
    requires 0 <= n < 256
    ensures b as int == n
  {
    n as byte
  }

  /** A byte is determined by its numeric value. */
  lemma ByteValueInjective(a: byte, b: byte)
    requires a as int == b as int
    ensures a == b
  {
  }

  /** The uint32_t value of the mathematical result `x`. */
  function Wrap32(x: int): u32
  {
    x % TWO_TO_32
  }
}

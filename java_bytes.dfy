/**
 * Java's primitive `byte` and the two conversions the byte operations rely on:
 * masking with `& 0xFF` (signed byte to unsigned value) and `Integer.byteValue()`
 * (an int narrowed to its low eight bits, read as a signed byte).
 */
module JavaBytes {

  /** A Java `byte`: a signed 8-bit value. */
  type JByte = b: int | -128 <= b < 128

  /** `b & 0xFF`: the unsigned value 0..255 carried by the same eight bits. */
  function Unsigned(b: JByte): (u: int)
    ensures 0 <= u < 256
    ensures u % 256 == b % 256
  {
    if b < 0 then b + 256 else b
  }

  /** `Integer.byteValue()`: keep the low eight bits of `v` and read them as signed. */
  function ByteValue(v: int): (b: JByte)
    ensures b % 256 == v % 256
  {
    var low := v % 256;
    if low < 128 then low else low - 256
  }

  /** Masking then narrowing gives back the byte. */
  lemma ByteValueOfUnsigned(b: JByte)
    ensures ByteValue(Unsigned(b)) == b
  {
  }

  /** Narrowing then masking gives back any value of 0..255. */
  lemma UnsignedOfByteValue(u: int)
    requires 0 <= u < 256
    ensures Unsigned(ByteValue(u)) == u
  {
  }
}

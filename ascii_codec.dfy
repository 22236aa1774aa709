/**
 * ASCII text and bytes (ByteOperations.java, lines 132-157): with the US-ASCII charset
 * every 7-bit character is the byte of the same code, and back.
 */
module AsciiCodec {
  import opened JavaBytes

  /** Text of 7-bit characters only. */
  predicate IsAscii(s: string) {
    forall i :: 0 <= i < |s| ==> s[i] < 128 as char
  }

  /** Bytes of 7-bit values only; as signed Java bytes, the non-negative ones. */
  predicate IsAsciiBytes(b: seq<JByte>) {
    forall i :: 0 <= i < |b| ==> 0 <= b[i]
  }

  /** `convertASCIIStringToByteArray`: `getBytes("US-ASCII")` on 7-bit text. */
  function ConvertAsciiStringToByteArray(asciiString: string): (r: seq<JByte>)
    requires IsAscii(asciiString)
    ensures |r| == |asciiString| && IsAsciiBytes(r)
  {
    seq(|asciiString|, i requires 0 <= i < |asciiString| => asciiString[i] as int)
  }

  /** `convertByteArrayToASCIIString`: `new String(bytes, "US-ASCII")` on 7-bit bytes. */
  function ConvertByteArrayToAsciiString(byteArray: seq<JByte>): (r: string)
    requires IsAsciiBytes(byteArray)
    ensures |r| == |byteArray| && IsAscii(r)
  {
    seq(|byteArray|, i requires 0 <= i < |byteArray| => byteArray[i] as char)
  }

  /** Text to bytes and back gives the text. */
  lemma AsciiRoundTrip(s: string)
    requires IsAscii(s)
    ensures ConvertByteArrayToAsciiString(ConvertAsciiStringToByteArray(s)) == s
  {
    var t := ConvertByteArrayToAsciiString(ConvertAsciiStringToByteArray(s));
    assert forall i :: 0 <= i < |s| ==> t[i] == s[i];
  }

  /** Bytes to text and back gives the bytes. */
  lemma AsciiBytesRoundTrip(b: seq<JByte>)
    requires IsAsciiBytes(b)
    ensures ConvertAsciiStringToByteArray(ConvertByteArrayToAsciiString(b)) == b
  {
    var c := ConvertAsciiStringToByteArray(ConvertByteArrayToAsciiString(b));
    assert forall i :: 0 <= i < |b| ==> c[i] == b[i];
  }

  /** Byte `i` of the encoding is the code of character `i`. */
  lemma AsciiByteIsCode(s: string, i: int)
    requires IsAscii(s) && 0 <= i < |s|
    ensures ConvertAsciiStringToByteArray(s)[i] == s[i] as int
    ensures Unsigned(ConvertAsciiStringToByteArray(s)[i]) == s[i] as int
  {
  }
}

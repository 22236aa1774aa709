# ByteOperations in Dafny

This project models `ByteOperations`, a Java utility class of static conversions used to frame and parse serial telemetry. Payloads arrive as hex text or as ASCII text. The class converts between hex text, byte arrays and ASCII text. It copies a range out of a byte array and swaps the byte pairs of 16-bit words written in hex. It also finds a delimiter byte sequence inside a data buffer, starting from an offset.

The class is modelled module by module:

- `JavaBytes`: Java's signed `byte` (`JByte`, -128..127). It also holds the two conversions the class relies on: `b & 0xFF` (`Unsigned`) and `Integer.byteValue()` (`ByteValue`).
- `HexCodec`: one byte to and from a two-character pair, and a byte array to and from hex text. `Integer.toHexString`, `Character.digit` and `toUpperCase` are written out. The two array conversions are methods with loops, proved against the specification functions `HexEncoding` and `HexDecoding`.
- `ByteArrays`: `subArray`, a loop that fills a fresh array.
- `Endianness`: `reverseEndianness`, an accumulator loop that steps by four characters. It is proved against `EndianReversal`, which returns `None` where Java returns `null`.
- `AsciiCodec`: the two US-ASCII conversions, restricted to 7-bit characters and non-negative bytes.
- `ByteSearch`: `getIndexOfByteListInByteList`, the nested search loop with `break` and an early `return`. It is proved equal to `IndexAsWritten`, which describes the code's own bounds. A search over every start position (`IndexOf`) is defined beside it, and the two are compared.
- `Wrappers`: the `Option` type that stands for Java's `null` result.

Behaviour of the code that the model keeps as it is:

- `convertHexStringToByteArray` drops a trailing odd character without complaint.
- The search never finds an empty delimiter. Its inner loop never reaches the index where it would return, so the answer is always -1. The corrected search `IndexOf` keeps this -1, although an empty delimiter matches at every position.
- The search never tries the last start position, `|data| - |delimiter|`. See Findings.
- `subArray` with a size of zero reads nothing, so any `start` is accepted.

## Model

| member | source | states |
|---|---|---|
| JavaBytes.Unsigned | src/byteoperations/ByteOperations.java:66 | `b & 0xFF` gives a value in 0..255 that equals the byte modulo 256 |
| JavaBytes.ByteValue | src/byteoperations/ByteOperations.java:79 | `Integer.byteValue()` gives a signed byte equal to its argument modulo 256 |
| HexCodec.ToUpperCase | src/byteoperations/ByteOperations.java:68-70 | `toUpperCase` keeps the length of the text |
| HexCodec.ToUpperCaseLetters | src/byteoperations/ByteOperations.java:68-70 | after `toUpperCase` no lower-case letter is left: each lower-case letter becomes its upper-case letter and every other character is kept |
| HexCodec.ToHexString | src/byteoperations/ByteOperations.java:68-70 | `Integer.toHexString` writes at least one digit, with no leading zero unless the value is zero |
| HexCodec.ToHexStringReadBack | src/byteoperations/ByteOperations.java:68-70 | for a non-negative value, `Integer.toHexString` writes lower-case hex digits that `Integer.parseInt(_, 16)` reads back as the same value |
| HexCodec.ParseHex | src/byteoperations/ByteOperations.java:79 | `Integer.parseInt(_, 16)` on 1 to 7 unsigned ASCII hex digits (the class passes 2) gives a value below 16 to the power of the digit count |
| HexCodec.ToHexStringOfByte | src/byteoperations/ByteOperations.java:68-70 | `Integer.toHexString` writes one digit for a value below 16 and two digits, high then low, for 16..255 |
| HexCodec.ConvertByteToHexString | src/byteoperations/ByteOperations.java:65-71 | exactly two upper-case hex digits whose value is the byte's unsigned value, with a leading '0' when that value is below 16 |
| HexCodec.ConvertHexStringToByte | src/byteoperations/ByteOperations.java:78-80 | for two hex digits of either case, the byte's unsigned value is 16 times the first digit plus the second |
| HexCodec.ByteHexRoundTrip | src/byteoperations/ByteOperations.java:65-80 | byte to pair to byte gives back every signed byte |
| HexCodec.HexByteRoundTrip | src/byteoperations/ByteOperations.java:65-80 | pair to byte to pair gives back the pair upper-cased, so the two are equal ignoring case |
| HexCodec.HexEncoding | src/byteoperations/ByteOperations.java:52-58 | the hex text of n bytes has 2n characters, all upper-case hex digits |
| HexCodec.HexEncodingAppend | src/byteoperations/ByteOperations.java:53-56 | the hex text of a concatenation is the concatenation of the hex texts, so the text can be built one byte at a time |
| HexCodec.HexEncodingPair | src/byteoperations/ByteOperations.java:52-58 | characters 2k and 2k+1 of the hex text are the pair of byte k |
| HexCodec.ConvertByteArrayToHexString | src/byteoperations/ByteOperations.java:52-58 | the accumulating loop followed by the final upper-casing returns exactly the hex text of the array |
| HexCodec.HexDigitsAreHexPairs | src/byteoperations/ByteOperations.java:92-93 | text made only of hex digits can be read two characters at a time |
| HexCodec.HexDecoding | src/byteoperations/ByteOperations.java:88-97 | decoding text of length n gives n / 2 bytes |
| HexCodec.HexDecodingAt | src/byteoperations/ByteOperations.java:92-94 | byte k of the decoding is the parse of characters 2k and 2k+1, which form a valid hex pair |
| HexCodec.ConvertHexStringToByteArray | src/byteoperations/ByteOperations.java:88-97 | a fresh array whose contents are the decoding of the text, filled through the separate counter |
| HexCodec.BytesHexRoundTrip | src/byteoperations/ByteOperations.java:52-97 | decoding the hex text of any byte sequence gives the sequence back |
| HexCodec.HexBytesRoundTrip | src/byteoperations/ByteOperations.java:52-97 | encoding the decoding of even-length hex text gives the text upper-cased, so the two are equal ignoring case |
| HexCodec.OddTrailingCharacterDropped | src/byteoperations/ByteOperations.java:89-92 | one extra character after even-length hex text changes nothing in the decoding |
| ByteArrays.SubArray | src/byteoperations/ByteOperations.java:106-112 | a fresh array of the requested size whose element i is element start+i of the full array; the full array is not changed |
| ByteArrays.SubArrayExample | ByteOperations/test/byteoperations/ByteOperationsTest.java:75-89 | three bytes copied from index 3 of the test's seven bytes are 0x89, 0xAA and 0xD5 |
| Endianness.SwapWordPairs | src/byteoperations/ByteOperations.java:124-128 | swapping the pairs of every group keeps the length of the text |
| Endianness.SwapWordPairsGroup | src/byteoperations/ByteOperations.java:124-128 | group g of the result is group g of the input with its two pairs exchanged (AB CD becomes CD AB) |
| Endianness.SwapWordPairsAppend | src/byteoperations/ByteOperations.java:124-128 | swapping splits at group boundaries, so groups are swapped independently and kept in order |
| Endianness.SwapWordPairsStep | src/byteoperations/ByteOperations.java:125-128 | one more loop iteration appends the next group with its pairs swapped |
| Endianness.ReverseEndianness | src/byteoperations/ByteOperations.java:120-130 | returns no result exactly when the length is zero or not a multiple of 4, and otherwise the text with each group's pairs swapped |
| Endianness.SwapWordPairsInvolution | src/byteoperations/ByteOperations.java:124-128 | swapping the pairs twice gives back the text |
| Endianness.EndianReversalInvolution | src/byteoperations/ByteOperations.java:120-130 | reversing a text the operation accepts, then reversing the result, gives back the text |
| Endianness.EndianReversal | src/byteoperations/ByteOperations.java:120-130 | no result exactly for length zero or a length that is not a multiple of 4; otherwise a text of the same length |
| Endianness.EndianReversalExamples | ByteOperations/test/byteoperations/ByteOperationsTest.java:61-67 | "5511551122CC" and "11551155CC22" reverse into each other, and "1134923" gives no result |
| AsciiCodec.ConvertAsciiStringToByteArray | src/byteoperations/ByteOperations.java:137-143 | 7-bit text gives one 7-bit byte per character |
| AsciiCodec.ConvertByteArrayToAsciiString | src/byteoperations/ByteOperations.java:150-157 | 7-bit bytes give one 7-bit character per byte |
| AsciiCodec.AsciiByteIsCode | src/byteoperations/ByteOperations.java:137-143 | byte i of the encoding is the character code of character i |
| AsciiCodec.AsciiRoundTrip | src/byteoperations/ByteOperations.java:137-157 | 7-bit text converted to bytes and back is unchanged |
| AsciiCodec.AsciiBytesRoundTrip | src/byteoperations/ByteOperations.java:137-157 | 7-bit bytes converted to text and back are unchanged |
| ByteSearch.FirstMatchIsFirst | src/byteoperations/ByteOperations.java:172-183 | the scan returns the least matching start position of its range, and -1 exactly when no position of the range matches |
| ByteSearch.IndexAsWritten | src/byteoperations/ByteOperations.java:167-184 | the code's answer is -1 or a matching start position in [offset, n - m), n and m the data and delimiter lengths; it is -1 for an empty buffer, an empty delimiter or a delimiter longer than the buffer |
| ByteSearch.IndexOf | src/byteoperations/ByteOperations.java:165-173 | the search over every start position answers -1 or a matching start position in [offset, n - m] |
| ByteSearch.MismatchIsNoMatch | src/byteoperations/ByteOperations.java:175-177 | one unequal byte rules the start position out, as the inner loop's `break` assumes |
| ByteSearch.AllEqualIsMatch | src/byteoperations/ByteOperations.java:178-179 | equal bytes along the whole delimiter are a match, as the early `return` assumes |
| ByteSearch.GetIndexOfByteListInByteList | src/byteoperations/ByteOperations.java:167-184 | the nested loops with `break` and early `return` compute exactly the code's specified answer, for every offset of zero or more |
| ByteSearch.IndexAsWrittenSpec | src/byteoperations/ByteOperations.java:169-183 | the code's answer has no match before it from the offset on; -1 means no start position in [offset, n - m) matches, or the delimiter is empty, in which case the outer loop runs through every position without returning |
| ByteSearch.IndexOfSpec | src/byteoperations/ByteOperations.java:172-173 | the search over every start position has no match before its answer from the offset on, and for a non-empty delimiter answers -1 only when no position from the offset on matches; an empty delimiter gives -1 in both searches |
| ByteSearch.AsWrittenMissesOnlyLastPosition | src/byteoperations/ByteOperations.java:172 | the code agrees with the full search except when the first match is at the last start position (data length minus delimiter length), where the code answers -1 |
| ByteSearch.WholeBufferDelimiterMissed | src/byteoperations/ByteOperations.java:172 | a delimiter equal to the whole non-empty buffer is found at 0 by the full search and missed by the code |
| ByteSearch.OneByteCounterexample | src/byteoperations/ByteOperations.java:172 | the one-byte buffer [0x24] searched for [0x24] from offset 0 gives -1 as written and 0 as intended |
| ByteSearch.SearchFoundAtStart | ByteOperations/test/byteoperations/ByteOperationsTest.java:132 | "$$" is found at 0 in "$$2345$$123" |
| ByteSearch.SearchFoundAfterOffset | ByteOperations/test/byteoperations/ByteOperationsTest.java:133 | "$$" is found at 6 in "$$2345$$123" from offset 2 |
| ByteSearch.SearchAbsentDelimiter | ByteOperations/test/byteoperations/ByteOperationsTest.java:134 | "EE" is not found in "$$2345$$123" |
| ByteSearch.SearchWordFoundAtStart | ByteOperations/test/byteoperations/ByteOperationsTest.java:139-155 | "AAAA5555DDDD" is found at 0 in "AAAA5555DDDD00C605B4" |
| ByteSearch.SearchDelimiterLongerThanData | ByteOperations/test/byteoperations/ByteOperationsTest.java:190-206 | the two-byte delimiter 0xFFEE is not looked for in the one-byte buffer 0xAA |

## Left out

- The private constructor that throws `IllegalStateException` (lines 43-45). It only forbids instantiation; the operations are module-level members.
- Java `null` arguments. The `catch` blocks that return `null` in the ASCII conversions are left out too: with a constant charset name, only a `null` argument reaches them.
- Characters outside 7-bit ASCII and negative bytes in the ASCII conversions. The platform charset replaces them, and that replacement is not modelled. Both conversions require 7-bit input.
- AsciiCodec.ConvertAsciiStringToByteArray: returns a value sequence, not a freshly allocated array as `getBytes` does.
- HexCodec.ConvertHexStringToByte: requires exactly two ASCII hex digits. `Integer.parseInt(_, 16)` also accepts a leading `+` or `-` (so "-1" gives the byte 0xFF and "+F" gives 15), one digit or longer text, and, through `Character.digit`, non-ASCII decimal digits and the full-width letters A-F. It throws `NumberFormatException` on text it cannot read. The model covers none of those inputs.
- HexCodec.ConvertHexStringToByteArray: requires every complete pair to be two ASCII hex digits. Pairs such as "-1" or "+F", which Java reads without complaint, and pairs that make `parseInt` throw are not covered.
- HexCodec.IsHexDigit and HexCodec.DigitValue: ASCII digits and letters only; the other Unicode digits `Character.digit` accepts are not modelled.
- ByteArrays.SubArray: requires the range to lie inside the array. Java throws a negative-size or out-of-bounds exception instead, and the model does not include that error path.
- ByteSearch.GetIndexOfByteListInByteList: requires a non-negative offset. With a negative offset Java still returns -1 without reading the lists when the buffer is empty or shorter than the delimiter (line 169), and also when the delimiter is empty; otherwise `List.get` throws. Negative offsets are not modelled.
- Endianness.ReverseEndianness, Endianness.EndianReversal, HexCodec.ConvertHexStringToByteArray, HexCodec.HexDecoding and HexCodec.OddTrailingCharacterDropped: text is a sequence of Unicode code points, while Java's `length()`, `substring` and `% 4` count UTF-16 code units. Text holding a character above U+FFFF therefore differs from Java. For example, Java reverses "ab" followed by one such character (four units), but the model rejects it (three code points). Java's `parseInt` throws on "00" followed by one such character, but the model reads it as one byte and drops the last character.
- HexCodec.ParseHex, HexCodec.ToHexString: values are unbounded naturals. `ParseHex("")` is 0 where `Integer.parseInt("", 16)` throws. Text above `Integer.MAX_VALUE` (eight or more digits, such as "80000000") has a value where Java throws. Negative ints, which `Integer.toHexString` writes in two's complement (-1 as "ffffffff"), are not modelled. The class only passes two-digit pairs and values 0..255, so none of this reaches its operations.
- `String.toUpperCase` is modelled on ASCII letters only. The text it is applied to holds only digits and the letters a-f.
- Java's 32-bit `int` and its limits on string and array lengths. Lengths, indices and offsets are unbounded integers.
- `List<Byte>` arguments and boxed `Byte.equals`. The search takes sequences of bytes and compares values.
- The search with every start position is given as a function (`IndexOf`) and lemmas, not as a second loop.
- The search test over a long lidar buffer (test file lines 157-180). Its data is not reproduced.
- In three places the code may not do what was meant, and the model follows the code: odd-length hex text is truncated rather than rejected; a bad range or bad hex fails inside the Java runtime rather than with a typed error; and the search uses the code's exclusive bound. The inclusive bound is modelled separately, as the corrected search.

## Findings

| source | as written | input that shows it | evidently intended | confidence | as-written member | corrected member |
|---|---|---|---|---|---|---|
| src/byteoperations/ByteOperations.java:172 | the outer loop runs while `dataBufferIndex < size - delimiter.size()`, so the last start position `size - delimiter.size()` is never tried | data [0x24], delimiter [0x24], offset 0 returns -1 | every start position up to and including `size - delimiter.size()` is tried, so that input returns 0 | high; not executed | ByteSearch.OneByteCounterexample | ByteSearch.IndexOfSpec |

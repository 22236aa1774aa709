/**
 * Hexadecimal text and bytes: one byte to and from a two-character pair, and a whole
 * byte array to and from a hex string (ByteOperations.java, lines 47-97).
 */
module HexCodec {
  import opened JavaBytes

  // ---------------------------------------------------------------------------
  // Characters
  // ---------------------------------------------------------------------------

  /**
   * An ASCII hex digit, in either case. `Integer.parseInt(_, 16)` accepts these and, through
   * `Character.digit`, further Unicode digits and full-width letters, which are not modelled.
   */
  predicate IsHexDigit(c: char) {
    ('0' <= c <= '9') || ('A' <= c <= 'F') || ('a' <= c <= 'f')
  }

  /** A digit as the codec writes it: 0-9 and upper-case A-F. */
  predicate IsUpperHexDigit(c: char) {
    ('0' <= c <= '9') || ('A' <= c <= 'F')
  }

  /** `Character.digit(c, 16)` on the ASCII hex digits: the value 0..15 of the digit. */
  function DigitValue(c: char): (v: nat)
    requires IsHexDigit(c)
    ensures v < 16
  {
    if '0' <= c <= '9' then c as int - '0' as int
    else if 'A' <= c <= 'F' then c as int - 'A' as int + 10
    else c as int - 'a' as int + 10
  }

  /** `Character.forDigit(d, 16)`: the lower-case digit `Integer.toHexString` writes. */
  function ForDigit(d: nat): char
    requires d < 16
  {
    if d < 10 then ('0' as int + d) as char else ('a' as int + d - 10) as char
  }

  /** `Character.toUpperCase` on the ASCII range: lower-case letters move to upper case. */
  function UpperChar(c: char): char {
    if 'a' <= c <= 'z' then (c as int - 32) as char else c
  }

  /** `String.toUpperCase` on the ASCII range, character by character; the length is kept. */
  function ToUpperCase(s: string): (r: string)
    ensures |r| == |s|
  {
    seq(|s|, i requires 0 <= i < |s| => UpperChar(s[i]))
  }

  /**
   * Upper-casing leaves no lower-case letter: every lower-case letter becomes its upper-case
   * letter, and every other character is kept.
   */
  lemma ToUpperCaseLetters(s: string)
    ensures var r := ToUpperCase(s);
      && (forall k :: 0 <= k < |r| ==> !('a' <= r[k] <= 'z'))
      && (forall k :: 0 <= k < |s| && 'a' <= s[k] <= 'z' ==> r[k] as int == s[k] as int - 32)
      && (forall k :: 0 <= k < |s| && !('a' <= s[k] <= 'z') ==> r[k] == s[k])
  {
  }

  /**
   * `Integer.parseInt(s, 16)` for a string of one to seven ASCII hex digits without a sign.
   * Outside that range Java throws (on the empty text, or above `Integer.MAX_VALUE`) while
   * this function still gives the unbounded base-16 value.
   */
  function ParseHex(s: string): (n: nat)
    requires forall i :: 0 <= i < |s| ==> IsHexDigit(s[i])
    ensures n < Power16(|s|)
  {
    if |s| == 0 then 0 else 16 * ParseHex(s[..|s| - 1]) + DigitValue(s[|s| - 1])
  }

  /** Sixteen to the power `k`: `k` hex digits hold a value below it. */
  function Power16(k: nat): nat {
    if k == 0 then 1 else 16 * Power16(k - 1)
  }

  /**
   * `Integer.toHexString(i)` for a non-negative `i`: at least one digit, and no leading zero
   * unless the value is zero.
   */
  function ToHexString(i: nat): (r: string)
    ensures 0 < |r|
    ensures 0 < i ==> r[0] != '0'
    decreases i
  {
    if i < 16 then [ForDigit(i)] else ToHexString(i / 16) + [ForDigit(i % 16)]
  }

  /**
   * For a non-negative value, `Integer.toHexString` writes lower-case hex digits that
   * `Integer.parseInt(_, 16)` reads back as the same value.
   */
  lemma {:induction false} ToHexStringReadBack(i: nat)
    ensures forall k :: 0 <= k < |ToHexString(i)| ==> IsHexDigit(ToHexString(i)[k])
    ensures forall k :: 0 <= k < |ToHexString(i)| ==> !('A' <= ToHexString(i)[k] <= 'F')
    ensures ParseHex(ToHexString(i)) == i
    decreases i
  {
    if 16 <= i {
      var front := ToHexString(i / 16);
      ToHexStringReadBack(i / 16);
      var r := front + [ForDigit(i % 16)];
      assert r[..|r| - 1] == front;
    }
  }

  /** A digit written by `ForDigit` and upper-cased is an upper-case digit of the same value. */
  lemma UpperForDigit(d: nat)
    requires d < 16
    ensures IsUpperHexDigit(UpperChar(ForDigit(d))) && DigitValue(UpperChar(ForDigit(d))) == d
  {
  }

  /** Upper-casing keeps a hex digit a hex digit of the same value, now in upper case. */
  lemma UpperDigit(c: char)
    requires IsHexDigit(c)
    ensures IsUpperHexDigit(UpperChar(c)) && DigitValue(UpperChar(c)) == DigitValue(c)
  {
  }

  /** An upper-case hex digit is determined by its value. */
  lemma UpperDigitUnique(c: char, d: char)
    requires IsUpperHexDigit(c) && IsUpperHexDigit(d) && DigitValue(c) == DigitValue(d)
    ensures c == d
  {
  }

  // ---------------------------------------------------------------------------
  // One byte
  // ---------------------------------------------------------------------------

  /** What `Integer.toHexString` writes for a value of one byte: one digit below 16, else two. */
  lemma ToHexStringOfByte(i: nat)
    requires i < 256
    ensures i < 16 ==> ToHexString(i) == [ForDigit(i)]
    ensures 16 <= i ==> ToHexString(i) == [ForDigit(i / 16), ForDigit(i % 16)]
  {
    if 16 <= i {
      assert ToHexString(i / 16) == [ForDigit(i / 16)];
    }
  }

  /**
   * `convertByteToHexString`: the unsigned value of the byte as exactly two upper-case
   * digits, high digit first; a value below 16 gets a leading "0".
   */
  function ConvertByteToHexString(b: JByte): (r: string)
    ensures |r| == 2 && IsUpperHexDigit(r[0]) && IsUpperHexDigit(r[1])
    ensures 16 * DigitValue(r[0]) + DigitValue(r[1]) == Unsigned(b)
    ensures Unsigned(b) < 16 ==> r[0] == '0'
  {
    var i := Unsigned(b);
    ToHexStringOfByte(i);
    UpperForDigit(i % 16);
    UpperForDigit(i / 16);
    if i < 16 then ToUpperCase("0" + ToHexString(i)) else ToUpperCase(ToHexString(i))
  }

  /** Two digits parse to sixteen times the first plus the second. */
  lemma ParseHexOfPair(s: string)
    requires |s| == 2 && IsHexDigit(s[0]) && IsHexDigit(s[1])
    ensures ParseHex(s) == 16 * DigitValue(s[0]) + DigitValue(s[1])
  {
    assert s[..1][..0] == [];
    assert ParseHex(s[..1]) == DigitValue(s[0]);
  }

  /** A string of exactly two hex digits, the input `convertHexStringToByte` is given. */
  predicate IsHexPair(s: string) {
    |s| == 2 && IsHexDigit(s[0]) && IsHexDigit(s[1])
  }

  /**
   * `convertHexStringToByte`: parse the pair as a number and narrow it to a signed byte;
   * the byte's unsigned value is the number the two digits denote.
   */
  function ConvertHexStringToByte(s: string): (b: JByte)
    requires IsHexPair(s)
    ensures Unsigned(b) == 16 * DigitValue(s[0]) + DigitValue(s[1])
  {
    ParseHexOfPair(s);
    UnsignedOfByteValue(ParseHex(s));
    ByteValue(ParseHex(s))
  }

  /** Byte to pair and back gives the byte, for every signed byte. */
  lemma ByteHexRoundTrip(b: JByte)
    ensures ConvertHexStringToByte(ConvertByteToHexString(b)) == b
  {
    var pair := ConvertByteToHexString(b);
    ParseHexOfPair(pair);
    ByteValueOfUnsigned(b);
  }

  /** Pair to byte and back gives the pair in upper case (the two agree ignoring case). */
  lemma HexByteRoundTrip(s: string)
    requires IsHexPair(s)
    ensures ConvertByteToHexString(ConvertHexStringToByte(s)) == ToUpperCase(s)
  {
    var r := ConvertByteToHexString(ConvertHexStringToByte(s));
    var u := ToUpperCase(s);
    UpperPair(s);
    UpperDigitUnique(r[0], u[0]);
    UpperDigitUnique(r[1], u[1]);
    assert r == [r[0], r[1]] && u == [u[0], u[1]];
  }

  /** An upper-cased hex pair is two upper-case digits of the same values. */
  lemma UpperPair(s: string)
    requires IsHexPair(s)
    ensures var u := ToUpperCase(s);
      && |u| == 2 && IsUpperHexDigit(u[0]) && IsUpperHexDigit(u[1])
      && DigitValue(u[0]) == DigitValue(s[0]) && DigitValue(u[1]) == DigitValue(s[1])
  {
    var u := ToUpperCase(s);
    assert u[0] == UpperChar(s[0]) && u[1] == UpperChar(s[1]);
    UpperDigit(s[0]);
    UpperDigit(s[1]);
  }

  // ---------------------------------------------------------------------------
  // Whole arrays
  // ---------------------------------------------------------------------------

  /** True when every character of `s` is an upper-case hex digit. */
  predicate IsUpperHex(s: string) {
    forall i :: 0 <= i < |s| ==> IsUpperHexDigit(s[i])
  }

  /** The hex text of a byte sequence: the pairs of its bytes, in order. */
  function HexEncoding(a: seq<JByte>): (r: string)
    ensures |r| == 2 * |a|
    ensures IsUpperHex(r)
  {
    if |a| == 0 then "" else ConvertByteToHexString(a[0]) + HexEncoding(a[1..])
  }

  /** Encoding distributes over concatenation, so the text can be built byte by byte. */
  lemma {:induction false} HexEncodingAppend(a: seq<JByte>, b: seq<JByte>)
    ensures HexEncoding(a + b) == HexEncoding(a) + HexEncoding(b)
  {
    if |a| == 0 {
      assert a + b == b;
    } else {
      assert (a + b)[1..] == a[1..] + b;
      HexEncodingAppend(a[1..], b);
    }
  }

  /** Characters `2k` and `2k + 1` of the hex text are the pair of byte `k`. */
  lemma HexEncodingPair(a: seq<JByte>, k: int)
    requires 0 <= k < |a|
    ensures HexEncoding(a)[2 * k] == ConvertByteToHexString(a[k])[0]
    ensures HexEncoding(a)[2 * k + 1] == ConvertByteToHexString(a[k])[1]
  {
    var front, back := a[..k], a[k..];
    assert front + back == a;
    HexEncodingAppend(front, back);
    assert back[0] == a[k];
  }

  /** Upper-casing leaves text already in upper-case hex unchanged. */
  lemma ToUpperCaseOfUpperHex(s: string)
    requires IsUpperHex(s)
    ensures ToUpperCase(s) == s
  {
  }

  /**
   * `convertByteArrayToHexString`: append the pair of each byte to an accumulator, then
   * upper-case the whole; the result is the hex text of the array.
   */
  method ConvertByteArrayToHexString(byteArray: array<JByte>) returns (s: string)
    ensures s == HexEncoding(byteArray[..])
  {
    var acc := "";
    for i := 0 to byteArray.Length
      invariant acc == HexEncoding(byteArray[..i])
    {
      assert byteArray[..i + 1] == byteArray[..i] + [byteArray[i]];
      HexEncodingAppend(byteArray[..i], [byteArray[i]]);
      assert HexEncoding([byteArray[i]]) == ConvertByteToHexString(byteArray[i]) + HexEncoding([]);
      acc := acc + ConvertByteToHexString(byteArray[i]);
    }
    assert byteArray[..byteArray.Length] == byteArray[..];
    ToUpperCaseOfUpperHex(acc);
    s := ToUpperCase(acc);
  }

  /**
   * Read from the start two characters at a time, every complete pair is two hex digits
   * (a final odd character may be anything).
   */
  predicate HexPairs(s: string)
    decreases |s|
  {
    |s| < 2 || (IsHexDigit(s[0]) && IsHexDigit(s[1]) && HexPairs(s[2..]))
  }

  /** Text made only of hex digits can be read pair by pair. */
  lemma {:induction false} HexDigitsAreHexPairs(s: string)
    requires forall i :: 0 <= i < |s| ==> IsHexDigit(s[i])
    ensures HexPairs(s)
  {
    if |s| >= 2 {
      assert forall i :: 0 <= i < |s| - 2 ==> s[2..][i] == s[i + 2];
      HexDigitsAreHexPairs(s[2..]);
    }
  }

  /**
   * The bytes of a hex string, read two characters at a time from the start; a final odd
   * character is not read.
   */
  function HexDecoding(s: string): (r: seq<JByte>)
    requires HexPairs(s)
    ensures |r| == |s| / 2
    decreases |s|
  {
    if |s| < 2 then [] else [ConvertHexStringToByte(s[..2])] + HexDecoding(s[2..])
  }

  /** Pair `k` of text readable pair by pair is two hex digits. */
  lemma {:induction false} HexPairsAt(s: string, k: int)
    requires HexPairs(s)
    requires 0 <= k < |s| / 2
    ensures IsHexPair(s[2 * k..2 * k + 2])
  {
    if k > 0 {
      var t := s[2..];
      HexPairsAt(t, k - 1);
      assert t[2 * k - 2..2 * k] == s[2 * k..2 * k + 2];
    }
  }

  /** Byte `k` of the decoding is the parse of characters `2k` and `2k + 1`. */
  lemma {:induction false} HexDecodingAt(s: string, k: int)
    requires HexPairs(s)
    requires 0 <= k < |s| / 2
    ensures IsHexPair(s[2 * k..2 * k + 2])
    ensures HexDecoding(s)[k] == ConvertHexStringToByte(s[2 * k..2 * k + 2])
  {
    HexPairsAt(s, k);
    if k == 0 {
      assert s[0..2] == s[..2];
    } else {
      var t := s[2..];
      HexDecodingAt(t, k - 1);
      var rest := HexDecoding(t);
      assert HexDecoding(s) == [ConvertHexStringToByte(s[..2])] + rest;
      assert t[2 * k - 2..2 * k] == s[2 * k..2 * k + 2];
    }
  }

  /**
   * `convertHexStringToByteArray`: a fresh array of `|s| / 2` bytes, filled through a
   * separate counter while `i` steps over the string two characters at a time.
   */
  method ConvertHexStringToByteArray(hexString: string) returns (byteArray: array<JByte>)
    requires HexPairs(hexString)
    ensures fresh(byteArray)
    ensures byteArray[..] == HexDecoding(hexString)
  {
    ghost var bytes := HexDecoding(hexString);
    var arraySize := |hexString| / 2;
    byteArray := new JByte[arraySize];
    var counter := 0;
    var i := 0;
    while i <= |hexString| - 2
      invariant i == 2 * counter && counter <= arraySize
      invariant forall k :: 0 <= k < counter ==> byteArray[k] == bytes[k]
    {
      HexDecodingAt(hexString, counter);
      byteArray[counter] := ConvertHexStringToByte(hexString[i..i + 2]);
      counter := counter + 1;
      i := i + 2;
    }
  }

  /** Decoding the encoding of a byte sequence gives the sequence back. */
  lemma {:induction false} BytesHexRoundTrip(a: seq<JByte>)
    ensures HexPairs(HexEncoding(a))
    ensures HexDecoding(HexEncoding(a)) == a
  {
    var h := HexEncoding(a);
    if |a| > 0 {
      var p := ConvertByteToHexString(a[0]);
      BytesHexRoundTrip(a[1..]);
      assert h[..2] == p && h[2..] == HexEncoding(a[1..]);
      ByteHexRoundTrip(a[0]);
    }
  }

  /** Upper-casing works character by character, so it splits at any point. */
  lemma ToUpperCaseAppend(s: string, t: string)
    ensures ToUpperCase(s + t) == ToUpperCase(s) + ToUpperCase(t)
  {
  }

  /**
   * Encoding the decoding of an even-length hex string gives the string back in upper
   * case: the two agree ignoring case.
   */
  lemma {:induction false} HexBytesRoundTrip(s: string)
    requires |s| % 2 == 0 && HexPairs(s)
    ensures HexEncoding(HexDecoding(s)) == ToUpperCase(s)
    decreases |s|
  {
    if |s| > 0 {
      var b := ConvertHexStringToByte(s[..2]);
      var rest := HexDecoding(s[2..]);
      HexBytesRoundTrip(s[2..]);
      HexByteRoundTrip(s[..2]);
      assert ([b] + rest)[0] == b && ([b] + rest)[1..] == rest;
      ToUpperCaseAppend(s[..2], s[2..]);
      assert s[..2] + s[2..] == s;
    }
  }

  /** A trailing odd character is silently dropped: it changes nothing in the decoding. */
  lemma {:induction false} OddTrailingCharacterDropped(s: string, c: char)
    requires |s| % 2 == 0 && HexPairs(s)
    ensures HexPairs(s + [c])
    ensures HexDecoding(s + [c]) == HexDecoding(s)
    decreases |s|
  {
    if |s| > 0 {
      var t := s + [c];
      assert t[..2] == s[..2] && t[2..] == s[2..] + [c];
      OddTrailingCharacterDropped(s[2..], c);
    }
  }
}

/**
 * Endianness reversal on hex text (ByteOperations.java, lines 114-130): the text is cut
 * into groups of four characters (one 16-bit word) and the two pairs of every group
 * trade places; group order is kept.
 */
module Endianness {
  import opened Wrappers

  /** Every four-character group `AB CD` of `s` becomes `CD AB`, groups in their order. */
  function SwapWordPairs(s: string): (r: string)
    requires |s| % 4 == 0
    ensures |r| == |s|
  {
    if |s| == 0 then "" else s[2..4] + s[..2] + SwapWordPairs(s[4..])
  }

  /** Group `g` of the result is group `g` of the input with its two pairs exchanged. */
  lemma {:induction false} SwapWordPairsGroup(s: string, g: int)
    requires |s| % 4 == 0 && 0 <= g < |s| / 4
    ensures SwapWordPairs(s)[4 * g..4 * g + 4] == s[4 * g + 2..4 * g + 4] + s[4 * g..4 * g + 2]
  {
    if g > 0 {
      var head := s[2..4] + s[..2];
      var rest := SwapWordPairs(s[4..]);
      SwapWordPairsGroup(s[4..], g - 1);
      assert (head + rest)[4 * g..4 * g + 4] == rest[4 * (g - 1)..4 * (g - 1) + 4];
      assert s[4..][4 * (g - 1) + 2..4 * (g - 1) + 4] == s[4 * g + 2..4 * g + 4];
      assert s[4..][4 * (g - 1)..4 * (g - 1) + 2] == s[4 * g..4 * g + 2];
    }
  }

  /** Swapping distributes over concatenation at a group boundary. */
  lemma {:induction false} SwapWordPairsAppend(a: string, b: string)
    requires |a| % 4 == 0 && |b| % 4 == 0
    ensures SwapWordPairs(a + b) == SwapWordPairs(a) + SwapWordPairs(b)
  {
    if |a| == 0 {
      assert a + b == b;
    } else {
      var ab := a + b;
      assert ab[2..4] == a[2..4] && ab[..2] == a[..2] && ab[4..] == a[4..] + b;
      SwapWordPairsAppend(a[4..], b);
    }
  }

  /** A single group has its two pairs exchanged. */
  lemma SwapWordPairsOfWord(word: string)
    requires |word| == 4
    ensures SwapWordPairs(word) == word[2..4] + word[..2]
  {
    assert word[4..] == "";
    assert SwapWordPairs(word) == word[2..4] + word[..2] + SwapWordPairs("");
  }

  /** Extending a prefix by one group appends that group with its pairs swapped. */
  lemma SwapWordPairsStep(s: string, i: int)
    requires 0 <= i && i % 4 == 0 && i + 4 <= |s|
    ensures SwapWordPairs(s[..i + 4]) == SwapWordPairs(s[..i]) + s[i + 2..i + 4] + s[i..i + 2]
  {
    var prefix, word := s[..i], s[i..i + 4];
    assert s[..i + 4] == prefix + word;
    SwapWordPairsAppend(prefix, word);
    SwapWordPairsOfWord(word);
    assert word[2..4] == s[i + 2..i + 4] && word[..2] == s[i..i + 2];
    assert SwapWordPairs(prefix) + (word[2..4] + word[..2])
      == SwapWordPairs(prefix) + word[2..4] + word[..2];
  }

  /**
   * What `reverseEndianness` returns: nothing (Java's `null`) exactly when the length is zero
   * or not a multiple of four, otherwise the text, same length, with the pairs of each group
   * swapped.
   */
  function EndianReversal(s: string): (r: Option<string>)
    ensures r.None? <==> (|s| == 0 || |s| % 4 != 0)
    ensures r.Some? ==> |r.value| == |s|
  {
    if |s| % 4 != 0 || |s| < 1 then None else Some(SwapWordPairs(s))
  }

  /**
   * `reverseEndianness`: reject a length that is not a positive multiple of four, then
   * append the second and the first pair of every group to an accumulator.
   */
  method ReverseEndianness(input: string) returns (r: Option<string>)
    ensures r.None? <==> (|input| % 4 != 0 || |input| < 1)
    ensures r == EndianReversal(input)
  {
    if |input| % 4 != 0 || |input| < 1 {
      return None;
    }
    var reversed := "";
    var i := 0;
    while i < |input|
      invariant 0 <= i <= |input| && i % 4 == 0
      invariant reversed == SwapWordPairs(input[..i])
    {
      SwapWordPairsStep(input, i);
      reversed := reversed + input[i + 2..i + 4];
      reversed := reversed + input[i..i + 2];
      i := i + 4;
    }
    assert input[..i] == input;
    return Some(reversed);
  }

  /** Swapping the pairs twice gives back the text. */
  lemma {:induction false} SwapWordPairsInvolution(s: string)
    requires |s| % 4 == 0
    ensures SwapWordPairs(SwapWordPairs(s)) == s
  {
    if |s| > 0 {
      var t := SwapWordPairs(s);
      SwapWordPairsInvolution(s[4..]);
      assert t[2..4] == s[..2] && t[..2] == s[2..4] && t[4..] == SwapWordPairs(s[4..]);
      assert s == s[..2] + s[2..4] + s[4..];
    }
  }

  /** Reversal applied twice to text it accepts gives back the text. */
  lemma EndianReversalInvolution(s: string)
    requires EndianReversal(s).Some?
    ensures EndianReversal(EndianReversal(s).value) == Some(s)
  {
    SwapWordPairsInvolution(s);
  }

  /** The documented examples: two words reversed each way, and a seven-character text. */
  lemma EndianReversalExamples()
    ensures EndianReversal("5511551122CC") == Some("11551155CC22")
    ensures EndianReversal("11551155CC22") == Some("5511551122CC")
    ensures EndianReversal("1134923") == None
  {
    var s := "5511551122CC";
    assert s[4..] == "551122CC" && s[4..][4..] == "22CC" && s[4..][4..][4..] == "";
    assert SwapWordPairs("22CC") == "CC22";
    assert SwapWordPairs("551122CC") == "1155CC22";
    assert SwapWordPairs(s) == "11551155CC22";
    SwapWordPairsInvolution(s);
  }
}

/**
 * Finding a delimiter inside a data buffer from an offset on (ByteOperations.java,
 * lines 160-184). The code's outer loop stops one start position early; it is modelled
 * as written, beside a search over every start position, and the two are compared.
 */
module ByteSearch {
  import opened JavaBytes
  import opened AsciiCodec

  /** The delimiter occurs in the data starting at position `p`. */
  predicate MatchesAt(data: seq<JByte>, delimiter: seq<JByte>, p: int) {
    0 <= p && p + |delimiter| <= |data| && data[p..p + |delimiter|] == delimiter
  }

  /** The first start position in `[p, bound)` where the delimiter matches, or -1. */
  function FirstMatch(data: seq<JByte>, delimiter: seq<JByte>, p: int, bound: int): int
    requires 0 <= p
    decreases bound - p
  {
    if p >= bound then -1
    else if MatchesAt(data, delimiter, p) then p
    else FirstMatch(data, delimiter, p + 1, bound)
  }

  /**
   * `FirstMatch` is the least matching position of the range, and -1 exactly when no
   * position of the range matches.
   */
  lemma {:induction false} FirstMatchIsFirst(data: seq<JByte>, delimiter: seq<JByte>, p: int, bound: int)
    requires 0 <= p
    ensures var r := FirstMatch(data, delimiter, p, bound);
      && (r == -1 || (p <= r < bound && MatchesAt(data, delimiter, r)))
      && (forall q :: p <= q < bound && (r == -1 || q < r) ==> !MatchesAt(data, delimiter, q))
    decreases bound - p
  {
    if p < bound && !MatchesAt(data, delimiter, p) {
      FirstMatchIsFirst(data, delimiter, p + 1, bound);
    }
  }

  /**
   * What `getIndexOfByteListInByteList` returns as written: -1 at once when the delimiter
   * is longer than the data or the data is empty; -1 for an empty delimiter, whose inner
   * loop never reaches its last index; otherwise the first match at a start position in
   * `[offset, |data| - |delimiter|)`, which leaves out the last one.
   */
  function IndexAsWritten(data: seq<JByte>, delimiter: seq<JByte>, offset: nat): (r: int)
    ensures r == -1 || (offset <= r < |data| - |delimiter| && MatchesAt(data, delimiter, r))
    ensures |data| < |delimiter| || |data| == 0 || |delimiter| == 0 ==> r == -1
  {
    if |data| < |delimiter| || |data| < 1 || |delimiter| == 0 then -1
    else
      FirstMatchIsFirst(data, delimiter, offset, |data| - |delimiter|);
      FirstMatch(data, delimiter, offset, |data| - |delimiter|)
  }

  /**
   * The search as evidently intended: the same, but every start position up to and
   * including `|data| - |delimiter|` is tried. An empty delimiter still gives -1, as in the
   * code, although it matches at every position.
   */
  function IndexOf(data: seq<JByte>, delimiter: seq<JByte>, offset: nat): (r: int)
    ensures r == -1 || (offset <= r <= |data| - |delimiter| && MatchesAt(data, delimiter, r))
  {
    if |data| < |delimiter| || |data| < 1 || |delimiter| == 0 then -1
    else
      FirstMatchIsFirst(data, delimiter, offset, |data| - |delimiter| + 1);
      FirstMatch(data, delimiter, offset, |data| - |delimiter| + 1)
  }

  /** One unequal byte rules the position out. */
  lemma MismatchIsNoMatch(data: seq<JByte>, delimiter: seq<JByte>, p: int, j: int)
    requires 0 <= p && 0 <= j < |delimiter| && p + j < |data|
    requires data[p + j] != delimiter[j]
    ensures !MatchesAt(data, delimiter, p)
  {
    if p + |delimiter| <= |data| {
      assert data[p..p + |delimiter|][j] == data[p + j];
    }
  }

  /** Equal bytes along the whole delimiter make a match. */
  lemma AllEqualIsMatch(data: seq<JByte>, delimiter: seq<JByte>, p: int)
    requires 0 <= p && p + |delimiter| <= |data|
    requires forall k :: 0 <= k < |delimiter| ==> data[p + k] == delimiter[k]
    ensures MatchesAt(data, delimiter, p)
  {
    assert forall k :: 0 <= k < |delimiter| ==> data[p..p + |delimiter|][k] == delimiter[k];
  }

  /**
   * `getIndexOfByteListInByteList`: for each start position, compare the delimiter byte by
   * byte, stop at the first mismatch and return the position once its last byte matched.
   */
  method GetIndexOfByteListInByteList(dataBuffer: seq<JByte>, delimiter: seq<JByte>, offset: int)
    returns (r: int)
    requires 0 <= offset
    ensures r == IndexAsWritten(dataBuffer, delimiter, offset)
  {
    if |dataBuffer| < |delimiter| || |dataBuffer| < 1 {
      return -1;
    }
    var bound := |dataBuffer| - |delimiter|;
    var dataBufferIndex := offset;
    while dataBufferIndex < bound
      invariant offset <= dataBufferIndex
      invariant IndexAsWritten(dataBuffer, delimiter, offset) ==
        if |delimiter| == 0 then -1 else FirstMatch(dataBuffer, delimiter, dataBufferIndex, bound)
      decreases bound - dataBufferIndex
    {
      var delimiterIndex := 0;
      while delimiterIndex < |delimiter|
        invariant 0 <= delimiterIndex <= |delimiter|
        invariant |delimiter| == 0 || delimiterIndex < |delimiter|
        invariant forall k :: 0 <= k < delimiterIndex ==> dataBuffer[dataBufferIndex + k] == delimiter[k]
      {
        if dataBuffer[dataBufferIndex + delimiterIndex] != delimiter[delimiterIndex] {
          MismatchIsNoMatch(dataBuffer, delimiter, dataBufferIndex, delimiterIndex);
          break;
        } else if delimiterIndex == |delimiter| - 1 {
          AllEqualIsMatch(dataBuffer, delimiter, dataBufferIndex);
          return dataBufferIndex;
        }
        delimiterIndex := delimiterIndex + 1;
      }
      dataBufferIndex := dataBufferIndex + 1;
    }
    return -1;
  }

  /**
   * A result of the code as written has no match before it from `offset` on; -1 means no
   * position of `[offset, |data| - |delimiter|)` matches, or the delimiter is empty.
   */
  lemma IndexAsWrittenSpec(data: seq<JByte>, delimiter: seq<JByte>, offset: nat)
    ensures var r := IndexAsWritten(data, delimiter, offset);
      && (r != -1 ==> forall q :: offset <= q < r ==> !MatchesAt(data, delimiter, q))
      && (r == -1 && |delimiter| > 0 ==>
            forall q :: offset <= q < |data| - |delimiter| ==> !MatchesAt(data, delimiter, q))
  {
    FirstMatchIsFirst(data, delimiter, offset, |data| - |delimiter|);
  }

  /**
   * The intended search finds the first match at or after `offset`: no position before
   * its result matches, and for a non-empty delimiter -1 means no position from `offset` on
   * matches (an empty delimiter gives -1 in both searches).
   */
  lemma IndexOfSpec(data: seq<JByte>, delimiter: seq<JByte>, offset: nat)
    ensures var r := IndexOf(data, delimiter, offset);
      && (r != -1 ==> forall q :: offset <= q < r ==> !MatchesAt(data, delimiter, q))
      && (r == -1 && |delimiter| > 0 ==> forall q :: offset <= q ==> !MatchesAt(data, delimiter, q))
  {
    FirstMatchIsFirst(data, delimiter, offset, |data| - |delimiter| + 1);
  }

  /**
   * The code as written agrees with the intended search everywhere except when the first
   * match is at the last start position `|data| - |delimiter|`: there it answers -1.
   */
  lemma AsWrittenMissesOnlyLastPosition(data: seq<JByte>, delimiter: seq<JByte>, offset: nat)
    ensures var fixed := IndexOf(data, delimiter, offset);
      var written := IndexAsWritten(data, delimiter, offset);
      && (fixed != |data| - |delimiter| ==> written == fixed)
      && (fixed == |data| - |delimiter| ==> written == -1)
  {
    var fixed := IndexOf(data, delimiter, offset);
    var written := IndexAsWritten(data, delimiter, offset);
    IndexOfSpec(data, delimiter, offset);
    IndexAsWrittenSpec(data, delimiter, offset);
  }

  /** A delimiter equal to the whole buffer is never found by the code as written. */
  lemma WholeBufferDelimiterMissed(data: seq<JByte>)
    requires |data| > 0
    ensures IndexOf(data, data, 0) == 0
    ensures IndexAsWritten(data, data, 0) == -1
  {
    assert MatchesAt(data, data, 0) by { assert data[0..|data|] == data; }
  }

  /** The smallest instance of the missed match: a one-byte buffer holding the delimiter. */
  lemma OneByteCounterexample()
    ensures IndexAsWritten([0x24], [0x24], 0) == -1
    ensures IndexOf([0x24], [0x24], 0) == 0
  {
    WholeBufferDelimiterMissed([0x24]);
  }

  /** The test buffer "$$2345$$123" as bytes. */
  lemma DollarBufferBytes()
    ensures ConvertAsciiStringToByteArray("$$2345$$123") == [36, 36, 50, 51, 52, 53, 36, 36, 49, 50, 51]
    ensures ConvertAsciiStringToByteArray("$$") == [36, 36]
    ensures ConvertAsciiStringToByteArray("EE") == [69, 69]
  {
  }

  /** "$$" is found at the start of "$$2345$$123". */
  lemma SearchFoundAtStart()
    ensures IndexAsWritten(ConvertAsciiStringToByteArray("$$2345$$123"), ConvertAsciiStringToByteArray("$$"), 0) == 0
  {
    DollarBufferBytes();
    var data: seq<JByte> := [36, 36, 50, 51, 52, 53, 36, 36, 49, 50, 51];
    assert MatchesAt(data, [36, 36], 0);
  }

  /** From offset 2, "$$" is found at 6 in "$$2345$$123". */
  lemma SearchFoundAfterOffset()
    ensures IndexAsWritten(ConvertAsciiStringToByteArray("$$2345$$123"), ConvertAsciiStringToByteArray("$$"), 2) == 6
  {
    DollarBufferBytes();
    var data: seq<JByte> := [36, 36, 50, 51, 52, 53, 36, 36, 49, 50, 51];
    var delimiter: seq<JByte> := [36, 36];
    assert MatchesAt(data, delimiter, 6);
    forall q | 2 <= q < 6
      ensures !MatchesAt(data, delimiter, q)
    {
      assert data[q] != 36;
      assert q + 2 <= |data| ==> data[q..q + 2][0] == data[q];
    }
    IndexAsWrittenSpec(data, delimiter, 2);
  }

  /** "EE" does not occur in "$$2345$$123". */
  lemma SearchAbsentDelimiter()
    ensures IndexAsWritten(ConvertAsciiStringToByteArray("$$2345$$123"), ConvertAsciiStringToByteArray("EE"), 0) == -1
  {
    DollarBufferBytes();
    var data: seq<JByte> := [36, 36, 50, 51, 52, 53, 36, 36, 49, 50, 51];
    var delimiter: seq<JByte> := [69, 69];
    forall q | 0 <= q < 9
      ensures !MatchesAt(data, delimiter, q)
    {
      assert data[q] != 69;
      assert data[q..q + 2][0] == data[q];
    }
    IndexAsWrittenSpec(data, delimiter, 0);
  }

  /** The test bytes "AAAA5555DDDD00C605B4" and "AAAA5555DDDD". */
  lemma WordBufferBytes()
    ensures ConvertAsciiStringToByteArray("AAAA5555DDDD00C605B4")
      == [65, 65, 65, 65, 53, 53, 53, 53, 68, 68, 68, 68, 48, 48, 67, 54, 48, 53, 66, 52]
    ensures ConvertAsciiStringToByteArray("AAAA5555DDDD")
      == [65, 65, 65, 65, 53, 53, 53, 53, 68, 68, 68, 68]
  {
  }

  /** "AAAA5555DDDD" is found at the start of "AAAA5555DDDD00C605B4". */
  lemma SearchWordFoundAtStart()
    ensures IndexAsWritten(ConvertAsciiStringToByteArray("AAAA5555DDDD00C605B4"),
                           ConvertAsciiStringToByteArray("AAAA5555DDDD"), 0) == 0
  {
    WordBufferBytes();
    var data: seq<JByte> := [65, 65, 65, 65, 53, 53, 53, 53, 68, 68, 68, 68, 48, 48, 67, 54, 48, 53, 66, 52];
    var delimiter: seq<JByte> := [65, 65, 65, 65, 53, 53, 53, 53, 68, 68, 68, 68];
    assert data[0..12] == delimiter;
    assert MatchesAt(data, delimiter, 0);
  }

  /** A two-byte delimiter is not looked for in a one-byte buffer. */
  lemma SearchDelimiterLongerThanData()
    ensures IndexAsWritten([-86], [-1, -18], 0) == -1
  {
  }
}

/** Copying a range of a byte array (ByteOperations.java, lines 99-112). */
module ByteArrays {
  import opened JavaBytes

  /**
   * `subArray`: a fresh array of `subArraySize` bytes copied from `fullArray` starting at
   * `start`. The caller must keep the range inside the array: a negative size fails on
   * allocation and an index outside it on the first read; a size of zero reads nothing,
   * so then any `start` is accepted.
   */
  method SubArray(fullArray: array<JByte>, start: int, subArraySize: int) returns (byteArray: array<JByte>)
    requires 0 <= subArraySize
    requires subArraySize == 0 || (0 <= start && start + subArraySize <= fullArray.Length)
    ensures fresh(byteArray)
    ensures byteArray.Length == subArraySize
    ensures forall i :: 0 <= i < subArraySize ==> byteArray[i] == fullArray[start + i]
    ensures fullArray[..] == old(fullArray[..])
  {
    byteArray := new JByte[subArraySize];
    for i := 0 to subArraySize
      invariant forall k :: 0 <= k < i ==> byteArray[k] == fullArray[start + k]
    {
      byteArray[i] := fullArray[start + i];
    }
  }

  /** The test's use: bytes 3, 4 and 5 of a seven-byte array. */
  method SubArrayExample() returns (sub: array<JByte>)
    ensures sub[..] == [-119, -86, -43]
  {
    var full := new JByte[7];
    full[0], full[1], full[2], full[3], full[4], full[5], full[6] := 0x00, 0x22, 0x34, -119, -86, -43, -1;
    sub := SubArray(full, 3, 3);
  }
}

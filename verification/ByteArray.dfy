/** The bounds-checked copy of src/cetty/buffer/Array.cpp. */
module ByteArray {
  import opened Bytes
  import opened Results

  function Size(a: array?<Byte>): nat {
    if a == null then 0 else a.Length
  }

  predicate CopyFits(dstSize: nat, dstIndex: int, srcSize: nat, srcIndex: int, length: int) {
    0 <= dstIndex && 0 <= srcIndex && 0 <= length && srcIndex + length <= srcSize && dstIndex + length <= dstSize
  }

  /**
   * Copies `length` bytes; source and destination may be one array and overlap in any way. The
   * range is checked before the pointers, and a copy that throws changes nothing.
   */
  method Copy(dst: array?<Byte>, dstIndex: int, src: array?<Byte>, srcIndex: int, length: int) returns (r: Result<()>)
    modifies dst
    ensures !CopyFits(Size(dst), dstIndex, Size(src), srcIndex, length) ==> r == Thrown(RangeException)
    ensures CopyFits(Size(dst), dstIndex, Size(src), srcIndex, length) ==>
              r == if dst == null || src == null then Thrown(InvalidArgumentException) else Ok(())
    ensures dst != null ==>
              dst[..] == if r.Ok? then Spliced(old(dst[..]), dstIndex, old(src[srcIndex..srcIndex + length]))
                         else old(dst[..])
  {
    var srcLastIndex := srcIndex + length;
    if dstIndex < 0 || srcIndex < 0 || length < 0 || srcLastIndex > Size(src) || dstIndex + length > Size(dst) {
      return Thrown(RangeException);
    }
    if src == null || dst == null {
      return Thrown(InvalidArgumentException);
    }
    forall i | 0 <= i < length {
      dst[dstIndex + i] := src[srcIndex + i];
    }
    r := Ok(());
  }
}

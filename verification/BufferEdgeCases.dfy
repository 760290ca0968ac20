/**
 * Calls that leave a buffer with its indexes out of order: for each, the shortest use that shows
 * it. The contracts of `ChannelBuffer` say exactly when it happens.
 */
module BufferEdgeCases {
  import opened BufferModel
  import opened ChannelBuffers
  import opened Codec
  import opened Results

  /** A new buffer of one byte that was written and read. */
  method OneByteRead() returns (b: ChannelBuffer)
    ensures fresh(b) && fresh(b.buffer) && b.Valid() && b.View() == Buf(1, [7], 1, 0, 0, 0)
  {
    b := new ChannelBuffer(true, 1);
    var wrote := b.WriteByte(7);
    EncodeByte(7);
    assert b.Valid() && b.View() == Buf(1, [7], 0, 0, 0, 0);
    var seven := b.ReadByte();
  }

  /** The writer mark starts at 0; resetting to it after a read puts the writer before the reader. */
  method ResetWriterIndexBeforeReader() returns (b: ChannelBuffer)
    ensures b.writerIdx == 0 && b.readerIdx == 1 && !b.Valid()
  {
    b := OneByteRead();
    assert b.View().r == 1 && b.View().markedW == 0;
    b.ResetWriterIndex();
  }

  /** Discarding when all is read leaves the mark behind: the reader index cannot be reset to it. */
  method MarkLeftBehind() returns (b: ChannelBuffer, r: Result<()>)
    ensures b.Valid() && b.View() == Buf(1, [], 0, 1, 0, 0) && r == Thrown(RangeException)
  {
    b := OneByteRead();
    b.MarkReaderIndex();
    assert b.View() == Buf(1, [7], 1, 1, 0, 0);
    b.DiscardReadBytes();
    assert b.View() == Buf(1, [], 0, 1, 0, 0);
    r := b.ResetReaderIndex();
  }

  /** Skipping -1 bytes of a new buffer is accepted and leaves the reader at -1. */
  method SkipBackwards() returns (b: ChannelBuffer)
    ensures b.readerIdx == -1 && !b.Valid()
  {
    b := new ChannelBuffer(true, 0);
    var r := b.SkipBytes(-1);
  }

  /** Writing one byte to a fixed buffer of no bytes throws and leaves the writer beyond the capacity. */
  method WriteByteBeyondCapacity() returns (b: ChannelBuffer, r: Result<()>)
    ensures r == Thrown(RangeException) && b.writerIdx == 1 && b.buffer.Length == 0 && !b.Valid()
  {
    b := new ChannelBuffer(false, 0);
    r := b.WriteByte(7);
  }
}

/** Runs of calls on a dynamic buffer: the theorems about runs in `BufferModel` hold of the class. */
module BufferRuns {
  import opened BufferModel
  import opened Bytes
  import opened ChannelBuffers
  import opened Numbers
  import opened Results

  method PerformWrite(b: ChannelBuffer, bytes: seq<Byte>)
    requires b.Valid() && b.growable && Fits(b.View(), Write(bytes))
    modifies b, b.buffer
    ensures b.buffer == old(b.buffer) || fresh(b.buffer)
    ensures b.Valid() && b.View() == Do(old(b.View()), Write(bytes))
  {
    var src := new Byte[|bytes|](i requires 0 <= i < |bytes| => bytes[i]);
    assert src[0..|bytes|] == bytes;
    var r := b.WriteBytes(src, 0, |bytes|);
  }

  method PerformZero(b: ChannelBuffer, n: int)
    requires b.Valid() && b.growable && Fits(b.View(), Zero(n))
    modifies b, b.buffer
    ensures b.buffer == old(b.buffer) || fresh(b.buffer)
    ensures b.Valid() && b.View() == Do(old(b.View()), Zero(n))
  {
    assert n < 0 ==> b.View().store + Zeros(0) == b.View().store;
    var r := b.WriteZero(n);
  }

  method PerformRead(b: ChannelBuffer, n: int)
    requires b.Valid()
    modifies b`readerIdx
    ensures b.Valid() && b.View() == Do(old(b.View()), Read(n))
  {
    var dst := new Byte[if n > 0 then n else 0];
    var r := b.ReadBytes(dst, 0, n);
  }

  method PerformTakeAway(b: ChannelBuffer, n: int)
    requires b.Valid()
    modifies b`readerIdx, b`writerIdx
    ensures b.Valid() && b.View() == Do(old(b.View()), TakeAway(n))
  {
    var r := b.ReadBuffer(n);
  }

  /** Calls the method that an operation stands for. */
  method Perform(b: ChannelBuffer, op: Op)
    requires b.Valid() && b.growable && Fits(b.View(), op)
    modifies b, b.buffer
    ensures b.buffer == old(b.buffer) || fresh(b.buffer)
    ensures b.Valid() && b.View() == Do(old(b.View()), op)
  {
    match op {
      case Write(bytes) => PerformWrite(b, bytes);
      case Zero(n) => PerformZero(b, n);
      case Read(n) => PerformRead(b, n);
      case TakeAway(n) => PerformTakeAway(b, n);
      case Skip(count) => var r := b.SkipBytes(count);
      case Clear => b.Clear();
      case Discard => b.DiscardReadBytes();
      case Ensure(n) => var r := b.EnsureWritableBytes(n);
      case MarkReader => b.MarkReaderIndex();
      case MarkWriter => b.MarkWriterIndex();
    }
  }

  /**
   * Any calls in a row whose peak demand is at most 2^30: the readable bytes are those of a plain
   * queue, and reallocations have copied no more bytes than the capacity gained.
   */
  method PerformAll(b: ChannelBuffer, ops: seq<Op>)
    requires b.Valid() && b.growable && b.buffer.Length < TWO_31 && Peak(b.View(), ops) <= TWO_31 / 2
    modifies b, b.buffer
    ensures b.buffer == old(b.buffer) || fresh(b.buffer)
    ensures b.Valid() && b.View() == DoAll(old(b.View()), ops)
    ensures b.Contents() == QueueAll(old(b.Contents()), ops) && b.buffer.Length < TWO_31
    ensures b.copied + old(b.buffer.Length) <= old(b.copied) + b.buffer.Length
  {
    ghost var start := b.View();
    RunFits(start, ops);
    assert ops[0..] == ops;
    for i := 0 to |ops|
      invariant b.Valid() && (b.buffer == old(b.buffer) || fresh(b.buffer))
      invariant AllFit(b.View(), ops[i..])
      invariant DoAll(b.View(), ops[i..]) == DoAll(start, ops)
    {
      assert ops[i..][0] == ops[i] && ops[i..][1..] == ops[i + 1..];
      Perform(b, ops[i]);
    }
    RunRefinesQueue(start, ops);
    GrowthIsAmortised(start, ops);
  }
}

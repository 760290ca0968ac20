/** The client side of the echo benchmark: `session` of benchmark/asio/client.cpp. */
module EchoClient {
  import opened Bytes
  import opened EchoSession

  /** A session with the two byte counts it reports to `stats`. */
  datatype Client = Client(io: Session, bytesWritten: nat, bytesRead: nat)
  {
    /** The first write sends the whole block. */
    function HandleConnect(failed: bool, optionFailed: bool): Client {
      if failed || optionFailed then this
      else this.(io := io.(unsent := io.unsent + 1,
                 writeOps := io.writeOps + [Writing(io.writeData, io.size, 0)],
                 readOps := io.readOps + [Reading(io.readData)]))
    }

    function HandleRead(failed: bool, length: nat): Client {
      if failed then this
      else this.(io := io.HandleRead(false, length), bytesRead := bytesRead + length)
    }

    function HandleWrite(failed: bool, length: nat): Client {
      if failed || length == 0 then this
      else this.(io := io.HandleWrite(false), bytesWritten := bytesWritten + length)
    }
  }

  /** The block the client sends first. */
  function Pattern(size: nat): (p: seq<Byte>)
    ensures |p| == size && forall i :: 0 <= i < size ==> p[i] == i % 128
  {
    seq(size, (i: nat) => (i % 128) as Byte)
  }

  function Constructed(size: nat, first: seq<Byte>): Client {
    Client(Session(size, first, Pattern(size), First, Second, 0, 0, [], [], [], []), 0, 0)
  }

  function Apply(c: Client, e: Event): Client
    requires Enabled(c.io, e)
  {
    var c' := c.(io := Occur(c.io, e));
    match e
    case RunRead(i) => c'.HandleRead(c.io.readOps[i].ReadError?, Got(c.io.readOps[i]))
    case RunWrite(i) => c'.HandleWrite(c.io.writeOps[i].WriteError?, c.io.writeOps[i].sent)
    case _ => c'
  }

  /**
   * The client echoes after its own block, and the counts it reports are the bytes that were
   * really moved by the operations whose success it was told of.
   */
  predicate Inv(c: Client) {
    && EchoSession.Inv(c.io, Pattern(c.io.size))
    && c.bytesRead + Arrived(c.io) == |c.io.received|
    && c.bytesWritten + Leaving(c.io) <= |c.io.written|
    && (!WriteDead(c.io) ==> c.bytesWritten + Leaving(c.io) == |c.io.written|)
  }

  /** Bytes of a read that `handle_read` was not told of yet. */
  function Arrived(s: Session): nat {
    if |s.readOps| == 1 then Got(s.readOps[0]) else 0
  }

  /** Bytes already sent of a write that `handle_write` was not told of yet. */
  function Leaving(s: Session): nat {
    if |s.writeOps| == 1 then s.writeOps[0].sent else 0
  }

  lemma ApplyIsSessionApply(c: Client, e: Event)
    requires Separated(c.io) && Enabled(c.io, e) && c.io.size > 0
    ensures Apply(c, e).io == EchoSession.Apply(c.io, e)
  {}

  lemma ConnectEstablishesInv(size: nat, first: seq<Byte>)
    requires size == |first|
    ensures Inv(Constructed(size, first).HandleConnect(false, false))
    ensures Clean(Constructed(size, first).HandleConnect(false, false).io)
  {
    var c := Constructed(size, first).HandleConnect(false, false);
    assert Unsent(c.io) == Pattern(size);
  }

  /** When connecting or setting the option fails, nothing is started. */
  lemma FailedConnectStartsNothing(size: nat, first: seq<Byte>, failed: bool, optionFailed: bool, e: Event)
    requires failed || optionFailed
    ensures var c := Constructed(size, first).HandleConnect(failed, optionFailed);
            c == Constructed(size, first) && !Enabled(c.io, e)
  {}

  /** A reported failure ends its operation and changes nothing else; nor does a write of no bytes. */
  lemma FailureChangesNothing(c: Client, e: Event)
    requires Separated(c.io) && Enabled(c.io, e)
    ensures e.RunRead? && c.io.readOps[0].ReadError? ==> Apply(c, e) == c.(io := c.io.(readOps := []))
    ensures e.RunWrite? && (c.io.writeOps[0].WriteError? || c.io.writeOps[0].sent == 0)
            ==> Apply(c, e) == c.(io := c.io.(writeOps := []))
  {
    if e.RunRead? {
      assert Drop(c.io.readOps, 0) == [];
    } else if e.RunWrite? {
      assert Drop(c.io.writeOps, 0) == [];
    }
  }

  /** What an event adds to the counts is what it takes from the operations not yet reported. */
  lemma CountsFollow(c: Client, e: Event)
    requires Separated(c.io) && Enabled(c.io, e)
    ensures var d := Apply(c, e);
            && d.bytesRead + Arrived(d.io) == c.bytesRead + Arrived(c.io) + (if e.Arrive? then |e.data| else 0)
            && d.bytesWritten + Leaving(d.io) <= c.bytesWritten + Leaving(c.io) + |SentBytes(c.io, e)|
            && (!(e.RunWrite? && c.io.writeOps[0].WriteError?) ==>
                  d.bytesWritten + Leaving(d.io) == c.bytesWritten + Leaving(c.io) + |SentBytes(c.io, e)|)
  {
    match e
    case RunRead(_) => assert Drop(c.io.readOps, 0) == [];
    case RunWrite(_) => assert Drop(c.io.writeOps, 0) == [];
    case Arrive(_, _) =>
    case Send(_, _) =>
    case BreakRead(_) =>
    case BreakWrite(_) =>
  }

  /** A client of block size 0 is told that 0 bytes were written, and takes it like a failure. */
  lemma EmptyWriteIsBroken(c: Client, e: Event)
    requires Separated(c.io) && Enabled(c.io, e) && c.io.size == 0 && e.RunWrite? && c.io.writeOps[0].Writing?
    ensures Enabled(c.io, BreakWrite(0)) && Enabled(EchoSession.Apply(c.io, BreakWrite(0)), e)
    ensures Apply(c, e).io == EchoSession.Apply(EchoSession.Apply(c.io, BreakWrite(0)), e)
  {}

  lemma ApplyKeepsInv(c: Client, e: Event)
    requires Inv(c) && Enabled(c.io, e)
    ensures Inv(Apply(c, e))
  {
    var start := Pattern(c.io.size);
    CountsFollow(c, e);
    if c.io.size == 0 && e.RunWrite? && c.io.writeOps[0].Writing? {
      var broken := EchoSession.Apply(c.io, BreakWrite(0));
      EmptyWriteIsBroken(c, e);
      EchoSession.ApplyKeepsInv(c.io, start, BreakWrite(0));
      EchoSession.ApplyKeepsInv(broken, start, e);
      DeathIsFinal(broken, e);
    } else {
      EchoSession.ApplyKeepsInv(c.io, start, e);
      assert Apply(c, e).io == EchoSession.Apply(c.io, e) by {
        if c.io.size > 0 {
          ApplyIsSessionApply(c, e);
        }
      }
      HistoryGrows(c.io, e);
      DeathIsFinal(c.io, e);
    }
  }

  class ClientSession {
    const blockSize: nat
    var readData: array<Byte>
    var readDataLength: nat
    var writeData: array<Byte>
    var unwrittenCount: int
    var bytesWritten: nat
    var bytesRead: nat

    const socket: Socket

    ghost predicate Valid()
      reads this
    {
      && socket.first != socket.second && {readData, writeData} == {socket.first, socket.second}
      && socket.first.Length == socket.second.Length == blockSize
    }

    ghost function View(): Client
      reads this, socket, socket.first, socket.second
    {
      Client(socket.View(blockSize, readData, writeData, readDataLength, unwrittenCount), bytesWritten, bytesRead)
    }

    /** Fills the block that is written first. */
    constructor (blockSize: nat)
      ensures Valid() && fresh(socket) && fresh(socket.first) && fresh(socket.second)
      ensures View() == Constructed(blockSize, View().io.first)
    {
      this.blockSize := blockSize;
      var r := new Byte[blockSize];
      var w := new Byte[blockSize];
      readData, writeData := r, w;
      socket := new Socket(r, w);
      readDataLength, unwrittenCount, bytesWritten, bytesRead := 0, 0, 0, 0;
      new;
      for i := 0 to blockSize
        modifies w
        invariant forall k :: 0 <= k < i ==> w[k] == k % 128
      {
        writeData[i] := i % 128;
      }
      assert w[..] == Pattern(blockSize);
    }

    method HandleConnect(err: bool, optionFailed: bool)
      requires Valid()
      modifies this, socket
      ensures Valid() && View() == old(View()).HandleConnect(err, optionFailed)
    {
      if !err {
        if !optionFailed {
          unwrittenCount := unwrittenCount + 1;
          socket.AsyncWrite(writeData, blockSize);
          socket.AsyncRead(readData);
        }
      }
    }

    /** The lines both handlers repeat: swap the blocks, start a write and a read. */
    method Restart()
      requires Valid()
      modifies this`readData, this`writeData, socket
      ensures Valid() && View() == old(View()).(io := old(View()).io.Restart())
    {
      readData, writeData := writeData, readData;
      socket.AsyncWrite(writeData, readDataLength);
      socket.AsyncRead(readData);
    }

    method HandleRead(err: bool, length: nat)
      requires Valid()
      modifies this, socket
      ensures Valid() && View() == old(View()).HandleRead(err, length)
    {
      if !err {
        bytesRead := bytesRead + length;
        readDataLength := length;
        unwrittenCount := unwrittenCount + 1;
        if unwrittenCount == 1 {
          Restart();
        }
      }
    }

    method HandleWrite(err: bool, length: nat)
      requires Valid()
      modifies this, socket
      ensures Valid() && View() == old(View()).HandleWrite(err, length)
    {
      if !err && length > 0 {
        bytesWritten := bytesWritten + length;
        unwrittenCount := unwrittenCount - 1;
        if unwrittenCount == 1 {
          Restart();
        }
      }
    }
  }
}

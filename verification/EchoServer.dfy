/**
 * The server side of the echo benchmark: `session` of benchmark/asio/server.cpp (the session of
 * thread_server.cpp has the same handlers, called without a strand).
 */
module EchoServer {
  import opened Bytes
  import opened EchoSession

  /** A session with its operation count and the number of times `destroy` was posted. */
  datatype Server = Server(io: Session, opCount: int, destroyed: nat)
  {
    /** `start()` on a session that was just constructed. */
    function Start(optionFailed: bool): Server {
      if optionFailed then this.(destroyed := destroyed + 1)
      else this.(opCount := opCount + 1, io := io.(readOps := io.readOps + [Reading(io.readData)]))
    }

    function HandleRead(failed: bool, length: nat): Server {
      var n := opCount - 1 + if io.RestartsOnRead(failed) then 2 else 0;
      Server(io.HandleRead(failed, length), n, destroyed + if n == 0 then 1 else 0)
    }

    function HandleWrite(failed: bool): Server {
      var n := opCount - 1 + if io.RestartsOnWrite(failed) then 2 else 0;
      Server(io.HandleWrite(failed), n, destroyed + if n == 0 then 1 else 0)
    }
  }

  function Constructed(size: nat, first: seq<Byte>, second: seq<Byte>): Server {
    Server(Session(size, first, second, First, Second, 0, 0, [], [], [], []), 0, 0)
  }

  function Apply(s: Server, e: Event): Server
    requires Enabled(s.io, e)
  {
    var s' := s.(io := Occur(s.io, e));
    match e
    case RunRead(i) => s'.HandleRead(s.io.readOps[i].ReadError?, Got(s.io.readOps[i]))
    case RunWrite(i) => s'.HandleWrite(s.io.writeOps[i].WriteError?)
    case _ => s'
  }

  lemma ApplyIsSessionApply(s: Server, e: Event)
    requires Enabled(s.io, e)
    ensures Apply(s, e).io == EchoSession.Apply(s.io, e)
  {}

  /** A run of a session: each event is possible when it happens. */
  ghost predicate Run(s: Server, events: seq<Event>, s': Server)
    decreases |events|
  {
    if events == [] then s == s'
    else Enabled(s.io, events[0]) && Run(Apply(s, events[0]), events[1..], s')
  }

  // ---------------------------------------------------------------------------
  // Invariants over every run, with or without errors
  // ---------------------------------------------------------------------------

  /**
   * The session echoes, `op_count_` counts the operations outstanding, and `destroy` was posted
   * once if there are none and not at all otherwise.
   */
  predicate Inv(s: Server) {
    EchoSession.Inv(s.io, []) && Counted(s)
  }

  lemma StartEstablishesInv(size: nat, first: seq<Byte>, second: seq<Byte>, optionFailed: bool)
    requires |first| == |second| == size
    ensures Inv(Constructed(size, first, second).Start(optionFailed))
    ensures !optionFailed ==> Clean(Constructed(size, first, second).Start(optionFailed).io)
  {}

  /**
   * A session whose option was set waits for its first bytes; one whose option failed does nothing
   * any more and is destroyed.
   */
  lemma StartWaitsOrDestroys(size: nat, first: seq<Byte>, second: seq<Byte>, optionFailed: bool)
    ensures var s := Constructed(size, first, second).Start(optionFailed);
            && s.io.received == s.io.written == []
            && s.io.writeOps == []
            && if optionFailed then s.opCount == 0 && s.destroyed == 1 && forall e: Event :: !Enabled(s.io, e)
               else s.opCount == 1 && s.destroyed == 0 && s.io.readOps == [Reading(s.io.readData)]
  {}

  lemma ApplyKeepsInv(s: Server, e: Event)
    requires Inv(s) && Enabled(s.io, e)
    ensures Inv(Apply(s, e))
  {
    EchoSession.ApplyKeepsInv(s.io, [], e);
    ApplyIsSessionApply(s, e);
    CountFollows(s, e);
  }

  /** `op_count_` is the number of outstanding operations, and `destroy` was posted once if there are none. */
  predicate Counted(s: Server) {
    && s.opCount == |s.io.readOps| + |s.io.writeOps|
    && s.destroyed == if s.opCount == 0 then 1 else 0
  }

  /** Every handler call ends one operation and accounts for those it starts. */
  lemma CountFollows(s: Server, e: Event)
    requires Separated(s.io) && Enabled(s.io, e) && Counted(s)
    ensures Counted(Apply(s, e))
  {
    match e
    case RunRead(_) => CountFollowsRead(s, e);
    case RunWrite(_) => CountFollowsWrite(s, e);
    case _ =>
  }

  lemma CountFollowsRead(s: Server, e: Event)
    requires Separated(s.io) && Enabled(s.io, e) && e.RunRead? && Counted(s)
    ensures Counted(Apply(s, e))
  {
    assert Drop(s.io.readOps, 0) == [];
  }

  lemma CountFollowsWrite(s: Server, e: Event)
    requires Separated(s.io) && Enabled(s.io, e) && e.RunWrite? && Counted(s)
    ensures Counted(Apply(s, e))
  {
    assert Drop(s.io.writeOps, 0) == [];
  }

  /** Session lifetime and echo safety in every reachable state. */
  lemma {:induction false} RunKeepsInv(s: Server, events: seq<Event>, s': Server)
    requires Inv(s) && Run(s, events, s')
    ensures Inv(s')
    decreases |events|
  {
    if events != [] {
      ApplyKeepsInv(s, events[0]);
      RunKeepsInv(Apply(s, events[0]), events[1..], s');
    }
  }

  /**
   * In every run of a session that was just accepted, whatever fails: only bytes that were
   * received are written, in order; at most one read and one write are outstanding, on different
   * blocks; `op_count_` counts them; and `destroy` was posted exactly once if there are none.
   */
  lemma EchoSafety(size: nat, first: seq<Byte>, second: seq<Byte>, optionFailed: bool, events: seq<Event>, s: Server)
    requires |first| == |second| == size
    requires Run(Constructed(size, first, second).Start(optionFailed), events, s)
    ensures s.io.written <= s.io.received
    ensures |s.io.readOps| <= 1 && |s.io.writeOps| <= 1 && 0 <= s.io.unsent <= 2
    ensures |s.io.readOps| == 1 && |s.io.writeOps| == 1 ==> s.io.readOps[0].into != s.io.writeOps[0].from
    ensures s.opCount == |s.io.readOps| + |s.io.writeOps|
    ensures s.destroyed == if s.opCount == 0 then 1 else 0
  {
    StartEstablishesInv(size, first, second, optionFailed);
    RunKeepsInv(Constructed(size, first, second).Start(optionFailed), events, s);
    assert [] + s.io.received == s.io.received;
  }

  /** Without errors nothing is lost: written, being written and pending make up everything received. */
  lemma {:induction false} CleanRunEchoesAll(s: Server, events: seq<Event>, s': Server)
    requires Inv(s) && Clean(s.io) && Run(s, events, s') && forall e <- events :: !e.Failure()
    ensures Clean(s'.io) && s'.io.written + Unsent(s'.io) + Pending(s'.io) == s'.io.received
    decreases |events|
  {
    if events == [] {
      assert [] + s.io.received == s.io.received;
    } else {
      var t := Apply(s, events[0]);
      ApplyKeepsInv(s, events[0]);
      ApplyIsSessionApply(s, events[0]);
      ApplyKeepsClean(s.io, events[0]);
      CleanRunEchoesAll(t, events[1..], s');
    }
  }

  /** Once `destroy` was posted no handler of the session is called again. */
  lemma DestroyedIsFinal(s: Server, e: Event)
    requires Inv(s) && s.destroyed > 0
    ensures !Enabled(s.io, e)
  {}

  /**
   * After a reported failure a run is bounded, and when no operation is left the session has
   * been destroyed exactly once.
   */
  lemma {:induction false} FailedSessionEnds(s: Server, events: seq<Event>, s': Server)
    requires Inv(s) && (WriteDead(s.io) || ReadDead(s.io)) && Run(s, events, s')
    ensures Inv(s') && (WriteDead(s'.io) || ReadDead(s'.io))
    ensures |events| + Remaining(s'.io) <= Remaining(s.io)
    ensures Remaining(s'.io) == 0 <==> s'.destroyed == 1
    decreases |events|
  {
    if events != [] {
      var t := Apply(s, events[0]);
      ApplyKeepsInv(s, events[0]);
      ApplyIsSessionApply(s, events[0]);
      DeadSessionWindsDown(s.io, events[0]);
      FailedSessionEnds(t, events[1..], s');
    }
  }

  // ---------------------------------------------------------------------------
  // The class
  // ---------------------------------------------------------------------------

  class ServerSession {
    const blockSize: nat
    var readData: array<Byte>
    var readDataLength: nat
    var writeData: array<Byte>
    var unsentCount: int
    var opCount: int

    const socket: Socket
    ghost var destroyed: nat

    ghost predicate Valid()
      reads this
    {
      socket.first != socket.second && {readData, writeData} == {socket.first, socket.second}
    }

    ghost function View(): Server
      reads this, socket, socket.first, socket.second
    {
      Server(socket.View(blockSize, readData, writeData, readDataLength, unsentCount), opCount, destroyed)
    }

    constructor (blockSize: nat)
      ensures Valid() && fresh(socket) && fresh(socket.first) && fresh(socket.second)
      ensures |View().io.first| == |View().io.second| == blockSize
      ensures View() == Constructed(blockSize, View().io.first, View().io.second)
    {
      this.blockSize := blockSize;
      var r := new Byte[blockSize];
      var w := new Byte[blockSize];
      readData, writeData := r, w;
      socket := new Socket(r, w);
      readDataLength, unsentCount, opCount, destroyed := 0, 0, 0, 0;
    }

    ghost method PostDestroy()
      modifies this`destroyed
      ensures destroyed == old(destroyed) + 1
    {
      destroyed := destroyed + 1;
    }

    method Start(optionFailed: bool)
      requires Valid()
      modifies this, socket
      ensures Valid() && View() == old(View()).Start(optionFailed)
    {
      if !optionFailed {
        opCount := opCount + 1;
        socket.AsyncRead(readData);
      } else {
        PostDestroy();
      }
    }

    /** The lines both handlers repeat: swap the blocks, start a write and a read. */
    method Restart()
      requires Valid()
      modifies this`readData, this`writeData, socket
      ensures Valid() && View() == old(View()).(io := old(View()).io.Restart())
    {
      readData, writeData := writeData, readData;
      socket.AsyncWrite(writeData, readDataLength);
      socket.AsyncRead(readData);
    }

    method HandleRead(err: bool, length: nat)
      requires Valid()
      modifies this, socket
      ensures Valid() && View() == old(View()).HandleRead(err, length)
    {
      opCount := opCount - 1;
      if !err {
        readDataLength := length;
        unsentCount := unsentCount + 1;
        if unsentCount == 1 {
          opCount := opCount + 2;
          Restart();
        }
      }
      if opCount == 0 {
        PostDestroy();
      }
    }

    method HandleWrite(err: bool)
      requires Valid()
      modifies this, socket
      ensures Valid() && View() == old(View()).HandleWrite(err)
    {
      opCount := opCount - 1;
      if !err {
        unsentCount := unsentCount - 1;
        if unsentCount == 1 {
          opCount := opCount + 2;
          Restart();
        }
      }
      if opCount == 0 {
        PostDestroy();
      }
    }
  }
}

/**
 * What the echo sessions of benchmark/asio (server.cpp, thread_server.cpp, client.cpp) share:
 * two data blocks reached through swapped pointers, the unsent counter, and the reads and writes
 * that were handed to the io_service. An operation remembers the block it was started on, so
 * bytes are stored into it and sent from it as that block stands when they move.
 */
module EchoSession {

  import opened Bytes

  datatype Block = First | Second

  datatype Read = Reading(into: Block) | ReadDone(into: Block, got: nat) | ReadError(into: Block)

  datatype Write = Writing(from: Block, length: nat, sent: nat) | WriteError(from: Block, length: nat, sent: nat)

  datatype Session = Session(
    size: nat,
    first: seq<Byte>, second: seq<Byte>,
    readData: Block, writeData: Block,
    readLength: nat,
    unsent: int,
    readOps: seq<Read>, writeOps: seq<Write>,
    received: seq<Byte>, written: seq<Byte>)
  {
    function Data(b: Block): seq<Byte> {
      if b == First then first else second
    }

    function SetData(b: Block, bytes: seq<Byte>): Session {
      if b == First then this.(first := bytes) else this.(second := bytes)
    }

    /** The code both handlers share: swap the blocks, start a write and a read. */
    function Restart(): Session {
      this.(readData := writeData, writeData := readData,
      writeOps := writeOps + [Writing(readData, readLength, 0)],
      readOps := readOps + [Reading(writeData)])
    }

    function HandleRead(failed: bool, length: nat): Session {
      if failed then this
      else
        var s := this.(readLength := length, unsent := unsent + 1);
        if s.unsent == 1 then s.Restart() else s
    }

    function HandleWrite(failed: bool): Session {
      if failed then this
      else
        var s := this.(unsent := unsent - 1);
        if s.unsent == 1 then s.Restart() else s
    }

    /** Whether the handler started two more operations. */
    predicate RestartsOnRead(failed: bool) {
      !failed && unsent == 0
    }

    predicate RestartsOnWrite(failed: bool) {
      !failed && unsent == 2
    }
  }

  // ---------------------------------------------------------------------------
  // Events
  // ---------------------------------------------------------------------------

  /** What can happen to the i-th outstanding read or write of a session. */
  datatype Event =
    | Arrive(i: nat, data: seq<Byte>)  // bytes reach the block of a read
    | BreakRead(i: nat)                // a read fails
    | RunRead(i: nat)                  // handle_read is called
    | Send(i: nat, n: nat)             // n more bytes of a write leave
    | BreakWrite(i: nat)               // a write fails
    | RunWrite(i: nat)                 // handle_write is called
  {
    predicate Handler() {
      RunRead? || RunWrite?
    }

    predicate Failure() {
      BreakRead? || BreakWrite?
    }
  }

  /** How many bytes one read can bring: at least one, unless the block has no room for any. */
  predicate IsChunk(n: int, size: nat) {
    0 <= n <= size && (n == 0 ==> size == 0)
  }

  predicate Enabled(s: Session, e: Event) {
    match e
    case Arrive(i, data) => i < |s.readOps| && s.readOps[i].Reading? && IsChunk(|data|, s.size)
                            && |s.Data(s.readOps[i].into)| >= |data|
    case BreakRead(i) => i < |s.readOps| && s.readOps[i].Reading?
    case RunRead(i) => i < |s.readOps| && !s.readOps[i].Reading?
    case Send(i, n) => i < |s.writeOps| && s.writeOps[i].Writing?
                       && 1 <= n && s.writeOps[i].sent + n <= s.writeOps[i].length
                       && s.writeOps[i].length <= |s.Data(s.writeOps[i].from)|
    case BreakWrite(i) => i < |s.writeOps| && s.writeOps[i].Writing?
    case RunWrite(i) => i < |s.writeOps| && (s.writeOps[i].Writing? ==> s.writeOps[i].sent == s.writeOps[i].length)
  }

  function Drop<T>(ops: seq<T>, i: nat): seq<T>
    requires i < |ops|
  {
    ops[..i] + ops[i + 1..]
  }

  /** The bytes a `Send` event moves, as the block holds them at that moment. */
  function SentBytes(s: Session, e: Event): seq<Byte>
    requires Enabled(s, e)
  {
    match e
    case Send(i, n) => s.Data(s.writeOps[i].from)[s.writeOps[i].sent..s.writeOps[i].sent + n]
    case _ => []
  }

  /** The part of an event that is not the session's own code. */
  function Occur(s: Session, e: Event): Session
    requires Enabled(s, e)
  {
    match e
    case Arrive(i, data) =>
      var into := s.readOps[i].into;
      s.SetData(into, data + s.Data(into)[|data|..])
      .(readOps := s.readOps[i := ReadDone(into, |data|)], received := s.received + data)
    case BreakRead(i) => s.(readOps := s.readOps[i := ReadError(s.readOps[i].into)])
    case RunRead(i) => s.(readOps := Drop(s.readOps, i))
    case Send(i, n) =>
      s.(writeOps := s.writeOps[i := s.writeOps[i].(sent := s.writeOps[i].sent + n)],
      written := s.written + SentBytes(s, e))
    case BreakWrite(i) =>
      s.(writeOps := s.writeOps[i := WriteError(s.writeOps[i].from, s.writeOps[i].length, s.writeOps[i].sent)])
    case RunWrite(i) => s.(writeOps := Drop(s.writeOps, i))
  }

  /** An event with the handler it calls. */
  function Apply(s: Session, e: Event): Session
    requires Enabled(s, e)
  {
    match e
    case RunRead(i) => Occur(s, e).HandleRead(s.readOps[i].ReadError?, Got(s.readOps[i]))
    case RunWrite(i) => Occur(s, e).HandleWrite(s.writeOps[i].WriteError?)
    case _ => Occur(s, e)
  }

  function Got(r: Read): nat {
    if r.ReadDone? then r.got else 0
  }

  // ---------------------------------------------------------------------------
  // The invariant
  // ---------------------------------------------------------------------------

  /** Read and received, but not yet being written. */
  function Pending(s: Session): seq<Byte> {
    if s.unsent == 2 then Take(s.Data(s.readData), s.readLength)
    else if |s.readOps| == 1 && s.readOps[0].ReadDone? then Take(s.Data(s.readOps[0].into), s.readOps[0].got)
    else []
  }

  /** Being written and not yet sent. */
  function Unsent(s: Session): seq<Byte> {
    if |s.writeOps| == 1 && s.writeOps[0].sent <= s.writeOps[0].length <= |s.Data(s.writeOps[0].from)|
    then s.Data(s.writeOps[0].from)[s.writeOps[0].sent..s.writeOps[0].length]
    else []
  }

  function Take(bytes: seq<Byte>, n: nat): seq<Byte> {
    if n <= |bytes| then bytes[..n] else bytes
  }

  /**
   * Buffer separation: at most one read and one write are outstanding, the read works on
   * `read_data_` and the write on `write_data_`, which are different blocks.
   */
  predicate Separated(s: Session) {
    && |s.first| == |s.second| == s.size
    && s.readData != s.writeData
    && 0 <= s.unsent <= 2
    && |s.readOps| <= 1 && |s.writeOps| <= 1
    && (forall r <- s.readOps :: r.into == s.readData && (r.ReadDone? ==> IsChunk(r.got, s.size)))
    && (forall w <- s.writeOps :: w.from == s.writeData && IsChunk(w.length, s.size) && w.sent <= w.length)
    && (s.unsent == 0 ==> s.writeOps == [])
    && (s.unsent == 2 ==> s.readOps == [] && IsChunk(s.readLength, s.size))
  }

  /** A write failed and was reported: nothing is written any more. */
  predicate WriteDead(s: Session) {
    s.writeOps == [] && s.unsent != 0
  }

  /** A read failed and was reported: nothing is read any more. */
  predicate ReadDead(s: Session) {
    s.readOps == [] && s.unsent != 2
  }

  /**
   * Echo: what was written, what is being written and what is pending is, in this order, `start`
   * followed by everything received. After a failed write only a prefix of it was written.
   */
  predicate Echoes(s: Session, start: seq<Byte>) {
    && s.written <= start + s.received
    && (!WriteDead(s) ==> s.written + Unsent(s) + Pending(s) == start + s.received)
  }

  predicate Inv(s: Session, start: seq<Byte>) {
    Separated(s) && Echoes(s, start)
  }

  /** No operation has failed so far. */
  predicate Clean(s: Session) {
    && !WriteDead(s) && !ReadDead(s)
    && (forall r <- s.readOps :: !r.ReadError?)
    && (forall w <- s.writeOps :: !w.WriteError?)
  }

  /** Both handlers swap the blocks only when nothing is outstanding on either. */
  lemma RestartFindsNothingOutstanding(s: Session, start: seq<Byte>, e: Event)
    requires Inv(s, start) && Enabled(s, e)
    ensures e.RunRead? && Occur(s, e).RestartsOnRead(s.readOps[e.i].ReadError?)
            ==> Occur(s, e).readOps == [] && Occur(s, e).writeOps == []
    ensures e.RunWrite? && Occur(s, e).RestartsOnWrite(s.writeOps[e.i].WriteError?)
            ==> Occur(s, e).readOps == [] && Occur(s, e).writeOps == []
  {}

  lemma ApplyKeepsSeparated(s: Session, e: Event)
    requires Separated(s) && Enabled(s, e)
    ensures Separated(Apply(s, e))
  {
    match e
    case RunRead(_) => RunReadKeepsSeparated(s, e);
    case RunWrite(_) => RunWriteKeepsSeparated(s, e);
    case Arrive(_, _) =>
    case Send(_, _) =>
    case BreakRead(_) =>
    case BreakWrite(_) =>
  }

  lemma RunReadKeepsSeparated(s: Session, e: Event)
    requires Separated(s) && Enabled(s, e) && e.RunRead?
    ensures Separated(Apply(s, e))
  {
    assert Drop(s.readOps, 0) == [];
  }

  lemma RunWriteKeepsSeparated(s: Session, e: Event)
    requires Separated(s) && Enabled(s, e) && e.RunWrite?
    ensures Separated(Apply(s, e))
  {
    assert Drop(s.writeOps, 0) == [];
  }

  lemma ArriveKeepsEchoes(s: Session, start: seq<Byte>, e: Event)
    requires Inv(s, start) && Enabled(s, e) && e.Arrive?
    ensures Echoes(Apply(s, e), start)
  {
    var t := Apply(s, e);
    assert Pending(s) == [] && Pending(t) == e.data;
    assert Unsent(t) == Unsent(s);
    assert s.written + Unsent(s) + [] == s.written + Unsent(s);
    assert start + t.received == start + s.received + e.data;
  }

  lemma SendKeepsEchoes(s: Session, start: seq<Byte>, e: Event)
    requires Inv(s, start) && Enabled(s, e) && e.Send?
    ensures Echoes(Apply(s, e), start)
  {
    var t := Apply(s, e);
    var w := s.writeOps[0];
    var block := s.Data(w.from);
    assert t.writeOps == [w.(sent := w.sent + e.n)];
    SplitRange(block, w.sent, w.sent + e.n, w.length);
    assert Unsent(s) == SentBytes(s, e) + Unsent(t);
    assert Pending(t) == Pending(s);
    MoveMiddle(s.written, SentBytes(s, e), Unsent(t), Pending(s));
  }

  lemma SplitRange(bytes: seq<Byte>, i: nat, j: nat, k: nat)
    requires i <= j <= k <= |bytes|
    ensures bytes[i..k] == bytes[i..j] + bytes[j..k]
  {}

  lemma MoveMiddle(a: seq<Byte>, b: seq<Byte>, c: seq<Byte>, d: seq<Byte>)
    ensures a + (b + c) + d == (a + b) + c + d
    ensures a + b <= a + (b + c) + d
  {}

  lemma RunReadKeepsEchoes(s: Session, start: seq<Byte>, e: Event)
    requires Inv(s, start) && Enabled(s, e) && e.RunRead?
    ensures Echoes(Apply(s, e), start)
  {
    var t := Apply(s, e);
    if s.readOps[0].ReadDone? {
      if s.unsent == 0 {
        assert Unsent(t) == Pending(s) && Pending(t) == [] && Unsent(s) == [];
        assert t.written + Unsent(t) + Pending(t) == s.written + Unsent(s) + Pending(s);
      } else {
        assert Unsent(t) == Unsent(s) && Pending(t) == Pending(s);
      }
    } else {
      assert Unsent(t) == Unsent(s) && Pending(t) == Pending(s) == [];
    }
  }

  lemma RunWriteKeepsEchoes(s: Session, start: seq<Byte>, e: Event)
    requires Inv(s, start) && Enabled(s, e) && e.RunWrite?
    ensures Echoes(Apply(s, e), start)
  {
    var t := Apply(s, e);
    if s.writeOps[0].Writing? {
      assert Unsent(s) == [];
      if s.unsent == 2 {
        assert Unsent(t) == Pending(s) && Pending(t) == [];
      } else {
        assert Unsent(t) == [] && Pending(t) == Pending(s);
      }
      assert t.written + Unsent(t) + Pending(t) == s.written + Unsent(s) + Pending(s);
    }
  }

  /** Every event keeps the invariant, whichever operations fail. */
  lemma ApplyKeepsInv(s: Session, start: seq<Byte>, e: Event)
    requires Inv(s, start) && Enabled(s, e)
    ensures Inv(Apply(s, e), start)
  {
    ApplyKeepsSeparated(s, e);
    match e
    case Arrive(_, _) => ArriveKeepsEchoes(s, start, e);
    case Send(_, _) => SendKeepsEchoes(s, start, e);
    case RunRead(_) => RunReadKeepsEchoes(s, start, e);
    case RunWrite(_) => RunWriteKeepsEchoes(s, start, e);
    case BreakRead(_) =>
    case BreakWrite(_) =>
  }

  lemma RunReadKeepsClean(s: Session, e: Event)
    requires Separated(s) && Clean(s) && Enabled(s, e) && e.RunRead?
    ensures Clean(Apply(s, e))
  {
    assert Drop(s.readOps, 0) == [];
  }

  lemma RunWriteKeepsClean(s: Session, e: Event)
    requires Separated(s) && Clean(s) && Enabled(s, e) && e.RunWrite?
    ensures Clean(Apply(s, e))
  {
    assert Drop(s.writeOps, 0) == [];
  }

  lemma ApplyKeepsClean(s: Session, e: Event)
    requires Separated(s) && Clean(s) && Enabled(s, e) && !e.Failure()
    ensures Clean(Apply(s, e))
  {
    match e
    case RunRead(_) => RunReadKeepsClean(s, e);
    case RunWrite(_) => RunWriteKeepsClean(s, e);
    case Arrive(_, _) =>
    case Send(_, _) =>
  }

  /** A reported failure ends its operation and changes nothing else. */
  lemma FailureChangesNothing(s: Session, e: Event)
    requires Separated(s) && Enabled(s, e)
    ensures e.RunRead? && s.readOps[0].ReadError? ==> Apply(s, e) == s.(readOps := [])
    ensures e.RunWrite? && s.writeOps[0].WriteError? ==> Apply(s, e) == s.(writeOps := [])
  {
    if e.RunRead? {
      assert Drop(s.readOps, 0) == [];
    } else if e.RunWrite? {
      assert Drop(s.writeOps, 0) == [];
    }
  }

  lemma HistoryGrows(s: Session, e: Event)
    requires Enabled(s, e)
    ensures Apply(s, e).written == s.written + SentBytes(s, e)
    ensures Apply(s, e).received == s.received + if e.Arrive? then e.data else []
    ensures Apply(s, e).size == s.size
  {}

  /** A failed write stops the session's writing for good. */
  lemma DeathIsFinal(s: Session, e: Event)
    requires Separated(s) && Enabled(s, e)
    ensures WriteDead(s) ==> WriteDead(Apply(s, e))
    ensures e.RunWrite? && s.writeOps[0].WriteError? ==> WriteDead(Apply(s, e))
  {
    match e
    case RunRead(_) => assert Drop(s.readOps, 0) == [];
    case RunWrite(_) => assert Drop(s.writeOps, 0) == [];
    case _ =>
  }

  // ---------------------------------------------------------------------------
  // Winding down
  // ---------------------------------------------------------------------------

  /** A bound on the events still to come once an operation has failed and was reported. */
  function Remaining(s: Session): nat
    requires Separated(s)
  {
    (if |s.readOps| == 1 then if s.readOps[0].Reading? then 2 else 1 else 0)
    + if |s.writeOps| == 1
      then if s.writeOps[0].Writing? then 2 + s.writeOps[0].length - s.writeOps[0].sent else 1
      else 0
  }

  /** After a reported failure every event brings the session nearer to having nothing outstanding. */
  lemma DeadSessionWindsDown(s: Session, e: Event)
    requires Separated(s) && (WriteDead(s) || ReadDead(s)) && Enabled(s, e)
    ensures Separated(Apply(s, e)) && (WriteDead(Apply(s, e)) || ReadDead(Apply(s, e)))
    ensures Remaining(Apply(s, e)) < Remaining(s)
  {}

  // ---------------------------------------------------------------------------
  // The socket
  // ---------------------------------------------------------------------------

  /** What the io_service holds for a session, and what has gone through its socket. */
  class Socket {
    ghost const first: array<Byte>
    ghost const second: array<Byte>
    ghost var readOps: seq<Read>
    ghost var writeOps: seq<Write>
    ghost var received: seq<Byte>
    ghost var written: seq<Byte>

    constructor (ghost first: array<Byte>, ghost second: array<Byte>)
      ensures this.first == first && this.second == second
      ensures readOps == [] && writeOps == [] && received == [] && written == []
    {
      this.first, this.second := first, second;
      readOps, writeOps, received, written := [], [], [], [];
    }

    ghost function Name(a: array<Byte>): Block {
      if a == first then First else Second
    }

    ghost method AsyncRead(buffer: array<Byte>)
      modifies this`readOps
      ensures readOps == old(readOps) + [Reading(Name(buffer))]
    {
      readOps := readOps + [Reading(Name(buffer))];
    }

    ghost method AsyncWrite(buffer: array<Byte>, length: nat)
      modifies this`writeOps
      ensures writeOps == old(writeOps) + [Writing(Name(buffer), length, 0)]
    {
      writeOps := writeOps + [Writing(Name(buffer), length, 0)];
    }

    /** The session that has these blocks, counters and operations. */
    ghost function View(size: nat, readData: array<Byte>, writeData: array<Byte>, readLength: nat, unsent: int): Session
      reads this, first, second
    {
      Session(size, first[..], second[..], Name(readData), Name(writeData), readLength, unsent,
              readOps, writeOps, received, written)
    }
  }
}

/**
 * A client session and a server session joined by two reliable byte channels: the ring that the
 * benchmark sets up, in which the client's block circulates.
 */
module EchoRing {
  import opened Bytes
  import opened EchoSession
  import opened Numbers
  import C = EchoClient
  import S = EchoServer

  datatype Ring = Ring(client: C.Client, server: S.Server, up: seq<Byte>, down: seq<Byte>, capacity: nat)

  datatype Move = ClientMove(e: Event) | ServerMove(e: Event)

  /** A session takes the bytes that come first on its channel, and sends into the free room of the other. */
  predicate Enabled(r: Ring, m: Move) {
    match m
    case ClientMove(e) =>
      && EchoSession.Enabled(r.client.io, e)
      && (e.Arrive? ==> e.data <= r.down)
      && (e.Send? ==> |r.up| + e.n <= r.capacity)
    case ServerMove(e) =>
      && EchoSession.Enabled(r.server.io, e)
      && (e.Arrive? ==> e.data <= r.up)
      && (e.Send? ==> |r.down| + e.n <= r.capacity)
  }

  function Taken(e: Event): nat {
    if e.Arrive? then |e.data| else 0
  }

  function Apply(r: Ring, m: Move): Ring
    requires Enabled(r, m)
  {
    match m
    case ClientMove(e) =>
      r.(client := C.Apply(r.client, e), down := r.down[Taken(e)..], up := r.up + SentBytes(r.client.io, e))
    case ServerMove(e) =>
      r.(server := S.Apply(r.server, e), up := r.up[Taken(e)..], down := r.down + SentBytes(r.server.io, e))
  }

  ghost predicate Run(r: Ring, moves: seq<Move>, r': Ring)
    decreases |moves|
  {
    if moves == [] then r == r'
    else Enabled(r, moves[0]) && Run(Apply(r, moves[0]), moves[1..], r')
  }

  /** A connected client with block size `b` and an accepted server session with block size `size`. */
  ghost predicate Initial(r: Ring, b: nat, capacity: nat) {
    exists clientBlock: seq<Byte>, size: nat, first: seq<Byte>, second: seq<Byte> ::
      0 < b == |clientBlock| && 0 < size == |first| == |second|
      && r == Start(clientBlock, size, first, second, capacity)
  }

  function Start(clientBlock: seq<Byte>, size: nat, first: seq<Byte>, second: seq<Byte>, capacity: nat): Ring {
    Ring(C.Constructed(|clientBlock|, clientBlock).HandleConnect(false, false),
         S.Constructed(size, first, second).Start(false), [], [], capacity)
  }

  // ---------------------------------------------------------------------------
  // Every run, with or without errors
  // ---------------------------------------------------------------------------

  /** Each side has received what the other wrote, up to what is still on the way. */
  predicate Inv(r: Ring, b: nat) {
    && 0 < b == r.client.io.size && 0 < r.server.io.size
    && C.Inv(r.client) && S.Inv(r.server)
    && r.client.io.written == r.server.io.received + r.up
    && r.server.io.written == r.client.io.received + r.down
    && |r.up| <= r.capacity && |r.down| <= r.capacity
  }

  lemma InitialHasInv(r: Ring, b: nat, capacity: nat)
    requires Initial(r, b, capacity)
    ensures Inv(r, b) && Clean(r.client.io) && Clean(r.server.io)
    ensures r.client.io.written == r.server.io.written == [] && Credit(r) == 1 && r.capacity == capacity
  {
    var clientBlock: seq<Byte>, size: nat, first: seq<Byte>, second: seq<Byte> :|
      0 < b == |clientBlock| && 0 < size == |first| == |second|
      && r == Start(clientBlock, size, first, second, capacity);
    C.ConnectEstablishesInv(b, clientBlock);
    S.StartEstablishesInv(size, first, second, false);
  }

  /** A channel keeps the order of the bytes at both of its ends. */
  lemma ChannelIsFifo(sent: seq<Byte>, received: seq<Byte>, channel: seq<Byte>, n: nat, more: seq<Byte>)
    requires sent == received + channel && n <= |channel|
    ensures sent == received + channel[..n] + channel[n..]
    ensures sent + more == received + (channel + more)
  {}

  lemma ClientMoveKeepsInv(r: Ring, b: nat, e: Event)
    requires Inv(r, b) && Enabled(r, ClientMove(e))
    ensures Inv(Apply(r, ClientMove(e)), b)
  {
    var io := r.client.io;
    C.ApplyKeepsInv(r.client, e);
    C.ApplyIsSessionApply(r.client, e);
    HistoryGrows(io, e);
    ChannelIsFifo(io.written, r.server.io.received, r.up, 0, SentBytes(io, e));
    ChannelIsFifo(r.server.io.written, io.received, r.down, Taken(e), []);
    assert r.down[..Taken(e)] == if e.Arrive? then e.data else [];
  }

  lemma ServerMoveKeepsInv(r: Ring, b: nat, e: Event)
    requires Inv(r, b) && Enabled(r, ServerMove(e))
    ensures Inv(Apply(r, ServerMove(e)), b)
  {
    var io := r.server.io;
    S.ApplyKeepsInv(r.server, e);
    S.ApplyIsSessionApply(r.server, e);
    HistoryGrows(io, e);
    ChannelIsFifo(io.written, r.client.io.received, r.down, 0, SentBytes(io, e));
    ChannelIsFifo(r.client.io.written, io.received, r.up, Taken(e), []);
    assert r.up[..Taken(e)] == if e.Arrive? then e.data else [];
  }

  lemma ApplyKeepsInv(r: Ring, b: nat, m: Move)
    requires Inv(r, b) && Enabled(r, m)
    ensures Inv(Apply(r, m), b)
  {
    match m
    case ClientMove(e) => ClientMoveKeepsInv(r, b, e);
    case ServerMove(e) => ServerMoveKeepsInv(r, b, e);
  }

  lemma {:induction false} RunKeepsInv(r: Ring, b: nat, moves: seq<Move>, r': Ring)
    requires Inv(r, b) && Run(r, moves, r')
    ensures Inv(r', b)
    decreases |moves|
  {
    if moves != [] {
      ApplyKeepsInv(r, b, moves[0]);
      RunKeepsInv(Apply(r, moves[0]), b, moves[1..], r');
    }
  }

  /** The k-th byte either side ever sends. */
  ghost predicate IsPattern(bytes: seq<Byte>, b: nat)
    requires 0 < b
  {
    forall k :: 0 <= k < |bytes| ==> bytes[k] == k % b % 128
  }

  /** The client's own block comes first, then what it sent one period earlier. */
  lemma {:induction false} ClientByte(r: Ring, b: nat, k: nat)
    requires Inv(r, b) && k < |r.client.io.written|
    ensures r.client.io.written[k] == k % b % 128
  {
    var io := r.client.io;
    ClientRepeats(r, b, k);
    if k < b {
      RemainderIsUnique(k, b, 0, k);
    } else {
      ClientByte(r, b, k - b);
      SubtractPeriod(k, b);
    }
  }

  lemma ClientRepeats(r: Ring, b: nat, k: nat)
    requires Inv(r, b) && k < |r.client.io.written|
    ensures k < b ==> r.client.io.written[k] == k % 128
    ensures k >= b ==> r.client.io.written[k] == r.client.io.written[k - b]
  {
    var io := r.client.io;
    var all := C.Pattern(b) + io.received;
    assert io.written[k] == all[k];
    if k >= b {
      ServerWritesClientBytes(r, b, k - b);
    }
  }

  lemma SubtractPeriod(k: int, b: nat)
    requires 0 < b
    ensures (k - b) % b == k % b
  {
    Distribute(b, k / b, 1);
    RemainderIsUnique(k - b, b, k / b - 1, k % b);
  }

  lemma ServerWritesClientBytes(r: Ring, b: nat, k: nat)
    requires Inv(r, b) && k < |r.client.io.received|
    ensures k < |r.server.io.written| && k < |r.server.io.received| && k < |r.client.io.written|
    ensures r.client.io.received[k] == r.server.io.written[k] == r.server.io.received[k] == r.client.io.written[k]
  {
    assert [] + r.server.io.received == r.server.io.received;
  }

  /**
   * In every run, under any chunking, interleaving and failures, the k-th byte sent or received
   * on either side is the byte (k mod b) mod 128 of the block the client filled in.
   */
  lemma PatternCirculates(r: Ring, b: nat, capacity: nat, moves: seq<Move>, r': Ring)
    requires Initial(r, b, capacity) && Run(r, moves, r')
    ensures 0 < b
    ensures IsPattern(r'.client.io.written, b) && IsPattern(r'.server.io.received, b)
    ensures IsPattern(r'.server.io.written, b) && IsPattern(r'.client.io.received, b)
  {
    InitialHasInv(r, b, capacity);
    RunKeepsInv(r, b, moves, r');
    forall k: nat | k < |r'.client.io.written| ensures r'.client.io.written[k] == k % b % 128 {
      ClientByte(r', b, k);
    }
    assert [] + r'.server.io.received == r'.server.io.received;
    assert r'.client.io.received <= r'.server.io.written <= r'.server.io.received <= r'.client.io.written;
  }

  // ---------------------------------------------------------------------------
  // Runs without errors
  // ---------------------------------------------------------------------------

  predicate Harmless(m: Move) {
    !m.e.Failure()
  }

  predicate CleanRing(r: Ring) {
    Clean(r.client.io) && Clean(r.server.io)
  }

  lemma {:induction false} RunKeepsClean(r: Ring, b: nat, moves: seq<Move>, r': Ring)
    requires Inv(r, b) && CleanRing(r) && Run(r, moves, r') && forall m <- moves :: Harmless(m)
    ensures Inv(r', b) && CleanRing(r') && r'.capacity == r.capacity
    decreases |moves|
  {
    if moves != [] {
      var m := moves[0];
      assert Harmless(m);
      ApplyKeepsInv(r, b, m);
      match m {
        case ClientMove(e) =>
          C.ApplyIsSessionApply(r.client, e);
          ApplyKeepsClean(r.client.io, e);
        case ServerMove(e) =>
          S.ApplyIsSessionApply(r.server, e);
          ApplyKeepsClean(r.server.io, e);
      }
      RunKeepsClean(Apply(r, m), b, moves[1..], r');
    }
  }

  /** Bytes a session holds: read and not yet sent. */
  function Held(s: Session): nat {
    |Unsent(s)| + |Pending(s)|
  }

  /** Without errors no byte is lost or made up: exactly b bytes are always in the ring. */
  lemma BytesAreConserved(r: Ring, b: nat)
    requires Inv(r, b) && CleanRing(r)
    ensures Held(r.client.io) + |r.up| + Held(r.server.io) + |r.down| == b
  {
    var c, s := r.client.io, r.server.io;
    assert |c.written| + Held(c) == b + |c.received| by {
      assert |c.written + Unsent(c) + Pending(c)| == |C.Pattern(b) + c.received|;
    }
    assert |s.written| + Held(s) == |s.received| by {
      assert |s.written + Unsent(s) + Pending(s)| == |[] + s.received|;
    }
  }

  /** What a session can do without a byte from the other side, when `room` of its channel is free. */
  ghost predicate CanGoOnAlone(s: Session, room: nat) {
    exists e: Event :: EchoSession.Enabled(s, e) && !e.Failure() && !e.Arrive? && (e.Send? ==> e.n <= room)
  }

  ghost predicate CanGoOn(r: Ring) {
    exists m: Move :: Enabled(r, m) && Harmless(m)
  }

  /** A write is outstanding that did not send all its bytes. */
  predicate Sending(s: Session) {
    |s.writeOps| == 1 && s.writeOps[0].Writing? && s.writeOps[0].sent < s.writeOps[0].length
  }

  /** A read is outstanding that no byte reached. */
  predicate Waiting(s: Session) {
    |s.readOps| == 1 && s.readOps[0].Reading?
  }

  /** A session is stuck only if it is waiting for bytes or sending into a full channel. */
  lemma StuckSession(s: Session, room: nat)
    requires Separated(s) && Clean(s) && s.size > 0 && !CanGoOnAlone(s, room)
    ensures Sending(s) ==> room == 0
    ensures Waiting(s) || (Sending(s) && Held(s) >= 2)
    ensures Sending(s) || Waiting(s)
  {
    if Sending(s) && room > 0 {
      assert EchoSession.Enabled(s, Send(0, 1));
    }
    if s.writeOps != [] && !Sending(s) {
      assert EchoSession.Enabled(s, RunWrite(0));
    }
    if s.readOps != [] && !Waiting(s) {
      assert EchoSession.Enabled(s, RunRead(0));
    }
  }

  lemma MovesOfSessions(r: Ring)
    requires |r.up| <= r.capacity && |r.down| <= r.capacity
    ensures CanGoOnAlone(r.client.io, r.capacity - |r.up|) ==> CanGoOn(r)
    ensures CanGoOnAlone(r.server.io, r.capacity - |r.down|) ==> CanGoOn(r)
  {
    if e: Event :| EchoSession.Enabled(r.client.io, e) && !e.Failure() && !e.Arrive?
                   && (e.Send? ==> e.n <= r.capacity - |r.up|) {
      assert Enabled(r, ClientMove(e)) && Harmless(ClientMove(e));
    }
    if e: Event :| EchoSession.Enabled(r.server.io, e) && !e.Failure() && !e.Arrive?
                   && (e.Send? ==> e.n <= r.capacity - |r.down|) {
      assert Enabled(r, ServerMove(e)) && Harmless(ServerMove(e));
    }
  }

  lemma WaitingSessionsTake(r: Ring, b: nat)
    requires Inv(r, b) && CleanRing(r)
    ensures Waiting(r.client.io) && r.down != [] ==> CanGoOn(r)
    ensures Waiting(r.server.io) && r.up != [] ==> CanGoOn(r)
  {
    if Waiting(r.client.io) && r.down != [] {
      assert Enabled(r, ClientMove(Arrive(0, r.down[..1]))) && Harmless(ClientMove(Arrive(0, r.down[..1])));
    }
    if Waiting(r.server.io) && r.up != [] {
      assert Enabled(r, ServerMove(Arrive(0, r.up[..1]))) && Harmless(ServerMove(Arrive(0, r.up[..1])));
    }
  }

  /** No deadlock: with room in the channels for all but three of the b bytes, some harmless move is possible. */
  lemma SomeMoveIsPossible(r: Ring, b: nat)
    requires Inv(r, b) && CleanRing(r) && 1 <= r.capacity && b <= 2 * r.capacity + 3
    ensures CanGoOn(r)
  {
    if !CanGoOn(r) {
      BytesAreConserved(r, b);
      MovesOfSessions(r);
      WaitingSessionsTake(r, b);
      StuckSession(r.client.io, r.capacity - |r.up|);
      StuckSession(r.server.io, r.capacity - |r.down|);
      assert false;
    }
  }

  /** What a run without failures can lead to. */
  ghost predicate Leads(r: Ring, r': Ring) {
    exists moves :: Run(r, moves, r') && forall m <- moves :: Harmless(m)
  }

  /** In every run without errors the ring holds b bytes. */
  lemma CleanRunConserves(r: Ring, b: nat, capacity: nat, r': Ring)
    requires Initial(r, b, capacity) && Leads(r, r')
    ensures Held(r'.client.io) + |r'.up| + Held(r'.server.io) + |r'.down| == b
  {
    InitialHasInv(r, b, capacity);
    var moves :| Run(r, moves, r') && forall m <- moves :: Harmless(m);
    RunKeepsClean(r, b, moves, r');
    BytesAreConserved(r', b);
  }

  /**
   * A run without failures can always go on, whatever the chunks and the interleaving, if and only
   * if the two channels have room for all but three bytes of the client's block.
   */
  lemma CleanRunGoesOn(r: Ring, b: nat, capacity: nat)
    requires Initial(r, b, capacity)
    ensures (forall r' :: Leads(r, r') ==> CanGoOn(r')) <==> 1 <= capacity && b <= 2 * capacity + 3
  {
    InitialHasInv(r, b, capacity);
    if 1 <= capacity && b <= 2 * capacity + 3 {
      forall r' | Leads(r, r') ensures CanGoOn(r') {
        var moves :| Run(r, moves, r') && forall m <- moves :: Harmless(m);
        RunKeepsClean(r, b, moves, r');
        SomeMoveIsPossible(r', b);
      }
    } else {
      var r' := DeadlockIsReached(r, b, capacity);
      assert Leads(r, r') && !CanGoOn(r');
    }
  }

  // ---------------------------------------------------------------------------
  // The run into a deadlock
  // ---------------------------------------------------------------------------

  lemma LeadsNowhere(r: Ring)
    ensures Leads(r, r)
  {
    assert Run(r, [], r);
  }

  lemma {:induction false} RunThen(r: Ring, moves: seq<Move>, r': Ring, m: Move)
    requires Run(r, moves, r') && Enabled(r', m)
    ensures Run(r, moves + [m], Apply(r', m))
    decreases |moves|
  {
    if moves == [] {
      assert [m][1..] == [] && Run(Apply(r', m), [], Apply(r', m));
    } else {
      RunThen(Apply(r, moves[0]), moves[1..], r', m);
      assert (moves + [m])[1..] == moves[1..] + [m];
    }
  }

  lemma LeadsOneFurther(r: Ring, r': Ring, m: Move)
    requires Leads(r, r') && Enabled(r', m) && Harmless(m)
    ensures Leads(r, Apply(r', m))
  {
    var moves :| Run(r, moves, r') && forall m <- moves :: Harmless(m);
    RunThen(r, moves, r', m);
    assert forall x <- moves + [m] :: Harmless(x);
  }

  /** One more move of a run without failures. */
  lemma Go(start: Ring, r: Ring, b: nat, m: Move) returns (r': Ring)
    requires Leads(start, r) && Inv(r, b) && CleanRing(r) && Enabled(r, m) && Harmless(m)
    ensures r' == Apply(r, m) && Leads(start, r') && Inv(r', b) && CleanRing(r') && r'.capacity == r.capacity
  {
    r' := Apply(r, m);
    LeadsOneFurther(start, r, m);
    assert Run(r', [], r') && [m][1..] == [] && Run(r, [m], r');
    RunKeepsClean(r, b, [m], r');
  }

  /** The session is sending a write of `length` bytes, of which `sent` have left. */
  predicate IsSending(s: Session, length: nat, sent: nat) {
    |s.writeOps| == 1 && s.writeOps[0].Writing? && s.writeOps[0].length == length && s.writeOps[0].sent == sent
  }

  predicate SameReading(s: Session, t: Session) {
    t.readOps == s.readOps && t.unsent == s.unsent
  }

  lemma ClientSends(start: Ring, r: Ring, b: nat, sent: nat, n: nat) returns (r': Ring)
    requires Leads(start, r) && Inv(r, b) && CleanRing(r) && IsSending(r.client.io, b, sent)
    requires 1 <= n && sent + n <= b && |r.up| + n <= r.capacity
    ensures Leads(start, r') && Inv(r', b) && CleanRing(r') && r'.capacity == r.capacity
    ensures IsSending(r'.client.io, b, sent + n) && SameReading(r.client.io, r'.client.io)
    ensures r'.server == r.server && |r'.up| == |r.up| + n && r'.down == r.down
  {
    r' := Go(start, r, b, ClientMove(Send(0, n)));
  }

  /** What taking one byte does to a session: with nothing to send it starts to write it, else it keeps it. */
  lemma TakeByte(s: Session, data: seq<Byte>)
    requires Separated(s) && Clean(s) && s.size > 0 && Waiting(s) && |data| == 1
    ensures EchoSession.Enabled(s, Arrive(0, data))
    ensures var t := EchoSession.Apply(s, Arrive(0, data));
            EchoSession.Enabled(t, RunRead(0)) && TookByte(s, EchoSession.Apply(t, RunRead(0)))
  {
    var t := EchoSession.Apply(s, Arrive(0, data));
    assert Drop(t.readOps, 0) == [];
  }

  predicate TookByte(s: Session, t: Session) {
    if s.unsent == 0 then t.unsent == 1 && Waiting(t) && IsSending(t, 1, 0)
    else t.unsent == s.unsent + 1 && t.readOps == [] && t.writeOps == s.writeOps
  }

  lemma ServerTakesByte(start: Ring, r: Ring, b: nat) returns (r': Ring)
    requires Leads(start, r) && Inv(r, b) && CleanRing(r) && Waiting(r.server.io) && |r.up| == 1
    ensures Leads(start, r') && Inv(r', b) && CleanRing(r') && r'.capacity == r.capacity
    ensures TookByte(r.server.io, r'.server.io)
    ensures r'.client == r.client && r'.up == [] && r'.down == r.down
  {
    var e := Arrive(0, r.up);
    TakeByte(r.server.io, r.up);
    S.ApplyIsSessionApply(r.server, e);
    r' := Go(start, r, b, ServerMove(e));
    S.ApplyIsSessionApply(r'.server, RunRead(0));
    r' := Go(start, r', b, ServerMove(RunRead(0)));
  }

  lemma ClientTakesByte(start: Ring, r: Ring, b: nat) returns (r': Ring)
    requires Leads(start, r) && Inv(r, b) && CleanRing(r) && Waiting(r.client.io) && |r.down| == 1
    ensures Leads(start, r') && Inv(r', b) && CleanRing(r') && r'.capacity == r.capacity
    ensures TookByte(r.client.io, r'.client.io)
    ensures r'.server == r.server && r'.up == r.up && r'.down == []
  {
    var e := Arrive(0, r.down);
    TakeByte(r.client.io, r.down);
    C.ApplyIsSessionApply(r.client, e);
    r' := Go(start, r, b, ClientMove(e));
    C.ApplyIsSessionApply(r'.client, RunRead(0));
    r' := Go(start, r', b, ClientMove(RunRead(0)));
  }

  /** Sending the only byte of a write leaves a session with nothing to send. */
  lemma SendLastByte(s: Session)
    requires Separated(s) && Clean(s) && s.unsent == 1 && IsSending(s, 1, 0)
    ensures EchoSession.Enabled(s, Send(0, 1)) && |SentBytes(s, Send(0, 1))| == 1
    ensures var t := EchoSession.Apply(s, Send(0, 1));
            && EchoSession.Enabled(t, RunWrite(0))
            && EchoSession.Apply(t, RunWrite(0)).unsent == 0
            && EchoSession.Apply(t, RunWrite(0)).readOps == s.readOps
  {}

  lemma ServerSendsByte(start: Ring, r: Ring, b: nat) returns (r': Ring)
    requires Leads(start, r) && Inv(r, b) && CleanRing(r) && |r.down| < r.capacity
    requires r.server.io.unsent == 1 && IsSending(r.server.io, 1, 0)
    ensures Leads(start, r') && Inv(r', b) && CleanRing(r') && r'.capacity == r.capacity
    ensures r'.server.io.unsent == 0 && r'.server.io.readOps == r.server.io.readOps
    ensures r'.client == r.client && r'.up == r.up && |r'.down| == |r.down| + 1
  {
    SendLastByte(r.server.io);
    S.ApplyIsSessionApply(r.server, Send(0, 1));
    r' := Go(start, r, b, ServerMove(Send(0, 1)));
    S.ApplyIsSessionApply(r'.server, RunWrite(0));
    r' := Go(start, r', b, ServerMove(RunWrite(0)));
  }

  /** The client has sent some of its block, the server has nothing, and `d` bytes are on the way down. */
  ghost predicate Filling(start: Ring, r: Ring, b: nat, sent: nat, d: nat) {
    && Leads(start, r) && Inv(r, b) && CleanRing(r) && IsSending(r.client.io, b, sent)
    && r.server.io.unsent == 0 && Waiting(r.server.io) && r.up == [] && |r.down| == d
  }

  lemma PassByte(start: Ring, r: Ring, b: nat, sent: nat, d: nat) returns (r': Ring)
    requires Filling(start, r, b, sent, d) && sent < b && d < r.capacity
    ensures Filling(start, r', b, sent + 1, d + 1)
    ensures SameReading(r.client.io, r'.client.io) && r'.capacity == r.capacity
  {
    r' := ClientSends(start, r, b, sent, 1);
    r' := ServerTakesByte(start, r', b);
    r' := ServerSendsByte(start, r', b);
  }

  lemma {:induction false} FillDown(start: Ring, r: Ring, b: nat, sent: nat, d: nat) returns (r': Ring)
    requires Filling(start, r, b, sent, d) && d <= r.capacity && sent + r.capacity - d <= b
    ensures Filling(start, r', b, sent + r.capacity - d, r.capacity)
    ensures SameReading(r.client.io, r'.client.io) && r'.capacity == r.capacity
    decreases r.capacity - d
  {
    r' := r;
    if d < r.capacity {
      r' := PassByte(start, r, b, sent, d);
      r' := FillDown(start, r', b, sent + 1, d + 1);
    }
  }

  /** The session cannot send what it has, and what it waits for is not there. */
  predicate Stuck(s: Session, room: nat, incoming: seq<Byte>) {
    && s.size > 0
    && (s.writeOps == [] || (Sending(s) && room == 0))
    && (s.readOps == [] || (Waiting(s) && incoming == []))
  }

  lemma StuckIsDeadlock(r: Ring)
    requires |r.up| <= r.capacity && |r.down| <= r.capacity
    requires Stuck(r.client.io, r.capacity - |r.up|, r.down) && Stuck(r.server.io, r.capacity - |r.down|, r.up)
    ensures !CanGoOn(r)
  {
    forall m: Move | Enabled(r, m) ensures !Harmless(m) {
      match m
      case ClientMove(e) => StuckEvent(r.client.io, r.capacity - |r.up|, r.down, e);
      case ServerMove(e) => StuckEvent(r.server.io, r.capacity - |r.down|, r.up, e);
    }
  }

  lemma StuckEvent(s: Session, room: nat, incoming: seq<Byte>, e: Event)
    requires Stuck(s, room, incoming) && EchoSession.Enabled(s, e)
    requires (e.Arrive? ==> e.data <= incoming) && (e.Send? ==> e.n <= room)
    ensures e.Failure()
  {}

  lemma StartIsFilling(start: Ring, b: nat, capacity: nat)
    requires Initial(start, b, capacity)
    ensures Filling(start, start, b, 0, 0) && start.capacity == capacity
    ensures Waiting(start.client.io) && start.client.io.unsent == 1
  {
    InitialHasInv(start, b, capacity);
    LeadsNowhere(start);
  }

  /** With the channel down full, the server keeps two bytes and the client fills the channel up. */
  lemma FillUp(start: Ring, r: Ring, b: nat, sent: nat) returns (r': Ring)
    requires Filling(start, r, b, sent, r.capacity) && r.capacity > 0 && sent + 2 + r.capacity < b
    requires r.client.io.readOps == []
    ensures Leads(start, r') && !CanGoOn(r')
  {
    r' := ClientSends(start, r, b, sent, 1);
    r' := ServerTakesByte(start, r', b);
    r' := ClientSends(start, r', b, sent + 1, 1);
    r' := ServerTakesByte(start, r', b);
    r' := ClientSends(start, r', b, sent + 2, r'.capacity);
    StuckIsDeadlock(r');
  }

  /** One byte goes round for the client to keep. */
  lemma ClientKeepsByte(start: Ring, b: nat, capacity: nat) returns (r: Ring)
    requires Initial(start, b, capacity) && 1 <= capacity
    ensures Filling(start, r, b, 1, 0) && r.client.io.readOps == [] && r.capacity == capacity
  {
    StartIsFilling(start, b, capacity);
    r := PassByte(start, start, b, 0, 0);
    r := ClientTakesByte(start, r, b);
  }

  /** Then the channel down is filled, and then the channel up. */
  lemma FillAll(start: Ring, b: nat, capacity: nat) returns (r: Ring)
    requires Initial(start, b, capacity) && 1 <= capacity && 2 * capacity + 4 <= b
    ensures Leads(start, r) && !CanGoOn(r)
  {
    r := ClientKeepsByte(start, b, capacity);
    r := FillDown(start, r, b, 1, 0);
    r := FillUp(start, r, b, capacity + 1);
  }

  /** With less room than `SomeMoveIsPossible` asks for, chunks of one byte lead to a deadlock. */
  lemma DeadlockIsReached(start: Ring, b: nat, capacity: nat) returns (r: Ring)
    requires Initial(start, b, capacity) && !(1 <= capacity && b <= 2 * capacity + 3)
    ensures Leads(start, r) && !CanGoOn(r)
  {
    if capacity == 0 {
      r := start;
      StartIsFilling(start, b, capacity);
      StuckIsDeadlock(start);
    } else {
      r := FillAll(start, b, capacity);
    }
  }

  // ---------------------------------------------------------------------------
  // Throughput: moves are paid for by bytes
  // ---------------------------------------------------------------------------

  /** Handler calls and arrivals that the bytes and operations now in the ring can still cause. */
  function Credit(r: Ring): nat {
    3 * |r.up| + 3 * |r.down| + SessionCredit(r.client.io) + SessionCredit(r.server.io)
  }

  function SessionCredit(s: Session): nat {
    |s.writeOps| + (if s.unsent == 2 then 1 else 0) + if |s.readOps| == 1 && s.readOps[0].ReadDone? then 2 else 0
  }

  function Sent(r: Ring): nat {
    |r.client.io.written| + |r.server.io.written|
  }

  lemma SessionPays(s: Session, e: Event)
    requires Separated(s) && Clean(s) && EchoSession.Enabled(s, e) && !e.Failure() && s.size > 0
    ensures SessionCredit(EchoSession.Apply(s, e)) + 1 <= SessionCredit(s) + 3 * Taken(e) + |SentBytes(s, e)|
    ensures |SentBytes(s, e)| == if e.Send? then e.n else 0
  {}

  lemma MovePays(r: Ring, b: nat, m: Move)
    requires Inv(r, b) && CleanRing(r) && Enabled(r, m) && Harmless(m)
    ensures Credit(Apply(r, m)) + 1 + 4 * Sent(r) <= Credit(r) + 4 * Sent(Apply(r, m))
  {
    match m
    case ClientMove(e) =>
      C.ApplyIsSessionApply(r.client, e);
      HistoryGrows(r.client.io, e);
      SessionPays(r.client.io, e);
    case ServerMove(e) =>
      S.ApplyIsSessionApply(r.server, e);
      HistoryGrows(r.server.io, e);
      SessionPays(r.server.io, e);
  }

  lemma {:induction false} MovesArePaid(r: Ring, b: nat, moves: seq<Move>, r': Ring)
    requires Inv(r, b) && CleanRing(r) && Run(r, moves, r') && forall m <- moves :: Harmless(m)
    ensures |moves| + Credit(r') + 4 * Sent(r) <= Credit(r) + 4 * Sent(r')
    decreases |moves|
  {
    if moves != [] {
      MovePays(r, b, moves[0]);
      RunKeepsClean(r, b, moves[..1], Apply(r, moves[0]));
      MovesArePaid(Apply(r, moves[0]), b, moves[1..], r');
    }
  }

  /** No livelock: a run without errors of n moves has sent at least (n - 1) / 4 bytes. */
  lemma RunsSendBytes(r: Ring, b: nat, capacity: nat, moves: seq<Move>, r': Ring)
    requires Initial(r, b, capacity) && Run(r, moves, r') && forall m <- moves :: Harmless(m)
    ensures |moves| <= 4 * Sent(r') + 1
  {
    InitialHasInv(r, b, capacity);
    MovesArePaid(r, b, moves, r');
  }
}

/**
 * The registry of open channels of include/cetty/channel/AbstractChannel.h: `allocateId` probes
 * from a hash for a free id, and the listener of the close future erases the id.
 */
module ChannelRegistry {
  import opened Numbers

  /** The id tried after `d` others: ids wrap around like an `int`. */
  function Probe(hash: int, d: nat): int {
    Wrap32(hash + d)
  }

  lemma ProbeNext(hash: int, d: nat)
    ensures Probe(hash, d + 1) == Wrap32(Probe(hash, d) + 1)
  {}

  lemma ProbesDiffer(hash: int, d: nat, e: nat)
    requires d < e < d + TWO_32
    ensures Probe(hash, d) != Probe(hash, e)
  {}

  lemma ProbesReach(hash: int, id: int) returns (d: nat)
    requires -TWO_31 <= id < TWO_31
    ensures d < TWO_32 && Probe(hash, d) == id
  {
    d := (id - hash) % TWO_32;
    ProbeAtDistance(hash, id);
  }

  /** The probe number `d` is the first that hits an id that is not taken. */
  ghost predicate FirstFree<C>(registry: map<int, C>, hash: int, d: nat) {
    && d < TWO_32
    && Probe(hash, d) !in registry
    && forall e: nat :: e < d ==> Probe(hash, e) in registry
  }

  /** While fewer than 2^32 ids are taken, probing finds a free one. */
  lemma SomeIdIsFree<C>(registry: map<int, C>, hash: int)
    requires |registry| < TWO_32
    ensures exists d: nat :: FirstFree(registry, hash, d)
  {
    if forall d: nat :: d < TWO_32 ==> Probe(hash, d) in registry {
      AllIdsTaken(registry, hash);
      assert false;
    }
    var d: nat :| d < TWO_32 && Probe(hash, d) !in registry;
    FirstFreeUpTo(registry, hash, d);
  }

  /** Pigeonhole: 2^32 consecutive probes hit 2^32 different ids. */
  lemma AllIdsTaken<C>(registry: map<int, C>, hash: int)
    requires forall d: nat :: d < TWO_32 ==> Probe(hash, d) in registry
    ensures |registry| >= TWO_32
  {
    var g: int -> int := d => if d < 0 then 0 else Probe(hash, d);
    var probed := set i | i in registry.Keys && -TWO_31 <= i < TWO_31;
    forall d | 0 <= d < TWO_32 ensures g(d) in probed {
      assert Probe(hash, d) in registry;
    }
    forall d, e | 0 <= d < e < TWO_32 ensures g(d) != g(e) {
      ProbesDiffer(hash, d, e);
    }
    forall i | i in probed ensures exists d :: 0 <= d < TWO_32 && g(d) == i {
      var d := ProbesReach(hash, i);
      assert g(d) == i;
    }
    EnumeratedCount(probed, TWO_32, g);
    SubsetOfSameSize(probed, registry.Keys);
  }

  lemma {:induction false} FirstFreeUpTo<C>(registry: map<int, C>, hash: int, d: nat)
    requires d < TWO_32 && Probe(hash, d) !in registry
    ensures exists d': nat :: FirstFree(registry, hash, d')
  {
    if e: nat :| e < d && Probe(hash, e) !in registry {
      FirstFreeUpTo(registry, hash, e);
    } else {
      assert FirstFree(registry, hash, d);
    }
  }

  /** From the hash up to the first free id, wrapping around like an `int`, every id is taken. */
  lemma AllBeforeTaken<C>(registry: map<int, C>, hash: int, d: nat)
    requires FirstFree(registry, hash, d)
    ensures (Probe(hash, d) - hash) % TWO_32 == d
    ensures forall i :: -TWO_31 <= i < TWO_31 && (i - hash) % TWO_32 < d ==> i in registry
  {
    ProbeDistance(hash, d);
    forall i | -TWO_31 <= i < TWO_31 && (i - hash) % TWO_32 < d ensures i in registry {
      ProbeAtDistance(hash, i);
      assert Probe(hash, (i - hash) % TWO_32) in registry;
    }
  }

  lemma ProbeDistance(hash: int, d: nat)
    requires d < TWO_32
    ensures (Probe(hash, d) - hash) % TWO_32 == d
  {}

  lemma ProbeAtDistance(hash: int, id: int)
    requires -TWO_31 <= id < TWO_31
    ensures Probe(hash, (id - hash) % TWO_32) == id
  {
    SameRemainder(hash + (id - hash) % TWO_32, id, TWO_32);
  }

  /** The id `allocateId` finds. */
  ghost function FreeId<C>(registry: map<int, C>, hash: int): (id: int)
    requires |registry| < TWO_32
    ensures id !in registry && -TWO_31 <= id < TWO_31
    ensures exists d: nat :: FirstFree(registry, hash, d) && id == Probe(hash, d)
  {
    SomeIdIsFree(registry, hash);
    var d: nat :| FirstFree(registry, hash, d);
    Probe(hash, d)
  }

  // ---------------------------------------------------------------------------
  // The registry and the channels over runs of opens and closes
  // ---------------------------------------------------------------------------

  /** The registry, the ids of all channels constructed so far, and the channels not yet closed. */
  datatype World<C(==)> = World(registry: map<int, C>, ids: map<C, int>, open: set<C>)

  /** Registered channels are open and registered under their own ids. */
  ghost predicate Inv<C>(w: World<C>) {
    && w.open <= w.ids.Keys
    && forall i <- w.registry :: w.registry[i] in w.open && w.ids[w.registry[i]] == i
  }

  ghost predicate Registered<C>(w: World<C>, c: C) {
    c in w.ids && w.ids[c] in w.registry && w.registry[w.ids[c]] == c
  }

  /** Every open channel is registered. */
  ghost predicate HoldsAll<C>(w: World<C>) {
    forall c <- w.open :: Registered(w, c)
  }

  ghost function Opened<C>(w: World<C>, c: C, hash: int): World<C>
    requires |w.registry| < TWO_32
  {
    var id := FreeId(w.registry, hash);
    World(w.registry[id := c], w.ids[c := id], w.open + {c})
  }

  /** The constructor that is given an id does not register it. */
  ghost function OpenedWithId<C>(w: World<C>, c: C, id: int): World<C> {
    World(w.registry, w.ids[c := id], w.open + {c})
  }

  /** `setClosed`: the first call completes the close future, whose listener erases the id. */
  ghost function Closed<C>(w: World<C>, c: C): World<C>
    requires c in w.ids
  {
    if c in w.open then World(w.registry - {w.ids[c]}, w.ids, w.open - {c}) else w
  }

  lemma OpenKeepsInv<C>(w: World<C>, c: C, hash: int)
    requires Inv(w) && HoldsAll(w) && c !in w.ids && |w.registry| < TWO_32
    ensures Inv(Opened(w, c, hash)) && HoldsAll(Opened(w, c, hash))
  {}

  lemma CloseKeepsInv<C>(w: World<C>, c: C)
    requires Inv(w) && HoldsAll(w) && c in w.ids
    ensures Inv(Closed(w, c)) && HoldsAll(Closed(w, c))
  {}

  datatype Act<C> = Open(c: C, hash: int) | OpenWithId(c: C, id: int) | Close(c: C)

  ghost predicate Possible<C>(w: World<C>, a: Act<C>) {
    match a
    case Open(c, hash) => c !in w.ids && |w.registry| < TWO_32
    case OpenWithId(c, _) => c !in w.ids
    case Close(c) => c in w.ids
  }

  ghost function Next<C>(w: World<C>, a: Act<C>): World<C>
    requires Possible(w, a)
  {
    match a
    case Open(c, hash) => Opened(w, c, hash)
    case OpenWithId(c, id) => OpenedWithId(w, c, id)
    case Close(c) => Closed(w, c)
  }

  ghost predicate Run<C>(w: World<C>, acts: seq<Act<C>>, w': World<C>)
    decreases |acts|
  {
    if acts == [] then w == w'
    else Possible(w, acts[0]) && Run(Next(w, acts[0]), acts[1..], w')
  }

  /**
   * After any run of opens and closes of channels that allocate their ids: the registry holds
   * exactly the open channels, each under its own id, and no two open channels share one.
   */
  lemma {:induction false} RunKeepsRegistry<C>(w: World<C>, acts: seq<Act<C>>, w': World<C>)
    requires Inv(w) && HoldsAll(w) && Run(w, acts, w') && forall a <- acts :: !a.OpenWithId?
    ensures Inv(w') && HoldsAll(w')
    ensures forall c, d :: c in w'.open && d in w'.open && c != d ==> w'.ids[c] != w'.ids[d]
    ensures forall c :: c in w'.open <==> exists i :: i in w'.registry && w'.registry[i] == c
    decreases |acts|
  {
    if acts != [] {
      match acts[0] {
        case Open(c, hash) => OpenKeepsInv(w, c, hash);
        case Close(c) => CloseKeepsInv(w, c);
      }
      RunKeepsRegistry(Next(w, acts[0]), acts[1..], w');
    } else {
      forall c <- w.open ensures exists i :: i in w.registry && w.registry[i] == c {
        var i := w.ids[c];
        assert i in w.registry && w.registry[i] == c;
      }
    }
  }

  // ---------------------------------------------------------------------------
  // Runs with channels that were given their ids
  // ---------------------------------------------------------------------------

  /**
   * A channel that was given its id installs the same listener: closing a channel keeps all
   * others registered exactly when its id is free or its own.
   */
  lemma CloseKeepsOthers<C>(w: World<C>, c: C)
    requires Inv(w) && c in w.open
    ensures (forall a <- w.open :: a != c && Registered(w, a) ==> Registered(Closed(w, c), a))
            <==> (w.ids[c] in w.registry ==> w.registry[w.ids[c]] == c)
  {
    var id := w.ids[c];
    if id in w.registry && w.registry[id] != c {
      var other := w.registry[id];
      assert other in w.open && Registered(w, other) && !Registered(Closed(w, c), other);
    }
  }

  /** The act erases the entry under the id of `a`, though it closes another channel. */
  ghost predicate Erases<C>(w: World<C>, act: Act<C>, a: C) {
    && act.Close? && act.c != a
    && act.c in w.open && a in w.open && act.c in w.ids && a in w.ids && w.ids[act.c] == w.ids[a]
  }

  ghost predicate ErasedIn<C>(w: World<C>, acts: seq<Act<C>>, a: C)
    decreases |acts|
  {
    acts != [] && Possible(w, acts[0])
    && (Erases(w, acts[0], a) || ErasedIn(Next(w, acts[0]), acts[1..], a))
  }

  ghost predicate AllocatedIn<C>(acts: seq<Act<C>>, a: C) {
    exists i :: 0 <= i < |acts| && acts[i].Open? && acts[i].c == a
  }

  lemma NextKeepsInv<C>(w: World<C>, act: Act<C>)
    requires Inv(w) && Possible(w, act)
    ensures Inv(Next(w, act))
  {}

  /** How one act changes whether an open channel is registered. */
  lemma NextRegistered<C>(w: World<C>, act: Act<C>, a: C)
    requires Inv(w) && Possible(w, act) && a in Next(w, act).open
    ensures Registered(Next(w, act), a)
            <==> if a in w.open then Registered(w, a) && !Erases(w, act, a) else act.Open?
  {}

  /** A channel is opened at most once. */
  lemma {:induction false} OpenedOnce<C>(w: World<C>, acts: seq<Act<C>>, w': World<C>, a: C)
    requires Inv(w) && Run(w, acts, w') && a in w.ids
    ensures !AllocatedIn(acts, a)
    ensures a in w'.open ==> a in w.open
    decreases |acts|
  {
    if acts != [] {
      var t := Next(w, acts[0]);
      NextKeepsInv(w, acts[0]);
      OpenedOnce(t, acts[1..], w', a);
      assert forall i :: 0 < i < |acts| ==> acts[i] == acts[1..][i - 1];
      assert a in t.open ==> a in w.open;
    }
  }

  /**
   * After any run, also with channels that were given their ids, an open channel is registered
   * exactly when it allocated its id and no other open channel with the same id was closed since.
   */
  lemma {:induction false} RegisteredUnlessErased<C>(w: World<C>, acts: seq<Act<C>>, w': World<C>, a: C)
    requires Inv(w) && Run(w, acts, w') && a in w'.open
    ensures Inv(w')
    ensures Registered(w', a)
            <==> (if a in w.open then Registered(w, a) else AllocatedIn(acts, a)) && !ErasedIn(w, acts, a)
    decreases |acts|
  {
    if acts != [] {
      var act, t := acts[0], Next(w, acts[0]);
      NextKeepsInv(w, act);
      RegisteredUnlessErased(t, acts[1..], w', a);
      if a in t.ids {
        OpenedOnce(t, acts[1..], w', a);
        NextRegistered(w, act, a);
      }
      AllocatedNowOrLater(acts, a);
    }
  }

  lemma AllocatedNowOrLater<C>(acts: seq<Act<C>>, a: C)
    requires acts != []
    ensures AllocatedIn(acts, a) <==> (acts[0].Open? && acts[0].c == a) || AllocatedIn(acts[1..], a)
  {
    if i :| 0 <= i < |acts[1..]| && acts[1..][i].Open? && acts[1..][i].c == a {
      assert acts[i + 1] == acts[1..][i];
    }
    if i :| 0 < i < |acts| && acts[i].Open? && acts[i].c == a {
      assert acts[1..][i - 1] == acts[i];
    }
  }

  /** Such a loss of a registration is reachable: open a channel, construct one with its id, close that. */
  lemma GivenIdCanUnregister<C>(a: C, b: C, hash: int)
    requires a != b
    ensures var w := Opened(World(map[], map[], {}), a, hash);
            var w' := Closed(OpenedWithId(w, b, w.ids[a]), b);
            a in w'.open && w'.registry == map[] && !HoldsAll(w')
  {
    var w := Opened(World(map[], map[], {}), a, hash);
    var w' := Closed(OpenedWithId(w, b, w.ids[a]), b);
    assert a in w'.open && w'.registry == map[];
  }

  // ---------------------------------------------------------------------------
  // The classes
  // ---------------------------------------------------------------------------

  class Channel {
    var id: int
    var closeFutureDone: bool

    constructor ()
      ensures !closeFutureDone
    {
      id, closeFutureDone := 0, false;
    }
  }

  class Registry {
    var allChannels: map<int, Channel>
    ghost var created: set<Channel>

    ghost function View(): World<Channel>
      reads this, created
    {
      World(allChannels, map c | c in created :: c.id, set c | c in created && !c.closeFutureDone)
    }

    constructor ()
      ensures View() == World(map[], map[], {})
    {
      allChannels, created := map[], {};
    }

    /** Inserts the channel under the first free id from its hash on. */
    method AllocateId(channel: Channel, hash: int) returns (id: int)
      requires |allChannels| < TWO_32 && -TWO_31 <= hash < TWO_31
      modifies this`allChannels
      ensures allChannels == old(allChannels)[id := channel]
      ensures exists d: nat :: FirstFree(old(allChannels), hash, d) && id == Probe(hash, d)
      ensures id !in old(allChannels) && -TWO_31 <= id < TWO_31
      ensures var distance := (id - hash) % TWO_32;
              forall i :: -TWO_31 <= i < TWO_31 && (i - hash) % TWO_32 < distance ==> i in old(allChannels)
    {
      SomeIdIsFree(allChannels, hash);
      ghost var free: nat :| FirstFree(allChannels, hash, free);
      ghost var tried: nat := 0;
      id := hash;
      while id in allChannels
        invariant allChannels == old(allChannels)
        invariant tried <= free && id == Probe(hash, tried)
        decreases free - tried
      {
        ProbeNext(hash, tried);
        id := Wrap32(id + 1);
        tried := tried + 1;
      }
      assert tried == free;
      AllBeforeTaken(allChannels, hash, free);
      allChannels := allChannels[id := channel];
    }

    method NewChannel(hash: int) returns (c: Channel)
      requires |allChannels| < TWO_32 && -TWO_31 <= hash < TWO_31
      modifies this
      ensures fresh(c) && View() == Opened(old(View()), c, hash)
      ensures c.id !in old(allChannels) && allChannels == old(allChannels)[c.id := c] && !c.closeFutureDone
    {
      c := new Channel();
      c.id := AllocateId(c, hash);
      created := created + {c};
      FirstFreeIsUnique(old(allChannels), hash);
    }

    method NewChannelWithId(id: int) returns (c: Channel)
      modifies this
      ensures fresh(c) && View() == OpenedWithId(old(View()), c, id)
      ensures c.id == id && allChannels == old(allChannels) && !c.closeFutureDone
    {
      c := new Channel();
      c.id := id;
      created := created + {c};
    }

    /** True for the first call only, which also runs the listener that erases the id. */
    method SetClosed(c: Channel) returns (first: bool)
      requires c in created
      modifies this`allChannels, c`closeFutureDone
      ensures View() == Closed(old(View()), c)
      ensures first == (c in old(View()).open) && c.closeFutureDone && first == !old(c.closeFutureDone)
      ensures allChannels == if first then old(allChannels) - {c.id} else old(allChannels)
    {
      if c.closeFutureDone {
        return false;
      }
      c.closeFutureDone := true;
      if c.id in allChannels {
        allChannels := allChannels - {c.id};
      }
      first := true;
    }
  }

  lemma FirstFreeIsUnique<C>(registry: map<int, C>, hash: int)
    ensures forall d: nat, e: nat :: FirstFree(registry, hash, d) && FirstFree(registry, hash, e) ==> d == e
  {
    forall d: nat, e: nat | FirstFree(registry, hash, d) && FirstFree(registry, hash, e) ensures d == e {
      assert !(d < e) && !(e < d);
    }
  }
}

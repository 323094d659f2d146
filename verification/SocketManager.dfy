/** The registry of proxy sockets: routing of incoming packets, and the ring that holds
    packets which arrive before anyone has bound their port. */
module SocketManager {
  import opened Basics
  import opened Ring
  import opened LdnTypes
  import opened PortPool
  import opened ProxySocket
  import PortOwnership
  import LdnConsole
  import opened LdnControl

  const PENDING_MAX: nat := 16
  const PENDING_PAYLOAD_MAX: nat := 1400
  const TARGETS_MAX: nat := 8
  const SOCKETS_MAX: nat := 64

  /** A packet from the tunnel. */
  datatype Datagram = Datagram(srcIp: Ip, srcPort: Port, dstIp: Ip, dstPort: Port, protocol: Protocol, data: seq<Byte>)

  const NO_DATAGRAM: Datagram := Datagram(0, 0, 0, 0, Unspecified, [])

  predicate IsBroadcast(ip: Ip) {
    ip % 0x100 == 0xFF || ip % 0x1_0000 == 0xFFFF
  }

  predicate IsLanModePort(port: Port) {
    port == 30000 || port == 40000 || port == 35000 || 49152 <= port <= 49155
  }

  /** The packet comes from outside the session. */
  predicate Foreign(c: Console, d: Datagram) {
    !IsLanModePort(d.dstPort) && !LdnConsole.KnownPeer(c, d.srcIp)
  }

  /** Does a socket of this protocol and local address receive the packet? */
  predicate Accepts(protocol: Protocol, local: SockAddr, d: Datagram) {
    && protocol == d.protocol && local.port == d.dstPort
    && (local.ip == 0 || local.ip == d.dstIp || IsBroadcast(d.dstIp))
  }

  /** The packet shows its receiver the sender of `d` and the first `max` bytes of its payload. */
  ghost predicate Carries(p: Packet, d: Datagram, max: nat) {
    && p.from.family == AF_INET && p.from.ip == d.srcIp && p.from.port == d.srcPort
    && |p.data| == (if |d.data| <= max then |d.data| else max) && p.data == d.data[..|p.data|]
  }

  function Rx(d: Datagram): Packet {
    Packet(SockAddr(AF_INET, d.srcIp, d.srcPort), Clamp(d.data, PAYLOAD_MAX))
  }

  function Held(d: Datagram): Datagram {
    d.(data := Clamp(d.data, PENDING_PAYLOAD_MAX))
  }

  /** Append to the early arrivals, dropping the oldest when full. */
  function Hold(q: seq<Datagram>, d: Datagram): (r: seq<Datagram>)
    ensures |q| <= PENDING_MAX ==> |r| <= PENDING_MAX
  {
    if |q| >= PENDING_MAX then q[1..] + [Held(d)] else q + [Held(d)]
  }

  predicate ForPort(d: Datagram, port: Port, protocol: Protocol) {
    d.protocol == protocol && d.dstPort == port
  }

  /** Those of the first n early arrivals that are for a port, in order, as the socket receives them. */
  function Matching(q: seq<Datagram>, n: nat, port: Port, protocol: Protocol): (r: seq<Packet>)
    requires n <= |q|
    ensures |r| <= n
  {
    if n == 0 then []
    else
      var before := Matching(q, n - 1, port, protocol);
      if ForPort(q[n - 1], port, protocol) then before + [Rx(q[n - 1])] else before
  }

  /** The others, in order. */
  function Others(q: seq<Datagram>, n: nat, port: Port, protocol: Protocol): (r: seq<Datagram>)
    requires n <= |q|
    ensures |r| <= n
  {
    if n == 0 then []
    else
      var before := Others(q, n - 1, port, protocol);
      if ForPort(q[n - 1], port, protocol) then before else before + [q[n - 1]]
  }

  // ---- routing, on values ----

  /** A registered socket as the routing sees it. */
  datatype Sock = Sock(protocol: Protocol, local: SockAddr, queue: seq<Packet>)

  ghost function SockOf(s: ProxySocket): Sock
    requires s.RingOk()
    reads s, s.ring
  {
    Sock(s.protocol, s.localAddr, s.Queue())
  }

  /** The sockets in the order in which the registry is walked, and the early arrivals. */
  datatype Net = Net(socks: seq<Sock>, pending: seq<Datagram>)

  predicate Takes(s: Sock, d: Datagram) {
    Accepts(s.protocol, s.local, d)
  }

  /** Positions of the sockets, among the first n, that receive the packet: at most TARGETS_MAX. */
  function Targets(socks: seq<Sock>, d: Datagram, n: nat): (r: seq<nat>)
    requires n <= |socks|
    ensures |r| <= TARGETS_MAX && forall i :: 0 <= i < |r| ==> r[i] < n
    ensures forall i, j :: 0 <= i < j < |r| ==> r[i] < r[j]
  {
    if n == 0 then []
    else
      var before := Targets(socks, d, n - 1);
      if |before| < TARGETS_MAX && Takes(socks[n - 1], d) then before + [n - 1] else before
  }

  function Deposit(s: Sock, p: Packet): Sock {
    Sock(s.protocol, s.local, Push(s.queue, p))
  }

  function PushTo(socks: seq<Sock>, targets: seq<nat>, p: Packet): (r: seq<Sock>)
    ensures |r| == |socks|
  {
    seq(|socks|, i requires 0 <= i < |socks| => if i in targets then Deposit(socks[i], p) else socks[i])
  }

  function Route(net: Net, d: Datagram): Net {
    var targets := Targets(net.socks, d, |net.socks|);
    if targets == [] then Net(net.socks, Hold(net.pending, d)) else Net(PushTo(net.socks, targets, Rx(d)), net.pending)
  }

  function RouteAll(net: Net, ds: seq<Datagram>): Net
    decreases |ds|
  {
    if ds == [] then net else RouteAll(Route(net, ds[0]), ds[1..])
  }

  /** The socket at position k is bound. */
  function BindAt(net: Net, k: nat, addr: SockAddr): (r: Net)
    requires k < |net.socks|
    ensures |r.socks| == |net.socks|
  {
    Net(net.socks[k := Sock(net.socks[k].protocol, addr, net.socks[k].queue)], net.pending)
  }

  /** The socket at position k gets the early arrivals for its port. */
  function DrainTo(net: Net, k: nat): (r: Net)
    requires k < |net.socks|
    ensures |r.socks| == |net.socks|
  {
    var s, n := net.socks[k], |net.pending|;
    var got := Matching(net.pending, n, s.local.port, s.protocol);
    Net(net.socks[k := Sock(s.protocol, s.local, PushAll(s.queue, got))], Others(net.pending, n, s.local.port, s.protocol))
  }

  /** A bind, and the hand-over right behind it. */
  function BindAndDrain(net: Net, k: nat, addr: SockAddr): Net
    requires k < |net.socks|
  {
    DrainTo(BindAt(net, k, addr), k)
  }

  /** How many of the first n sockets would accept the packet. */
  function CountTaking(socks: seq<Sock>, d: Datagram, n: nat): nat
    requires n <= |socks|
  {
    if n == 0 then 0 else CountTaking(socks, d, n - 1) + if Takes(socks[n - 1], d) then 1 else 0
  }

  /** A socket is a target exactly when it accepts the packet and fewer than TARGETS_MAX
      sockets before it do. */
  lemma {:induction false} TargetsExactly(socks: seq<Sock>, d: Datagram, n: nat, i: nat)
    requires n <= |socks|
    ensures |Targets(socks, d, n)| == if CountTaking(socks, d, n) < TARGETS_MAX then CountTaking(socks, d, n) else TARGETS_MAX
    ensures i in Targets(socks, d, n) <==> i < n && Takes(socks[i], d) && CountTaking(socks, d, i) < TARGETS_MAX
  {
    if n > 0 {
      TargetsExactly(socks, d, n - 1, i);
    }
  }

  /** What routing does to the receive queues: each of the first TARGETS_MAX accepting sockets has
      a packet with the sender and the payload of `d` behind what it had, less its oldest packet
      when it was full; every other socket is as before. */
  ghost predicate Reaches(was: seq<Sock>, socks: seq<Sock>, d: Datagram) {
    |socks| == |was| && forall t: nat | t < |was| :: ReachesAt(was, socks, d, t)
  }

  ghost predicate ReachesAt(was: seq<Sock>, socks: seq<Sock>, d: Datagram, t: nat)
    requires t < |was| == |socks|
  {
    if Takes(was[t], d) && CountTaking(was, d, t) < TARGETS_MAX then ReachesOne(was[t], socks[t], d) else socks[t] == was[t]
  }

  ghost predicate ReachesOne(was: Sock, s: Sock, d: Datagram) {
    && s.protocol == was.protocol && s.local == was.local && s.queue != []
    && Carries(s.queue[|s.queue| - 1], d, PAYLOAD_MAX)
    && s.queue[..|s.queue| - 1] == if |was.queue| < QUEUE_MAX then was.queue else was.queue[1..]
  }

  /** In particular an accepting socket that had nothing waiting has exactly this packet. */
  lemma {:induction false} ReachesEmpty(was: seq<Sock>, socks: seq<Sock>, d: Datagram, t: nat)
    requires Reaches(was, socks, d) && t < |was| && Takes(was[t], d) && CountTaking(was, d, t) < TARGETS_MAX
    requires was[t].queue == []
    ensures |socks[t].queue| == 1 && Carries(socks[t].queue[0], d, PAYLOAD_MAX)
  {
    assert ReachesAt(was, socks, d, t);
  }

  lemma {:induction false} RouteReaches(net: Net, d: Datagram)
    requires Claimed(net.socks, d)
    ensures Reaches(net.socks, Route(net, d).socks, d) && Route(net, d).pending == net.pending
  {
    var n, socks := |net.socks|, Route(net, d).socks;
    NoTargetExactly(net.socks, d, n);
    forall t: nat | t < n ensures ReachesAt(net.socks, socks, d, t) {
      TargetsExactly(net.socks, d, n, t);
    }
  }

  /** How many of the first n early arrivals are for a port. */
  ghost function CountFor(q: seq<Datagram>, n: nat, port: Port, protocol: Protocol): nat
    requires n <= |q|
  {
    if n == 0 then 0 else CountFor(q, n - 1, port, protocol) + if ForPort(q[n - 1], port, protocol) then 1 else 0
  }

  /** `got` is what the early arrivals for a port become for their socket, in order of arrival, and
      `rest` is what stays, in order. */
  ghost predicate HandsOver(q: seq<Datagram>, n: nat, port: Port, protocol: Protocol, got: seq<Packet>, rest: seq<Datagram>)
    requires n <= |q|
  {
    && |got| == CountFor(q, n, port, protocol) && |got| + |rest| == n
    && forall i: nat | i < n :: HandsOverOne(q, i, port, protocol, got, rest)
  }

  ghost predicate HandsOverOne(q: seq<Datagram>, i: nat, port: Port, protocol: Protocol, got: seq<Packet>, rest: seq<Datagram>)
    requires i < |q|
  {
    var k := CountFor(q, i, port, protocol);
    if q[i].protocol == protocol && q[i].dstPort == port then k < |got| && Carries(got[k], q[i], PAYLOAD_MAX)
    else 0 <= i - k < |rest| && rest[i - k] == q[i]
  }

  lemma {:induction false} SplitHandsOver(q: seq<Datagram>, n: nat, port: Port, protocol: Protocol)
    requires n <= |q|
    ensures HandsOver(q, n, port, protocol, Matching(q, n, port, protocol), Others(q, n, port, protocol))
  {
    if n > 0 {
      SplitHandsOver(q, n - 1, port, protocol);
      var got, rest := Matching(q, n, port, protocol), Others(q, n, port, protocol);
      var got0, rest0 := Matching(q, n - 1, port, protocol), Others(q, n - 1, port, protocol);
      forall i: nat | i < n ensures HandsOverOne(q, i, port, protocol, got, rest) {
        if i < n - 1 {
          assert HandsOverOne(q, i, port, protocol, got0, rest0);
        }
      }
    }
  }

  /** Holding any number of packets keeps exactly the last PENDING_MAX, each cut to the slot. */
  function HoldAll(q: seq<Datagram>, ds: seq<Datagram>): seq<Datagram> {
    if ds == [] then q else Hold(HoldAll(q, ds[..|ds| - 1]), ds[|ds| - 1])
  }

  function LastHeld(all: seq<Datagram>): seq<Datagram> {
    if |all| <= PENDING_MAX then all else all[|all| - PENDING_MAX..]
  }

  /** The packet as a slot keeps it: all of it but the payload behind the first 1400 bytes. */
  ghost predicate KeptAs(e: Datagram, d: Datagram) {
    && e == d.(data := e.data)
    && |e.data| == (if |d.data| <= PENDING_PAYLOAD_MAX then |d.data| else PENDING_PAYLOAD_MAX) && e.data == d.data[..|e.data|]
  }

  lemma {:induction false} HoldAllKeepsLast(q: seq<Datagram>, ds: seq<Datagram>) returns (es: seq<Datagram>)
    requires |q| <= PENDING_MAX
    ensures |es| == |ds| && (forall i :: 0 <= i < |ds| ==> KeptAs(es[i], ds[i])) && HoldAll(q, ds) == LastHeld(q + es)
    decreases |ds|
  {
    if ds == [] {
      es := [];
      assert q + es == q;
    } else {
      var n := |ds| - 1;
      var before := HoldAllKeepsLast(q, ds[..n]);
      es := before + [Held(ds[n])];
      assert q + es == (q + before) + [Held(ds[n])];
      HoldKeepsLast(q + before, ds[n]);
    }
  }

  lemma {:induction false} HoldKeepsLast(all: seq<Datagram>, d: Datagram)
    ensures Hold(LastHeld(all), d) == LastHeld(all + [Held(d)])
  {
  }

  /** A broadcast address is one whose last octet is 255. */
  lemma {:induction false} BroadcastExactly(ip: Ip)
    ensures IsBroadcast(ip) <==> ip % 256 == 255
  {
  }

  /** A socket bound to one address gets unicast for that address only, one bound to none gets all
      of its port, and both get every broadcast on their port. */
  lemma {:induction false} AcceptsExactly(s: Sock, d: Datagram)
    ensures Takes(s, d) ==> s.protocol == d.protocol && s.local.port == d.dstPort
    ensures s.protocol == d.protocol && s.local.port == d.dstPort ==>
              (Takes(s, d) <==> d.dstIp % 256 == 255 || s.local.ip == 0 || s.local.ip == d.dstIp)
  {
    BroadcastExactly(d.dstIp);
  }

  /** Some socket accepts the packet. */
  ghost predicate Claimed(socks: seq<Sock>, d: Datagram) {
    exists i: nat :: i < |socks| && Takes(socks[i], d)
  }

  /** The packet is held exactly when no socket accepts it. */
  lemma {:induction false} NoTargetExactly(socks: seq<Sock>, d: Datagram, n: nat)
    requires n <= |socks|
    ensures Targets(socks, d, n) == [] <==> forall i: nat | i < n :: !Takes(socks[i], d)
  {
    if n > 0 {
      NoTargetExactly(socks, d, n - 1);
    }
  }

  // ---- the ring, as a sequence of slots ----

  /** The n packets from slot h on, cyclically. */
  ghost function Window(r: seq<Datagram>, h: nat, n: nat): (q: seq<Datagram>)
    requires |r| == PENDING_MAX && h < PENDING_MAX && n <= PENDING_MAX
    ensures |q| == n && forall i :: 0 <= i < n ==> q[i] == r[Slot(PENDING_MAX, h, i)]
  {
    seq(n, i requires 0 <= i < n => r[Slot(PENDING_MAX, h, i)])
  }

  lemma {:induction false} WindowAppend(r: seq<Datagram>, h: nat, n: nat, d: Datagram)
    requires |r| == PENDING_MAX && h < PENDING_MAX && n < PENDING_MAX
    ensures Window(r[Slot(PENDING_MAX, h, n) := d], h, n + 1) == Window(r, h, n) + [d]
  {
  }

  /** Midway through the compaction: the first slots hold what is kept, and from slot i on
      the old content is still in place. */
  ghost predicate Compacting(r: seq<Datagram>, h: nat, q: seq<Datagram>, kept: seq<Datagram>, i: nat) {
    && |r| == PENDING_MAX && h < PENDING_MAX && |q| <= PENDING_MAX && |kept| <= i <= |q|
    && (forall k :: 0 <= k < |kept| ==> r[Slot(PENDING_MAX, h, k)] == kept[k])
    && (forall k :: i <= k < |q| ==> r[Slot(PENDING_MAX, h, k)] == q[k])
  }

  lemma {:induction false} KeepStep(r: seq<Datagram>, h: nat, q: seq<Datagram>, kept: seq<Datagram>, i: nat)
    requires Compacting(r, h, q, kept, i) && i < |q|
    ensures Compacting(r[Slot(PENDING_MAX, h, |kept|) := q[i]], h, q, kept + [q[i]], i + 1)
    ensures Slot(PENDING_MAX, h, |kept|) == Slot(PENDING_MAX, h, i) ==> r[Slot(PENDING_MAX, h, |kept|) := q[i]] == r
  {
  }

  lemma {:induction false} CompactedWindow(r: seq<Datagram>, h: nat, q: seq<Datagram>, kept: seq<Datagram>, i: nat)
    requires Compacting(r, h, q, kept, i)
    ensures Window(r, h, |kept|) == kept
  {
  }

  ghost predicate Apart(s: ProxySocket, t: ProxySocket) {
    s != t && s.ring != t.ring
  }

  ghost predicate Separate(sockets: map<int, ProxySocket>) {
    forall a, b {:trigger Apart(sockets[a], sockets[b])} ::
      a in sockets && b in sockets && a != b ==> Apart(sockets[a], sockets[b])
  }

  lemma {:induction false} SeparateWithout(sockets: map<int, ProxySocket>, fd: int)
    requires Separate(sockets) && fd in sockets
    ensures Separate(sockets - {fd})
    ensures forall f :: f in sockets - {fd} ==> Apart((sockets - {fd})[f], sockets[fd])
  {
    var rest := sockets - {fd};
    forall a, b | a in rest && b in rest && a != b ensures Apart(rest[a], rest[b]) {
      assert Apart(sockets[a], sockets[b]);
    }
    forall f | f in rest ensures Apart(rest[f], sockets[fd]) {
      assert Apart(sockets[f], sockets[fd]);
    }
  }

  ghost function OwnerOf(s: ProxySocket): PortOwnership.Owner
    reads s
  {
    PortOwnership.Owner(s.protocol, s.localAddr.port)
  }

  class ProxySocketManager {
    var sockets: map<int, ProxySocket>
    const pool: EphemeralPortPool
    const ring: array<Datagram>
    var head: nat
    var tail: nat
    var count: nat

    ghost predicate RingOk() reads this`head, this`tail, this`count {
      && ring.Length == PENDING_MAX
      && head < PENDING_MAX && count <= PENDING_MAX && tail == Slot(PENDING_MAX, head, count)
    }

    /** The early arrivals, oldest first. */
    ghost function Pending(): (q: seq<Datagram>)
      requires RingOk()
      reads this`head, this`tail, this`count, ring
      ensures |q| == count
    {
      Window(ring[..], head, count)
    }

    constructor ()
      ensures RingOk() && Pending() == [] && sockets == map[] && fresh(ring)
      ensures fresh(pool) && pool.Valid() && pool.View(true) == EMPTY_HALF && pool.View(false) == EMPTY_HALF
    {
      sockets := map[];
      pool := new EphemeralPortPool();
      ring := new Datagram[PENDING_MAX](_ => NO_DATAGRAM);
      head, tail, count := 0, 0, 0;
    }

    /** The registered sockets are intact and share no memory. */
    ghost predicate RegistryOk()
      reads this`sockets, sockets.Values, set fd | fd in sockets :: sockets[fd].ring
    {
      && (forall fd :: fd in sockets ==> sockets[fd].Valid())
      && Separate(sockets)
    }

    /** `order` is the order in which the registry happens to be walked. */
    ghost predicate Listing(order: seq<int>) reads this`sockets {
      && (forall i :: 0 <= i < |order| ==> order[i] in sockets)
      && (forall i, j :: 0 <= i < j < |order| ==> order[i] != order[j])
      && (forall fd :: fd in sockets ==> fd in order)
    }

    ghost function Socks(order: seq<int>): (r: seq<Sock>)
      requires RegistryOk() && Listing(order)
      reads this`sockets, sockets.Values, set fd | fd in sockets :: sockets[fd].ring
      ensures |r| == |order| && forall i :: 0 <= i < |r| ==> r[i] == SockOf(sockets[order[i]])
    {
      var all := sockets;
      seq(|order|, i requires 0 <= i < |order| && order[i] in all && all[order[i]].RingOk()
                     reads all.Values, set fd | fd in all :: all[fd].ring => SockOf(all[order[i]]))
    }

    method FindAllSocketsByDestination(d: Datagram, order: seq<int>) returns (targets: seq<nat>)
      requires RegistryOk() && Listing(order)
      ensures targets == Targets(Socks(order), d, |order|)
    {
      targets := [];
      for n := 0 to |order|
        invariant targets == Targets(Socks(order), d, n)
      {
        if |targets| >= TARGETS_MAX {
          TargetsStay(Socks(order), d, n);
          break;
        }
        var s := sockets[order[n]];
        assert Socks(order)[n] == SockOf(sockets[order[n]]);
        if s.protocol == d.protocol && s.localAddr.port == d.dstPort {
          if s.localAddr.ip == 0 || s.localAddr.ip == d.dstIp || IsBroadcast(d.dstIp) {
            targets := targets + [n];
          }
        }
      }
    }

    /** Delivers to the socket at position t; every other stays. */
    method DeliverTo(s: ProxySocket, d: Datagram, ghost t: nat, ghost order: seq<int>)
      requires RegistryOk() && Listing(order) && t < |order| && order[t] in sockets && sockets[order[t]] == s
      modifies s`head, s`tail, s`count, s`signalled, s`arrived, s`left, s.ring
      ensures RegistryOk() && sockets == old(sockets)
      ensures Socks(order) == old(Socks(order))[t := Deposit(old(Socks(order))[t], Rx(d))]
    {
      ghost var was, fd := Socks(order), order[t];
      assert fd in sockets && sockets[fd].Valid();
      s.IncomingData(d.data, SockAddr(AF_INET, d.srcIp, d.srcPort));
      forall i | 0 <= i < |order| && i != t ensures SockOf(sockets[order[i]]) == was[i] {
        assert Apart(sockets[order[i]], sockets[fd]);
      }
    }

    /** Delivers to every target. */
    method Deliver(d: Datagram, targets: seq<nat>, order: seq<int>)
      requires RingOk() && RegistryOk() && Listing(order)
      requires forall i :: 0 <= i < |targets| ==> targets[i] < |order|
      requires forall i, j :: 0 <= i < j < |targets| ==> targets[i] < targets[j]
      modifies sockets.Values`head, sockets.Values`tail, sockets.Values`count, sockets.Values`signalled, sockets.Values`arrived, sockets.Values`left,
               set fd | fd in sockets :: sockets[fd].ring
      ensures RingOk() && RegistryOk() && sockets == old(sockets) && Pending() == old(Pending())
      ensures Socks(order) == PushTo(old(Socks(order)), targets, Rx(d))
    {
      ghost var was := Socks(order);
      assert PushTo(was, targets[..0], Rx(d)) == was;
      for i := 0 to |targets|
        invariant RegistryOk() && sockets == old(sockets)
        invariant Socks(order) == PushTo(was, targets[..i], Rx(d))
      {
        PushToNext(was, targets, i, Rx(d));
        var fd := order[targets[i]];
        assert fd in sockets && sockets[fd] in sockets.Values;
        DeliverTo(sockets[fd], d, targets[i], order);
      }
      assert targets[..|targets|] == targets;
    }

    /** A packet from the tunnel. Only members of the session reach the game, except on the ports
        of LAN mode, which knows no sessions. */
    method RouteIncomingData(d: Datagram, ldn: LdnControl, order: seq<int>) returns (delivered: bool)
      requires RingOk() && RegistryOk() && Listing(order) && ldn.Valid()
      modifies this`head, this`tail, this`count, ring
      modifies sockets.Values`head, sockets.Values`tail, sockets.Values`count, sockets.Values`signalled, sockets.Values`arrived, sockets.Values`left,
               set fd | fd in sockets :: sockets[fd].ring
      ensures RingOk() && RegistryOk() && sockets == old(sockets)
      ensures var net, foreign := old(Net(Socks(order), Pending())), Foreign(old(ldn.View()), d);
              && Net(Socks(order), Pending()) == (if foreign then net else Route(net, d))
              && (delivered <==> !foreign && Claimed(net.socks, d))
      ensures delivered ==> Reaches(old(Socks(order)), Socks(order), d) && Pending() == old(Pending())
    {
      if !IsLanModePort(d.dstPort) {
        var known := ldn.IsKnownSessionPeer(d.srcIp);
        if !known {
          return false;
        }
      }
      ghost var net := Net(Socks(order), Pending());
      delivered := RouteLocked(d, order);
      if delivered {
        RouteReaches(net, d);
        assert Socks(order) == Route(net, d).socks && Pending() == Route(net, d).pending;
      }
    }

    method HoldAside(d: Datagram, ghost order: seq<int>)
      requires RingOk() && RegistryOk() && Listing(order)
      modifies this`head, this`tail, this`count, ring
      ensures RingOk() && RegistryOk() && Socks(order) == old(Socks(order)) && Pending() == Hold(old(Pending()), d)
    {
      HoldPacket(d);
    }

    method RouteLocked(d: Datagram, order: seq<int>) returns (delivered: bool)
      requires RingOk() && RegistryOk() && Listing(order)
      modifies this`head, this`tail, this`count, ring
      modifies sockets.Values`head, sockets.Values`tail, sockets.Values`count, sockets.Values`signalled, sockets.Values`arrived, sockets.Values`left,
               set fd | fd in sockets :: sockets[fd].ring
      ensures RingOk() && RegistryOk() && sockets == old(sockets)
      ensures Net(Socks(order), Pending()) == Route(old(Net(Socks(order), Pending())), d)
      ensures delivered <==> Claimed(old(Socks(order)), d)
    {
      var targets := FindAllSocketsByDestination(d, order);
      NoTargetExactly(Socks(order), d, |order|);
      delivered := |targets| > 0;
      if delivered {
        Deliver(d, targets, order);
      } else {
        HoldAside(d, order);
      }
    }

    // ---- registration, and the ports it owns ----

    /** The registry as the port ownership sees it. */
    ghost function Owners(): map<int, PortOwnership.Owner>
      reads this`sockets, sockets.Values
    {
      map fd | fd in sockets :: OwnerOf(sockets[fd])
    }

    ghost function Ports(calls: map<int, PortOwnership.Ticket>): PortOwnership.System
      requires pool.Valid()
      reads this`sockets, sockets.Values, pool, pool.udpPorts, pool.tcpPorts
    {
      PortOwnership.System(pool.View(false), pool.View(true), Owners(), calls)
    }

    method Register(fd: int, made: ProxySocket)
      requires RegistryOk() && fd !in sockets && made.Valid()
      requires forall f :: f in sockets ==> Apart(sockets[f], made) && Apart(made, sockets[f])
      modifies this`sockets
      ensures RegistryOk() && sockets == old(sockets)[fd := made]
      ensures Owners() == old(Owners())[fd := OwnerOf(made)]
    {
      sockets := sockets[fd := made];
    }

    method AddSocket(fd: int, protocol: Protocol) returns (made: ProxySocket)
      requires RegistryOk() && fd !in sockets
      modifies this`sockets
      ensures RegistryOk() && fresh(made) && made.Valid() && SockOf(made) == Sock(protocol, NO_ADDR, [])
      ensures sockets == old(sockets)[fd := made] && Owners() == old(Owners())[fd := PortOwnership.Owner(protocol, 0)]
    {
      made := new ProxySocket(protocol);
      Register(fd, made);
    }

    /** An existing socket is returned as it is; a full registry gives none. */
    method CreateProxySocket(fd: int, protocol: Protocol) returns (s: ProxySocket?)
      requires RegistryOk()
      modifies this`sockets
      ensures RegistryOk()
      ensures s != null <==> fd in old(sockets) || |old(sockets)| < SOCKETS_MAX
      ensures s == null ==> sockets == old(sockets) && Owners() == old(Owners())
      ensures fd in old(sockets) ==> s == old(sockets[fd]) && sockets == old(sockets) && Owners() == old(Owners())
      ensures s != null && fd !in old(sockets) ==>
                sockets == old(sockets)[fd := s] && Owners() == old(Owners())[fd := PortOwnership.Owner(protocol, 0)]
      ensures s != null && fd !in old(sockets) ==> fresh(s) && s.Valid() && SockOf(s) == Sock(protocol, NO_ADDR, [])
    {
      if fd in sockets {
        return sockets[fd];
      }
      if |sockets| >= SOCKETS_MAX {
        return null;
      }
      s := AddSocket(fd, protocol);
    }

    /** Releases the socket's port and takes it off the registry before closing it. */
    method CloseProxySocket(fd: int) returns (found: bool)
      requires RegistryOk() && pool.Valid()
      modifies this`sockets, sockets.Values, pool.udpPorts, pool.tcpPorts
      ensures RegistryOk() && pool.Valid()
      ensures found == (fd in old(sockets)) && sockets == old(sockets) - {fd} && Owners() == old(Owners()) - {fd}
      ensures AllSocks() == old(AllSocks()) - {fd}
      ensures !found ==> pool.View(false) == old(pool.View(false)) && pool.View(true) == old(pool.View(true))
      ensures found ==> PoolReleased(old(pool.View(false)), old(pool.View(true)), old(Owners())[fd])
    {
      if fd !in sockets {
        return false;
      }
      assert sockets[fd] in sockets.Values;
      ReleaseOf(fd);
      Remove(fd);
      found := true;
    }

    /** Both halves of the pool, which were `udp` and `tcp`, after the owner's port is released. */
    ghost predicate PoolReleased(udp: Half, tcp: Half, o: PortOwnership.Owner)
      requires pool.Valid() && udp.Valid() && tcp.Valid()
      reads pool, pool.udpPorts, pool.tcpPorts
    {
      pool.View(false) == Released(udp, false, o.protocol, o.port) && pool.View(true) == Released(tcp, true, o.protocol, o.port)
    }

    /** Every registered socket with its queue. */
    ghost function AllSocks(): map<int, Sock>
      requires RegistryOk()
      reads this`sockets, sockets.Values, set fd | fd in sockets :: sockets[fd].ring
    {
      map fd | fd in sockets :: SockOf(sockets[fd])
    }

    method ReleaseOf(fd: int)
      requires RegistryOk() && pool.Valid() && fd in sockets
      modifies pool.udpPorts, pool.tcpPorts
      ensures RegistryOk() && AllSocks() == old(AllSocks()) && Owners() == old(Owners())
      ensures pool.Valid() && PoolReleased(old(pool.View(false)), old(pool.View(true)), OwnerOf(sockets[fd]))
    {
      var socket := sockets[fd];
      if socket.localAddr.port != 0 {
        pool.ReleasePort(socket.localAddr.port, socket.protocol);
      }
    }

    method Remove(fd: int)
      requires RegistryOk() && fd in sockets
      modifies this`sockets, sockets[fd]
      ensures RegistryOk() && sockets == old(sockets) - {fd} && Owners() == old(Owners()) - {fd}
      ensures AllSocks() == old(AllSocks()) - {fd}
    {
      var socket := sockets[fd];
      assert socket.Valid();
      Detach(fd);
      CloseApart(socket);
    }

    /** Takes a socket off the registry; the others stay and share nothing with it. */
    method Detach(fd: int)
      requires RegistryOk() && fd in sockets
      modifies this`sockets
      ensures RegistryOk() && sockets == old(sockets) - {fd} && Owners() == old(Owners()) - {fd}
      ensures AllSocks() == old(AllSocks()) - {fd}
      ensures forall f :: f in sockets ==> Apart(sockets[f], old(sockets)[fd])
    {
      SeparateWithout(sockets, fd);
      sockets := sockets - {fd};
    }

    /** Closes a socket that is off the registry. */
    method CloseApart(socket: ProxySocket)
      requires RegistryOk() && socket.Valid()
      requires forall f :: f in sockets ==> Apart(sockets[f], socket)
      modifies socket
      ensures RegistryOk() && Owners() == old(Owners()) && AllSocks() == old(AllSocks())
    {
      assert forall f :: f in sockets ==> sockets[f] != socket;
      socket.Close();
    }

    /** The buffering branch of RouteIncomingData. */
    method HoldPacket(d: Datagram)
      requires RingOk()
      modifies this`head, this`tail, this`count, ring
      ensures RingOk() && Pending() == Hold(old(Pending()), d)
    {
      if count >= PENDING_MAX {
        DropOldest();
      }
      AppendPacket(Held(d));
    }

    method AppendPacket(d: Datagram)
      requires RingOk() && count < PENDING_MAX
      modifies this`tail, this`count, ring
      ensures RingOk() && Pending() == old(Pending()) + [d]
    {
      WindowAppend(ring[..], head, count, d);
      ghost var r := ring[..];
      ring[tail] := d;
      assert ring[..] == r[tail := d];
      tail := Next(PENDING_MAX, tail);
      count := count + 1;
    }

    method DropOldest()
      requires RingOk() && count > 0
      modifies this`head, this`count
      ensures RingOk() && Pending() == old(Pending())[1..] && count == old(count) - 1
    {
      head := Next(PENDING_MAX, head);
      count := count - 1;
    }

    /** Closes a gap: the packet at the read position moves to the write position. */
    method MoveDown(readIdx: nat, writeIdx: nat, ghost q: seq<Datagram>, ghost kept: seq<Datagram>, ghost i: nat)
      requires ring.Length == PENDING_MAX && Compacting(ring[..], head, q, kept, i) && i < |q|
      requires readIdx == Slot(PENDING_MAX, head, i) && writeIdx == Slot(PENDING_MAX, head, |kept|)
      modifies ring
      ensures Compacting(ring[..], head, q, kept + [q[i]], i + 1)
    {
      KeepStep(ring[..], head, q, kept, i);
      ghost var r := ring[..];
      if writeIdx != readIdx {
        ring[writeIdx] := ring[readIdx];
      }
      assert ring[..] == r[writeIdx := q[i]];
    }

    /** One packet of the pass: delivered when it matches, moved down otherwise. */
    method VisitOne(socket: ProxySocket, readIdx: nat, writeIdx: nat, port: Port, protocol: Protocol,
                    ghost q: seq<Datagram>, ghost kept: seq<Datagram>, ghost next: seq<Datagram>, ghost i: nat)
      returns (stays: bool, nextRead: nat, nextWrite: nat)
      requires ring.Length == PENDING_MAX && Compacting(ring[..], head, q, kept, i) && i < |q| && socket.Valid()
      requires readIdx == Slot(PENDING_MAX, head, i) && writeIdx == Slot(PENDING_MAX, head, |kept|)
      requires next == if ForPort(q[i], port, protocol) then kept else kept + [q[i]]
      modifies ring, socket`head, socket`tail, socket`count, socket`signalled, socket`arrived, socket`left, socket.ring
      ensures stays == !ForPort(q[i], port, protocol) && socket.Valid()
      ensures Compacting(ring[..], head, q, next, i + 1)
      ensures nextRead == Slot(PENDING_MAX, head, i + 1) && nextWrite == Slot(PENDING_MAX, head, |next|)
      ensures socket.Queue() == if stays then old(socket.Queue()) else Push(old(socket.Queue()), Rx(q[i]))
    {
      var d := ring[readIdx];
      assert d == ring[..][Slot(PENDING_MAX, head, i)] == q[i];
      if d.protocol == protocol && d.dstPort == port {
        socket.IncomingData(d.data, SockAddr(AF_INET, d.srcIp, d.srcPort));
        stays, nextWrite := false, writeIdx;
      } else {
        MoveDown(readIdx, writeIdx, q, kept, i);
        stays, nextWrite := true, Next(PENDING_MAX, writeIdx);
      }
      nextRead := Next(PENDING_MAX, readIdx);
    }

    /** The state of the pass with the first i packets handled. */
    ghost predicate Pass(socket: ProxySocket, port: Port, protocol: Protocol, q: seq<Datagram>, rx: seq<Packet>,
                         i: nat, readIdx: nat, writeIdx: nat, kept: nat)
      requires ring.Length == PENDING_MAX && head < PENDING_MAX
      reads this, ring, socket, socket.ring
    {
      && i <= |q| <= PENDING_MAX && socket.Valid()
      && Compacting(ring[..], head, q, Others(q, i, port, protocol), i)
      && socket.Queue() == PushAll(rx, Matching(q, i, port, protocol))
      && kept == |Others(q, i, port, protocol)|
      && readIdx == Slot(PENDING_MAX, head, i) && writeIdx == Slot(PENDING_MAX, head, kept)
    }

    method PassOne(socket: ProxySocket, port: Port, protocol: Protocol, ghost q: seq<Datagram>, ghost rx: seq<Packet>,
                   ghost i: nat, readIdx: nat, writeIdx: nat, kept: nat)
      returns (nextRead: nat, nextWrite: nat, nextKept: nat)
      requires ring.Length == PENDING_MAX && head < PENDING_MAX && i < |q|
      requires Pass(socket, port, protocol, q, rx, i, readIdx, writeIdx, kept)
      modifies ring, socket`head, socket`tail, socket`count, socket`signalled, socket`arrived, socket`left, socket.ring
      ensures Pass(socket, port, protocol, q, rx, i + 1, nextRead, nextWrite, nextKept)
    {
      NextPending(q, i, rx, port, protocol);
      var stays;
      stays, nextRead, nextWrite := VisitOne(socket, readIdx, writeIdx, port, protocol, q, Others(q, i, port, protocol),
                                             Others(q, i + 1, port, protocol), i);
      nextKept := kept + if stays then 1 else 0;
    }

    /** The pass over the ring. */
    method Compact(socket: ProxySocket, port: Port, protocol: Protocol, ghost q: seq<Datagram>, ghost rx: seq<Packet>)
      returns (readIdx: nat, writeIdx: nat, kept: nat)
      requires ring.Length == PENDING_MAX && head < PENDING_MAX && |q| == count
      requires Pass(socket, port, protocol, q, rx, 0, head, head, 0)
      modifies ring, socket`head, socket`tail, socket`count, socket`signalled, socket`arrived, socket`left, socket.ring
      ensures Pass(socket, port, protocol, q, rx, |q|, readIdx, writeIdx, kept)
    {
      readIdx, writeIdx, kept := head, head, 0;
      for i := 0 to count
        invariant Pass(socket, port, protocol, q, rx, i, readIdx, writeIdx, kept)
      {
        readIdx, writeIdx, kept := PassOne(socket, port, protocol, q, rx, i, readIdx, writeIdx, kept);
      }
    }

    /** Hands the matching early arrivals to a freshly bound socket and closes the gaps they
        leave, in one pass over the ring. */
    method DeliverPendingPackets(socket: ProxySocket, port: Port, protocol: Protocol)
      requires RingOk() && socket.Valid()
      modifies this`tail, this`count, ring, socket, socket.ring
      ensures RingOk() && socket.Valid()
      ensures Pending() == Others(old(Pending()), old(count), port, protocol)
      ensures socket.Queue() == PushAll(old(socket.Queue()), Matching(old(Pending()), old(count), port, protocol))
      ensures HandsOver(old(Pending()), old(count), port, protocol, Matching(old(Pending()), old(count), port, protocol), Pending())
      ensures socket.localAddr == old(socket.localAddr) && socket.state == old(socket.state)
      ensures socket.shutdownRead == old(socket.shutdownRead)
    {
      ghost var q := Pending();
      var readIdx;
      readIdx, tail, count := Compact(socket, port, protocol, q, socket.Queue());
      CompactedWindow(ring[..], head, q, Others(q, |q|, port, protocol), |q|);
      SplitHandsOver(q, |q|, port, protocol);
    }
  }

  lemma {:induction false} TargetsStay(socks: seq<Sock>, d: Datagram, n: nat)
    requires n <= |socks| && |Targets(socks, d, n)| == TARGETS_MAX
    ensures Targets(socks, d, |socks|) == Targets(socks, d, n)
    decreases |socks| - n
  {
    if n < |socks| {
      TargetsStay(socks, d, n + 1);
    }
  }

  lemma {:induction false} PushToNext(socks: seq<Sock>, targets: seq<nat>, i: nat, p: Packet)
    requires i < |targets| && forall a, b :: 0 <= a < b < |targets| ==> targets[a] < targets[b]
    requires targets[i] < |socks|
    ensures PushTo(socks, targets[..i + 1], p)
         == PushTo(socks, targets[..i], p)[targets[i] := Deposit(PushTo(socks, targets[..i], p)[targets[i]], p)]
  {
    assert targets[..i + 1] == targets[..i] + [targets[i]];
  }

  lemma {:induction false} NextPending(q: seq<Datagram>, i: nat, rx: seq<Packet>, port: Port, protocol: Protocol)
    requires i < |q|
    ensures PushAll(rx, Matching(q, i + 1, port, protocol))
         == if ForPort(q[i], port, protocol) then Push(PushAll(rx, Matching(q, i, port, protocol)), Rx(q[i]))
            else PushAll(rx, Matching(q, i, port, protocol))
  {
    var m := Matching(q, i, port, protocol);
    assert (m + [Rx(q[i])])[..|m|] == m;
  }
}

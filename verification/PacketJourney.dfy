/** Packets from the tunnel to the game: what a receive call returns for a packet that was routed
    to a bound socket, and for one that came before the bind. */
module PacketJourney {
  import opened Basics
  import opened LdnTypes
  import opened LdnControl
  import opened LdnInvariants
  import opened LdnSteps
  import LdnSessions
  import opened PortPool
  import opened ProxySocket
  import opened SocketManager
  import opened BsdService

  /** The ports of LAN mode. */
  lemma {:induction false} LanPortsExactly(port: Port)
    ensures IsLanModePort(port) <==> port in {30000, 35000, 40000, 49152, 49153, 49154, 49155}
  {
  }

  /** Whose packets a host keeps out: on the ports of LAN mode nobody's, elsewhere those of
      everybody but itself and its registered stations. Outside any network nobody is kept out. */
  lemma {:induction false} ForeignExactly(c: Console, d: Datagram)
    requires Inv(c)
    ensures c.state == AccessPointCreated ==>
              (Foreign(c, d) <==> d.dstPort !in {30000, 35000, 40000, 49152, 49153, 49154, 49155}
                                  && d.srcIp != c.ip && !Registered(c, d.srcIp))
    ensures c.state != AccessPointCreated && c.state != Station && c.state != StationConnected ==> !Foreign(c, d)
  {
    LanPortsExactly(d.dstPort);
    if c.state == AccessPointCreated {
      LdnSessions.HostKnowsExactly(c, d.srcIp);
    }
  }

  /** A guest lets in itself and every connected node of its list, its host first of all. */
  lemma {:induction false} GuestLetsIn(c: Console, d: Datagram, i: nat)
    requires c.state == Station || c.state == StationConnected
    requires d.srcIp == c.ip || (i < c.net.nodeCount && c.net.nodes[i].connected && c.net.nodes[i].ip == d.srcIp)
    ensures !Foreign(c, d)
  {
  }

  /** The first n bytes, or all of them. */
  function Cut(data: seq<Byte>, n: nat): seq<Byte> {
    if |data| <= n then data else data[..n]
  }

  /** The socket can be read, and exactly one packet waits, with the sender and the first `max`
      bytes of `d`. */
  ghost predicate WaitsWith(s: ProxySocket, d: Datagram, max: nat)
    reads s, s.ring
  {
    s.Valid() && s.state != Closed && !s.shutdownRead && |s.Queue()| == 1 && Carries(s.Queue()[0], d, max)
  }

  /** The same, read off the registry. */
  lemma {:induction false} WaitsFrom(m: ProxySocketManager, order: seq<int>, k: nat, s: ProxySocket, d: Datagram, max: nat)
    requires m.RegistryOk() && m.Listing(order) && k < |order| && order[k] in m.sockets && m.sockets[order[k]] == s
    requires s.state != Closed && !s.shutdownRead
    requires var q := m.Socks(order)[k].queue; |q| == 1 && Carries(q[0], d, max)
    ensures WaitsWith(s, d, max)
  {
    var fd := order[k];
    assert m.sockets[fd].Valid() && m.Socks(order)[k] == SockOf(m.sockets[fd]);
  }

  method ReceiveOne(s: ProxySocket, len: nat, ghost d: Datagram, ghost max: nat) returns (r: Received)
    requires WaitsWith(s, d, max)
    modifies s`head, s`count, s`signalled, s`left
    ensures r == Data(SockAddr(AF_INET, d.srcIp, d.srcPort), Cut(Cut(d.data, max), len))
  {
    ghost var p := s.Queue()[0];
    assert p.from == SockAddr(AF_INET, d.srcIp, d.srcPort) && p.data == Cut(d.data, max);
    r := s.RecvFrom(len, false);
  }

  lemma {:induction false} IsClaimed(socks: seq<Sock>, d: Datagram, k: nat)
    requires k < |socks| && Takes(socks[k], d)
    ensures Claimed(socks, d)
  {
  }

  method RouteOne(m: ProxySocketManager, ldn: LdnControl, d: Datagram, order: seq<int>, ghost s: ProxySocket)
    requires m.RingOk() && m.RegistryOk() && m.Listing(order) && ldn.Valid()
    requires !Foreign(ldn.View(), d) && Claimed(m.Socks(order), d)
    modifies m`head, m`tail, m`count, m.ring
    modifies m.sockets.Values`head, m.sockets.Values`tail, m.sockets.Values`count, m.sockets.Values`signalled,
             m.sockets.Values`arrived, m.sockets.Values`left, set fd | fd in m.sockets :: m.sockets[fd].ring
    ensures m.RegistryOk() && m.sockets == old(m.sockets) && s.state == old(s.state) && s.shutdownRead == old(s.shutdownRead)
    ensures Reaches(old(m.Socks(order)), m.Socks(order), d)
  {
    var delivered := m.RouteIncomingData(d, ldn, order);
  }

  /** A packet that an open, empty socket accepts: the next receive returns the address of its
      sender and its payload, cut to 2000 bytes and to the buffer. */
  method RouteThenReceive(m: ProxySocketManager, ldn: LdnControl, d: Datagram, order: seq<int>, k: nat, s: ProxySocket, len: nat)
    returns (r: Received)
    requires m.RingOk() && m.RegistryOk() && m.Listing(order) && ldn.Valid()
    requires k < |order| && order[k] in m.sockets && m.sockets[order[k]] == s && s in m.sockets.Values
    requires !Foreign(ldn.View(), d) && Takes(m.Socks(order)[k], d) && CountTaking(m.Socks(order), d, k) < TARGETS_MAX
    requires m.Socks(order)[k].queue == [] && s.state != Closed && !s.shutdownRead
    modifies m`head, m`tail, m`count, m.ring, m.sockets.Values, set fd | fd in m.sockets :: m.sockets[fd].ring
    ensures r == Data(SockAddr(AF_INET, d.srcIp, d.srcPort), Cut(Cut(d.data, 2000), len))
  {
    ghost var was := m.Socks(order);
    IsClaimed(was, d, k);
    RouteOne(m, ldn, d, order, s);
    ReachesEmpty(was, m.Socks(order), d, k);
    WaitsFrom(m, order, k, s, d, PAYLOAD_MAX);
    r := ReceiveOne(s, len, d, PAYLOAD_MAX);
  }

  /** An unclaimed packet is held, all of it but the payload behind the first 1400 bytes. */
  method HoldOne(m: ProxySocketManager, ldn: LdnControl, d: Datagram, order: seq<int>) returns (ghost e: Datagram)
    requires m.RingOk() && m.RegistryOk() && m.Listing(order) && ldn.Valid()
    requires !Foreign(ldn.View(), d) && !Claimed(m.Socks(order), d) && m.Pending() == []
    modifies m`head, m`tail, m`count, m.ring
    modifies m.sockets.Values`head, m.sockets.Values`tail, m.sockets.Values`count, m.sockets.Values`signalled,
             m.sockets.Values`arrived, m.sockets.Values`left, set fd | fd in m.sockets :: m.sockets[fd].ring
    ensures m.RingOk() && m.RegistryOk() && m.sockets == old(m.sockets) && m.Socks(order) == old(m.Socks(order))
    ensures m.Pending() == [e] && KeptAs(e, d)
  {
    ghost var was := m.Socks(order);
    NoTargetExactly(was, d, |order|);
    var delivered := m.RouteIncomingData(d, ldn, order);
    e := m.Pending()[0];
  }

  /** Bind and hand-over, with one packet held. */
  method BindOne(m: ProxySocketManager, order: seq<int>, k: nat, s: ProxySocket, addr: SockAddr, ghost e: Datagram)
    requires m.RingOk() && m.RegistryOk() && m.Listing(order) && m.Pending() == [e]
    requires k < |order| && order[k] in m.sockets && m.sockets[order[k]] == s && s in m.sockets.Values
    requires addr.family == AF_INET && addr.port == e.dstPort && s.protocol == e.protocol
    requires m.Socks(order)[k].queue == [] && s.state == Created && !s.shutdownRead
    modifies m`tail, m`count, m.ring, s, s.ring
    ensures WaitsWith(s, e, PAYLOAD_MAX)
  {
    var ok := BindSocket(m, order[k], addr, k, order);
    ghost var net := Net(m.Socks(order), m.Pending());
    assert ok && net.socks[k] == Sock(s.protocol, addr, []);
    DrainedOne(net, k, e);
    DrainKeepsOpen(m, order, k, s);
    WaitsFrom(m, order, k, s, e, PAYLOAD_MAX);
  }

  method DrainKeepsOpen(m: ProxySocketManager, order: seq<int>, k: nat, s: ProxySocket)
    requires m.RingOk() && m.RegistryOk() && m.Listing(order)
    requires k < |order| && order[k] in m.sockets && m.sockets[order[k]] == s
    modifies m`tail, m`count, m.ring, s, s.ring
    ensures m.RingOk() && m.RegistryOk() && m.sockets == old(m.sockets)
    ensures Net(m.Socks(order), m.Pending()) == DrainTo(old(Net(m.Socks(order), m.Pending())), k)
    ensures s.state == old(s.state) && s.shutdownRead == old(s.shutdownRead)
  {
    Drain(m, k, order);
  }

  /** A packet that comes before anyone has bound its port: held, and after the bind and the
      hand-over the next receive returns the address of its sender and its payload, cut to 1400
      bytes and to the buffer. */
  method HoldThenReceive(m: ProxySocketManager, ldn: LdnControl, d: Datagram, order: seq<int>, k: nat, s: ProxySocket,
                         addr: SockAddr, len: nat)
    returns (r: Received)
    requires m.RingOk() && m.RegistryOk() && m.Listing(order) && ldn.Valid()
    requires !Foreign(ldn.View(), d) && !Claimed(m.Socks(order), d) && m.Pending() == []
    requires k < |order| && order[k] in m.sockets && m.sockets[order[k]] == s && s in m.sockets.Values
    requires addr.family == AF_INET && addr.port == d.dstPort && s.protocol == d.protocol
    requires m.Socks(order)[k].queue == [] && s.state == Created && !s.shutdownRead
    modifies m`head, m`tail, m`count, m.ring, m.sockets.Values, set fd | fd in m.sockets :: m.sockets[fd].ring
    ensures r == Data(SockAddr(AF_INET, d.srcIp, d.srcPort), Cut(Cut(d.data, 1400), len))
  {
    ghost var e := HoldOne(m, ldn, d, order);
    BindOne(m, order, k, s, addr, e);
    r := ReceiveOne(s, len, e, PAYLOAD_MAX);
    assert Cut(e.data, PAYLOAD_MAX) == e.data == Cut(d.data, 1400);
  }

  /** The hand-over of a single early arrival. */
  lemma {:induction false} DrainedOne(net: Net, k: nat, e: Datagram)
    requires k < |net.socks| && net.pending == [e] && net.socks[k].queue == []
    requires ForPort(e, net.socks[k].local.port, net.socks[k].protocol)
    ensures var q := DrainTo(net, k).socks[k].queue; |q| == 1 && Carries(q[0], e, PAYLOAD_MAX)
  {
    var s := net.socks[k];
    SplitHandsOver(net.pending, 1, s.local.port, s.protocol);
    var got := Matching(net.pending, 1, s.local.port, s.protocol);
    assert HandsOverOne(net.pending, 0, s.local.port, s.protocol, got, Others(net.pending, 1, s.local.port, s.protocol));
    PushAllKeepsLast([], got);
    assert [] + got == got;
  }
}

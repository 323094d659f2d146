/** What the socket service does with sockets and ports, as steps of the port ownership. */
module BsdService {
  import opened PortPool
  import opened ProxySocket
  import opened SocketManager
  import Own = PortOwnership

  /** The reservation as a step of the port ownership. */
  function Reservation(call: int, protocol: Protocol, port: Port): Own.Action {
    if port == 0 then Own.Allocate(call, protocol) else Own.Reserve(call, protocol, port)
  }

  /** The owners, entry by entry. */
  lemma {:induction false} OwnersAre(m: ProxySocketManager, live: map<int, Own.Owner>)
    requires live.Keys == m.sockets.Keys && forall f :: f in live ==> live[f] == OwnerOf(m.sockets[f])
    ensures m.Owners() == live
  {
    forall f | f in live ensures m.Owners()[f] == live[f] {
    }
  }

  /** Registers a socket: a Create step. */
  method OpenProxy(m: ProxySocketManager, fd: int, protocol: Protocol, ghost calls: map<int, Own.Ticket>) returns (s: ProxySocket?)
    requires m.RegistryOk() && m.pool.Valid()
    modifies m`sockets
    ensures m.RegistryOk() && m.pool.Valid()
    ensures s != null <==> fd in old(m.sockets) || |old(m.sockets)| < SOCKETS_MAX
    ensures s != null ==> fd in m.sockets && m.sockets[fd] == s
    ensures if s == null then m.Ports(calls) == old(m.Ports(calls))
            else Own.Step(old(m.Ports(calls)), Own.Create(fd, protocol), m.Ports(calls))
  {
    s := m.CreateProxySocket(fd, protocol);
  }

  lemma {:induction false} CloseStep(s: Own.System, udp: Half, tcp: Half, live: map<int, Own.Owner>, fd: int)
    requires s.udp.Valid() && s.tcp.Valid() && live == s.live - {fd}
    requires if fd in s.live then
               && udp == Released(s.udp, false, s.live[fd].protocol, s.live[fd].port)
               && tcp == Released(s.tcp, true, s.live[fd].protocol, s.live[fd].port)
             else udp == s.udp && tcp == s.tcp
    ensures Own.Step(s, Own.Close(fd), Own.System(udp, tcp, live, s.calls))
  {
    assert fd !in s.live ==> live == s.live;
  }

  /** Closes a descriptor: a Close step. */
  method CloseProxy(m: ProxySocketManager, fd: int, ghost calls: map<int, Own.Ticket>) returns (found: bool)
    requires m.RegistryOk() && m.pool.Valid()
    modifies m`sockets, m.sockets.Values, m.pool.udpPorts, m.pool.tcpPorts
    ensures m.RegistryOk() && m.pool.Valid() && found == (fd in old(m.sockets))
    ensures Own.Step(old(m.Ports(calls)), Own.Close(fd), m.Ports(calls))
  {
    ghost var before := m.Ports(calls);
    found := m.CloseProxySocket(fd);
    CloseStep(before, m.pool.View(false), m.pool.View(true), m.Owners(), fd);
  }

  lemma {:induction false} AllocateStep(s: Own.System, s': Own.System, call: int, p: Protocol, port: Port)
    requires s.udp.Valid() && s.tcp.Valid() && call !in s.calls
    requires port == 0 ==> s' == s && forall q :: 0 <= q < PORT_COUNT ==> s.Pool(UsesTcp(p)).taken[q]
    requires port != 0 ==> PORT_MIN <= port && FirstFree(s.Pool(UsesTcp(p)), port - PORT_MIN)
    requires port != 0 ==> s' == Own.Granted(s, call, p, port, Take(s.Pool(UsesTcp(p)), port - PORT_MIN))
    ensures Own.Step(s, Own.Allocate(call, p), s')
  {
  }

  /** Port 0 asks for any ephemeral port; another port is reserved as it is. */
  method TakePort(m: ProxySocketManager, addr: SockAddr, protocol: Protocol, ghost order: seq<int>, ghost call: int,
                  ghost calls: map<int, Own.Ticket>)
    returns (granted: bool, bound: SockAddr)
    requires m.RegistryOk() && m.Listing(order) && m.pool.Valid() && call !in calls
    modifies m.pool, m.pool.udpPorts, m.pool.tcpPorts
    ensures m.RegistryOk() && m.Socks(order) == old(m.Socks(order)) && m.pool.Valid()
    ensures granted ==> bound.port != 0 && bound == addr.(port := bound.port) && (addr.port != 0 ==> bound == addr)
    ensures Own.Step(old(m.Ports(calls)), Reservation(call, protocol, addr.port),
                     m.Ports(if granted then calls[call := Own.Ticket(protocol, bound.port)] else calls))
  {
    bound := addr;
    ghost var before := m.Ports(calls);
    if addr.port == 0 {
      var ephemeral := m.pool.AllocatePort(protocol);
      granted := ephemeral != 0;
      bound := addr.(port := ephemeral);
      AllocateStep(before, m.Ports(if granted then calls[call := Own.Ticket(protocol, ephemeral)] else calls),
                   call, protocol, ephemeral);
    } else {
      granted := m.pool.AllocateSpecificPort(addr.port, protocol);
      assert m.Ports(if granted then calls[call := Own.Ticket(protocol, addr.port)] else calls)
          == Own.Reserved(before, call, protocol, addr.port);
    }
  }

  /** Binds the registered socket at position k, when it is unbound. */
  method BindSocket(m: ProxySocketManager, fd: int, bound: SockAddr, ghost k: nat, ghost order: seq<int>) returns (ok: bool)
    requires m.RegistryOk() && m.Listing(order) && k < |order| && order[k] == fd
    modifies m.sockets[fd]
    ensures m.RegistryOk() && m.sockets == old(m.sockets)
    ensures ok == (old(m.sockets[fd].state) == Created && bound.family == AF_INET)
    ensures ok ==> old(m.sockets[fd].localAddr.port) == 0
    ensures var s := m.sockets[fd]; s.state == (if ok then Bound else old(s.state)) && s.shutdownRead == old(s.shutdownRead)
    ensures m.Socks(order) == if ok then BindAt(old(Net(m.Socks(order), [])), k, bound).socks else old(m.Socks(order))
  {
    assert fd in m.sockets;
    var s := m.sockets[fd];
    ghost var was := m.Socks(order);
    assert s.Valid();
    ok := s.Bind(bound);
    forall i | 0 <= i < |order| && i != k ensures SockOf(m.sockets[order[i]]) == was[i] {
      assert Apart(m.sockets[order[i]], m.sockets[fd]);
    }
  }

  /** What the ownership sees of the sockets in walk order. */
  ghost function OwnersOf(socks: seq<Sock>, order: seq<int>): map<int, Own.Owner>
    requires |socks| == |order| && forall i, j :: 0 <= i < j < |order| ==> order[i] != order[j]
  {
    map i | 0 <= i < |order| :: order[i] := Own.Owner(socks[i].protocol, socks[i].local.port)
  }

  lemma {:induction false} OwnersAreSocks(m: ProxySocketManager, order: seq<int>)
    requires m.RegistryOk() && m.Listing(order)
    ensures m.Owners() == OwnersOf(m.Socks(order), order)
  {
    var live := OwnersOf(m.Socks(order), order);
    forall f | f in live ensures f in m.sockets && live[f] == OwnerOf(m.sockets[f]) {
      var i :| 0 <= i < |order| && order[i] == f;
    }
    forall f | f in m.sockets ensures f in live {
      var i :| 0 <= i < |order| && order[i] == f;
    }
    assert live.Keys == m.sockets.Keys;
    OwnersAre(m, live);
  }

  lemma {:induction false} OwnersBound(socks: seq<Sock>, order: seq<int>, k: nat, addr: SockAddr)
    requires |socks| == |order| && (forall i, j :: 0 <= i < j < |order| ==> order[i] != order[j]) && k < |order|
    ensures OwnersOf(BindAt(Net(socks, []), k, addr).socks, order)
         == OwnersOf(socks, order)[order[k] := Own.Owner(socks[k].protocol, addr.port)]
  {
  }

  /** The reservation becomes the socket's port, or is left behind. */
  lemma {:induction false} BindStep(s: Own.System, live': map<int, Own.Owner>, call: int, calls: map<int, Own.Ticket>,
                                    fd: int, t: Own.Ticket, ok: bool)
    requires s.udp.Valid() && s.tcp.Valid() && call !in calls && s.calls == calls[call := t]
    requires fd in s.live && t.protocol == s.live[fd].protocol && (ok ==> s.live[fd].port == 0)
    requires live' == if ok then s.live[fd := Own.Owner(t.protocol, t.port)] else s.live
    ensures Own.Step(s, if ok then Own.Bind(call, fd) else Own.Abandon(call), Own.System(s.udp, s.tcp, live', calls))
  {
    assert calls[call := t] - {call} == calls;
  }

  /** A bind with a reservation made before. */
  method BindReserved(m: ProxySocketManager, fd: int, bound: SockAddr, ghost k: nat, ghost order: seq<int>, ghost call: int,
                      ghost calls: map<int, Own.Ticket>)
    returns (ok: bool)
    requires m.RegistryOk() && m.pool.Valid() && m.Listing(order) && k < |order| && order[k] == fd && call !in calls
    modifies m.sockets[fd]
    ensures m.RegistryOk() && m.pool.Valid() && m.sockets == old(m.sockets)
    ensures ok == (old(m.sockets[fd].state) == Created && bound.family == AF_INET)
    ensures m.Socks(order) == if ok then BindAt(old(Net(m.Socks(order), [])), k, bound).socks else old(m.Socks(order))
    ensures var t := Own.Ticket(m.sockets[fd].protocol, bound.port);
            Own.Step(old(m.Ports(calls[call := t])), if ok then Own.Bind(call, fd) else Own.Abandon(call), m.Ports(calls))
  {
    ghost var t, was := Own.Ticket(m.sockets[fd].protocol, bound.port), m.Socks(order);
    ghost var start := m.Ports(calls[call := t]);
    OwnersAreSocks(m, order);
    ok := BindSocket(m, fd, bound, k, order);
    OwnersAreSocks(m, order);
    OwnersBound(was, order, k, bound);
    BindStep(start, m.Owners(), call, calls, fd, t, ok);
  }

  /** The whole reserve-then-bind sequence, for a socket under descriptor order[k]. */
  method BindProxy(m: ProxySocketManager, k: nat, addr: SockAddr, order: seq<int>, ghost call: int,
                   ghost calls: map<int, Own.Ticket>)
    returns (ok: bool, bound: SockAddr, ghost mid: Own.System)
    requires m.RegistryOk() && m.Listing(order) && k < |order| && m.pool.Valid() && call !in calls
    modifies m.sockets[order[k]], m.pool, m.pool.udpPorts, m.pool.tcpPorts
    ensures m.RegistryOk() && m.sockets == old(m.sockets) && m.pool.Valid()
    ensures mid.udp.Valid() && mid.tcp.Valid()
    ensures Own.Step(old(m.Ports(calls)), Reservation(call, m.sockets[order[k]].protocol, addr.port), mid)
    ensures if call in mid.calls then Own.Step(mid, if ok then Own.Bind(call, order[k]) else Own.Abandon(call), m.Ports(calls))
            else !ok && m.Ports(calls) == mid
    ensures ok ==> bound.port != 0 && (addr.port != 0 ==> bound == addr)
    ensures ok <==> call in mid.calls && old(m.sockets[order[k]].state) == Created && addr.family == AF_INET
    ensures m.Socks(order) == if ok then BindAt(old(Net(m.Socks(order), [])), k, bound).socks else old(m.Socks(order))
  {
    var granted;
    granted, bound := TakePort(m, addr, m.sockets[order[k]].protocol, order, call, calls);
    mid := m.Ports(if granted then calls[call := Own.Ticket(m.sockets[order[k]].protocol, bound.port)] else calls);
    ok := false;
    if granted {
      ok := BindReserved(m, order[k], bound, k, order, call, calls);
    }
  }

  /** Later, in a section of its own: hands the early arrivals for its port to the socket. */
  method Drain(m: ProxySocketManager, k: nat, order: seq<int>)
    requires m.RingOk() && m.RegistryOk() && m.Listing(order) && k < |order|
    modifies m`tail, m`count, m.ring, m.sockets[order[k]], m.sockets[order[k]].ring
    ensures m.RingOk() && m.RegistryOk() && m.sockets == old(m.sockets)
    ensures Net(m.Socks(order), m.Pending()) == DrainTo(old(Net(m.Socks(order), m.Pending())), k)
    ensures var s := m.sockets[order[k]]; s.state == old(s.state) && s.shutdownRead == old(s.shutdownRead)
  {
    var fd := order[k];
    assert fd in m.sockets;
    var s := m.sockets[fd];
    ghost var was := m.Socks(order);
    assert s.Valid();
    m.DeliverPendingPackets(s, s.localAddr.port, s.protocol);
    forall i | 0 <= i < |order| && i != k ensures SockOf(m.sockets[order[i]]) == was[i] {
      assert Apart(m.sockets[order[i]], m.sockets[fd]);
    }
  }
}

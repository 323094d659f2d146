/** Who owns a port: the registry of live sockets and the calls that have reserved a port but
    not bound it yet share the two halves of the pool. Each locked section is one step, so the
    calls interleave freely. */
module PortOwnership {
  import opened PortPool

  /** A live socket; port 0 until it is bound. */
  datatype Owner = Owner(protocol: Protocol, port: Port)

  /** A reservation made by a call in flight. */
  datatype Ticket = Ticket(protocol: Protocol, port: Port)

  datatype System = System(udp: Half, tcp: Half, live: map<int, Owner>, calls: map<int, Ticket>) {
    function Pool(tcpPool: bool): Half {
      if tcpPool then tcp else udp
    }

    function WithPool(tcpPool: bool, h: Half): System {
      if tcpPool then this.(tcp := h) else this.(udp := h)
    }
  }

  /** Nothing is reserved and nothing is live. */
  ghost predicate Start(s: System) {
    Empty(s.udp) && Empty(s.tcp) && s.live == map[] && s.calls == map[]
  }

  ghost predicate Empty(h: Half) {
    h.Valid() && forall q :: 0 <= q < PORT_COUNT ==> !h.taken[q]
  }

  datatype Action =
    | Create(fd: int, protocol: Protocol)
    | Allocate(call: int, protocol: Protocol)              // AllocatePort
    | Reserve(call: int, protocol: Protocol, port: Port)   // ReservePort, for a port other than 0
    | Bind(call: int, fd: int)                             // binds the reserved port; an unbound socket has port 0
    | GiveBack(call: int)                                  // a failed call that releases its port
    | Abandon(call: int)                                   // a failed call that does not, as after a refused bind
    | Close(fd: int)

  predicate Ephemeral(port: Port) {
    PORT_MIN <= port
  }

  /** The reservation is for the pool of the socket it is bound to. */
  predicate SamePool(t: Ticket, o: Owner) {
    UsesTcp(t.protocol) == UsesTcp(o.protocol)
  }

  function Freed(s: System, protocol: Protocol, port: Port): System
    requires s.udp.Valid() && s.tcp.Valid()
  {
    System(Released(s.udp, false, protocol, port), Released(s.tcp, true, protocol, port), s.live, s.calls)
  }

  function Granted(s: System, c: int, p: Protocol, port: Port, h: Half): System {
    var t := s.WithPool(UsesTcp(p), h);
    System(t.udp, t.tcp, s.live, s.calls[c := Ticket(p, port)])
  }

  /** AllocatePort, as PortPool specifies it. */
  ghost predicate Allocates(s: System, c: int, p: Protocol, s': System)
    requires s.udp.Valid() && s.tcp.Valid()
  {
    var h := s.Pool(UsesTcp(p));
    if forall q :: 0 <= q < PORT_COUNT ==> h.taken[q] then s' == s
    else exists i: nat :: i < PORT_COUNT && FirstFree(h, i) && s' == Granted(s, c, p, PORT_MIN + i, Take(h, i))
  }

  /** AllocateSpecificPort. */
  function Reserved(s: System, c: int, p: Protocol, port: Port): System
    requires s.udp.Valid() && s.tcp.Valid()
  {
    var h := s.Pool(UsesTcp(p));
    if !Ephemeral(port) then Granted(s, c, p, port, h)
    else if h.taken[port - PORT_MIN] then s
    else Granted(s, c, p, port, Mark(h, port - PORT_MIN, true))
  }

  /** A new socket under a free descriptor; an existing one stays. */
  function Created(s: System, fd: int, p: Protocol): System {
    if fd in s.live then s else System(s.udp, s.tcp, s.live[fd := Owner(p, 0)], s.calls)
  }

  /** The reservation of a call becomes the port of an unbound socket. */
  function Taken(s: System, c: int, fd: int): System
    requires c in s.calls && fd in s.live
  {
    System(s.udp, s.tcp, s.live[fd := Owner(s.live[fd].protocol, s.calls[c].port)], s.calls - {c})
  }

  function Abandoned(s: System, c: int): System {
    System(s.udp, s.tcp, s.live, s.calls - {c})
  }

  /** The socket goes, and its port is free again. */
  function Closed(s: System, fd: int): System
    requires s.udp.Valid() && s.tcp.Valid()
  {
    if fd !in s.live then s
    else
      var t := Freed(s, s.live[fd].protocol, s.live[fd].port);
      System(t.udp, t.tcp, s.live - {fd}, s.calls)
  }

  ghost predicate Step(s: System, a: Action, s': System)
    requires s.udp.Valid() && s.tcp.Valid()
  {
    match a
    case Create(fd, p) => s' == Created(s, fd, p)
    case Allocate(c, p) => c !in s.calls && Allocates(s, c, p, s')
    case Reserve(c, p, port) => c !in s.calls && port != 0 && s' == Reserved(s, c, p, port)
    case Bind(c, fd) =>
      && c in s.calls && fd in s.live && s.live[fd].port == 0 && SamePool(s.calls[c], s.live[fd])
      && s' == Taken(s, c, fd)
    case GiveBack(c) =>
      && c in s.calls
      && s' == Abandoned(Freed(s, s.calls[c].protocol, s.calls[c].port), c)
    case Abandon(c) => c in s.calls && s' == Abandoned(s, c)
    case Close(fd) => s' == Closed(s, fd)
  }

  // ---- ownership ----

  datatype Holder = Socket(fd: int) | Call(id: int)

  ghost predicate Holds(s: System, h: Holder, tcp: bool, port: Port) {
    match h
    case Socket(fd) => fd in s.live && UsesTcp(s.live[fd].protocol) == tcp && s.live[fd].port == port
    case Call(c) => c in s.calls && UsesTcp(s.calls[c].protocol) == tcp && s.calls[c].port == port
  }

  ghost predicate HeldAreMarked(s: System)
    requires s.udp.Valid() && s.tcp.Valid()
  {
    forall h, tcp, port: Port | Ephemeral(port) && Holds(s, h, tcp, port) :: s.Pool(tcp).taken[port - PORT_MIN]
  }

  ghost predicate OneHolder(s: System) {
    forall g, h, tcp, port: Port | Ephemeral(port) && Holds(s, g, tcp, port) && Holds(s, h, tcp, port) :: g == h
  }

  ghost predicate Owned(s: System) {
    s.udp.Valid() && s.tcp.Valid() && HeldAreMarked(s) && OneHolder(s)
  }

  /** What a step does to the holders: a port is gained by one holder that takes a free port or
      takes it over from the call it consumes; every other holder held it before. */
  lemma {:induction false} HolderStep(s: System, a: Action, s': System, h: Holder, tcp: bool, port: Port)
    requires Owned(s) && Step(s, a, s') && Ephemeral(port) && Holds(s', h, tcp, port)
    ensures s'.Pool(tcp).Valid() && s'.Pool(tcp).taken[port - PORT_MIN]
    ensures Holds(s, h, tcp, port)
         || (a.Bind? && h == Socket(a.fd) && Holds(s, Call(a.call), tcp, port) && !Holds(s', Call(a.call), tcp, port))
         || ((a.Allocate? || a.Reserve?) && h == Call(a.call) && !s.Pool(tcp).taken[port - PORT_MIN])
  {
    PoolsStayValid(s, a, s');
    match a
    case Close(fd) =>
      if fd in s.live {
        assert Holds(s, h, tcp, port) && h != Socket(fd);
        FreedKeeps(s, Socket(fd), s.live[fd].protocol, s.live[fd].port, h, tcp, port);
      }
    case GiveBack(c) =>
      assert Holds(s, h, tcp, port) && h != Call(c);
      FreedKeeps(s, Call(c), s.calls[c].protocol, s.calls[c].port, h, tcp, port);
    case Bind(c, fd) =>
      assert Holds(s, h, tcp, port) || Holds(s, Call(c), tcp, port);
    case Allocate(_, _) => GrantStep(s, a, s', h, tcp, port);
    case Reserve(_, _, _) => GrantStep(s, a, s', h, tcp, port);
    case _ => assert Holds(s, h, tcp, port);
  }

  lemma {:induction false} GrantStep(s: System, a: Action, s': System, h: Holder, tcp: bool, port: Port)
    requires Owned(s) && (a.Allocate? || a.Reserve?) && Step(s, a, s') && Ephemeral(port) && Holds(s', h, tcp, port)
    requires s'.Pool(tcp).Valid()
    ensures s'.Pool(tcp).taken[port - PORT_MIN]
    ensures Holds(s, h, tcp, port) || (h == Call(a.call) && !s.Pool(tcp).taken[port - PORT_MIN])
  {
    assert Holds(s, h, tcp, port) ==> s.Pool(tcp).taken[port - PORT_MIN];
  }

  /** Releasing one holder's port leaves the ports of the others marked. */
  lemma {:induction false} FreedKeeps(s: System, g: Holder, protocol: Protocol, freed: Port, h: Holder, tcp: bool, port: Port)
    requires Owned(s) && Holds(s, g, UsesTcp(protocol), freed)
    requires Ephemeral(port) && Holds(s, h, tcp, port) && g != h
    ensures Freed(s, protocol, freed).Pool(tcp).taken[port - PORT_MIN]
  {
  }

  lemma {:induction false} StepOwned(s: System, a: Action, s': System)
    requires Owned(s) && Step(s, a, s')
    ensures Owned(s')
  {
    PoolsStayValid(s, a, s');
    forall h, tcp, port: Port | Ephemeral(port) && Holds(s', h, tcp, port)
      ensures s'.Pool(tcp).taken[port - PORT_MIN]
    {
      HolderStep(s, a, s', h, tcp, port);
    }
    forall g, h, tcp, port: Port | Ephemeral(port) && Holds(s', g, tcp, port) && Holds(s', h, tcp, port)
      ensures g == h
    {
      HolderStep(s, a, s', g, tcp, port);
      HolderStep(s, a, s', h, tcp, port);
    }
  }

  lemma {:induction false} PoolsStayValid(s: System, a: Action, s': System)
    requires s.udp.Valid() && s.tcp.Valid() && Step(s, a, s')
    ensures s'.udp.Valid() && s'.tcp.Valid()
  {
  }

  ghost predicate IsRun(states: seq<System>, actions: seq<Action>) {
    && |states| == |actions| + 1 && Start(states[0])
    && forall k :: 0 <= k < |actions| ==>
         states[k].udp.Valid() && states[k].tcp.Valid() && Step(states[k], actions[k], states[k + 1])
  }

  lemma {:induction false} ReachableOwned(states: seq<System>, actions: seq<Action>, k: nat)
    requires IsRun(states, actions) && k < |states|
    ensures Owned(states[k])
    decreases k
  {
    if k > 0 {
      ReachableOwned(states, actions, k - 1);
      StepOwned(states[k - 1], actions[k - 1], states[k]);
    }
  }

  /** In every reachable state, live sockets of one pool have different ephemeral ports, each of
      them is marked, and so the pool hands none of them out. */
  lemma {:induction false} NoSharedPort(states: seq<System>, actions: seq<Action>, k: nat, a: int, b: int)
    requires IsRun(states, actions) && k < |states| && a in states[k].live && b in states[k].live && a != b
    requires UsesTcp(states[k].live[a].protocol) == UsesTcp(states[k].live[b].protocol)
    requires Ephemeral(states[k].live[a].port)
    ensures states[k].live[a].port != states[k].live[b].port
    ensures states[k].Pool(UsesTcp(states[k].live[a].protocol)).Valid()
    ensures states[k].Pool(UsesTcp(states[k].live[a].protocol)).taken[states[k].live[a].port - PORT_MIN]
  {
    ReachableOwned(states, actions, k);
    var s := states[k];
    var tcp, port := UsesTcp(s.live[a].protocol), s.live[a].port;
    assert Holds(s, Socket(a), tcp, port);
    assert s.live[b].port == port ==> Holds(s, Socket(b), tcp, port);
  }

  // ---- leaks ----

  /** Every marked port has a holder. */
  ghost predicate NothingLeaked(s: System)
    requires s.udp.Valid() && s.tcp.Valid()
  {
    forall tcp, port: Port | Ephemeral(port) && s.Pool(tcp).taken[port - PORT_MIN] :: exists h :: Holds(s, h, tcp, port)
  }

  /** The step drops a reservation without binding or releasing it. */
  ghost predicate Leaks(s: System, a: Action) {
    a.Abandon? && a.call in s.calls && Ephemeral(s.calls[a.call].port)
  }

  /** A port is lost exactly when a failing call keeps its ephemeral reservation. */
  lemma {:induction false} LeaksExactly(s: System, a: Action, s': System)
    requires Owned(s) && NothingLeaked(s) && Step(s, a, s')
    ensures s'.udp.Valid() && s'.tcp.Valid()
    ensures NothingLeaked(s') <==> !Leaks(s, a)
  {
    PoolsStayValid(s, a, s');
    if Leaks(s, a) {
      var t := s.calls[a.call];
      assert Holds(s, Call(a.call), UsesTcp(t.protocol), t.port);
      forall h ensures !Holds(s', h, UsesTcp(t.protocol), t.port) {
        if Holds(s', h, UsesTcp(t.protocol), t.port) {
          assert Holds(s, h, UsesTcp(t.protocol), t.port);
        }
      }
      assert s'.Pool(UsesTcp(t.protocol)).taken[t.port - PORT_MIN];
    } else {
      forall tcp, port: Port | Ephemeral(port) && s'.Pool(tcp).taken[port - PORT_MIN]
        ensures exists h :: Holds(s', h, tcp, port)
      {
        StillHeld(s, a, s', tcp, port);
      }
    }
  }

  lemma {:induction false} KeepsHolding(s: System, a: Action, s': System, h: Holder, tcp: bool, port: Port)
    requires Owned(s) && Step(s, a, s') && Ephemeral(port) && Holds(s, h, tcp, port) && !Leaks(s, a)
    requires !(a.Bind? && h == Call(a.call))
    requires s'.Pool(tcp).Valid() && s'.Pool(tcp).taken[port - PORT_MIN]
    ensures Holds(s', h, tcp, port)
  {
  }

  lemma {:induction false} StillHeld(s: System, a: Action, s': System, tcp: bool, port: Port)
    requires Owned(s) && NothingLeaked(s) && Step(s, a, s') && !Leaks(s, a) && Ephemeral(port)
    requires s'.Pool(tcp).Valid() && s'.Pool(tcp).taken[port - PORT_MIN]
    ensures exists h :: Holds(s', h, tcp, port)
  {
    if s.Pool(tcp).taken[port - PORT_MIN] {
      var h :| Holds(s, h, tcp, port);
      if a.Bind? && h == Call(a.call) {
        assert Holds(s', Socket(a.fd), tcp, port);
      } else {
        KeepsHolding(s, a, s', h, tcp, port);
      }
    } else {
      assert Holds(s', Call(a.call), tcp, port);
    }
  }

  // ---- clearing the pool ----

  /** ReleaseAll keeps the ownership exactly when nobody holds an ephemeral port. */
  lemma {:induction false} ReleaseAllExactly(s: System, s': System)
    requires Owned(s) && Empty(s'.udp) && Empty(s'.tcp) && s'.live == s.live && s'.calls == s.calls
    ensures Owned(s') <==>
            && (forall fd | fd in s.live :: !Ephemeral(s.live[fd].port))
            && (forall c | c in s.calls :: !Ephemeral(s.calls[c].port))
  {
    forall fd | fd in s.live && Ephemeral(s.live[fd].port) ensures !Owned(s') {
      assert Holds(s', Socket(fd), UsesTcp(s.live[fd].protocol), s.live[fd].port);
    }
    forall c | c in s.calls && Ephemeral(s.calls[c].port) ensures !Owned(s') {
      assert Holds(s', Call(c), UsesTcp(s.calls[c].protocol), s.calls[c].port);
    }
  }

  /** Binding a port reserved in the other pool breaks the ownership unless it happens to be
      marked and unheld in the socket's own pool. */
  lemma {:induction false} CrossPoolBind(s: System, c: int, fd: int)
    requires Owned(s) && c in s.calls && fd in s.live && s.live[fd].port == 0 && !SamePool(s.calls[c], s.live[fd])
    ensures var port, tcp := s.calls[c].port, UsesTcp(s.live[fd].protocol);
            Owned(Taken(s, c, fd)) <==>
              Ephemeral(port) ==> s.Pool(tcp).taken[port - PORT_MIN] && forall h :: !Holds(s, h, tcp, port)
  {
    var port, tcp := s.calls[c].port, UsesTcp(s.live[fd].protocol);
    var s' := Taken(s, c, fd);
    assert Holds(s', Socket(fd), tcp, port);
    forall h, q, p: Port | Ephemeral(p)
      ensures Holds(s', h, q, p) ==> Holds(s, h, q, p) || (h == Socket(fd) && q == tcp && p == port)
    {
    }
    forall h | Ephemeral(port) && Holds(s, h, tcp, port) ensures Holds(s', h, tcp, port) && h != Socket(fd) {
    }
  }
}

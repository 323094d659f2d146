/** What early arrivals promise: packets that come before their socket is bound reach it as if
    they had come afterwards. Only between the bind and the hand-over, two sections of their own,
    can a packet overtake. */
module EarlyArrivals {
  import opened PortPool
  import opened ProxySocket
  import opened SocketManager

  predicate ForSocket(net: Net, k: nat, addr: SockAddr, d: Datagram)
    requires k < |net.socks|
  {
    ForPort(d, addr.port, net.socks[k].protocol)
  }

  ghost predicate Unclaimed(net: Net, d: Datagram) {
    forall i: nat | i < |net.socks| :: !Takes(net.socks[i], d)
  }

  /** The order of binding socket k to `addr` and routing d does not matter. */
  predicate Commutes(net: Net, k: nat, addr: SockAddr, d: Datagram)
    requires k < |net.socks|
  {
    BindAndDrain(Route(net, d), k, addr) == Route(BindAndDrain(net, k, addr), d)
  }

  lemma {:induction false} TargetsSame(socks: seq<Sock>, socks': seq<Sock>, d: Datagram, n: nat)
    requires n <= |socks| == |socks'| && forall i: nat | i < n :: Takes(socks[i], d) == Takes(socks'[i], d)
    ensures Targets(socks, d, n) == Targets(socks', d, n)
  {
    if n > 0 {
      TargetsSame(socks, socks', d, n - 1);
    }
  }

  lemma {:induction false} OnlyTarget(socks: seq<Sock>, d: Datagram, k: nat, n: nat)
    requires n <= |socks| && k < |socks| && Takes(socks[k], d)
    requires forall i: nat | i < |socks| && i != k :: !Takes(socks[i], d)
    ensures Targets(socks, d, n) == if k < n then [k] else []
  {
    if n > 0 {
      OnlyTarget(socks, d, k, n - 1);
      var before := Targets(socks, d, n - 1);
      if n - 1 == k {
        assert before == [] && Targets(socks, d, n) == before + [k];
      } else {
        assert Targets(socks, d, n) == before;
      }
    }
  }

  /** One more held packet, seen by the two halves of the split. */
  lemma {:induction false} SplitAppend(q: seq<Datagram>, d: Datagram, n: nat, port: Port, protocol: Protocol)
    requires n <= |q|
    ensures Matching(q + [d], n, port, protocol) == Matching(q, n, port, protocol)
    ensures Others(q + [d], n, port, protocol) == Others(q, n, port, protocol)
  {
    if n > 0 {
      SplitAppend(q, d, n - 1, port, protocol);
    }
  }

  /** A hand-over with one more held packet behind the others. */
  function HeldAfter(drained: Net, k: nat, matches: bool, e: Datagram): Net
    requires k < |drained.socks|
  {
    if matches then Net(drained.socks[k := Deposit(drained.socks[k], Rx(e))], drained.pending)
    else Net(drained.socks, drained.pending + [e])
  }

  lemma {:induction false} DrainOneMore(net: Net, k: nat, e: Datagram)
    requires k < |net.socks|
    ensures DrainTo(Net(net.socks, net.pending + [e]), k)
         == HeldAfter(DrainTo(net, k), k, ForPort(e, net.socks[k].local.port, net.socks[k].protocol), e)
  {
    var q, s := net.pending, net.socks[k];
    SplitAppend(q, e, |q|, s.local.port, s.protocol);
    var m := Matching(q, |q|, s.local.port, s.protocol);
    assert (m + [Rx(e)])[..|m|] == m;
  }

  /** A packet that no socket accepts, routed before the bind. */
  lemma {:induction false} HeldThenBound(net: Net, k: nat, addr: SockAddr, d: Datagram)
    requires k < |net.socks| && |net.pending| < PENDING_MAX && Unclaimed(net, d)
    ensures BindAndDrain(Route(net, d), k, addr)
         == HeldAfter(BindAndDrain(net, k, addr), k, ForSocket(net, k, addr, d), Held(d))
  {
    NoTargetExactly(net.socks, d, |net.socks|);
    assert BindAt(Route(net, d), k, addr) == Net(BindAt(net, k, addr).socks, net.pending + [Held(d)]);
    DrainOneMore(BindAt(net, k, addr), k, Held(d));
  }

  lemma {:induction false} PushBesideBind(net: Net, k: nat, addr: SockAddr, targets: seq<nat>, p: Packet)
    requires k < |net.socks| && k !in targets
    ensures BindAndDrain(Net(PushTo(net.socks, targets, p), net.pending), k, addr)
         == Net(PushTo(BindAndDrain(net, k, addr).socks, targets, p), BindAndDrain(net, k, addr).pending)
  {
    var early := BindAndDrain(Net(PushTo(net.socks, targets, p), net.pending), k, addr);
    assert early.socks == PushTo(BindAndDrain(net, k, addr).socks, targets, p);
  }

  /** A packet for another port never notices the bind. */
  lemma {:induction false} OtherPortCommutes(net: Net, k: nat, addr: SockAddr, d: Datagram)
    requires k < |net.socks| && |net.pending| < PENDING_MAX
    requires !Takes(net.socks[k], d) && !ForSocket(net, k, addr, d)
    ensures Commutes(net, k, addr, d)
  {
    var bound := BindAndDrain(net, k, addr);
    assert !Takes(bound.socks[k], d);
    TargetsSame(net.socks, bound.socks, d, |net.socks|);
    NoTargetExactly(net.socks, d, |net.socks|);
    if Unclaimed(net, d) {
      HeldThenBound(net, k, addr, d);
    } else {
      NotAmong(net.socks, d, k, |net.socks|);
      PushBesideBind(net, k, addr, Targets(net.socks, d, |net.socks|), Rx(d));
    }
  }

  lemma {:induction false} NotAmong(socks: seq<Sock>, d: Datagram, k: nat, n: nat)
    requires n <= |socks| && k < |socks| && !Takes(socks[k], d)
    ensures k !in Targets(socks, d, n)
  {
    if n > 0 {
      NotAmong(socks, d, k, n - 1);
    }
  }

  /** A packet for the port that nobody accepts yet: the order does not matter exactly when
      the bound socket will accept it and it fits a held slot. A socket bound to one address
      breaks this: the early arrival reaches it even when it is for another address, since
      only port and protocol are compared then. */
  lemma {:induction false} SamePortExactly(net: Net, k: nat, addr: SockAddr, d: Datagram)
    requires k < |net.socks| && |net.pending| < PENDING_MAX && Unclaimed(net, d) && ForSocket(net, k, addr, d)
    ensures Commutes(net, k, addr, d) <==>
            Accepts(net.socks[k].protocol, addr, d) && |d.data| <= PENDING_PAYLOAD_MAX
  {
    var bound := BindAndDrain(net, k, addr);
    HeldThenBound(net, k, addr, d);
    if Accepts(net.socks[k].protocol, addr, d) {
      OnlyTarget(bound.socks, d, k, |bound.socks|);
      PushOne(bound.socks, k, Rx(d));
      ReplaceInjective(bound.socks, k, Deposit(bound.socks[k], Rx(d)), Deposit(bound.socks[k], Rx(Held(d))));
      DepositInjective(bound.socks[k], Rx(d), Rx(Held(d)));
      FitsExactly(d);
    } else {
      NoTargetExactly(bound.socks, d, |bound.socks|);
      assert |Route(bound, d).pending| == |bound.pending| + 1;
    }
  }

  lemma {:induction false} PushOne(socks: seq<Sock>, k: nat, p: Packet)
    requires k < |socks|
    ensures PushTo(socks, [k], p) == socks[k := Deposit(socks[k], p)]
  {
  }

  lemma {:induction false} ReplaceInjective(socks: seq<Sock>, k: nat, s: Sock, s': Sock)
    requires k < |socks|
    ensures socks[k := s] == socks[k := s'] <==> s == s'
  {
    assert socks[k := s][k] == s && socks[k := s'][k] == s';
  }

  /** A packet survives the held slot unchanged exactly when it fits it. */
  lemma {:induction false} FitsExactly(d: Datagram)
    ensures Rx(d) == Rx(Held(d)) <==> |d.data| <= PENDING_PAYLOAD_MAX
  {
    assert |Rx(d).data| == if |d.data| <= PAYLOAD_MAX then |d.data| else PAYLOAD_MAX;
  }

  lemma {:induction false} DepositInjective(s: Sock, p: Packet, p': Packet)
    ensures Deposit(s, p) == Deposit(s, p') <==> p == p'
  {
    var q, q' := Push(s.queue, p), Push(s.queue, p');
    assert q[|q| - 1] == p && q'[|q'| - 1] == p';
  }

  /** The socket is not bound yet, and nobody else listens on the port. */
  ghost predicate Early(net: Net, k: nat, addr: SockAddr, d: Datagram)
    requires k < |net.socks|
  {
    && !Takes(net.socks[k], d)
    && (ForSocket(net, k, addr, d) ==> Unclaimed(net, d) && |d.data| <= PENDING_PAYLOAD_MAX)
  }

  /** Routing changes no address, so it changes nobody's claim. */
  lemma {:induction false} RouteKeepsEarly(net: Net, k: nat, addr: SockAddr, d: Datagram, e: Datagram)
    requires k < |net.socks| && Early(net, k, addr, e)
    ensures |Route(net, d).socks| == |net.socks| && |Route(net, d).pending| <= |net.pending| + 1
    ensures Early(Route(net, d), k, addr, e)
  {
    var net' := Route(net, d);
    forall i: nat | i < |net.socks| ensures Takes(net'.socks[i], e) == Takes(net.socks[i], e) {
    }
  }

  /** For a socket bound to INADDR_ANY, any number of early packets that fit the ring leave the
      same sockets, queues and ring whether they are routed before the bind or after it. */
  lemma {:induction false} EarlyOrLate(net: Net, k: nat, addr: SockAddr, ds: seq<Datagram>)
    requires k < |net.socks| && addr.ip == 0 && |net.pending| + |ds| <= PENDING_MAX
    requires forall i :: 0 <= i < |ds| ==> Early(net, k, addr, ds[i])
    ensures |RouteAll(net, ds).socks| == |net.socks|
    ensures BindAndDrain(RouteAll(net, ds), k, addr) == RouteAll(BindAndDrain(net, k, addr), ds)
    decreases |ds|
  {
    if ds != [] {
      var d, rest := ds[0], ds[1..];
      var net' := Route(net, d);
      RouteKeepsEarly(net, k, addr, d, d);
      forall i | 0 <= i < |rest| ensures Early(net', k, addr, rest[i]) {
        assert rest[i] == ds[i + 1];
        RouteKeepsEarly(net, k, addr, d, rest[i]);
      }
      EarlyOrLate(net', k, addr, rest);
      if ForSocket(net, k, addr, d) {
        SamePortExactly(net, k, addr, d);
      } else {
        OtherPortCommutes(net, k, addr, d);
      }
    }
  }

  // ---- the gap between bind and hand-over ----

  /** Socket k is bound, its early arrivals are still held: routing d now leaves the same as
      routing it after the hand-over. */
  predicate NotOvertaking(net: Net, k: nat, d: Datagram)
    requires k < |net.socks|
  {
    DrainTo(Route(net, d), k) == Route(DrainTo(net, k), d)
  }

  /** The held packets for the socket's port. */
  function HeldFor(net: Net, k: nat): seq<Packet>
    requires k < |net.socks|
  {
    Matching(net.pending, |net.pending|, net.socks[k].local.port, net.socks[k].protocol)
  }

  ghost predicate AllAre(ps: seq<Packet>, p: Packet) {
    forall i :: 0 <= i < |ps| ==> ps[i] == p
  }

  lemma {:induction false} Rotates(ps: seq<Packet>, p: Packet, n: nat)
    requires [p] + ps == ps + [p] && n <= |ps|
    ensures forall i :: 0 <= i < n ==> ps[i] == p
  {
    if n > 0 {
      Rotates(ps, p, n - 1);
      assert ([p] + ps)[n - 1] == (ps + [p])[n - 1];
    }
  }

  lemma {:induction false} PushAllConcat(q: seq<Packet>, a: seq<Packet>, b: seq<Packet>)
    ensures PushAll(PushAll(q, a), b) == PushAll(q, a + b)
    decreases |b|
  {
    if b == [] {
      assert a + b == a;
    } else {
      var n := |b| - 1;
      PushAllConcat(q, a, b[..n]);
      assert (a + b)[..|a + b| - 1] == a + b[..n];
    }
  }

  /** The ends of two full queues tell the pushed packets apart. */
  lemma {:induction false} SameTail(q: seq<Packet>, a: seq<Packet>, b: seq<Packet>)
    requires |q| <= QUEUE_MAX && |a| == |b| <= QUEUE_MAX
    ensures PushAll(q, a) == PushAll(q, b) <==> a == b
  {
    PushAllKeepsLast(q, a);
    PushAllKeepsLast(q, b);
    var x, y := PushAll(q, a), PushAll(q, b);
    assert x[|x| - |a|..] == a && y[|y| - |b|..] == b;
  }

  /** Pushed before the held packets rather than behind them: the same queue exactly when all
      of them are equal. */
  lemma {:induction false} OvertakesExactly(q: seq<Packet>, ps: seq<Packet>, p: Packet)
    requires |q| <= QUEUE_MAX && |ps| < QUEUE_MAX
    ensures PushAll(Push(q, p), ps) == Push(PushAll(q, ps), p) <==> AllAre(ps, p)
  {
    assert PushAll(q, [p]) == Push(q, p) by {
      assert [p][..0] == [];
    }
    assert PushAll(PushAll(q, ps), [p]) == Push(PushAll(q, ps), p) by {
      assert [p][..0] == [];
    }
    PushAllConcat(q, [p], ps);
    PushAllConcat(q, ps, [p]);
    SameTail(q, [p] + ps, ps + [p]);
    if [p] + ps == ps + [p] {
      Rotates(ps, p, |ps|);
    }
  }

  /** A packet that no socket accepts, in the gap: it is held, and a socket that is bound to one
      address gets it all the same when it is for its port. */
  lemma {:induction false} GapUnclaimed(net: Net, k: nat, d: Datagram)
    requires k < |net.socks| && |net.pending| < PENDING_MAX && Targets(net.socks, d, |net.socks|) == []
    ensures NotOvertaking(net, k, d) <==> !ForPort(d, net.socks[k].local.port, net.socks[k].protocol)
  {
    var drained := DrainTo(net, k);
    TargetsSame(net.socks, drained.socks, d, |net.socks|);
    DrainOneMore(net, k, Held(d));
    assert |Route(drained, d).pending| == |drained.pending| + 1;
  }

  lemma {:induction false} GapClaimed(net: Net, k: nat, d: Datagram)
    requires k < |net.socks| && |net.pending| < PENDING_MAX && |net.socks[k].queue| <= QUEUE_MAX
    requires Targets(net.socks, d, |net.socks|) != []
    ensures NotOvertaking(net, k, d) <==> (k in Targets(net.socks, d, |net.socks|) ==> AllAre(HeldFor(net, k), Rx(d)))
  {
    var targets, p, s := Targets(net.socks, d, |net.socks|), Rx(d), net.socks[k];
    var drained := DrainTo(net, k);
    TargetsSame(net.socks, drained.socks, d, |net.socks|);
    var early, late := DrainTo(Route(net, d), k).socks, Route(drained, d).socks;
    forall i | 0 <= i < |net.socks| && i != k ensures early[i] == late[i] {
    }
    assert k !in targets ==> early[k] == late[k];
    OvertakesExactly(s.queue, HeldFor(net, k), p);
    assert early == late <==> early[k] == late[k];
  }

  /** Exactly when a packet that is routed in the gap does no harm: it is for another port; or
      some socket accepts it, and if socket k does, every packet held for k equals it. */
  lemma {:induction false} GapExactly(net: Net, k: nat, d: Datagram)
    requires k < |net.socks| && |net.pending| < PENDING_MAX && |net.socks[k].queue| <= QUEUE_MAX
    ensures var targets := Targets(net.socks, d, |net.socks|);
            NotOvertaking(net, k, d) <==>
              (ForPort(d, net.socks[k].local.port, net.socks[k].protocol) ==>
                 targets != [] && (k in targets ==> AllAre(HeldFor(net, k), Rx(d))))
  {
    if Targets(net.socks, d, |net.socks|) == [] {
      GapUnclaimed(net, k, d);
    } else {
      GapClaimed(net, k, d);
      TargetsExactly(net.socks, d, |net.socks|, k);
    }
  }

  /** The gap is harmless when nothing is held for the port: any number of packets that the socket
      accepts can be routed in it. */
  lemma {:induction false} EmptyGap(net: Net, k: nat, d: Datagram)
    requires k < |net.socks| && |net.pending| < PENDING_MAX && |net.socks[k].queue| <= QUEUE_MAX
    requires HeldFor(net, k) == [] && Takes(net.socks[k], d)
    ensures NotOvertaking(net, k, d) && HeldFor(Route(net, d), k) == []
  {
    NoTargetExactly(net.socks, d, |net.socks|);
    GapExactly(net, k, d);
  }
}

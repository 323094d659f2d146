/** A proxy socket's receive side: a fixed ring that drops its oldest packet when full. */
module ProxySocket {
  import opened Basics
  import opened Ring
  import opened LdnTypes
  import opened PortPool

  const QUEUE_MAX: nat := 32
  const PAYLOAD_MAX: nat := 2000
  const AF_INET: nat := 2

  datatype SockAddr = SockAddr(family: nat, ip: Ip, port: Port)

  datatype Packet = Packet(from: SockAddr, data: seq<Byte>)

  const NO_ADDR: SockAddr := SockAddr(AF_INET, 0, 0)
  const NO_PACKET: Packet := Packet(NO_ADDR, [])

  datatype SocketState = Created | Bound | Connected | Closed

  /** What a receive call answers. */
  datatype Received = Data(from: SockAddr, data: seq<Byte>) | EndOfFile | BadDescriptor | Again

  datatype ShutdownHow = Read | Write | Both | OtherHow

  /** How a packet left the queue. */
  datatype Fate = Delivered | DroppedOldest | DiscardedAtClose

  function Clamp(data: seq<Byte>, max: nat): (r: seq<Byte>)
    ensures |r| == (if |data| <= max then |data| else max) && r == data[..|r|]
    ensures |data| <= max ==> r == data
  {
    if |data| <= max then data else data[..max]
  }

  /** Append, and keep the last QUEUE_MAX. */
  function Push(q: seq<Packet>, p: Packet): (r: seq<Packet>)
    ensures |q| <= QUEUE_MAX ==> |r| <= QUEUE_MAX
  {
    if |q| >= QUEUE_MAX then q[1..] + [p] else q + [p]
  }

  function TotalSize(q: seq<Packet>): nat {
    if q == [] then 0 else TotalSize(q[..|q| - 1]) + |q[|q| - 1].data|
  }

  function Packets(left: seq<(Packet, Fate)>): (r: seq<Packet>)
    ensures |r| == |left|
  {
    seq(|left|, i requires 0 <= i < |left| => left[i].0)
  }

  function Tagged(q: seq<Packet>, fate: Fate): (r: seq<(Packet, Fate)>)
    ensures Packets(r) == q && forall i :: 0 <= i < |r| ==> r[i].1 == fate
  {
    seq(|q|, i requires 0 <= i < |q| => (q[i], fate))
  }

  class ProxySocket {
    const protocol: Protocol
    var state: SocketState
    var localAddr: SockAddr
    var shutdownRead: bool
    var shutdownWrite: bool
    const ring: array<Packet>
    var head: nat
    var tail: nat
    var count: nat
    /** The manual-clear event that wakes receivers. */
    var signalled: bool
    /** Every packet that ever arrived, and those that left again with the way they went. */
    ghost var arrived: seq<Packet>
    ghost var left: seq<(Packet, Fate)>

    ghost predicate RingOk() reads this {
      && ring.Length == QUEUE_MAX
      && head < QUEUE_MAX && count <= QUEUE_MAX && tail == Slot(QUEUE_MAX, head, count)
    }

    /** The waiting packets, oldest first. */
    ghost function Queue(): (q: seq<Packet>)
      requires RingOk()
      reads this, ring
      ensures |q| == count
    {
      seq(count, i requires 0 <= i < count reads this, ring requires RingOk() => ring[Slot(QUEUE_MAX, head, i)])
    }

    /** Waiting packets keep the event signalled, a socket has no port before it is bound, and
        every packet that arrived is accounted for: it left, in order of arrival, or it waits. */
    ghost predicate Valid() reads this, ring {
      && RingOk()
      && (count > 0 ==> signalled)
      && (state == Created ==> localAddr.port == 0)
      && arrived == Packets(left) + Queue()
    }

    constructor (p: Protocol)
      ensures Valid() && fresh(ring) && protocol == p && state == Created && localAddr == NO_ADDR
      ensures Queue() == [] && arrived == [] && left == [] && !shutdownRead && !shutdownWrite
    {
      protocol, state, localAddr, shutdownRead, shutdownWrite := p, Created, NO_ADDR, false, false;
      ring := new Packet[QUEUE_MAX](_ => NO_PACKET);
      head, tail, count, signalled := 0, 0, 0, false;
      arrived, left := [], [];
    }

    /** Fails with EINVAL once bound, and with EAFNOSUPPORT for another address family. */
    method Bind(addr: SockAddr) returns (ok: bool)
      requires Valid()
      modifies this`state, this`localAddr
      ensures Valid() && Queue() == old(Queue())
      ensures ok == (old(state) == Created && addr.family == AF_INET)
      ensures ok ==> state == Bound && localAddr == addr
      ensures !ok ==> state == old(state) && localAddr == old(localAddr)
    {
      if state != Created {
        return false;
      }
      if addr.family != AF_INET {
        return false;
      }
      localAddr, state := addr, Bound;
      ok := true;
    }

    /** Drops the front packet from the ring; `fate` says why. */
    method PopFront(ghost fate: Fate)
      requires Valid() && count > 0
      modifies this`head, this`count, this`left
      ensures Valid() && Queue() == old(Queue())[1..] && left == old(left) + [(old(Queue())[0], fate)]
    {
      ghost var q := Queue();
      left := left + [(q[0], fate)];
      head := Next(QUEUE_MAX, head);
      count := count - 1;
      assert Queue() == q[1..];
      assert Packets(left) == Packets(old(left)) + [q[0]];
    }

    method PushBack(p: Packet)
      requires Valid() && count < QUEUE_MAX
      modifies this`tail, this`count, this`signalled, this`arrived, ring
      ensures Valid() && Queue() == old(Queue()) + [p] && arrived == old(arrived) + [p]
    {
      ghost var q := Queue();
      ring[tail] := p;
      tail := Next(QUEUE_MAX, tail);
      count := count + 1;
      signalled := true;
      arrived := arrived + [p];
      assert Queue() == q + [p];
    }

    method IncomingData(data: seq<Byte>, from: SockAddr)
      requires Valid()
      modifies this`head, this`tail, this`count, this`signalled, this`arrived, this`left, ring
      ensures Valid()
      ensures Queue() == Push(old(Queue()), Packet(from, Clamp(data, PAYLOAD_MAX)))
      ensures arrived == old(arrived) + [Packet(from, Clamp(data, PAYLOAD_MAX))]
      ensures left == old(left) + (if old(count) >= QUEUE_MAX then [(old(Queue())[0], DroppedOldest)] else [])
      ensures signalled
    {
      if count >= QUEUE_MAX {
        PopFront(DroppedOldest);
      }
      PushBack(Packet(from, Clamp(data, PAYLOAD_MAX)));
    }

    /** A receive that does not wait, or whose wait ran out. */
    method RecvFrom(len: nat, peek: bool) returns (r: Received)
      requires Valid()
      modifies this`head, this`count, this`signalled, this`left
      ensures Valid() && arrived == old(arrived)
      ensures r == if shutdownRead then EndOfFile
                   else if state == Closed then BadDescriptor
                   else if old(Queue()) == [] then Again
                   else Data(old(Queue())[0].from, Clamp(old(Queue())[0].data, len))
      ensures Queue() == if r.Data? && !peek then old(Queue())[1..] else old(Queue())
      ensures left == old(left) + (if r.Data? && !peek then [(old(Queue())[0], Delivered)] else [])
      ensures r.Data? && Queue() == [] ==> !signalled
    {
      if shutdownRead {
        return EndOfFile;
      }
      if state == Closed {
        return BadDescriptor;
      }
      if count == 0 {
        return Again;
      }
      var slot := ring[head];
      r := Data(slot.from, Clamp(slot.data, len));
      if !peek {
        PopFront(Delivered);
      }
      if count == 0 {
        signalled := false;
      }
    }

    method GetPendingDataSize() returns (total: nat)
      requires Valid()
      ensures total == TotalSize(Queue())
    {
      total := 0;
      var idx := head;
      ghost var q := Queue();
      for i := 0 to count
        invariant idx == Slot(QUEUE_MAX, head, i)
        invariant total == TotalSize(q[..i])
      {
        assert q[..i + 1][..i] == q[..i] && ring[idx] == q[i];
        total := total + |ring[idx].data|;
        idx := Next(QUEUE_MAX, idx);
      }
      assert q[..count] == q;
    }

    /** An unknown half is refused; any other call wakes the receivers. */
    method Shutdown(how: ShutdownHow) returns (ok: bool)
      requires Valid()
      modifies this`shutdownRead, this`shutdownWrite, this`signalled
      ensures Valid() && Queue() == old(Queue()) && ok == (how != OtherHow)
      ensures shutdownRead == (old(shutdownRead) || how == Read || how == Both)
      ensures shutdownWrite == (old(shutdownWrite) || how == Write || how == Both)
      ensures signalled == (old(signalled) || ok)
    {
      match how {
        case Read => shutdownRead := true;
        case Write => shutdownWrite := true;
        case Both => shutdownRead, shutdownWrite := true, true;
        case OtherHow => return false;
      }
      signalled := true;
      ok := true;
    }

    method Close()
      requires Valid()
      modifies this
      ensures Valid() && Queue() == [] && state == Closed && shutdownRead && shutdownWrite && signalled && localAddr == old(localAddr)
      ensures arrived == old(arrived) && left == old(left) + Tagged(old(Queue()), DiscardedAtClose)
    {
      ghost var gone := Tagged(Queue(), DiscardedAtClose);
      state, shutdownRead, shutdownWrite, signalled := Closed, true, true, true;
      left := left + gone;
      head, tail, count := 0, 0, 0;
      assert Packets(left) == Packets(old(left)) + Packets(gone);
    }
  }

  // ---- sizes ----

  lemma {:induction false} TotalSizeOne(p: Packet)
    ensures TotalSize([]) == 0 && TotalSize([p]) == |p.data|
  {
    assert [p][..0] == [];
  }

  /** The pending size adds up over any cut of the queue. */
  lemma {:induction false} TotalSizeAdds(a: seq<Packet>, b: seq<Packet>)
    ensures TotalSize(a + b) == TotalSize(a) + TotalSize(b)
    decreases |b|
  {
    if b == [] {
      assert a + b == a;
    } else {
      var n := |b| - 1;
      TotalSizeAdds(a, b[..n]);
      assert (a + b)[..|a + b| - 1] == a + b[..n];
    }
  }

  // ---- what the accounting gives over any run ----

  function CountFate(left: seq<(Packet, Fate)>, fate: Fate): nat {
    if left == [] then 0 else CountFate(left[..|left| - 1], fate) + if left[|left| - 1].1 == fate then 1 else 0
  }

  lemma {:induction false} FatesAddUp(left: seq<(Packet, Fate)>)
    ensures CountFate(left, Delivered) + CountFate(left, DroppedOldest) + CountFate(left, DiscardedAtClose) == |left|
    decreases |left|
  {
    if left != [] {
      FatesAddUp(left[..|left| - 1]);
    }
  }

  /** A packet that leaves adds one to its own count and none to the others. */
  lemma {:induction false} FateCounts(left: seq<(Packet, Fate)>, p: Packet, fate: Fate, other: Fate)
    ensures CountFate(left + [(p, fate)], other) == CountFate(left, other) + if other == fate then 1 else 0
    ensures CountFate([], other) == 0
  {
    assert (left + [(p, fate)])[..|left|] == left;
  }

  /** Conservation, in every reachable state of a socket. */
  lemma {:induction false} ArrivalsAccounted(s: ProxySocket)
    requires s.Valid()
    ensures |s.arrived| == CountFate(s.left, Delivered) + CountFate(s.left, DroppedOldest)
                           + CountFate(s.left, DiscardedAtClose) + |s.Queue()|
  {
    FatesAddUp(s.left);
  }

  /** Pushing any number of packets keeps exactly the last QUEUE_MAX of them. */
  function PushAll(q: seq<Packet>, ps: seq<Packet>): seq<Packet> {
    if ps == [] then q else Push(PushAll(q, ps[..|ps| - 1]), ps[|ps| - 1])
  }

  function LastPackets(all: seq<Packet>): seq<Packet> {
    if |all| <= QUEUE_MAX then all else all[|all| - QUEUE_MAX..]
  }

  lemma {:induction false} PushKeepsLast(all: seq<Packet>, p: Packet)
    ensures Push(LastPackets(all), p) == LastPackets(all + [p])
  {
  }

  lemma {:induction false} PushAllKeepsLast(q: seq<Packet>, ps: seq<Packet>)
    requires |q| <= QUEUE_MAX
    ensures PushAll(q, ps) == LastPackets(q + ps)
    decreases |ps|
  {
    if ps != [] {
      var n := |ps| - 1;
      PushAllKeepsLast(q, ps[..n]);
      PushKeepsLast(q + ps[..n], ps[n]);
      assert q + ps == (q + ps[..n]) + [ps[n]];
    } else {
      assert q + ps == q;
    }
  }
}

/** The ephemeral port pool: one bitset and one rotating cursor per transport protocol. */
module PortPool {

  const PORT_MIN: nat := 49152
  const PORT_COUNT: nat := 16384

  type Port = p: int | 0 <= p < 65536

  datatype Protocol = Unspecified | Icmp | Tcp | Udp

  /** One half of the pool. A set bit means that the port is taken. */
  datatype Half = Half(taken: seq<bool>, hint: nat) {
    ghost predicate Valid() {
      |taken| == PORT_COUNT && hint < PORT_COUNT
    }

    ghost predicate Free(index: nat) {
      index < |taken| && !taken[index]
    }
  }

  const EMPTY_HALF: Half := Half(seq(PORT_COUNT, _ => false), 0)

  /** Position of `index` counted cyclically from `from`. */
  function Dist(from: nat, index: nat): (d: nat)
    requires from < PORT_COUNT && index < PORT_COUNT
    ensures d < PORT_COUNT
    ensures (from + d) % PORT_COUNT == index
  {
    if from <= index then index - from else index + PORT_COUNT - from
  }

  /** `index` is the first free port met when walking cyclically from the cursor. */
  ghost predicate FirstFree(h: Half, index: nat)
    requires h.Valid()
  {
    && h.Free(index)
    && forall q :: 0 <= q < PORT_COUNT && Dist(h.hint, q) < Dist(h.hint, index) ==> h.taken[q]
  }

  function Take(h: Half, index: nat): Half
    requires h.Valid() && index < PORT_COUNT
  {
    Half(h.taken[index := true], (index + 1) % PORT_COUNT)
  }

  function Mark(h: Half, index: nat, b: bool): Half
    requires h.Valid() && index < PORT_COUNT
  {
    h.(taken := h.taken[index := b])
  }

  /** One half of the pool after a port of some protocol is released. */
  function Released(h: Half, tcp: bool, p: Protocol, port: Port): Half
    requires h.Valid()
  {
    if UsesTcp(p) == tcp && PORT_MIN <= port then Mark(h, port - PORT_MIN, false) else h
  }

  function CountTaken(bits: seq<bool>): (n: nat)
    ensures n <= |bits|
  {
    if bits == [] then 0 else (if bits[0] then 1 else 0) + CountTaken(bits[1..])
  }

  /** The other protocols share the UDP half. */
  predicate UsesTcp(p: Protocol) {
    p == Tcp
  }

  class EphemeralPortPool {
    const udpPorts: array<bool>
    const tcpPorts: array<bool>
    var udpHint: nat
    var tcpHint: nat

    ghost predicate Valid() reads this, udpPorts, tcpPorts {
      && udpPorts != tcpPorts
      && udpPorts.Length == PORT_COUNT && tcpPorts.Length == PORT_COUNT
      && udpHint < PORT_COUNT && tcpHint < PORT_COUNT
    }

    ghost function View(tcp: bool): (h: Half)
      requires Valid()
      reads this, udpPorts, tcpPorts
      ensures h.Valid()
    {
      if tcp then Half(tcpPorts[..], tcpHint) else Half(udpPorts[..], udpHint)
    }

    constructor ()
      ensures Valid() && fresh(udpPorts) && fresh(tcpPorts)
      ensures View(true) == EMPTY_HALF && View(false) == EMPTY_HALF
    {
      udpPorts := new bool[PORT_COUNT](_ => false);
      tcpPorts := new bool[PORT_COUNT](_ => false);
      udpHint, tcpHint := 0, 0;
    }

    function Bits(p: Protocol): array<bool>
    {
      if UsesTcp(p) then tcpPorts else udpPorts
    }

    /** Hands out the first free port from the cursor on, or 0 when there is none. */
    method AllocatePort(p: Protocol) returns (port: Port)
      requires Valid()
      modifies this, udpPorts, tcpPorts
      ensures Valid()
      ensures View(!UsesTcp(p)) == old(View(!UsesTcp(p)))
      ensures port == 0 <==> forall q :: 0 <= q < PORT_COUNT ==> old(View(UsesTcp(p))).taken[q]
      ensures port == 0 ==> View(UsesTcp(p)) == old(View(UsesTcp(p)))
      ensures port != 0 ==>
                && PORT_MIN <= port
                && FirstFree(old(View(UsesTcp(p))), port - PORT_MIN)
                && View(UsesTcp(p)) == Take(old(View(UsesTcp(p))), port - PORT_MIN)
    {
      var bits := Bits(p);
      var hint := if UsesTcp(p) then tcpHint else udpHint;
      ghost var h := View(UsesTcp(p));
      var i := 0;
      while i < PORT_COUNT
        invariant 0 <= i <= PORT_COUNT
        invariant forall q :: 0 <= q < PORT_COUNT && Dist(hint, q) < i ==> h.taken[q]
      {
        var index := (hint + i) % PORT_COUNT;
        assert Dist(hint, index) == i;
        if !bits[index] {
          bits[index] := true;
          if UsesTcp(p) {
            tcpHint := (index + 1) % PORT_COUNT;
          } else {
            udpHint := (index + 1) % PORT_COUNT;
          }
          assert !h.taken[index];
          return PORT_MIN + index;
        }
        forall q | 0 <= q < PORT_COUNT && Dist(hint, q) < i + 1 ensures h.taken[q] {
          if Dist(hint, q) == i {
            assert q == index;
          }
        }
        i := i + 1;
      }
      assert forall q :: 0 <= q < PORT_COUNT ==> Dist(hint, q) < PORT_COUNT;
      port := 0;
    }

    /** Reserves a given port; ports below the ephemeral range are never tracked. */
    method AllocateSpecificPort(port: Port, p: Protocol) returns (ok: bool)
      requires Valid()
      modifies udpPorts, tcpPorts
      ensures Valid()
      ensures View(!UsesTcp(p)) == old(View(!UsesTcp(p)))
      ensures ok <==> port < PORT_MIN || old(View(UsesTcp(p))).Free(port - PORT_MIN)
      ensures View(UsesTcp(p)) == if ok && PORT_MIN <= port then Mark(old(View(UsesTcp(p))), port - PORT_MIN, true)
                                  else old(View(UsesTcp(p)))
    {
      if port < PORT_MIN {
        return true;
      }
      var bits := Bits(p);
      if bits[port - PORT_MIN] {
        return false;
      }
      bits[port - PORT_MIN] := true;
      ok := true;
    }

    method ReleasePort(port: Port, p: Protocol)
      requires Valid()
      modifies udpPorts, tcpPorts
      ensures Valid()
      ensures View(!UsesTcp(p)) == old(View(!UsesTcp(p)))
      ensures View(UsesTcp(p)) == if PORT_MIN <= port then Mark(old(View(UsesTcp(p))), port - PORT_MIN, false)
                                  else old(View(UsesTcp(p)))
    {
      if port < PORT_MIN {
        return;
      }
      var bits := Bits(p);
      bits[port - PORT_MIN] := false;
    }

    method GetAvailableCount(p: Protocol) returns (n: nat)
      requires Valid()
      ensures n + CountTaken(View(UsesTcp(p)).taken) == PORT_COUNT
    {
      var bits := Bits(p);
      var count := 0;
      for i := 0 to PORT_COUNT
        invariant count == CountTaken(bits[..i]) <= i
      {
        CountTakenAppend(bits[..i], bits[i]);
        assert bits[..i + 1] == bits[..i] + [bits[i]];
        count := count + if bits[i] then 1 else 0;
      }
      assert bits[..PORT_COUNT] == bits[..];
      n := PORT_COUNT - count;
    }

    method ReleaseAll()
      requires Valid()
      modifies this, udpPorts, tcpPorts
      ensures Valid()
      ensures View(true) == EMPTY_HALF && View(false) == EMPTY_HALF
    {
      forall i | 0 <= i < PORT_COUNT { udpPorts[i] := false; }
      forall i | 0 <= i < PORT_COUNT { tcpPorts[i] := false; }
      udpHint := 0;
      tcpHint := 0;
    }
  }

  lemma {:induction false} CountTakenAppend(bits: seq<bool>, b: bool)
    ensures CountTaken(bits + [b]) == CountTaken(bits) + if b then 1 else 0
    decreases |bits|
  {
    if bits == [] {
      assert [] + [b] == [b];
    } else {
      CountTakenAppend(bits[1..], b);
      assert (bits + [b])[1..] == bits[1..] + [b];
    }
  }

  /** The count is 0 for an empty half, and changing one bit changes it by one. */
  lemma {:induction false} CountTakenChanges(bits: seq<bool>, i: nat, b: bool)
    requires i < |bits|
    ensures CountTaken(bits[i := b]) == CountTaken(bits) + (if b then 1 else 0) - (if bits[i] then 1 else 0)
    decreases |bits|
  {
    var bits' := bits[i := b];
    if i == 0 {
      assert bits'[1..] == bits[1..];
    } else {
      CountTakenChanges(bits[1..], i - 1, b);
      assert bits'[1..] == bits[1..][i - 1 := b];
    }
  }

  lemma {:induction false} CountTakenNone(bits: seq<bool>)
    ensures CountTaken(bits) == 0 <==> forall i :: 0 <= i < |bits| ==> !bits[i]
    decreases |bits|
  {
    if bits != [] {
      CountTakenNone(bits[1..]);
      if CountTaken(bits) == 0 {
        forall i | 0 <= i < |bits| ensures !bits[i] {
          if i > 0 {
            assert bits[i] == bits[1..][i - 1];
          }
        }
      } else if !bits[0] {
        var i :| 0 <= i < |bits[1..]| && bits[1..][i];
        assert bits[i + 1];
      }
    }
  }

  // ---- runs of one half ----

  datatype Event =
    | Auto(index: nat)      // AllocatePort handed out this port
    | Exhausted             // AllocatePort found nothing
    | Reserve(index: nat)   // AllocateSpecificPort
    | Release(index: nat)   // ReleasePort

  /** One call on one half of the pool, as the methods above are specified; a run without
      ReleaseAll is made of these. */
  ghost predicate Step(h: Half, e: Event, h': Half)
    requires h.Valid()
  {
    match e
    case Auto(i) => i < PORT_COUNT && FirstFree(h, i) && h' == Take(h, i)
    case Exhausted => h' == h && forall q :: 0 <= q < PORT_COUNT ==> h.taken[q]
    case Reserve(i) => i < PORT_COUNT && h' == Mark(h, i, true)
    case Release(i) => i < PORT_COUNT && h' == Mark(h, i, false)
  }

  ghost predicate IsRun(states: seq<Half>, events: seq<Event>) {
    && |states| == |events| + 1
    && states[0].Valid()
    && forall k :: 0 <= k < |events| ==> states[k].Valid() && Step(states[k], events[k], states[k + 1])
  }

  lemma {:induction false} StepValid(h: Half, e: Event, h': Half)
    requires h.Valid() && Step(h, e, h')
    ensures h'.Valid()
  {
  }

  /** While port `q` stays free the cursor, started just behind `p`, cannot move past `q`. */
  lemma {:induction false} CursorStopsAtFree(states: seq<Half>, events: seq<Event>, i: nat, j: nat, p: nat, q: nat)
    requires IsRun(states, events) && i < j < |states| && p < PORT_COUNT && q < PORT_COUNT
    requires events[i] == Auto(p)
    requires forall k :: i < k <= j ==> states[k].Free(q)
    ensures states[j].Valid()
    ensures Dist((p + 1) % PORT_COUNT, states[j].hint) <= Dist((p + 1) % PORT_COUNT, q)
    decreases j
  {
    StepValid(states[j - 1], events[j - 1], states[j]);
    if j > i + 1 {
      CursorStopsAtFree(states, events, i, j - 1, p, q);
      CursorStep((p + 1) % PORT_COUNT, states[j - 1], events[j - 1], states[j], q);
    }
  }

  lemma {:induction false} CursorStep(from: nat, h: Half, e: Event, h': Half, q: nat)
    requires from < PORT_COUNT && q < PORT_COUNT && h.Valid() && Step(h, e, h')
    requires h.Free(q) && h'.Free(q) && Dist(from, h.hint) <= Dist(from, q)
    ensures Dist(from, h'.hint) <= Dist(from, q)
  {
    if e.Auto? {
      assert Dist(h.hint, e.index) <= Dist(h.hint, q);
      assert e.index != q;
    }
  }

  /** So the next automatic hand-out does not move past `q` either. */
  lemma {:induction false} NextStopsAtFree(states: seq<Half>, events: seq<Event>, i: nat, j: nat, p: nat, q: nat)
    requires IsRun(states, events) && i < j < |events| && p < PORT_COUNT && q < PORT_COUNT
    requires events[i] == Auto(p) && events[j].Auto?
    requires forall k :: i < k <= j ==> states[k].Free(q)
    ensures q != p
    ensures events[j].index < PORT_COUNT
    ensures Dist((p + 1) % PORT_COUNT, events[j].index) <= Dist((p + 1) % PORT_COUNT, q)
  {
    CursorStopsAtFree(states, events, i, j, p, q);
    assert Step(states[i], events[i], states[i + 1]) && states[i + 1].Free(q);
    assert Step(states[j], events[j], states[j + 1]) && states[j].Free(q);
    assert Dist(states[j].hint, events[j].index) <= Dist(states[j].hint, q);
  }

  /** Fairness of the rotation: between two automatic hand-outs of the same port there is no
      port that was free the whole time. */
  lemma {:induction false} NoPortStarves(states: seq<Half>, events: seq<Event>, i: nat, j: nat, p: nat, q: nat)
    requires IsRun(states, events) && i < j < |events| && p < PORT_COUNT && q < PORT_COUNT
    requires events[i] == Auto(p) && events[j] == Auto(p)
    ensures exists k :: i < k <= j && !states[k].Free(q)
  {
    if forall k :: i < k <= j ==> states[k].Free(q) {
      NextStopsAtFree(states, events, i, j, p, q);
      assert false;
    }
  }
}

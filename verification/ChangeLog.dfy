/** The per-node change bits that a game polls. */
module ChangeLog {
  import opened LdnTypes
  import opened LdnConsole
  import opened LdnInvariants
  import opened LdnSteps

  /** What can happen to the record of one node index. */
  datatype Op =
    | Observe(flag: bool)   // the node list was looked at
    | Read                  // the game read, and cleared, the bits
    | Forget                // a new network or a new session

  /** The remembered flag and the bits of one index. */
  datatype Record = Record(prev: bool, bits: Change)

  function Apply(r: Record, op: Op): Record {
    match op
    case Observe(flag) => Record(flag, NoteChange(r.prev, flag, r.bits))
    case Read => r.(bits := NO_CHANGE)
    case Forget => Record(false, NO_CHANGE)
  }

  function ApplyAll(r: Record, ops: seq<Op>): Record {
    if ops == [] then r else Apply(ApplyAll(r, ops[..|ops| - 1]), ops[|ops| - 1])
  }

  /** The flag of the node as the observations show it over time, starting from `base`. */
  function Flag(base: bool, seen: seq<bool>, k: nat): bool
    requires k <= |seen|
  {
    if k == 0 then base else seen[k - 1]
  }

  ghost predicate Rose(base: bool, seen: seq<bool>) {
    exists k :: 0 <= k < |seen| && !Flag(base, seen, k) && seen[k]
  }

  ghost predicate Fell(base: bool, seen: seq<bool>) {
    exists k :: 0 <= k < |seen| && Flag(base, seen, k) && !seen[k]
  }

  function Observations(seen: seq<bool>): seq<Op> {
    seq(|seen|, i requires 0 <= i < |seen| => Observe(seen[i]))
  }

  /** Since the last read, the bits are exactly the kinds of edge that occurred. */
  lemma {:induction false} BitsAreEdges(base: bool, seen: seq<bool>)
    ensures var r := ApplyAll(Record(base, NO_CHANGE), Observations(seen));
            && r.prev == Flag(base, seen, |seen|)
            && (r.bits.connect <==> Rose(base, seen))
            && (r.bits.disconnect <==> Fell(base, seen))
    decreases |seen|
  {
    if seen != [] {
      var n := |seen| - 1;
      var rest := seen[..n];
      BitsAreEdges(base, rest);
      assert Observations(seen)[..n] == Observations(rest);
      assert forall k :: 0 <= k <= n ==> Flag(base, seen, k) == Flag(base, rest, k);
      assert Rose(base, seen) <==> Rose(base, rest) || (!Flag(base, seen, n) && seen[n]);
      assert Fell(base, seen) <==> Fell(base, rest) || (Flag(base, seen, n) && !seen[n]);
    }
  }

  /** One bit alone tells the net change, none tells that there was none. */
  lemma {:induction false} BitsTellNetChange(base: bool, seen: seq<bool>)
    ensures var r := ApplyAll(Record(base, NO_CHANGE), Observations(seen));
            && (r.bits == Change(true, false) ==> !base && r.prev)
            && (r.bits == Change(false, true) ==> base && !r.prev)
            && (r.bits == NO_CHANGE ==> r.prev == base)
    decreases |seen|
  {
    if seen != [] {
      var n := |seen| - 1;
      BitsTellNetChange(base, seen[..n]);
      assert Observations(seen)[..n] == Observations(seen[..n]);
    }
  }

  lemma {:induction false} ApplyConcat(r: Record, xs: seq<Op>, ys: seq<Op>)
    ensures ApplyAll(r, xs + ys) == ApplyAll(ApplyAll(r, xs), ys)
    decreases |ys|
  {
    if ys == [] {
      assert xs + ys == xs;
    } else {
      assert (xs + ys)[..|xs + ys| - 1] == xs + ys[..|ys| - 1];
      ApplyConcat(r, xs, ys[..|ys| - 1]);
    }
  }

  // ---- a console's records ----

  function RecordOf(c: Console, i: nat): Record
    requires i < NODES
  {
    Record(c.prev[i], c.changes[i])
  }

  /** The steps that end in OnNetworkInfoChanged, besides creating a network. */
  ghost predicate Looks(c: Console, now: int, e: Event) {
    match e
    case Receives(f) =>
      || Admits(c, now, e, f.src)
      || (f.msg.Bye? && c.state == AccessPointCreated && f.msg.bssid == c.net.bssid && FindStation(c.stations, f.src) >= 0)
      || AppliesSync(c, e)
    case Ticks => now - c.lastBeacon >= BEACON_INTERVAL && c.state == AccessPointCreated
    case Calls(call) =>
      (call.SetAdvertiseData? && |call.data| <= ADVERTISE_MAX) || (call.Reject? && 1 <= call.nodeId < NODES)
  }

  /** What one step does to the record of index i: an observation of the node list it leaves,
      a read when the game's buffer reaches that far, or a fresh start. */
  ghost function OpsOf(c: Console, now: int, e: Event, i: nat): seq<Op>
    requires i < NODES
  {
    var flag := Step(c, now, e).c.net.nodes[i].connected;
    if Looks(c, now, e) then [Observe(flag)]
    else if !e.Calls? then []
    else if e.call.Initialize? then [Forget]
    else if e.call.CreateNetwork? && c.state == AccessPoint then [Forget, Observe(flag)]
    else if e.call.ReadUpdates? && i < e.call.capacity <= NODES && Attached(c) then [Read]
    else []
  }

  lemma {:induction false} StepIsOps(c: Console, now: int, e: Event, i: nat)
    requires i < NODES
    ensures RecordOf(Step(c, now, e).c, i) == ApplyAll(RecordOf(c, i), OpsOf(c, now, e, i))
  {
    var d := c.(clock := now);
    var flag := Step(c, now, e).c.net.nodes[i].connected;
    var r := RecordOf(c, i);
    ApplyOne(r, Observe(flag));
    ApplyOne(r, Read);
    ApplyOne(r, Forget);
    ApplyTwo(r, Forget, Observe(flag));
    match e
    case Receives(f) => ReceiveRecord(d, now, f, i);
    case Ticks => TickRecord(d, now, i);
    case Calls(call) => CallRecord(d, call, i);
  }

  lemma {:induction false} ApplyOne(r: Record, op: Op)
    ensures ApplyAll(r, [op]) == Apply(r, op)
  {
    assert [op][..0] == [];
  }

  lemma {:induction false} ApplyTwo(r: Record, op: Op, op': Op)
    ensures ApplyAll(r, [op, op']) == Apply(Apply(r, op), op')
  {
    assert [op, op'][..1] == [op];
    ApplyOne(r, op);
  }

  lemma {:induction false} ReceiveRecord(c: Console, now: int, f: Frame, i: nat)
    requires i < NODES
    ensures var c' := Receive(c, now, f).c;
            RecordOf(c', i) == if Looks(c, now, Receives(f)) then Apply(RecordOf(c, i), Observe(c'.net.nodes[i].connected))
                               else RecordOf(c, i)
  {
    match f.msg
    case Connect(node) => ConnectRecord(c, now, f, i);
    case Bye(bssid, ipv4) => ByeRecord(c, now, f, i);
    case _ =>
  }

  lemma {:induction false} ConnectRecord(c: Console, now: int, f: Frame, i: nat)
    requires i < NODES && f.msg.Connect?
    ensures var c' := HandleConnect(c, now, f.src, f.msg.node).c;
            RecordOf(c', i) == if Admits(c, now, Receives(f), f.src)
                               then Apply(RecordOf(c, i), Observe(c'.net.nodes[i].connected)) else RecordOf(c, i)
  {
  }

  lemma {:induction false} ByeRecord(c: Console, now: int, f: Frame, i: nat)
    requires i < NODES && f.msg.Bye?
    ensures var c' := HandleBye(c, f.src, f.msg.bssid, f.msg.ipv4).c;
            RecordOf(c', i) == if Looks(c, now, Receives(f))
                               then Apply(RecordOf(c, i), Observe(c'.net.nodes[i].connected)) else RecordOf(c, i)
  {
  }

  lemma {:induction false} TickRecord(c: Console, now: int, i: nat)
    requires i < NODES
    ensures var c' := Tick(c, now).c;
            RecordOf(c', i) == if Looks(c, now, Ticks) then Apply(RecordOf(c, i), Observe(c'.net.nodes[i].connected))
                               else RecordOf(c, i)
  {
  }

  lemma {:induction false} CallRecord(c: Console, call: Call, i: nat)
    requires i < NODES
    ensures var c', r := DoCall(c, call).c, RecordOf(c, i);
            var flag := c'.net.nodes[i].connected;
            RecordOf(c', i) ==
              if Looks(c, 0, Calls(call)) then Apply(r, Observe(flag))
              else if call.Initialize? then Apply(r, Forget)
              else if call.CreateNetwork? && c.state == AccessPoint then Apply(Apply(r, Forget), Observe(flag))
              else if call.ReadUpdates? && i < call.capacity <= NODES && Attached(c) then Apply(r, Read)
              else r
  {
    match call
    case CreateNetwork(_, _, _) => CreateRecord(c, call, i);
    case SetAdvertiseData(_) =>
    case Reject(_) =>
    case _ =>
  }

  lemma {:induction false} CreateRecord(c: Console, call: Call, i: nat)
    requires i < NODES && call.CreateNetwork?
    ensures var c', r := DoCreateNetwork(c, call.settings, call.name, call.version).c, RecordOf(c, i);
            RecordOf(c', i) == if c.state == AccessPoint
                               then Apply(Apply(r, Forget), Observe(c'.net.nodes[i].connected)) else r
  {
  }

  // ---- over a whole run of the console ----

  datatype TimedEvent = TimedEvent(now: int, event: Event)

  ghost function After(c: Console, steps: seq<TimedEvent>): Console {
    if steps == [] then c
    else
      var n := |steps| - 1;
      Step(After(c, steps[..n]), steps[n].now, steps[n].event).c
  }

  /** Everything that happened to the record of index i. */
  ghost function History(c: Console, steps: seq<TimedEvent>, i: nat): seq<Op>
    requires i < NODES
  {
    if steps == [] then []
    else
      var n := |steps| - 1;
      History(c, steps[..n], i) + OpsOf(After(c, steps[..n]), steps[n].now, steps[n].event, i)
  }

  lemma {:induction false} RecordIsHistory(c: Console, steps: seq<TimedEvent>, i: nat)
    requires i < NODES
    ensures RecordOf(After(c, steps), i) == ApplyAll(RecordOf(c, i), History(c, steps, i))
    decreases |steps|
  {
    if steps != [] {
      var n := |steps| - 1;
      var m := After(c, steps[..n]);
      RecordIsHistory(c, steps[..n], i);
      StepIsOps(m, steps[n].now, steps[n].event, i);
      ApplyConcat(RecordOf(c, i), History(c, steps[..n], i), OpsOf(m, steps[n].now, steps[n].event, i));
    }
  }

  /** For every run of a console and every index: when the history of the index ends with a
      read (or a fresh start) followed by observations only, the bits are exactly the edges
      since then, and one bit alone, or none, tells the net change. */
  lemma {:induction false} BitsSinceLastRead(c: Console, steps: seq<TimedEvent>, i: nat,
                                             before: seq<Op>, op: Op, seen: seq<bool>)
    requires i < NODES && !op.Observe? && History(c, steps, i) == before + [op] + Observations(seen)
    ensures var base := if op.Read? then ApplyAll(RecordOf(c, i), before).prev else false;
            var r := RecordOf(After(c, steps), i);
            && (r.bits.connect <==> Rose(base, seen))
            && (r.bits.disconnect <==> Fell(base, seen))
            && (r.bits == Change(true, false) ==> !base && r.prev)
            && (r.bits == Change(false, true) ==> base && !r.prev)
            && (r.bits == NO_CHANGE ==> r.prev == base)
  {
    var r0 := RecordOf(c, i);
    RecordIsHistory(c, steps, i);
    ApplyConcat(r0, before + [op], Observations(seen));
    ApplyConcat(r0, before, [op]);
    ApplyOne(ApplyAll(r0, before), op);
    var base := if op.Read? then ApplyAll(r0, before).prev else false;
    BitsAreEdges(base, seen);
    BitsTellNetChange(base, seen);
  }
}

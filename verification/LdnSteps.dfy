/** What a single step can do to the tables, and which frames it can send. */
module LdnSteps {
  import opened LdnTypes
  import opened LdnConsole
  import opened LdnInvariants
  import ScannerTable

  // ---- the station table over one step ----

  ghost predicate Registered(c: Console, p: Ip) {
    exists i :: 0 <= i < STATIONS && c.stations[i].active && c.stations[i].src == p
  }

  /** In a host's description, every listed address but the host's own is registered. */
  lemma {:induction false} ListedIsRegistered(c: Console, p: Ip)
    requires Inv(c) && c.state == AccessPointCreated && Confirms(c.net, p) && p != c.ip
    ensures Registered(c, p)
  {
    var k :| 0 <= k < c.net.nodeCount && c.net.nodes[k].connected && c.net.nodes[k].ip == p;
    assert c.net.nodes[0] == SelfNode(c);
    var i := LiveNodeFrom(c.stations, STATIONS, k - 1);
    assert SlotOk(c.stations[i], i);
  }

  /** No slot is taken or changed; slots are at most freed. */
  ghost predicate Shrinks(st: Stations, st': Stations) {
    forall i :: 0 <= i < STATIONS && st'[i].active ==>
      st'[i] == st[i]
  }

  /** The step is a Connect of `p` that the host accepts at time `now`. */
  ghost predicate Admits(c: Console, now: int, e: Event, p: Ip) {
    && e.Receives? && e.frame.msg.Connect? && e.frame.src == p
    && c.state == AccessPointCreated
    && (ScannerTable.Recent(c.scanners, now, p) || FindStation(c.stations, p) >= 0)
    && SlotFor(c.stations, p) >= 0
  }

  /** The step is a heartbeat of the registered peer `p` for this network. */
  ghost predicate Beats(c: Console, e: Event, p: Ip) {
    && e.Receives? && e.frame.msg.Heartbeat? && e.frame.src == p
    && c.state == AccessPointCreated && e.frame.msg.bssid == c.net.bssid
    && FindStation(c.stations, p) >= 0
  }

  /** The step shows the host that `p` is alive. */
  ghost predicate Refreshes(c: Console, now: int, e: Event, p: Ip) {
    Admits(c, now, e, p) || Beats(c, e, p)
  }

  lemma {:induction false} BeatStep(c: Console, now: int, e: Event, p: Ip)
    requires Beats(c, e, p)
    ensures var at := FindStation(c.stations, p);
            Step(c, now, e).c.stations == c.stations[at := c.stations[at].(lastSeen := now)]
  {
  }

  /** An accepted Connect fills exactly the slot found for its sender. */
  lemma {:induction false} AdmitStep(c: Console, now: int, e: Event, p: Ip)
    requires Admits(c, now, e, p)
    ensures var slot := SlotFor(c.stations, p);
            var s := Step(c, now, e).c.stations[slot];
            && s.active && s.src == p && s.lastSeen == now
            && Step(c, now, e).c.stations == c.stations[slot := s]
  {
  }

  /** Every other step only removes. */
  lemma {:induction false} OtherStep(c: Console, now: int, e: Event)
    requires Inv(c) && c.clock <= now
    requires !(e.Receives? && Refreshes(c, now, e, e.frame.src))
    ensures Shrinks(c.stations, Step(c, now, e).c.stations)
  {
    var d := c.(clock := now);
    match e
    case Receives(f) => ReceiveShrinks(d, now, f);
    case Ticks => TickShrinks(d, now);
    case Calls(call) => CallShrinks(d, call);
  }

  lemma {:induction false} ReceiveShrinks(c: Console, now: int, f: Frame)
    requires !Refreshes(c, now, Receives(f), f.src)
    ensures Shrinks(c.stations, Receive(c, now, f).c.stations)
  {
    if f.msg.Bye? {
      ByeShrinks(c, f);
    }
  }

  lemma {:induction false} ByeShrinks(c: Console, f: Frame)
    requires f.msg.Bye?
    ensures Shrinks(c.stations, HandleBye(c, f.src, f.msg.bssid, f.msg.ipv4).c.stations)
  {
  }

  lemma {:induction false} TickShrinks(c: Console, now: int)
    ensures Shrinks(c.stations, Tick(c, now).c.stations)
  {
  }

  lemma {:induction false} CallShrinks(c: Console, call: Call)
    ensures Shrinks(c.stations, DoCall(c, call).c.stations)
  {
    match call
    case Reject(nodeId) => RejectShrinks(c, nodeId);
    case CreateNetwork(_, _, _) => CreateShrinks(c, call);
    case _ =>
  }

  lemma {:induction false} RejectShrinks(c: Console, nodeId: nat)
    ensures Shrinks(c.stations, DoReject(c, nodeId).c.stations)
  {
  }

  lemma {:induction false} CreateShrinks(c: Console, call: Call)
    requires call.CreateNetwork?
    ensures Shrinks(c.stations, DoCall(c, call).c.stations)
  {
  }

  /** A peer that was not registered before a step and is after it was admitted by it: the
      step is its Connect, and the host had its scan on record. */
  lemma {:induction false} RegistrationStep(c: Console, now: int, e: Event, p: Ip)
    requires Inv(c) && c.clock <= now
    requires !Registered(c, p) && Registered(Step(c, now, e).c, p)
    ensures Admits(c, now, e, p) && ScannerTable.Recent(c.scanners, now, p)
  {
    if e.Receives? && Admits(c, now, e, e.frame.src) {
      AdmitStep(c, now, e, e.frame.src);
    } else if e.Receives? && Beats(c, e, e.frame.src) {
      BeatStep(c, now, e, e.frame.src);
    } else {
      OtherStep(c, now, e);
    }
  }

  /** While a peer stays registered it keeps its slot, whoever connects or retries. */
  lemma {:induction false} SlotStays(c: Console, now: int, e: Event, p: Ip, slot: nat)
    requires Inv(c) && c.clock <= now && slot < STATIONS
    requires c.stations[slot].active && c.stations[slot].src == p && Registered(Step(c, now, e).c, p)
    ensures Step(c, now, e).c.stations[slot].active && Step(c, now, e).c.stations[slot].src == p
  {
    var c' := Step(c, now, e).c;
    if e.Receives? && Admits(c, now, e, e.frame.src) {
      AdmitStep(c, now, e, e.frame.src);
    } else if e.Receives? && Beats(c, e, e.frame.src) {
      BeatStep(c, now, e, e.frame.src);
    } else {
      OtherStep(c, now, e);
      var i :| 0 <= i < STATIONS && c'.stations[i].active && c'.stations[i].src == p;
      assert i == slot;
    }
  }

  /** A Connect from a recent scanner is refused exactly when seven other peers, all
      distinct, hold the seven slots. */
  lemma {:induction false} RefusedOnlyWhenFull(c: Console, now: int, f: Frame)
    requires Inv(c) && c.clock <= now && c.state == AccessPointCreated
    requires f.msg.Connect? && ScannerTable.Recent(c.scanners, now, f.src)
    ensures !Registered(Step(c, now, Receives(f)).c, f.src) <==>
              forall i :: 0 <= i < STATIONS ==> c.stations[i].active && c.stations[i].src != f.src
    ensures forall i, j :: 0 <= i < j < STATIONS && c.stations[i].active && c.stations[j].active ==>
              c.stations[i].src != c.stations[j].src
  {
    var e := Receives(f);
    assert forall i :: 0 <= i < STATIONS ==> SlotOk(c.stations[i], i);
    if Admits(c, now, e, f.src) {
      AdmitStep(c, now, e, f.src);
    } else {
      OtherStep(c, now, e);
    }
  }

  // ---- the scanner table over one step ----

  /** The step is a Scan that a host handles. */
  ghost predicate HandlesScan(c: Console, e: Event) {
    e.Receives? && e.frame.msg.Scan? && c.state == AccessPointCreated
  }

  /** Nothing else changes the scanner table. */
  lemma {:induction false} ScannerStep(c: Console, now: int, e: Event)
    requires Inv(c) && c.clock <= now
    ensures Step(c, now, e).c.scanners ==
              if HandlesScan(c, e) then ScannerTable.Record(c.scanners, now, e.frame.src) else c.scanners
  {
    var d := c.(clock := now);
    match e
    case Receives(f) => ReceiveScanners(d, now, f);
    case Ticks => TickKeeps(d, now);
    case Calls(call) => CallKeeps(d, call);
  }

  // ---- the rest of the memory over one step ----

  lemma {:induction false} ReceiveKeeps(c: Console, now: int, f: Frame)
    ensures var c' := Receive(c, now, f).c;
            && c'.ip == c.ip && c'.clock == c.clock
            && c'.joinTarget == c.joinTarget && (c'.joinActive ==> c.joinActive)
  {
    match f.msg
    case Connect(node) => ConnectKeeps(c, now, f.src, node);
    case Bye(bssid, ipv4) => ByeKeeps(c, f.src, bssid, ipv4);
    case _ =>
  }

  lemma {:induction false} ConnectKeeps(c: Console, now: int, src: Ip, node: NodeInfo)
    ensures var c' := HandleConnect(c, now, src, node).c;
            c'.ip == c.ip && c'.clock == c.clock && c'.joinTarget == c.joinTarget && c'.joinActive == c.joinActive
  {
  }

  lemma {:induction false} ByeKeeps(c: Console, src: Ip, bssid: Mac, ipv4: Ip)
    ensures var c' := HandleBye(c, src, bssid, ipv4).c;
            c'.ip == c.ip && c'.clock == c.clock && c'.joinTarget == c.joinTarget && (c'.joinActive ==> c.joinActive)
  {
  }

  lemma {:induction false} ReceiveScanners(c: Console, now: int, f: Frame)
    ensures Receive(c, now, f).c.scanners ==
              if f.msg.Scan? && c.state == AccessPointCreated then ScannerTable.Record(c.scanners, now, f.src)
              else c.scanners
  {
  }

  lemma {:induction false} TickKeeps(c: Console, now: int)
    ensures var c' := Tick(c, now).c;
            && c'.ip == c.ip && c'.clock == c.clock && c'.scanners == c.scanners && c'.hostLastSeen == c.hostLastSeen
            && c'.joinTarget == c.joinTarget && (c'.joinActive ==> c.joinActive)
            && (c'.state == StationConnected ==> c.state == StationConnected && c'.net == c.net)
  {
  }

  lemma {:induction false} CallKeeps(c: Console, call: Call)
    ensures var c' := DoCall(c, call).c;
            && c'.ip == c.ip && c'.clock == c.clock && c'.scanners == c.scanners && c'.hostLastSeen == c.hostLastSeen
            && (c'.state == StationConnected ==> c.state == StationConnected)
  {
  }

  /** The step applies a Sync of the session. */
  ghost predicate AppliesSync(c: Console, e: Event) {
    && e.Receives? && e.frame.msg.Sync? && (c.state == Station || c.state == StationConnected)
    && !Stale(c, e.frame.stamp) && (c.joinActive ==> e.frame.msg.info.bssid == c.joinTarget)
  }

  lemma {:induction false} ReceiveSession(c: Console, now: int, f: Frame)
    requires c.clock == now
    ensures var c' := Receive(c, now, f).c;
            if AppliesSync(c, Receives(f)) then
              && c'.net == f.msg.info && c'.hostLastSeen == now && c'.joinActive == c.joinActive
              && (c'.state == StationConnected <==> c.state == StationConnected || Confirms(f.msg.info, c.ip))
            else
              && c'.hostLastSeen == c.hostLastSeen
              && (c'.state == StationConnected ==> c.state == StationConnected && c'.net == c.net)
  {
  }

  // ---- frames ----

  /** What a console's frames can say, given the console after the step that sent them. */
  ghost predicate Honest(f: Frame, c': Console, e: Event) {
    && f.src == c'.ip
    && (f.msg.Sync? ==> c'.state == AccessPointCreated && f.msg.info == c'.net)
    && (f.msg.ScanResp? ==> c'.state == AccessPointCreated && f.msg.info == c'.net && e.Receives? && e.frame.msg.Scan?)
    && (f.msg.Connect? ==> e.Calls? && e.call.ConnectSend?)
    && (f.msg.Scan? ==> e.Calls? && e.call.ScanSend?)
    && (f.msg.Heartbeat? ==> f.msg.ipv4 == f.src)
    && (f.msg.Bye? ==> f.msg.ipv4 == f.src)
  }

  ghost predicate AllHonest(o: Out, e: Event) {
    forall k :: 0 <= k < |o.frames| ==> Honest(o.frames[k], o.c, e)
  }

  lemma {:induction false} UpdateNodesHonest(c: Console, e: Event)
    requires HostOk(c)
    ensures AllHonest(UpdateNodes(Out(c, [])), e)
  {
    UpdateNodesFrames(Out(c, []));
  }

  lemma {:induction false} CallFrames(c: Console, call: Call)
    requires Inv(c)
    ensures AllHonest(DoCall(c, call), Calls(call))
  {
    match call
    case CreateNetwork(settings, name, version) =>
      if c.state == AccessPoint {
        UpdateNodesHonest(Created(c, settings, name, version), Calls(call));
      }
    case SetAdvertiseData(data) =>
      if |data| <= ADVERTISE_MAX {
        UpdateNodesHonest(Advertising(c, data), Calls(call));
      }
    case Reject(nodeId) =>
      if 1 <= nodeId < NODES {
        UpdateNodesHonest(Rejected(c, nodeId), Calls(call));
      }
    case _ =>
  }

  lemma {:induction false} ReceiveFrames(d: Console, now: int, f: Frame)
    requires Inv(d)
    ensures AllHonest(Receive(d, now, f), Receives(f))
  {
    if f.msg.Bye? {
      var at := FindStation(d.stations, f.src);
      if at >= 0 {
        UpdateNodesHonest(Dropped(d, at), Receives(f));
      }
    } else if f.msg.Connect? {
      if SlotFor(d.stations, f.src) >= 0 && d.state == AccessPointCreated {
        AdmitTable(d, now, f.src, f.msg.node);
        UpdateNodesHonest(Admitted(d, now, f.src, f.msg.node), Receives(f));
      }
    }
  }

  lemma {:induction false} StepFrames(c: Console, now: int, e: Event)
    requires Inv(c) && c.clock <= now
    ensures AllHonest(Step(c, now, e), e) && Step(c, now, e).c.ip == c.ip && Step(c, now, e).c.clock == now
  {
    var d := c.(clock := now);
    ClockInv(c, now);
    match e
    case Receives(f) => ReceiveFrames(d, now, f); ReceiveKeeps(d, now, f);
    case Ticks => UpdateNodesHonest(Reaped(d.(lastTick := now, lastBeacon := now), now), e);
    case Calls(call) => CallFrames(d, call); CallKeeps(d, call);
  }
}

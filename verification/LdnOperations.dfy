/** What each operation of a console does for its peers and its game, stated from outside:
    who is told what, who is let in and out, what the game sees. */
module LdnOperations {
  import opened Basics
  import opened LdnTypes
  import opened LdnConsole
  import opened LdnInvariants
  import opened LdnSteps
  import LanFrame
  import ScannerTable

  // ---- whom a host tells ----

  /** The step is a Bye of a registered station for this network. */
  ghost predicate Leaves(c: Console, e: Event) {
    && e.Receives? && e.frame.msg.Bye? && c.state == AccessPointCreated
    && e.frame.msg.bssid == c.net.bssid && Registered(c, e.frame.src)
  }

  /** The step ends in an announcement: somebody came or went, or the description changed, or
      it is time again. */
  ghost predicate Announces(c: Console, now: int, e: Event) {
    match e
    case Receives(f) => Admits(c, now, e, f.src) || Leaves(c, e)
    case Ticks => now - c.lastBeacon >= BEACON_INTERVAL && c.state == AccessPointCreated
    case Calls(call) =>
      || (call.SetAdvertiseData? && |call.data| <= ADVERTISE_MAX)
      || (call.Reject? && 1 <= call.nodeId < NODES)
      || (call.CreateNetwork? && c.state == AccessPoint)
  }

  /** An announcing step tells every live station, at the address it registered with, the
      description it leaves, once, and sends nothing else; any other step sends no Sync. */
  lemma {:induction false} TellsEveryStation(c: Console, now: int, e: Event)
    requires Inv(c) && c.clock <= now
    ensures var o := Step(c, now, e);
            if Announces(c, now, e) then OneSyncEach(o.frames, o.c, STATIONS)
            else forall k :: 0 <= k < |o.frames| ==> !o.frames[k].msg.Sync?
  {
    var d := c.(clock := now);
    ClockInv(c, now);
    match e
    case Receives(f) => FrameTells(d, now, f);
    case Ticks => TickTells(d, now);
    case Calls(call) => CallTells(d, call);
  }

  lemma {:induction false} Tells(c: Console)
    ensures OneSyncEach(UpdateNodes(Out(c, [])).frames, UpdateNodes(Out(c, [])).c, STATIONS)
  {
    UpdateNodesSends(Out(c, []));
    assert UpdateNodes(Out(c, [])).frames[0..] == UpdateNodes(Out(c, [])).frames;
  }

  lemma {:induction false} RegisteredIsFound(c: Console, p: Ip)
    ensures Registered(c, p) <==> FindStation(c.stations, p) >= 0
  {
  }

  lemma {:induction false} FrameTells(c: Console, now: int, f: Frame)
    requires Inv(c)
    ensures var o := Receive(c, now, f);
            if Announces(c, now, Receives(f)) then OneSyncEach(o.frames, o.c, STATIONS)
            else forall k :: 0 <= k < |o.frames| ==> !o.frames[k].msg.Sync?
  {
    RegisteredIsFound(c, f.src);
    match f.msg
    case Connect(node) =>
      if Admits(c, now, Receives(f), f.src) {
        Tells(Admitted(c, now, f.src, node));
      }
    case Bye(bssid, ipv4) =>
      if Leaves(c, Receives(f)) {
        Tells(Dropped(c, FindStation(c.stations, f.src)));
      }
    case _ =>
  }

  lemma {:induction false} TickTells(c: Console, now: int)
    ensures var o := Tick(c, now);
            if Announces(c, now, Ticks) then OneSyncEach(o.frames, o.c, STATIONS)
            else forall k :: 0 <= k < |o.frames| ==> !o.frames[k].msg.Sync?
  {
    Tells(Reaped(c.(lastTick := now, lastBeacon := now), now));
  }

  lemma {:induction false} CallTells(c: Console, call: Call)
    ensures var o := DoCall(c, call);
            if Announces(c, 0, Calls(call)) then OneSyncEach(o.frames, o.c, STATIONS)
            else forall k :: 0 <= k < |o.frames| ==> !o.frames[k].msg.Sync?
  {
    if Announces(c, 0, Calls(call)) {
      match call
      case SetAdvertiseData(data) => Tells(Advertising(c, data));
      case Reject(nodeId) => Tells(Rejected(c, nodeId));
      case CreateNetwork(settings, name, version) => Tells(Created(c, settings, name, version));
    }
  }

  // ---- Scan ----

  /** A host answers every Scan to its sender with its current description; no other step
      answers, and nobody else does. */
  lemma {:induction false} ScanIsAnswered(c: Console, now: int, e: Event)
    requires Inv(c) && c.clock <= now
    ensures var o := Step(c, now, e);
            if HandlesScan(c, e) then
              && |o.frames| == 1 && o.frames[0].src == c.ip && o.frames[0].dst == e.frame.src
              && o.frames[0].msg == ScanResp(c.net) && o.c.net == c.net && o.c.stations == c.stations
            else forall k :: 0 <= k < |o.frames| ==> !o.frames[k].msg.ScanResp?
  {
    StepFrames(c, now, e);
    forall k | 0 <= k < |Step(c, now, e).frames| ensures Honest(Step(c, now, e).frames[k], Step(c, now, e).c, e) {
    }
    if HandlesScan(c, e) {
      var d := c.(clock := now, scanners := ScannerTable.Record(c.scanners, now, e.frame.src));
      assert Build(d) == Build(c);
    } else if e.Receives? && e.frame.msg.Scan? {
      assert Step(c, now, e).frames == [];
    }
  }

  // ---- Bye ----

  /** A Bye to a host: for its own network it unregisters the sender and nobody else, and the
      new description does not list the sender; for another network it does nothing. */
  lemma {:induction false} ByeFreesSlot(c: Console, now: int, f: Frame)
    requires Inv(c) && c.clock <= now && c.state == AccessPointCreated && f.msg.Bye?
    ensures var c' := Step(c, now, Receives(f)).c;
            if f.msg.bssid == c.net.bssid then
              && !Registered(c', f.src) && (f.src != c.ip ==> !Confirms(c'.net, f.src))
              && (forall i :: 0 <= i < STATIONS && c.stations[i].active && c.stations[i].src != f.src ==>
                    c'.stations[i] == c.stations[i])
            else c' == c.(clock := now) && Step(c, now, Receives(f)).frames == []
  {
    var at := FindStation(c.stations, f.src);
    RegisteredIsFound(c, f.src);
    if f.msg.bssid == c.net.bssid && at >= 0 {
      assert Step(c, now, Receives(f)).c.stations == c.stations[at := Emptied(c.stations[at])];
    }
    NotListed(c, now, Receives(f), f.src);
  }

  lemma {:induction false} NotListed(c: Console, now: int, e: Event, p: Ip)
    requires Inv(c) && c.clock <= now
    ensures var c' := Step(c, now, e).c;
            c'.state == AccessPointCreated && p != c'.ip && !Registered(c', p) ==> !Confirms(c'.net, p)
  {
    var c' := Step(c, now, e).c;
    StepInv(c, now, e);
    if c'.state == AccessPointCreated && p != c'.ip && Confirms(c'.net, p) {
      ListedIsRegistered(c', p);
    }
  }

  /** A Bye to a guest ends the session exactly when the join is active, the network is the one
      joined and the goodbye is the host's; then the game is told that the network is gone. */
  lemma {:induction false} ByeEndsSessionExactly(c: Console, now: int, f: Frame)
    requires c.state == StationConnected && f.msg.Bye?
    ensures var c' := Step(c, now, Receives(f)).c;
            if c.joinActive && f.msg.bssid == c.joinTarget && f.msg.ipv4 == c.net.nodes[0].ip then
              && c'.state == Station && !c'.joinActive && c'.reason == 3
              && c' == c.(clock := now, state := Station, joinActive := false, syncValid := false, reason := 3)
            else c' == c.(clock := now)
    ensures Step(c, now, Receives(f)).frames == []
  {
  }

  /** In every other state a Bye is ignored. */
  lemma {:induction false} ByeIgnored(c: Console, now: int, f: Frame)
    requires c.state != StationConnected && c.state != AccessPointCreated && f.msg.Bye?
    ensures Step(c, now, Receives(f)) == Out(c.(clock := now), [])
  {
  }

  // ---- Tick ----

  /** A due Tick of a console in station state: a connected guest with an active join sends one
      heartbeat for the joined network to its host, and nobody else sends anything. */
  lemma {:induction false} HeartbeatExactly(c: Console, now: int)
    requires c.state == Station || c.state == StationConnected
    ensures var o, host := Step(c, now, Ticks), c.net.nodes[0].ip;
            if c.state == StationConnected && c.joinActive && c.net.nodeCount > 0 && host != 0
               && now - c.lastBeacon >= BEACON_INTERVAL then
              && |o.frames| == 1 && o.frames[0].src == c.ip && o.frames[0].dst == host
              && o.frames[0].msg == Heartbeat(c.joinTarget, c.ip)
            else o.frames == []
  {
  }

  /** A Tick makes a guest leave exactly when it is due and the host has been silent for 30
      seconds; then the game is told that the signal was lost. */
  lemma {:induction false} TickLeavesExactly(c: Console, now: int)
    requires c.state == StationConnected
    ensures var c' := Step(c, now, Ticks).c;
            if now - c.lastBeacon >= BEACON_INTERVAL && now - c.hostLastSeen >= PEER_TIMEOUT then
              c'.state == Station && !c'.joinActive && !c'.syncValid && c'.reason == 6
            else c'.state == StationConnected && c'.joinActive == c.joinActive && c'.reason == c.reason
  {
  }

  /** A due Tick of a host frees exactly the slots that have been silent for 30 seconds. */
  lemma {:induction false} TickReapsExactly(c: Console, now: int, i: nat)
    requires Inv(c) && c.clock <= now && c.state == AccessPointCreated && i < STATIONS
    ensures var s, s' := c.stations[i], Step(c, now, Ticks).c.stations[i];
            if s.active && now - c.lastBeacon >= BEACON_INTERVAL && now - s.lastSeen >= PEER_TIMEOUT then !s'.active else s' == s
  {
    assert SlotOk(c.stations[i], i);
  }

  // ---- Heartbeat and Connect ----

  /** A heartbeat refreshes the sender's slot, for the own network, and changes nothing else. */
  lemma {:induction false} HeartbeatRefreshesExactly(c: Console, now: int, f: Frame, i: nat)
    requires Inv(c) && c.clock <= now && f.msg.Heartbeat? && i < STATIONS
    ensures var c', s := Step(c, now, Receives(f)).c, c.stations[i];
            && c'.stations[i] == (if c.state == AccessPointCreated && f.msg.bssid == c.net.bssid && s.active && s.src == f.src
                                  then s.(lastSeen := now) else s)
            && c' == c.(clock := now, stations := c'.stations)
    ensures Step(c, now, Receives(f)).frames == []
  {
    var at := FindStation(c.stations, f.src);
    if at >= 0 && c.stations[i].active && c.stations[i].src == f.src {
      assert at == i;
    }
  }

  /** A Connect that is not admitted changes nothing and is not answered. */
  lemma {:induction false} RefusedIsIgnored(c: Console, now: int, f: Frame)
    requires Inv(c) && c.clock <= now && f.msg.Connect? && !Admits(c, now, Receives(f), f.src)
    ensures Step(c, now, Receives(f)) == Out(c.(clock := now), [])
  {
  }

  /** An admitted station is listed with the tunnel address it connected from and with the name
      and the version of its Connect. */
  lemma {:induction false} AdmittedIsListed(c: Console, now: int, f: Frame) returns (i: nat)
    requires Inv(c) && c.clock <= now && f.msg.Connect? && Admits(c, now, Receives(f), f.src)
    ensures i < STATIONS && Inv(Step(c, now, Receives(f)).c)
    ensures var c' := Step(c, now, Receives(f)).c;
            var rank := 1 + CountLive(c'.stations[..i]);
            && rank < c'.net.nodeCount && c'.stations[i].active && c'.stations[i].src == f.src
            && c'.net.nodes[rank] == NodeInfo(f.src, FakeMac(f.src), i + 1, true, f.msg.node.name, f.msg.node.version)
            && forall j :: 0 <= j < STATIONS && j != i ==> c'.stations[j] == c.stations[j]
  {
    var e := Receives(f);
    AdmitStep(c, now, e, f.src);
    StepInv(c, now, e);
    i := SlotFor(c.stations, f.src);
    HostDescription(Step(c, now, e).c, i);
  }

  // ---- Sync ----

  /** A Sync that is not applied changes at most the recorded stamp. */
  lemma {:induction false} UnappliedSync(c: Console, now: int, f: Frame)
    requires f.msg.Sync? && !AppliesSync(c, Receives(f))
    ensures var c' := Step(c, now, Receives(f)).c;
            c' == c.(clock := now, syncSeq := c'.syncSeq, syncValid := c'.syncValid)
    ensures Step(c, now, Receives(f)).frames == []
  {
  }

  // ---- ScanResp ----

  /** What the game finds: one description per network, at most eight. */
  ghost predicate ResultsOk(results: seq<NetworkInfo>) {
    |results| <= SCAN_RESULTS_MAX && forall i, j :: 0 <= i < j < |results| ==> results[i].bssid != results[j].bssid
  }

  /** Every step keeps that. */
  lemma {:induction false} ResultsStayOk(c: Console, now: int, e: Event)
    requires ResultsOk(c.scanResults)
    ensures ResultsOk(Step(c, now, e).c.scanResults)
  {
    if e.Receives? && e.frame.msg.ScanResp? {
      AnswerOk(c, e.frame.src, e.frame.msg.info);
    } else if e.Calls? {
      CallResults(c.(clock := now), e.call);
    } else {
      OtherResults(c, now, e);
    }
  }

  lemma {:induction false} AnswerOk(c: Console, src: Ip, info: NetworkInfo)
    requires ResultsOk(c.scanResults)
    ensures ResultsOk(HandleScanResp(c, src, info).scanResults)
  {
  }

  lemma {:induction false} CallResults(c: Console, call: Call)
    ensures DoCall(c, call).c.scanResults == c.scanResults || DoCall(c, call).c.scanResults == []
  {
  }

  lemma {:induction false} OtherResults(c: Console, now: int, e: Event)
    requires !e.Calls? && !(e.Receives? && e.frame.msg.ScanResp?)
    ensures Step(c, now, e).c.scanResults == c.scanResults
  {
  }

  ghost predicate Wanted(c: Console, f: Frame)
    requires f.msg.ScanResp?
  {
    f.src != c.ip && (c.scanFilter == 0 || f.msg.info.settings.localCommunicationId == c.scanFilter)
  }

  /** An answer of another console that passes the filter is the one kept for its network, when
      that is known or there is room; all other networks stay as they were. Own answers, filtered
      ones and those that do not fit change nothing. */
  lemma {:induction false} AnswerExactly(c: Console, now: int, f: Frame)
    requires ResultsOk(c.scanResults) && f.msg.ScanResp?
    ensures var c', rs, info := Step(c, now, Receives(f)).c, c.scanResults, f.msg.info;
            var known := exists i :: 0 <= i < |rs| && rs[i].bssid == info.bssid;
            && c' == c.(clock := now, scanResults := c'.scanResults)
            && (if Wanted(c, f) && (known || |rs| < SCAN_RESULTS_MAX) then
                  && info in c'.scanResults
                  && (forall r: NetworkInfo :: r.bssid != info.bssid ==> (r in c'.scanResults <==> r in rs))
                else c'.scanResults == rs)
    ensures Step(c, now, Receives(f)).frames == []
  {
    var rs, info := c.scanResults, f.msg.info;
    var at := SameBssid(rs, info.bssid);
    if Wanted(c, f) && at >= 0 {
      var rs' := rs[at := info];
      assert rs'[at] == info;
      forall r | r in rs && r.bssid != info.bssid ensures r in rs' {
        var i :| 0 <= i < |rs| && rs[i] == r;
        assert rs'[i] == r;
      }
    }
  }

  // ---- calls of the game ----

  /** Reject frees the slot of that node id and no other. */
  lemma {:induction false} RejectExactly(c: Console, now: int, id: nat, i: nat)
    requires i < STATIONS
    ensures var c' := Step(c, now, Calls(Reject(id))).c;
            if i + 1 == id then !c'.stations[i].active && !c'.stations[i].connected else c'.stations[i] == c.stations[i]
    ensures id < 1 || id >= NODES ==> Step(c, now, Calls(Reject(id))) == Out(c.(clock := now), [])
  {
  }

  /** A host that sets advertise data announces exactly these bytes, to every station; data that
      does not fit is refused. */
  lemma {:induction false} AdvertiseExactly(c: Console, now: int, data: seq<Byte>)
    requires Inv(c) && c.clock <= now
    ensures var o := Step(c, now, Calls(SetAdvertiseData(data)));
            if |data| <= ADVERTISE_MAX then
              && o.c.net.advSize == |data| && o.c.net.advData[..|data|] == data
              && o.c.stations == c.stations && OneSyncEach(o.frames, o.c, STATIONS)
            else o == Out(c.(clock := now), [])
  {
    TellsEveryStation(c, now, Calls(SetAdvertiseData(data)));
  }

  /** The data stays announced until it is set again or the network is created anew: every later
      description of the same host carries what the host remembers. */
  lemma {:induction false} AdvertisedStays(c: Console)
    requires Inv(c) && c.state == AccessPointCreated
    ensures c.net.advSize == c.advSize && c.net.advData[..c.advSize] == c.advData[..c.advSize]
  {
  }

  /** A created network announces the settings of the call, on channel 6 when the call names
      none, with the caller as its only node and no stations. */
  lemma {:induction false} CreateExactly(c: Console, now: int, settings: NetworkSettings, name: seq<Byte>, version: int)
    requires Inv(c) && c.clock <= now
    ensures var o := Step(c, now, Calls(CreateNetwork(settings, name, version)));
            if c.state != AccessPoint then o == Out(c.(clock := now), [])
            else
              && o.c.state == AccessPointCreated && TableEmpty(o.c.stations) && o.frames == []
              && o.c.net.bssid == FakeMac(c.ip) && o.c.net.nodeCount == 1 && o.c.net.advSize == 0
              && o.c.net.nodes[0] == NodeInfo(c.ip, FakeMac(c.ip), 0, true, name, version)
              && o.c.net.settings.channel == (if settings.channel == 0 then 6 else settings.channel)
              && o.c.net.settings.(channel := settings.channel) == settings
  {
    var e := Calls(CreateNetwork(settings, name, version));
    if c.state == AccessPoint {
      var o := Step(c, now, e);
      StepInv(c, now, e);
      TellsEveryStation(c, now, e);
      NoLive(o.c.stations, STATIONS);
      assert o.c.stations[..STATIONS] == o.c.stations;
      HostDescription(o.c, 0);
    }
  }

  lemma {:induction false} NoLive(st: seq<StationSlot>, n: nat)
    requires n <= |st| && forall i :: 0 <= i < |st| ==> !st[i].active
    ensures CountLive(st[..n]) == 0
  {
    if n > 0 {
      NoLive(st, n - 1);
      assert st[..n][..n - 1] == st[..n - 1];
    }
  }

  /** All addresses of the own /16 network: the last two octets are 255. */
  lemma {:induction false} BroadcastIsSubnet(ip: Ip)
    ensures Broadcast(ip) / 0x1_0000 == ip / 0x1_0000 && Broadcast(ip) % 0x1_0000 == 0xFFFF
  {
  }

  /** A host that destroys its network says goodbye to the whole subnet when it has a station, and
      its table is empty afterwards. */
  lemma {:induction false} DestroyExactly(c: Console, now: int)
    ensures var o := Step(c, now, Calls(DestroyNetwork));
            && o.c.state == AccessPoint && TableEmpty(o.c.stations)
            && (if exists i :: 0 <= i < STATIONS && Live(c.stations[i]) then
                  && |o.frames| == 1 && o.frames[0].src == c.ip && o.frames[0].dst == Broadcast(c.ip)
                  && o.frames[0].msg == Bye(c.net.bssid, c.ip)
                else o.frames == [])
  {
    SomeLive(c.stations);
  }

  lemma {:induction false} SomeLive(st: seq<StationSlot>)
    ensures CountLive(st) > 0 <==> exists i :: 0 <= i < |st| && Live(st[i])
    decreases |st|
  {
    if st != [] {
      var n := |st| - 1;
      SomeLive(st[..n]);
      if exists i :: 0 <= i < |st| && Live(st[i]) {
        var i :| 0 <= i < |st| && Live(st[i]);
        if i < n {
          assert st[..n][i] == st[i];
        }
      }
    }
  }

  /** Its guests act on it: a station that joined this host leaves when it hears that goodbye. */
  lemma {:induction false} DestroyIsHeard(h: Console, t: int, s: Console, now: int, f: Frame)
    requires Inv(h) && h.clock <= t && h.state == AccessPointCreated && f in Step(h, t, Calls(DestroyNetwork)).frames
    requires s.state == StationConnected && s.joinActive && s.joinTarget == FakeMac(h.ip) && s.net.nodes[0].ip == h.ip
    ensures Step(s, now, Receives(f)).c.state == Station && !Step(s, now, Receives(f)).c.joinActive
  {
    DestroyExactly(h, t);
    ByeEndsSessionExactly(s, now, f);
  }

  /** A guest that disconnects says goodbye to its host, for the network it joined. */
  lemma {:induction false} DisconnectExactly(c: Console, now: int)
    ensures var o := Step(c, now, Calls(Disconnect));
            && o.c.state == Station && !o.c.joinActive && !o.c.syncValid && TableEmpty(o.c.stations)
            && (if c.joinActive && c.net.nodeCount > 0 then
                  && |o.frames| == 1 && o.frames[0].src == c.ip && o.frames[0].dst == c.net.nodes[0].ip
                  && o.frames[0].msg == Bye(c.joinTarget, c.ip)
                else o.frames == [])
  {
  }

  /** Its host acts on it: the station is unregistered when the host hears that goodbye. */
  lemma {:induction false} DisconnectIsHeard(s: Console, t: int, h: Console, now: int, f: Frame)
    requires s.joinTarget == FakeMac(h.ip) && f in Step(s, t, Calls(Disconnect)).frames
    requires Inv(h) && h.clock <= now && h.state == AccessPointCreated
    ensures f.src == s.ip && !Registered(Step(h, now, Receives(f)).c, s.ip)
  {
    DisconnectExactly(s, t);
    ByeFreesSlot(h, now, f);
  }

  /** One Scan to the subnet; one Connect to the host, naming the caller. */
  lemma {:induction false} AskingExactly(c: Console, now: int, host: Ip, me: NodeInfo)
    ensures var o := Step(c, now, Calls(ScanSend));
            |o.frames| == 1 && o.frames[0].src == c.ip && o.frames[0].dst == Broadcast(c.ip) && o.frames[0].msg == Message.Scan
    ensures var o := Step(c, now, Calls(ConnectSend(host, me)));
            && |o.frames| == 1 && o.frames[0].src == c.ip && o.frames[0].dst == host
            && o.frames[0].msg == Message.Connect(NodeInfo(c.ip, FakeMac(c.ip), 0, true, me.name, me.version))
  {
  }

  /** The calls that change the mode: what they are refused in, and what they leave. */
  lemma {:induction false} ModesExactly(c: Console, now: int)
    ensures var a := Step(c, now, Calls(Initialize)).c;
            a.state == Initialized && TableEmpty(a.stations) && a.scanResults == [] && a.reason == 0 && a.changes == NoChanges()
    ensures var a := Step(c, now, Calls(Finalize)).c;
            a.state == Down && TableEmpty(a.stations) && a.scanResults == [] && !a.joinActive && !a.syncValid
    ensures var a := Step(c, now, Calls(OpenAccessPoint)).c;
            a.state == (if c.state == Down then Down else AccessPoint) && (c.state != Down ==> TableEmpty(a.stations)) && a.reason == 0
    ensures var a := Step(c, now, Calls(OpenStation)).c;
            a.state == (if c.state == Down then Down else Station) && (c.state != Down ==> TableEmpty(a.stations)) && a.reason == 0
    ensures var a, b := Step(c, now, Calls(CloseAccessPoint)).c, Step(c, now, Calls(CloseStation)).c;
            && a.state == b.state == (if c.state == Down then Down else Initialized)
            && (c.state != Down ==> TableEmpty(a.stations) && TableEmpty(b.stations))
  {
  }

  /** Joining: refused in Down and for an empty description; otherwise the target is remembered. */
  lemma {:induction false} JoinExactly(c: Console, now: int, target: NetworkInfo)
    ensures var c' := Step(c, now, Calls(ConnectBegin(target))).c;
            if c.state == Down || target.nodeCount == 0 then c' == c.(clock := now)
            else c'.joinActive && c'.joinTarget == target.bssid && c'.state == c.state && c'.net == c.net && c'.scanResults == []
  {
  }

  /** A scan starts with the filter of the call and no results; it is refused in Down and Error. */
  lemma {:induction false} ScanBeginExactly(c: Console, now: int, filter: nat)
    ensures var c' := Step(c, now, Calls(ScanBegin(filter))).c;
            if c.state == Down || c.state == Error then c' == c.(clock := now)
            else c'.scanFilter == filter && c'.scanResults == [] && c' == c.(clock := now, scanFilter := filter, scanResults := [])
  {
  }

  /** A join that times out is over, and nothing else changes. */
  lemma {:induction false} TimeoutExactly(c: Console, now: int)
    ensures Step(c, now, Calls(ConnectTimeout)).c == c.(clock := now, joinActive := false, syncValid := false)
  {
  }

  // ---- what stays while a network exists ----

  /** While a network exists its settings and its host's node stay what they were when it was
      created, and its accept policy is what was last set. */
  lemma {:induction false} NetworkKeepsIdentity(c: Console, now: int, e: Event)
    requires Inv(c) && c.clock <= now && c.state == AccessPointCreated && Step(c, now, e).c.state == AccessPointCreated
    ensures var n, n' := c.net, Step(c, now, e).c.net;
            && n'.settings == n.settings && n'.bssid == n.bssid && n'.nodes[0] == n.nodes[0]
            && n'.policy == if e.Calls? && e.call.SetStationAcceptPolicy? then e.call.policy else n.policy
  {
    var d := c.(clock := now);
    match e
    case Receives(f) => FrameKeepsIdentity(d, now, f);
    case Ticks => UpdateKeepsIdentity(Reaped(d.(lastTick := now, lastBeacon := now), now));
    case Calls(call) => CallKeepsIdentity(d, call);
  }

  ghost predicate SameIdentity(n: NetworkInfo, n': NetworkInfo) {
    n'.settings == n.settings && n'.bssid == n.bssid && n'.nodes[0] == n.nodes[0] && n'.policy == n.policy
  }

  lemma {:induction false} UpdateKeepsIdentity(c: Console)
    requires c.net.nodes[0] == SelfNode(c)
    ensures SameIdentity(c.net, UpdateNodes(Out(c, [])).c.net)
  {
  }

  lemma {:induction false} FrameKeepsIdentity(c: Console, now: int, f: Frame)
    requires c.state == AccessPointCreated && c.net.nodes[0] == SelfNode(c)
    ensures SameIdentity(c.net, Receive(c, now, f).c.net)
  {
    if f.msg.Connect? {
      ConnectKeepsIdentity(c, now, f.src, f.msg.node);
    } else if f.msg.Bye? {
      ByeKeepsIdentity(c, f);
    }
  }

  lemma {:induction false} ConnectKeepsIdentity(c: Console, now: int, src: Ip, node: NodeInfo)
    requires c.net.nodes[0] == SelfNode(c)
    ensures SameIdentity(c.net, HandleConnect(c, now, src, node).c.net)
  {
    if SlotFor(c.stations, src) >= 0 {
      UpdateKeepsIdentity(Admitted(c, now, src, node));
    }
  }

  lemma {:induction false} ByeKeepsIdentity(c: Console, f: Frame)
    requires f.msg.Bye? && c.state == AccessPointCreated && c.net.nodes[0] == SelfNode(c)
    ensures SameIdentity(c.net, HandleBye(c, f.src, f.msg.bssid, f.msg.ipv4).c.net)
  {
    if FindStation(c.stations, f.src) >= 0 {
      UpdateKeepsIdentity(Dropped(c, FindStation(c.stations, f.src)));
    }
  }

  lemma {:induction false} CallKeepsIdentity(c: Console, call: Call)
    requires c.state == AccessPointCreated && c.net.nodes[0] == SelfNode(c) && DoCall(c, call).c.state == AccessPointCreated
    ensures var n := if call.SetStationAcceptPolicy? then c.net.(policy := call.policy) else c.net;
            SameIdentity(n, DoCall(c, call).c.net)
  {
    if call.SetAdvertiseData? && |call.data| <= ADVERTISE_MAX {
      UpdateKeepsIdentity(Advertising(c, call.data));
    } else if call.Reject? && 1 <= call.nodeId < NODES {
      UpdateKeepsIdentity(Rejected(c, call.nodeId));
    }
  }

  // ---- stamps ----

  /** The sender's counter after these frames. */
  ghost function Counter(fs: seq<Frame>, tx: Stamp): Stamp {
    if fs == [] then tx else fs[|fs| - 1].stamp
  }

  /** The frames carry the values of a counter that was at `tx` before them. */
  ghost predicate Stamped(fs: seq<Frame>, tx: Stamp)
    decreases |fs|
  {
    fs == [] || (var n := |fs| - 1; Stamped(fs[..n], tx) && fs[n].stamp == LanFrame.NextStamp(Counter(fs[..n], tx)))
  }

  /** What a step sent so far is stamped, and the counter is where it belongs. */
  ghost predicate StampedOut(o: Out, tx: Stamp) {
    Stamped(o.frames, tx) && o.c.txSeq == Counter(o.frames, tx)
  }

  lemma {:induction false} SendStamped(o: Out, dst: Ip, msg: Message, tx: Stamp)
    requires StampedOut(o, tx)
    ensures StampedOut(Send(o, dst, msg), tx)
  {
    assert Send(o, dst, msg).frames[..|o.frames|] == o.frames;
  }

  lemma {:induction false} SyncStamped(o: Out, n: nat, tx: Stamp)
    requires n <= STATIONS && StampedOut(o, tx)
    ensures StampedOut(SyncTo(o, n), tx)
  {
    if n > 0 {
      SyncStamped(o, n - 1, tx);
      SendStamped(SyncTo(o, n - 1), o.c.stations[n - 1].src, Sync(o.c.net), tx);
    }
  }

  lemma {:induction false} UpdateStamped(c: Console)
    ensures StampedOut(UpdateNodes(Out(c, [])), c.txSeq)
  {
    SyncStamped(Out(c.(net := Build(c)), []), STATIONS, c.txSeq);
  }

  /** Every frame of every step carries the next value of the sender's counter. */
  lemma {:induction false} StepStamped(c: Console, now: int, e: Event)
    ensures StampedOut(Step(c, now, e), c.txSeq)
  {
    var d := c.(clock := now);
    match e
    case Receives(f) => FrameStamped(d, now, f);
    case Ticks => TickStamped(d, now);
    case Calls(call) => CallStamped(d, call);
  }

  lemma {:induction false} OneStamped(c: Console, dst: Ip, msg: Message)
    ensures StampedOut(Send(Out(c, []), dst, msg), c.txSeq)
  {
    SendStamped(Out(c, []), dst, msg, c.txSeq);
  }

  lemma {:induction false} TickStamped(c: Console, now: int)
    ensures StampedOut(Tick(c, now), c.txSeq)
  {
    var d := c.(lastTick := now, lastBeacon := now);
    UpdateStamped(Reaped(d, now));
    OneStamped(d, d.net.nodes[0].ip, Heartbeat(d.joinTarget, d.ip));
  }

  lemma {:induction false} FrameStamped(c: Console, now: int, f: Frame)
    ensures StampedOut(Receive(c, now, f), c.txSeq)
  {
    if f.msg.Connect? && SlotFor(c.stations, f.src) >= 0 {
      UpdateStamped(Admitted(c, now, f.src, f.msg.node));
    } else if f.msg.Bye? && FindStation(c.stations, f.src) >= 0 {
      UpdateStamped(Dropped(c, FindStation(c.stations, f.src)));
    } else if f.msg.Scan? {
      var d := c.(scanners := ScannerTable.Record(c.scanners, now, f.src));
      OneStamped(d, f.src, ScanResp(Build(d)));
    }
  }

  lemma {:induction false} CallStamped(c: Console, call: Call)
    ensures StampedOut(DoCall(c, call), c.txSeq)
  {
    match call
    case SetAdvertiseData(data) =>
      if |data| <= ADVERTISE_MAX {
        UpdateStamped(Advertising(c, data));
      }
    case Reject(nodeId) =>
      if 1 <= nodeId < NODES {
        UpdateStamped(Rejected(c, nodeId));
      }
    case CreateNetwork(settings, name, version) => UpdateStamped(Created(c, settings, name, version));
    case DestroyNetwork => OneStamped(c, Broadcast(c.ip), Bye(c.net.bssid, c.ip));
    case Disconnect => OneStamped(c, c.net.nodes[0].ip, Bye(c.joinTarget, c.ip));
    case ScanSend => OneStamped(c, Broadcast(c.ip), Message.Scan);
    case ConnectSend(host, me) =>
      OneStamped(c, host, Message.Connect(me.(ip := c.ip, mac := FakeMac(c.ip), nodeId := 0, connected := true)));
    case _ =>
  }

  lemma {:induction false} StampedConcat(fs: seq<Frame>, gs: seq<Frame>, tx: Stamp)
    requires Stamped(fs, tx) && Stamped(gs, Counter(fs, tx))
    ensures Stamped(fs + gs, tx) && Counter(fs + gs, tx) == Counter(gs, Counter(fs, tx))
    decreases |gs|
  {
    if gs == [] {
      assert fs + gs == fs;
    } else {
      var n := |gs| - 1;
      StampedConcat(fs, gs[..n], tx);
      assert (fs + gs)[..|fs + gs| - 1] == fs + gs[..n];
    }
  }
}

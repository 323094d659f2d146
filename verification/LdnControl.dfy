/** The control plane as an object: its fields updated in place by the frame handlers, the
    timer and the game's calls, each proved to do what LdnConsole specifies. */
module LdnControl {
  import opened Basics
  import opened LdnTypes
  import Spec = LdnConsole
  import LdnInvariants
  import ScannerTable

  class LdnControl {
    const ip: Ip
    var state: CommState
    var reason: nat
    var net: NetworkInfo
    var version: int
    var selfName: seq<Byte>
    var advSize: AdvertiseSize
    var advData: AdvertiseData
    const stations: array<StationSlot>
    const scanners: array<Scanner>
    var scanFilter: nat
    var scanResults: seq<NetworkInfo>
    var joinActive: bool
    var joinTarget: Mac
    var hostLastSeen: int
    var lastBeacon: int
    var txSeq: Stamp
    var syncSeq: Stamp
    var syncValid: bool
    const prev: array<bool>
    const changes: array<Change>
    /** Everything handed to the tunnel, in order. */
    var sent: seq<Frame>
    ghost var clock: int
    ghost var lastTick: int

    ghost predicate Valid() {
      stations.Length == STATIONS && scanners.Length == SCANNERS && prev.Length == NODES && changes.Length == NODES
    }

    ghost function View(): Console
      requires Valid()
      reads this, stations, scanners, prev, changes
    {
      Console(ip, state, reason, net, version, selfName, advSize, advData, stations[..], scanners[..],
              scanFilter, scanResults, joinActive, joinTarget, hostLastSeen, lastBeacon,
              txSeq, syncSeq, syncValid, prev[..], changes[..], clock, lastTick)
    }

    constructor (address: Ip)
      ensures Valid() && View() == NewConsole(address) && sent == []
      ensures fresh(stations) && fresh(scanners) && fresh(prev) && fresh(changes)
    {
      ip, state, reason, net, version, selfName := address, Down, 0, ZeroNetwork(), 0, [];
      advSize, advData := 0, ZeroAdvertise();
      stations := new StationSlot[STATIONS](_ => EMPTY_SLOT);
      scanners := new Scanner[SCANNERS](_ => Scanner(0, 0, false));
      scanFilter, scanResults, joinActive, joinTarget := 0, [], false, ZERO_MAC;
      hostLastSeen, lastBeacon, txSeq, syncSeq, syncValid := 0, 0, 0, 0, false;
      prev := new bool[NODES](_ => false);
      changes := new Change[NODES](_ => NO_CHANGE);
      sent, clock, lastTick := [], 0, 0;
      new;
      assert stations[..] == EmptyStations() && scanners[..] == EmptyScanners();
      assert prev[..] == NoFlags() && changes[..] == NoChanges();
    }

    // ---- small updates ----

    ghost method At(now: int)
      requires Valid()
      modifies this`clock
      ensures View() == old(View()).(clock := now)
    {
      clock := now;
    }

    ghost method Ticked(now: int)
      requires Valid()
      modifies this`lastTick
      ensures View() == old(View()).(lastTick := now)
    {
      lastTick := now;
    }

    method Beaconed(now: int)
      requires Valid()
      modifies this`lastBeacon
      ensures View() == old(View()).(lastBeacon := now)
    {
      lastBeacon := now;
    }

    method SetState(target: CommState)
      requires Valid()
      modifies this`state
      ensures View() == old(View()).(state := target)
    {
      if state != target {
        state := target;
      }
    }

    method SetReason(r: nat)
      requires Valid()
      modifies this`reason
      ensures View() == old(View()).(reason := r)
    {
      reason := r;
    }

    method ClearScan()
      requires Valid()
      modifies this`scanFilter, this`scanResults
      ensures View() == old(View()).(scanFilter := 0, scanResults := [])
    {
      scanFilter, scanResults := 0, [];
    }

    method EndJoin()
      requires Valid()
      modifies this`joinActive, this`syncValid
      ensures View() == old(View()).(joinActive := false, syncValid := false)
    {
      joinActive, syncValid := false, false;
    }

    method LeaveSession(r: nat)
      requires Valid()
      modifies this`reason, this`joinActive, this`syncValid, this`state
      ensures View() == Spec.LeaveSession(old(View()), r)
    {
      SetReason(r);
      EndJoin();
      SetState(Station);
    }

    // ---- lookups ----

    method FindStationByIp(src: Ip) returns (at: int)
      requires Valid()
      ensures at == Spec.FindStation(stations[..], src)
    {
      for i := 0 to STATIONS
        invariant Spec.FindStation(stations[..], src) == Spec.FindStation(stations[..], src, i)
      {
        if stations[i].active && stations[i].src == src {
          return i;
        }
      }
      at := -1;
    }

    method FindFreeNodeId() returns (at: int)
      requires Valid()
      ensures at == Spec.FindFree(stations[..])
    {
      for i := 0 to STATIONS
        invariant Spec.FindFree(stations[..]) == Spec.FindFree(stations[..], i)
      {
        if !stations[i].active {
          return i;
        }
      }
      at := -1;
    }

    method StationCount() returns (n: nat)
      requires Valid()
      ensures n == Spec.CountLive(stations[..])
    {
      n := 0;
      for i := 0 to STATIONS
        invariant n == Spec.CountLive(stations[..i])
      {
        assert stations[..i + 1][..i] == stations[..i];
        if stations[i].active && stations[i].connected {
          n := n + 1;
        }
      }
      assert stations[..STATIONS] == stations[..];
    }

    method ResetStations()
      requires Valid()
      modifies stations
      ensures View() == old(View()).(stations := Spec.NoStations(old(View()).stations))
    {
      ghost var was := stations[..];
      for i := 0 to STATIONS
        invariant forall k :: 0 <= k < i ==> stations[k] == Spec.Emptied(was[k])
        invariant forall k :: i <= k < STATIONS ==> stations[k] == was[k]
      {
        stations[i] := stations[i].(active := false, connected := false, node := ZERO_NODE);
      }
      assert stations[..] == Spec.NoStations(was);
    }

    // ---- sending and rebuilding ----

    method SendFrame(dst: Ip, msg: Message)
      requires Valid()
      modifies this`txSeq, this`sent
      ensures View() == Spec.Send(Spec.Out(old(View()), []), dst, msg).c
      ensures sent == old(sent) + Spec.Send(Spec.Out(old(View()), []), dst, msg).frames
    {
      txSeq := (txSeq + 1) % 0x1_0000;
      if txSeq == 0 {
        txSeq := txSeq + 1;
      }
      sent := sent + [Frame(ip, dst, txSeq, msg)];
    }

    method BuildNetwork() returns (out: NetworkInfo)
      requires Valid()
      ensures out == Spec.Build(View())
    {
      var nodes := new NodeInfo[NODES](_ => ZERO_NODE);
      nodes[0] := NodeInfo(ip, FakeMac(ip), 0, true, selfName, version);
      var count := 1;
      ghost var self := Spec.SelfNode(View());
      for n := 0 to STATIONS
        invariant count == 1 + |Spec.LiveNodes(stations[..], n)|
        invariant nodes[..count] == [self] + Spec.LiveNodes(stations[..], n)
        invariant forall k :: count <= k < NODES ==> nodes[k] == ZERO_NODE
      {
        var s := stations[n];
        if s.active && s.connected {
          nodes[count] := s.node.(nodeId := n + 1, connected := true);
          count := count + 1;
        }
      }
      assert nodes[..] == Spec.Padded([self] + Spec.LiveNodes(stations[..], STATIONS));
      out := net.(nodes := nodes[..], nodeCount := count, advSize := advSize,
                  advData := if advSize > 0 then advData[..advSize] + net.advData[advSize..] else ZeroAdvertise());
    }

    method UpdateNodes()
      requires Valid()
      modifies this, prev, changes
      ensures View() == Spec.UpdateNodes(Spec.Out(old(View()), [])).c
      ensures sent == old(sent) + Spec.UpdateNodes(Spec.Out(old(View()), [])).frames
    {
      net := BuildNetwork();
      ghost var c, s0 := View(), sent;
      for n := 0 to STATIONS
        modifies this`txSeq, this`sent
        invariant View() == Spec.SyncTo(Spec.Out(c, []), n).c
        invariant sent == s0 + Spec.SyncTo(Spec.Out(c, []), n).frames
      {
        if stations[n].active && stations[n].connected {
          SendFrame(stations[n].src, Sync(net));
        }
      }
      OnNetworkInfoChanged();
    }

    method OnNetworkInfoChanged()
      requires Valid()
      modifies prev, changes
      ensures View() == Spec.NoteChanges(old(View()))
    {
      ghost var p, ch, flags := prev[..], changes[..], Spec.ConnectedFlags(net.nodes);
      for i := 0 to NODES
        invariant forall k :: 0 <= k < i ==> prev[k] == flags[k] && changes[k] == Spec.NoteChange(p[k], flags[k], ch[k])
        invariant forall k :: i <= k < NODES ==> prev[k] == p[k] && changes[k] == ch[k]
      {
        var connected := net.nodes[i].connected;
        if connected != prev[i] {
          if connected {
            changes[i] := changes[i].(connect := true);
          } else {
            changes[i] := changes[i].(disconnect := true);
          }
          prev[i] := connected;
        }
      }
      assert prev[..] == flags && changes[..] == Spec.Noted(p, flags, ch);
    }

    method InitNodeStateChange()
      requires Valid()
      modifies prev, changes
      ensures View() == Spec.ForgetChanges(old(View()))
    {
      forall i | 0 <= i < NODES { prev[i] := false; }
      forall i | 0 <= i < NODES { changes[i] := NO_CHANGE; }
      assert prev[..] == NoFlags() && changes[..] == NoChanges();
    }

    // ---- frame handlers ----

    method HandleScan(now: int, src: Ip)
      requires Valid()
      modifies this, scanners
      ensures View() == Spec.HandleScan(old(View()), now, src).c
      ensures sent == old(sent) + Spec.HandleScan(old(View()), now, src).frames
    {
      if state != AccessPointCreated {
        return;
      }
      ScannerTable.RecordScanner(scanners, now, src);
      var info := BuildNetwork();
      SendFrame(src, ScanResp(info));
    }

    method HandleScanResp(src: Ip, info: NetworkInfo)
      requires Valid()
      modifies this`scanResults
      ensures View() == Spec.HandleScanResp(old(View()), src, info)
    {
      if src == ip {
        return;
      }
      if scanFilter != 0 && info.settings.localCommunicationId != scanFilter {
        return;
      }
      for i := 0 to |scanResults|
        invariant View() == old(View())
        invariant Spec.SameBssid(scanResults, info.bssid) == Spec.SameBssid(scanResults, info.bssid, i)
      {
        if scanResults[i].bssid == info.bssid {
          scanResults := scanResults[i := info];
          return;
        }
      }
      if |scanResults| < SCAN_RESULTS_MAX {
        scanResults := scanResults + [info];
      }
    }

    method HandleConnect(now: int, src: Ip, node: NodeInfo)
      requires Valid()
      modifies this, stations, prev, changes
      ensures View() == Spec.HandleConnect(old(View()), now, src, node).c
      ensures sent == old(sent) + Spec.HandleConnect(old(View()), now, src, node).frames
    {
      if state != AccessPointCreated {
        return;
      }
      var recent := ScannerTable.WasRecentScanner(scanners, now, src);
      var at := FindStationByIp(src);
      if !recent && at < 0 {
        return;
      }
      if at < 0 {
        var count := StationCount();
        if count >= STATIONS {
          return;
        }
        at := FindFreeNodeId();
        if at < 0 {
          return;
        }
      }
      var node' := node.(ip := src, mac := FakeMac(src), nodeId := at + 1, connected := true);
      stations[at] := StationSlot(true, true, src, node', now);
      assert View() == Spec.Admitted(old(View()), now, src, node);
      UpdateNodes();
    }

    /** Is this address one of a connected node of the stored description? */
    method Lists(address: Ip) returns (confirmed: bool)
      ensures confirmed == Spec.Confirms(net, address)
    {
      for i := 0 to net.nodeCount
        invariant forall k :: 0 <= k < i ==> !(net.nodes[k].connected && net.nodes[k].ip == address)
      {
        if net.nodes[i].connected && net.nodes[i].ip == address {
          return true;
        }
      }
      confirmed := false;
    }

    method HandleSyncNetwork(now: int, info: NetworkInfo, stamp: Stamp)
      requires Valid()
      modifies this, prev, changes
      ensures View() == Spec.HandleSync(old(View()), now, info, stamp) && sent == old(sent)
    {
      if state != Station && state != StationConnected {
        return;
      }
      if stamp != 0 {
        if syncValid && Spec.Behind(syncSeq, stamp) < 256 {
          return;
        }
        syncSeq := stamp;
        syncValid := true;
      }
      if joinActive {
        if info.bssid != joinTarget {
          return;
        }
      }
      Apply(now, info);
    }

    /** The tail of HandleSyncNetwork: the description is taken over. */
    method Apply(now: int, info: NetworkInfo)
      requires Valid()
      modifies this, prev, changes
      ensures View() == Spec.ApplySync(old(View()), now, info) && sent == old(sent)
    {
      net, hostLastSeen := info, now;
      if state == Station {
        var confirmed := Lists(ip);
        if confirmed {
          SetState(StationConnected);
        }
      }
      OnNetworkInfoChanged();
    }

    method HandleRelayHeartbeat(now: int, src: Ip, bssid: Mac)
      requires Valid()
      modifies stations
      ensures View() == Spec.HandleHeartbeat(old(View()), now, src, bssid)
    {
      if state != AccessPointCreated {
        return;
      }
      if bssid != net.bssid {
        return;
      }
      var at := FindStationByIp(src);
      if at >= 0 {
        stations[at] := stations[at].(lastSeen := now);
      }
    }

    method HandleRelayBye(src: Ip, bssid: Mac, ipv4: Ip)
      requires Valid()
      modifies this, stations, prev, changes
      ensures View() == Spec.HandleBye(old(View()), src, bssid, ipv4).c
      ensures sent == old(sent) + Spec.HandleBye(old(View()), src, bssid, ipv4).frames
    {
      if state == StationConnected {
        if joinActive && bssid == joinTarget && ipv4 == net.nodes[0].ip {
          LeaveSession(3);
        }
      } else if state == AccessPointCreated {
        if bssid != net.bssid {
          return;
        }
        var at := FindStationByIp(src);
        if at >= 0 {
          stations[at] := stations[at].(active := false, connected := false, node := ZERO_NODE);
          assert View() == Spec.Dropped(old(View()), at);
          UpdateNodes();
        }
      }
    }

    /** The dispatch on the frame type. */
    method OnControlFrame(now: int, f: Frame)
      requires Valid()
      modifies this, stations, scanners, prev, changes
      ensures View() == Spec.Receive(old(View()).(clock := now), now, f).c
      ensures sent == old(sent) + Spec.Receive(old(View()).(clock := now), now, f).frames
    {
      At(now);
      match f.msg
      case Scan => HandleScan(now, f.src);
      case ScanResp(info) => HandleScanResp(f.src, info);
      case Connect(node) => HandleConnect(now, f.src, node);
      case Sync(info) => HandleSyncNetwork(now, info, f.stamp);
      case Heartbeat(bssid, _) => HandleRelayHeartbeat(now, f.src, bssid);
      case Bye(bssid, ipv4) => HandleRelayBye(f.src, bssid, ipv4);
    }

    // ---- the timer ----

    method Reap(now: int)
      requires Valid()
      modifies stations
      ensures View() == Spec.Reaped(old(View()), now)
    {
      ghost var was := stations[..];
      for i := 0 to STATIONS
        invariant forall k :: 0 <= k < i ==> stations[k] == Spec.ReapSlot(was[k], now)
        invariant forall k :: i <= k < STATIONS ==> stations[k] == was[k]
      {
        var s := stations[i];
        if s.active && s.connected && now - s.lastSeen >= PEER_TIMEOUT {
          stations[i] := s.(active := false, connected := false, node := ZERO_NODE);
        }
      }
      assert stations[..] == Spec.Reap(was, now);
    }

    method Tick(now: int)
      requires Valid()
      modifies this, stations, prev, changes
      ensures View() == Spec.Tick(old(View()).(clock := now), now).c
      ensures sent == old(sent) + Spec.Tick(old(View()).(clock := now), now).frames
    {
      At(now);
      Ticked(now);
      if now - lastBeacon < BEACON_INTERVAL {
        return;
      }
      Beaconed(now);
      if state == AccessPointCreated {
        Reap(now);
        UpdateNodes();
      } else if state == Station || state == StationConnected {
        TickStation(now);
      }
    }

    /** The station's half of the timer: heartbeat, then the host's timeout. */
    method TickStation(now: int)
      requires Valid()
      modifies this
      ensures View() == Spec.TickStation(old(View()), now).c
      ensures sent == old(sent) + Spec.TickStation(old(View()), now).frames
    {
      if joinActive {
        var host := if state == StationConnected && net.nodeCount > 0 then net.nodes[0].ip else 0;
        if host != 0 {
          SendFrame(host, Heartbeat(joinTarget, ip));
        }
      }
      if state == StationConnected && now - hostLastSeen >= PEER_TIMEOUT {
        LeaveSession(6);
      }
    }

    // ---- calls of the game; `ok` is false when the game gets an error ----

    method Initialize(now: int)
      requires Valid()
      modifies this, stations, prev, changes
      ensures View() == Spec.DoInitialize(old(View()).(clock := now)) && sent == old(sent)
    {
      At(now);
      SetReason(0);
      ClearScan();
      ResetStations();
      InitNodeStateChange();
      SetState(Initialized);
    }

    method Finalize(now: int)
      requires Valid()
      modifies this, stations
      ensures View() == Spec.DoFinalize(old(View()).(clock := now)) && sent == old(sent)
    {
      At(now);
      ClearScan();
      EndJoin();
      ResetStations();
      SetState(Down);
    }

    method OpenAccessPoint(now: int) returns (ok: bool)
      requires Valid()
      modifies this, stations
      ensures View() == Spec.DoOpen(old(View()).(clock := now), AccessPoint) && sent == old(sent)
      ensures ok == (old(state) != Down)
    {
      At(now);
      SetReason(0);
      if state == Down {
        return false;
      }
      ResetStations();
      SetState(AccessPoint);
      ok := true;
    }

    method Configure(info: NetworkInfo, name: seq<Byte>, localVersion: int)
      requires Valid()
      modifies this`net, this`version, this`selfName, this`advSize, this`advData
      ensures View() == old(View()).(net := info, version := localVersion, selfName := name,
                                     advSize := 0, advData := ZeroAdvertise())
    {
      version, net, selfName, advSize, advData := localVersion, info, name, 0, ZeroAdvertise();
    }

    method CreateNetwork(now: int, settings: NetworkSettings, name: seq<Byte>, localVersion: int) returns (ok: bool)
      requires Valid()
      modifies this, stations, prev, changes
      ensures View() == Spec.DoCreateNetwork(old(View()).(clock := now), settings, name, localVersion).c
      ensures sent == old(sent) + Spec.DoCreateNetwork(old(View()).(clock := now), settings, name, localVersion).frames
      ensures ok == (old(state) == AccessPoint)
    {
      At(now);
      if state != AccessPoint {
        return false;
      }
      ghost var c := View();
      var channel := if settings.channel != 0 then settings.channel else 6;
      Configure(ZeroNetwork().(settings := settings.(channel := channel), bssid := FakeMac(ip)), name, localVersion);
      ResetStations();
      InitNodeStateChange();
      SetState(AccessPointCreated);
      assert View() == Spec.Created(c, settings, name, localVersion);
      UpdateNodes();
      ok := true;
    }

    method DestroyNetwork(now: int)
      requires Valid()
      modifies this, stations
      ensures View() == Spec.DoDestroyNetwork(old(View()).(clock := now)).c
      ensures sent == old(sent) + Spec.DoDestroyNetwork(old(View()).(clock := now)).frames
    {
      At(now);
      var count := StationCount();
      if count > 0 {
        SendFrame(Spec.Broadcast(ip), Bye(net.bssid, ip));
      }
      ResetStations();
      SetState(AccessPoint);
    }

    method SetAdvertiseData(now: int, data: seq<Byte>) returns (ok: bool)
      requires Valid()
      modifies this, prev, changes
      ensures View() == Spec.DoSetAdvertiseData(old(View()).(clock := now), data).c
      ensures sent == old(sent) + Spec.DoSetAdvertiseData(old(View()).(clock := now), data).frames
      ensures ok == (|data| <= ADVERTISE_MAX)
    {
      At(now);
      if |data| > ADVERTISE_MAX {
        return false;
      }
      ghost var c := View();
      advData := data + advData[|data|..];
      advSize := |data|;
      net := net.(advSize := advSize);
      assert View() == Spec.Advertising(c, data);
      UpdateNodes();
      ok := true;
    }

    method Reject(now: int, nodeId: nat)
      requires Valid()
      modifies this, stations, prev, changes
      ensures View() == Spec.DoReject(old(View()).(clock := now), nodeId).c
      ensures sent == old(sent) + Spec.DoReject(old(View()).(clock := now), nodeId).frames
    {
      At(now);
      if nodeId < 1 || nodeId >= NODES {
        return;
      }
      ghost var c := View();
      stations[nodeId - 1] := stations[nodeId - 1].(active := false, connected := false);
      assert View() == Spec.Rejected(c, nodeId);
      UpdateNodes();
    }

    method OpenStation(now: int) returns (ok: bool)
      requires Valid()
      modifies this, stations
      ensures View() == Spec.DoOpen(old(View()).(clock := now), Station) && sent == old(sent)
      ensures ok == (old(state) != Down)
    {
      At(now);
      SetReason(0);
      if state == Down {
        return false;
      }
      ResetStations();
      SetState(Station);
      ok := true;
    }

    /** CloseAccessPoint and CloseStation do the same to the control plane. */
    method Close(now: int) returns (ok: bool)
      requires Valid()
      modifies this, stations
      ensures View() == Spec.DoClose(old(View()).(clock := now)) && sent == old(sent)
      ensures ok == (old(state) != Down)
    {
      At(now);
      if state == Down {
        return false;
      }
      ResetStations();
      SetState(Initialized);
      ok := true;
    }

    /** The first locked section of Connect. */
    method ConnectBegin(now: int, target: NetworkInfo) returns (ok: bool)
      requires Valid()
      modifies this
      ensures View() == Spec.DoConnectBegin(old(View()).(clock := now), target) && sent == old(sent)
      ensures ok == (old(state) != Down && target.nodeCount != 0)
    {
      At(now);
      if state == Down {
        return false;
      }
      if target.nodeCount == 0 {
        return false;
      }
      ClearScan();
      joinActive, joinTarget := true, target.bssid;
      ok := true;
    }

    method Disconnect(now: int)
      requires Valid()
      modifies this, stations
      ensures View() == Spec.DoDisconnect(old(View()).(clock := now)).c
      ensures sent == old(sent) + Spec.DoDisconnect(old(View()).(clock := now)).frames
    {
      At(now);
      if joinActive && net.nodeCount > 0 {
        SendFrame(net.nodes[0].ip, Bye(joinTarget, ip));
      }
      EndJoin();
      ResetStations();
      SetState(Station);
    }

    /** Hands out the description and the change records below `capacity`, clearing those. */
    method GetNetworkInfoLatestUpdate(now: int, capacity: nat) returns (ok: bool, info: NetworkInfo, updates: seq<Change>)
      requires Valid()
      modifies this`clock, changes
      ensures View() == Spec.DoReadUpdates(old(View()).(clock := now), capacity)
      ensures ok == (capacity <= NODES && Spec.Attached(old(View())))
      ensures ok ==> info == old(net) && updates == old(changes[..])[..capacity]
    {
      At(now);
      info, updates := net, [];
      if capacity > NODES {
        return false, info, updates;
      }
      if state != AccessPointCreated && state != StationConnected {
        return false, info, updates;
      }
      ghost var was := changes[..];
      for i := 0 to capacity
        modifies changes
        invariant updates == was[..i]
        invariant forall k :: 0 <= k < i ==> changes[k] == NO_CHANGE
        invariant forall k :: i <= k < NODES ==> changes[k] == was[k]
      {
        updates := updates + [changes[i]];
        changes[i] := NO_CHANGE;
      }
      assert changes[..] == Spec.ClearChanges(was, capacity);
      ok := true;
    }

    method SetStationAcceptPolicy(now: int, policy: nat)
      requires Valid()
      modifies this
      ensures View() == old(View()).(clock := now, net := old(net).(policy := policy)) && sent == old(sent)
    {
      At(now);
      net := net.(policy := policy);
    }

    /** The first locked section of Scan. */
    method ScanBegin(now: int, filter: nat) returns (ok: bool)
      requires Valid()
      modifies this
      ensures View() == Spec.DoCall(old(View()).(clock := now), Spec.ScanBegin(filter)).c && sent == old(sent)
      ensures ok == (old(state) != Down && old(state) != Error)
    {
      At(now);
      if state == Down || state == Error {
        return false;
      }
      scanFilter, scanResults := filter, [];
      ok := true;
    }

    /** One broadcast of Scan. */
    method ScanSend(now: int)
      requires Valid()
      modifies this
      ensures View() == Spec.DoCall(old(View()).(clock := now), Spec.ScanSend).c
      ensures sent == old(sent) + Spec.DoCall(old(View()).(clock := now), Spec.ScanSend).frames
    {
      At(now);
      SendFrame(Spec.Broadcast(ip), Message.Scan);
    }

    /** One Connect frame to the host. */
    method ConnectSend(now: int, host: Ip, me: NodeInfo)
      requires Valid()
      modifies this
      ensures View() == Spec.DoCall(old(View()).(clock := now), Spec.ConnectSend(host, me)).c
      ensures sent == old(sent) + Spec.DoCall(old(View()).(clock := now), Spec.ConnectSend(host, me)).frames
    {
      At(now);
      SendFrame(host, Message.Connect(me.(ip := ip, mac := FakeMac(ip), nodeId := 0, connected := true)));
    }

    /** The last locked section of a Connect that timed out. */
    method ConnectTimeout(now: int)
      requires Valid()
      modifies this
      ensures View() == old(View()).(clock := now, joinActive := false, syncValid := false) && sent == old(sent)
    {
      At(now);
      EndJoin();
    }

    method IsKnownSessionPeer(address: Ip) returns (known: bool)
      requires Valid()
      ensures known == Spec.KnownPeer(View(), address)
    {
      if state != AccessPointCreated && state != Station && state != StationConnected {
        return true;
      }
      if address == ip {
        return true;
      }
      known := Lists(address);
    }

    // ---- the object as a whole ----

    method PerformCall(now: int, call: Spec.Call)
      requires Valid()
      modifies this, stations, scanners, prev, changes
      ensures View() == Spec.DoCall(old(View()).(clock := now), call).c
      ensures sent == old(sent) + Spec.DoCall(old(View()).(clock := now), call).frames
    {
      match call {
        case Initialize => Initialize(now);
        case Finalize => Finalize(now);
        case OpenAccessPoint => var _ := OpenAccessPoint(now);
        case CloseAccessPoint => var _ := Close(now);
        case CreateNetwork(settings, name, version) => var _ := CreateNetwork(now, settings, name, version);
        case DestroyNetwork => DestroyNetwork(now);
        case SetAdvertiseData(data) => var _ := SetAdvertiseData(now, data);
        case SetStationAcceptPolicy(policy) => SetStationAcceptPolicy(now, policy);
        case Reject(nodeId) => Reject(now, nodeId);
        case OpenStation => var _ := OpenStation(now);
        case CloseStation => var _ := Close(now);
        case ScanBegin(filter) => var _ := ScanBegin(now, filter);
        case ScanSend => ScanSend(now);
        case ConnectBegin(target) => var _ := ConnectBegin(now, target);
        case ConnectSend(host, me) => ConnectSend(now, host, me);
        case ConnectTimeout => ConnectTimeout(now);
        case Disconnect => Disconnect(now);
        case ReadUpdates(capacity) => var _, _, _ := GetNetworkInfoLatestUpdate(now, capacity);
      }
    }

    /** Any step of the object is the step of the console it stands for, so everything proved
        of runs of consoles holds of objects; in particular the invariant is kept. */
    method Perform(now: int, e: Spec.Event)
      requires Valid()
      modifies this, stations, scanners, prev, changes
      ensures View() == Spec.Step(old(View()), now, e).c
      ensures sent == old(sent) + Spec.Step(old(View()), now, e).frames
      ensures old(LdnInvariants.Inv(View()) && clock <= now) ==> LdnInvariants.Inv(View())
    {
      if LdnInvariants.Inv(View()) && clock <= now {
        LdnInvariants.StepInv(View(), now, e);
      }
      match e {
        case Receives(f) => OnControlFrame(now, f);
        case Ticks => Tick(now);
        case Calls(call) => PerformCall(now, call);
      }
    }
  }
}

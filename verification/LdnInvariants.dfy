/** What every step of a console keeps. */
module LdnInvariants {
  import opened Basics
  import opened LdnTypes
  import opened LdnConsole
  import ScannerTable

  /** A slot is active iff connected, and an active slot's node carries the slot's address. */
  ghost predicate SlotOk(s: StationSlot, i: nat) {
    && s.active == s.connected
    && (s.active ==> s.node.ip == s.src && s.node.mac == FakeMac(s.src) && s.node.nodeId == i + 1 && s.node.connected)
  }

  ghost predicate TableOk(st: Stations) {
    && (forall i :: 0 <= i < STATIONS ==> SlotOk(st[i], i))
    && (forall i, j :: 0 <= i < j < STATIONS && st[i].active && st[j].active ==> st[i].src != st[j].src)
  }

  ghost predicate TableEmpty(st: Stations) {
    forall i :: 0 <= i < STATIONS ==> !st[i].active
  }

  /** Stations exist only while hosting. */
  ghost predicate HostOk(c: Console) {
    TableOk(c.stations) && (c.state != AccessPointCreated ==> TableEmpty(c.stations))
  }

  /** While hosting, the cached description equals a fresh rebuild and carries the own bssid. */
  ghost predicate CacheOk(c: Console) {
    c.state == AccessPointCreated ==> c.net == Build(c) && c.net.bssid == FakeMac(c.ip)
  }

  /** In a network, the remembered flags mirror the node list. */
  ghost predicate MirrorOk(c: Console) {
    Attached(c) ==> c.prev == ConnectedFlags(c.net.nodes)
  }

  /** The last beacon came within the timeout of every peer still in the session, and the last
      Tick call within the beacon interval of the last beacon. */
  ghost predicate TimingOk(c: Console) {
    && c.lastBeacon <= c.clock && c.lastTick <= c.clock && c.lastTick < c.lastBeacon + BEACON_INTERVAL
    && (forall i :: 0 <= i < STATIONS && c.stations[i].active ==>
          c.lastBeacon < c.stations[i].lastSeen + PEER_TIMEOUT && c.stations[i].lastSeen <= c.clock)
    && (c.state == StationConnected ==> c.lastBeacon < c.hostLastSeen + PEER_TIMEOUT && c.hostLastSeen <= c.clock)
  }

  ghost predicate Inv(c: Console) {
    HostOk(c) && CacheOk(c) && MirrorOk(c) && TimingOk(c)
  }

  lemma {:induction false} NewConsoleInv(ip: Ip)
    ensures Inv(NewConsole(ip))
  {
  }

  // ---- what the description lists ----

  /** A live station of slot i is listed behind the own node and the live stations of the
      slots before it; the list has no other entry. */
  lemma {:induction false} LiveNodeAt(st: seq<StationSlot>, n: nat, i: nat)
    requires i < n <= |st| && Live(st[i])
    ensures CountLive(st[..i]) < |LiveNodes(st, n)|
    ensures LiveNodes(st, n)[CountLive(st[..i])] == st[i].node.(nodeId := i + 1, connected := true)
    decreases n
  {
    LiveNodesCount(st, n - 1);
    if i < n - 1 {
      LiveNodeAt(st, n - 1, i);
    }
  }

  lemma {:induction false} LiveNodesCount(st: seq<StationSlot>, n: nat)
    requires n <= |st|
    ensures |LiveNodes(st, n)| == CountLive(st[..n])
  {
    if n > 0 {
      LiveNodesCount(st, n - 1);
      assert st[..n][..n - 1] == st[..n - 1];
    }
  }

  /** Which slot an entry of the list comes from. */
  lemma {:induction false} LiveNodeFrom(st: seq<StationSlot>, n: nat, k: nat) returns (i: nat)
    requires n <= |st| && k < |LiveNodes(st, n)|
    ensures i < n && Live(st[i]) && LiveNodes(st, n)[k] == st[i].node.(nodeId := i + 1, connected := true)
    decreases n
  {
    if Live(st[n - 1]) && k == |LiveNodes(st, n)| - 1 {
      i := n - 1;
    } else {
      i := LiveNodeFrom(st, n - 1, k);
    }
  }

  /** The description of a host: own node first, station i at the rank of its slot among the
      live ones, zeros behind, and the count to match. */
  lemma {:induction false} HostDescription(c: Console, i: nat)
    requires Inv(c) && c.state == AccessPointCreated && i < STATIONS
    ensures c.net.bssid == FakeMac(c.ip)
    ensures c.net.nodes[0] == SelfNode(c)
    ensures c.net.nodeCount == 1 + CountLive(c.stations)
    ensures c.stations[i].active ==>
              var rank := 1 + CountLive(c.stations[..i]);
              rank < c.net.nodeCount && c.net.nodes[rank] == c.stations[i].node
    ensures forall k :: c.net.nodeCount <= k < NODES ==> c.net.nodes[k] == ZERO_NODE
  {
    LiveNodesCount(c.stations, STATIONS);
    assert c.stations[..STATIONS] == c.stations;
    if c.stations[i].active {
      assert SlotOk(c.stations[i], i);
      LiveNodeAt(c.stations, STATIONS, i);
    }
  }

  // ---- rebuilding and syncing ----

  lemma {:induction false} BuildIdempotent(c: Console)
    ensures Build(c.(net := Build(c))) == Build(c)
  {
    var b := Build(c);
    if c.advSize > 0 {
      assert c.advData[..c.advSize] + b.advData[c.advSize..] == b.advData;
    }
  }

  lemma {:induction false} LiveNodesDepend(s: seq<StationSlot>, t: seq<StationSlot>, n: nat)
    requires n <= |s| == |t|
    requires forall i :: 0 <= i < n ==> Live(s[i]) == Live(t[i]) && s[i].node == t[i].node
    ensures LiveNodes(s, n) == LiveNodes(t, n)
  {
    if n > 0 {
      LiveNodesDepend(s, t, n - 1);
    }
  }

  lemma {:induction false} CountLiveNext(st: seq<StationSlot>, n: nat)
    requires n < |st|
    ensures CountLive(st[..n + 1]) == CountLive(st[..n]) + if Live(st[n]) then 1 else 0
  {
    assert st[..n + 1][..n] == st[..n];
  }

  /** Frame f is the Sync for slot i. */
  ghost predicate SyncFor(f: Frame, c: Console, i: nat)
    requires i < STATIONS
  {
    f.src == c.ip && f.dst == c.stations[i].src && f.msg == Sync(c.net)
  }

  /** Slot i is the live one with k live slots before it. */
  ghost predicate Ranked(st: Stations, i: nat, k: nat) {
    i < STATIONS && Live(st[i]) && CountLive(st[..i]) == k
  }

  ghost predicate HasRank(st: Stations, n: nat, k: nat) {
    exists i: nat :: i < n && Ranked(st, i, k)
  }

  /** The frames `fs` are one Sync for each live station among the first n, in slot order, and
      nothing else. */
  ghost predicate OneSyncEach(fs: seq<Frame>, c: Console, n: nat)
    requires n <= STATIONS
  {
    && |fs| == CountLive(c.stations[..n])
    && (forall i: nat, k: nat | i < n && Ranked(c.stations, i, k) :: k < |fs| && SyncFor(fs[k], c, i))
    && (forall k: nat | k < |fs| :: HasRank(c.stations, n, k))
  }

  lemma {:induction false} EachNext(fs: seq<Frame>, c: Console, n: nat, f: Frame)
    requires n < STATIONS && OneSyncEach(fs, c, n) && (Live(c.stations[n]) ==> SyncFor(f, c, n))
    ensures OneSyncEach(if Live(c.stations[n]) then fs + [f] else fs, c, n + 1)
  {
    CountLiveNext(c.stations, n);
    var all, m := if Live(c.stations[n]) then fs + [f] else fs, n + 1;
    forall k: nat | k < |all| ensures HasRank(c.stations, m, k) {
      if k < |fs| {
        assert HasRank(c.stations, n, k);
        var i: nat :| i < n && Ranked(c.stations, i, k);
      } else {
        assert Ranked(c.stations, n, k);
      }
    }
  }

  lemma {:induction false} SyncToEach(o: Out, n: nat)
    requires n <= STATIONS
    ensures o.frames <= SyncTo(o, n).frames
    ensures OneSyncEach(SyncTo(o, n).frames[|o.frames|..], o.c, n)
  {
    if n == 0 {
      assert o.c.stations[..0] == [];
    } else {
      SyncToEach(o, n - 1);
      var before, all := SyncTo(o, n - 1).frames, SyncTo(o, n).frames;
      if Live(o.c.stations[n - 1]) {
        EachNext(before[|o.frames|..], o.c, n - 1, all[|before|]);
        assert all[|o.frames|..] == before[|o.frames|..] + [all[|before|]];
      } else {
        EachNext(before[|o.frames|..], o.c, n - 1, Frame(0, 0, 0, Scan));
      }
    }
  }

  /** UpdateNodes sends the rebuilt description once to each live station, at the address it
      registered with, and nothing else. */
  lemma {:induction false} UpdateNodesSends(o: Out)
    ensures o.frames <= UpdateNodes(o).frames
    ensures OneSyncEach(UpdateNodes(o).frames[|o.frames|..], UpdateNodes(o).c, STATIONS)
  {
    SyncToEach(Out(o.c.(net := Build(o.c)), o.frames), STATIONS);
  }

  /** The frame is a description of `c`, which has a live station. */
  ghost predicate IsSyncOf(f: Frame, c: Console) {
    f.src == c.ip && f.msg == Sync(c.net) && exists i :: 0 <= i < STATIONS && Live(c.stations[i])
  }

  lemma {:induction false} UpdateNodesFrames(o: Out)
    ensures o.frames <= UpdateNodes(o).frames
    ensures forall k :: |o.frames| <= k < |UpdateNodes(o).frames| ==> IsSyncOf(UpdateNodes(o).frames[k], UpdateNodes(o).c)
  {
    UpdateNodesSends(o);
    var all, c := UpdateNodes(o).frames, UpdateNodes(o).c;
    var fs := all[|o.frames|..];
    forall k | |o.frames| <= k < |all| ensures IsSyncOf(all[k], c) {
      assert fs[k - |o.frames|] == all[k];
      var rank := k - |o.frames|;
      assert HasRank(c.stations, STATIONS, rank);
      var i: nat :| i < STATIONS && Ranked(c.stations, i, rank);
    }
  }

  /** UpdateNodes restores the cache and the mirror. */
  lemma {:induction false} UpdateNodesInv(o: Out)
    requires HostOk(o.c) && TimingOk(o.c)
    requires o.c.state == AccessPointCreated ==> o.c.net.bssid == FakeMac(o.c.ip)
    ensures Inv(UpdateNodes(o).c)
  {
    BuildIdempotent(o.c);
    var u := UpdateNodes(o).c;
    assert Build(u) == Build(o.c.(net := Build(o.c)));
  }

  // ---- the steps ----

  /** A change outside everything the invariant reads. */
  ghost predicate SameCore(c: Console, d: Console) {
    && c.ip == d.ip && c.state == d.state && c.net == d.net && c.version == d.version && c.selfName == d.selfName
    && c.advSize == d.advSize && c.advData == d.advData && c.stations == d.stations && c.prev == d.prev
    && c.lastBeacon == d.lastBeacon && c.lastTick == d.lastTick && c.hostLastSeen == d.hostLastSeen
    && c.clock == d.clock
  }

  lemma {:induction false} SameCoreInv(c: Console, d: Console)
    requires Inv(c) && SameCore(c, d)
    ensures Inv(d)
  {
  }

  lemma {:induction false} ClockInv(c: Console, now: int)
    requires Inv(c) && c.clock <= now
    ensures Inv(c.(clock := now))
  {
    assert Build(c.(clock := now)) == Build(c);
  }

  /** Giving `src` the slot found for it keeps the table in order. */
  lemma {:induction false} AdmitTable(c: Console, now: int, src: Ip, node: NodeInfo)
    requires TableOk(c.stations) && SlotFor(c.stations, src) >= 0
    ensures TableOk(Admitted(c, now, src, node).stations)
  {
    var slot := SlotFor(c.stations, src);
    var st' := Admitted(c, now, src, node).stations;
    assert SlotOk(st'[slot], slot);
  }

  lemma {:induction false} ConnectInv(c: Console, now: int, src: Ip, node: NodeInfo)
    requires Inv(c) && c.clock == now
    ensures Inv(HandleConnect(c, now, src, node).c)
  {
    var slot := SlotFor(c.stations, src);
    if c.state == AccessPointCreated && slot >= 0
       && (ScannerTable.Recent(c.scanners, now, src) || FindStation(c.stations, src) >= 0)
    {
      AdmitTable(c, now, src, node);
      UpdateNodesInv(Out(Admitted(c, now, src, node), []));
    }
  }

  lemma {:induction false} SyncInv(c: Console, now: int, info: NetworkInfo, stamp: Stamp)
    requires Inv(c) && c.clock == now
    ensures Inv(HandleSync(c, now, info, stamp))
  {
  }

  lemma {:induction false} HeartbeatInv(c: Console, now: int, src: Ip, bssid: Mac)
    requires Inv(c) && c.clock == now
    ensures Inv(HandleHeartbeat(c, now, src, bssid))
  {
    var d := HandleHeartbeat(c, now, src, bssid);
    LiveNodesDepend(c.stations, d.stations, STATIONS);
    assert Build(d) == Build(c);
  }

  lemma {:induction false} ByeInv(c: Console, src: Ip, bssid: Mac, ipv4: Ip)
    requires Inv(c)
    ensures Inv(HandleBye(c, src, bssid, ipv4).c)
  {
    var at := FindStation(c.stations, src);
    if c.state == AccessPointCreated && at >= 0 {
      UpdateNodesInv(Out(Dropped(c, at), []));
    }
  }

  lemma {:induction false} TickInv(c: Console, now: int)
    requires Inv(c) && c.clock == now
    ensures Inv(Tick(c, now).c)
  {
    if now - c.lastBeacon < BEACON_INTERVAL {
      assert Build(c.(lastTick := now)) == Build(c);
    } else if c.state == AccessPointCreated {
      ReapInv(c.(lastTick := now, lastBeacon := now), c, now);
    }
  }

  lemma {:induction false} ReapInv(d: Console, c: Console, now: int)
    requires Inv(c) && c.clock == now && c.state == AccessPointCreated
    requires d == c.(lastTick := now, lastBeacon := now)
    ensures Inv(UpdateNodes(Out(Reaped(d, now), [])).c)
  {
    UpdateNodesInv(Out(Reaped(d, now), []));
  }

  lemma {:induction false} CreateInv(c: Console, settings: NetworkSettings, name: seq<Byte>, version: int)
    requires Inv(c)
    ensures Inv(DoCreateNetwork(c, settings, name, version).c)
  {
    if c.state == AccessPoint {
      UpdateNodesInv(Out(Created(c, settings, name, version), []));
    }
  }

  lemma {:induction false} AdvertiseInv(c: Console, data: seq<Byte>)
    requires Inv(c)
    ensures Inv(DoSetAdvertiseData(c, data).c)
  {
    if |data| <= ADVERTISE_MAX {
      UpdateNodesInv(Out(Advertising(c, data), []));
    }
  }

  lemma {:induction false} RejectInv(c: Console, nodeId: nat)
    requires Inv(c)
    ensures Inv(DoReject(c, nodeId).c)
  {
    if 1 <= nodeId < NODES {
      UpdateNodesInv(Out(Rejected(c, nodeId), []));
    }
  }

  /** Calls that touch nothing the invariant reads. */
  ghost predicate Quiet(c: Console, call: Call) {
    || call.ReadUpdates? || call.ScanBegin? || call.ScanSend? || call.ConnectBegin? || call.ConnectSend?
    || call.ConnectTimeout? || (c.state == Down && (call.OpenAccessPoint? || call.OpenStation?))
  }

  lemma {:induction false} QuietInv(c: Console, call: Call)
    requires Inv(c) && Quiet(c, call)
    ensures Inv(DoCall(c, call).c)
  {
    SameCoreInv(c, DoCall(c, call).c);
  }

  lemma {:induction false} CallInv(c: Console, call: Call)
    requires Inv(c)
    ensures Inv(DoCall(c, call).c)
  {
    if Quiet(c, call) {
      QuietInv(c, call);
    } else {
      match call
      case CreateNetwork(settings, name, version) => CreateInv(c, settings, name, version);
      case SetAdvertiseData(data) => AdvertiseInv(c, data);
      case Reject(nodeId) => RejectInv(c, nodeId);
      case SetStationAcceptPolicy(policy) =>
        assert Build(c.(net := c.net.(policy := policy))) == Build(c).(policy := policy);
      case _ => ResetInv(c, call);
    }
  }

  /** The calls that empty the table and move to a state outside any network. */
  lemma {:induction false} ResetInv(c: Console, call: Call)
    requires Inv(c) && !Quiet(c, call)
    requires !call.CreateNetwork? && !call.SetAdvertiseData? && !call.Reject? && !call.SetStationAcceptPolicy?
    ensures Inv(DoCall(c, call).c)
  {
  }

  lemma {:induction false} ReceiveInv(c: Console, now: int, f: Frame)
    requires Inv(c) && c.clock == now
    ensures Inv(Receive(c, now, f).c)
  {
    match f.msg
    case Scan => SameCoreInv(c, Receive(c, now, f).c);
    case ScanResp(info) => SameCoreInv(c, Receive(c, now, f).c);
    case Connect(node) => ConnectInv(c, now, f.src, node);
    case Sync(info) => SyncInv(c, now, info, f.stamp);
    case Heartbeat(bssid, _) => HeartbeatInv(c, now, f.src, bssid);
    case Bye(bssid, ipv4) => ByeInv(c, f.src, bssid, ipv4);
  }

  /** The invariant holds in every reachable state. */
  lemma {:induction false} StepInv(c: Console, now: int, e: Event)
    requires Inv(c) && c.clock <= now
    ensures Inv(Step(c, now, e).c)
  {
    var c' := c.(clock := now);
    ClockInv(c, now);
    match e
    case Receives(f) => ReceiveInv(c', now, f);
    case Ticks => TickInv(c', now);
    case Calls(call) => CallInv(c', call);
  }
}

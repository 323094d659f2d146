/** One console as a state machine: what every locked section of the control plane does to
    the console's memory, and the frames it puts on the relay. */
module LdnConsole {
  import opened Basics
  import opened LdnTypes
  import LanFrame
  import ScannerTable

  /** The console after a step and the frames sent so far, in order. */
  datatype Out = Out(c: Console, frames: seq<Frame>)

  function Send(o: Out, dst: Ip, msg: Message): Out {
    var stamp := LanFrame.NextStamp(o.c.txSeq);
    Out(o.c.(txSeq := stamp), o.frames + [Frame(o.c.ip, dst, stamp, msg)])
  }

  // ---- the station table ----

  predicate Live(s: StationSlot) {
    s.active && s.connected
  }

  /** Index of the first active slot of `ip`, or -1. */
  function FindStation(st: seq<StationSlot>, ip: Ip, i: nat := 0): (r: int)
    requires i <= |st|
    ensures r == -1 || i <= r < |st|
    ensures r >= 0 ==> st[r].active && st[r].src == ip
    ensures r < 0 ==> forall k :: i <= k < |st| ==> !(st[k].active && st[k].src == ip)
    decreases |st| - i
  {
    if i == |st| then -1 else if st[i].active && st[i].src == ip then i else FindStation(st, ip, i + 1)
  }

  /** Index of the first inactive slot, or -1. */
  function FindFree(st: seq<StationSlot>, i: nat := 0): (r: int)
    requires i <= |st|
    ensures r == -1 || i <= r < |st|
    ensures r >= 0 ==> !st[r].active
    ensures r < 0 ==> forall k :: i <= k < |st| ==> st[k].active
    decreases |st| - i
  {
    if i == |st| then -1 else if !st[i].active then i else FindFree(st, i + 1)
  }

  function CountLive(st: seq<StationSlot>): (n: nat)
    ensures n <= |st|
    ensures n == |st| <==> forall k :: 0 <= k < |st| ==> Live(st[k])
  {
    if st == [] then 0
    else CountLive(st[..|st| - 1]) + if Live(st[|st| - 1]) then 1 else 0
  }

  function NoStations(st: Stations): Stations {
    seq(STATIONS, i requires 0 <= i < STATIONS => st[i].(active := false, connected := false, node := ZERO_NODE))
  }

  // ---- the derived network description ----

  function SelfNode(c: Console): NodeInfo {
    NodeInfo(c.ip, FakeMac(c.ip), 0, true, c.selfName, c.version)
  }

  /** The nodes of the live slots among the first `n`, in node-id order. */
  function LiveNodes(st: seq<StationSlot>, n: nat): (r: seq<NodeInfo>)
    requires n <= |st|
    ensures |r| <= n
  {
    if n == 0 then []
    else
      var before := LiveNodes(st, n - 1);
      if Live(st[n - 1]) then before + [st[n - 1].node.(nodeId := n, connected := true)] else before
  }

  function Padded(nodes: seq<NodeInfo>): Nodes
    requires |nodes| <= NODES
  {
    nodes + seq(NODES - |nodes|, _ => ZERO_NODE)
  }

  /** BuildNetwork: own node first, then the live stations, the rest zero. */
  function Build(c: Console): NetworkInfo {
    var nodes := [SelfNode(c)] + LiveNodes(c.stations, STATIONS);
    c.net.(nodes := Padded(nodes), nodeCount := |nodes|, advSize := c.advSize,
           advData := if c.advSize > 0 then c.advData[..c.advSize] + c.net.advData[c.advSize..] else ZeroAdvertise())
  }

  /** OnNetworkInfoChanged: every difference to the last seen flags leaves its bit. */
  function NoteChange(was: bool, now: bool, ch: Change): Change {
    if was == now then ch else if now then ch.(connect := true) else ch.(disconnect := true)
  }

  function ConnectedFlags(nodes: Nodes): Flags {
    seq(NODES, i requires 0 <= i < NODES => nodes[i].connected)
  }

  function Noted(prev: Flags, flags: Flags, ch: Changes): Changes {
    seq(NODES, i requires 0 <= i < NODES => NoteChange(prev[i], flags[i], ch[i]))
  }

  function NoteChanges(c: Console): Console {
    var flags := ConnectedFlags(c.net.nodes);
    c.(prev := flags, changes := Noted(c.prev, flags, c.changes))
  }

  function ForgetChanges(c: Console): Console {
    c.(prev := NoFlags(), changes := NoChanges())
  }

  /** One SyncNetwork to each live station among the first `n`. */
  function SyncTo(o: Out, n: nat): (r: Out)
    requires n <= STATIONS
    ensures r.c == o.c.(txSeq := r.c.txSeq)
  {
    if n == 0 then o
    else
      var before := SyncTo(o, n - 1);
      if Live(o.c.stations[n - 1]) then Send(before, o.c.stations[n - 1].src, Sync(o.c.net)) else before
  }

  /** Rebuilds the description, sends it to every live station and notes the changes. */
  function UpdateNodes(o: Out): (r: Out)
    ensures r.c == NoteChanges(o.c.(net := Build(o.c), txSeq := r.c.txSeq))
  {
    var synced := SyncTo(Out(o.c.(net := Build(o.c)), o.frames), STATIONS);
    Out(NoteChanges(synced.c), synced.frames)
  }

  // ---- frame handlers ----

  function HandleScan(c: Console, now: int, src: Ip): Out {
    if c.state != AccessPointCreated then Out(c, [])
    else
      var c' := c.(scanners := ScannerTable.Record(c.scanners, now, src));
      Send(Out(c', []), src, ScanResp(Build(c')))
  }

  function SameBssid(results: seq<NetworkInfo>, bssid: Mac, i: nat := 0): (r: int)
    requires i <= |results|
    ensures r == -1 || i <= r < |results|
    ensures r >= 0 ==> results[r].bssid == bssid
    ensures r < 0 ==> forall k :: i <= k < |results| ==> results[k].bssid != bssid
    decreases |results| - i
  {
    if i == |results| then -1 else if results[i].bssid == bssid then i else SameBssid(results, bssid, i + 1)
  }

  function HandleScanResp(c: Console, src: Ip, info: NetworkInfo): Console {
    if src == c.ip then c
    else if c.scanFilter != 0 && info.settings.localCommunicationId != c.scanFilter then c
    else
      var at := SameBssid(c.scanResults, info.bssid);
      if at >= 0 then c.(scanResults := c.scanResults[at := info])
      else if |c.scanResults| < SCAN_RESULTS_MAX then c.(scanResults := c.scanResults + [info])
      else c
  }

  /** The slot a Connect from `src` gets: its own, else a free one, else none (-1). */
  function SlotFor(st: seq<StationSlot>, src: Ip): (r: int)
    ensures r == -1 || 0 <= r < |st|
  {
    var own := FindStation(st, src);
    if own >= 0 then own else if CountLive(st) >= STATIONS then -1 else FindFree(st)
  }

  /** The table with `src` in its slot, its node carrying the tunnel address. */
  function Admitted(c: Console, now: int, src: Ip, node: NodeInfo): Console
    requires SlotFor(c.stations, src) >= 0
  {
    var slot := SlotFor(c.stations, src);
    var node' := node.(ip := src, mac := FakeMac(src), nodeId := slot + 1, connected := true);
    c.(stations := c.stations[slot := StationSlot(true, true, src, node', now)])
  }

  ghost function HandleConnect(c: Console, now: int, src: Ip, node: NodeInfo): Out {
    var slot := SlotFor(c.stations, src);
    if c.state != AccessPointCreated then Out(c, [])
    else if !ScannerTable.Recent(c.scanners, now, src) && FindStation(c.stations, src) < 0 then Out(c, [])
    else if slot < 0 then Out(c, [])
    else UpdateNodes(Out(Admitted(c, now, src, node), []))
  }

  /** The 16-bit distance behind the newest recorded stamp. */
  function Behind(newest: Stamp, stamp: Stamp): nat {
    (newest - stamp) % 0x1_0000
  }

  predicate Stale(c: Console, stamp: Stamp) {
    stamp != 0 && c.syncValid && Behind(c.syncSeq, stamp) < 256
  }

  predicate Confirms(info: NetworkInfo, ip: Ip) {
    exists i :: 0 <= i < info.nodeCount && info.nodes[i].connected && info.nodes[i].ip == ip
  }

  /** Takes the description over; a waiting station that it names is connected. */
  function ApplySync(c: Console, now: int, info: NetworkInfo): Console {
    var c' := c.(net := info, hostLastSeen := now);
    NoteChanges(if c'.state == Station && Confirms(info, c'.ip) then c'.(state := StationConnected) else c')
  }

  function HandleSync(c: Console, now: int, info: NetworkInfo, stamp: Stamp): Console {
    if c.state != Station && c.state != StationConnected then c
    else if Stale(c, stamp) then c
    else
      var c1 := if stamp != 0 then c.(syncSeq := stamp, syncValid := true) else c;
      if c1.joinActive && info.bssid != c1.joinTarget then c1 else ApplySync(c1, now, info)
  }

  function HandleHeartbeat(c: Console, now: int, src: Ip, bssid: Mac): Console {
    var at := FindStation(c.stations, src);
    if c.state == AccessPointCreated && bssid == c.net.bssid && at >= 0 then
      c.(stations := c.stations[at := c.stations[at].(lastSeen := now)])
    else c
  }

  function LeaveSession(c: Console, reason: nat): Console {
    c.(reason := reason, joinActive := false, syncValid := false, state := Station)
  }

  function Emptied(s: StationSlot): StationSlot {
    s.(active := false, connected := false, node := ZERO_NODE)
  }

  function Dropped(c: Console, at: nat): Console
    requires at < STATIONS
  {
    c.(stations := c.stations[at := Emptied(c.stations[at])])
  }

  function HandleBye(c: Console, src: Ip, bssid: Mac, ipv4: Ip): Out {
    var at := FindStation(c.stations, src);
    if c.state == StationConnected then
      if c.joinActive && bssid == c.joinTarget && ipv4 == c.net.nodes[0].ip then Out(LeaveSession(c, 3), [])
      else Out(c, [])
    else if c.state == AccessPointCreated && bssid == c.net.bssid && at >= 0 then
      UpdateNodes(Out(Dropped(c, at), []))
    else Out(c, [])
  }

  ghost function Receive(c: Console, now: int, f: Frame): Out {
    match f.msg
    case Scan => HandleScan(c, now, f.src)
    case ScanResp(info) => Out(HandleScanResp(c, f.src, info), [])
    case Connect(node) => HandleConnect(c, now, f.src, node)
    case Sync(info) => Out(HandleSync(c, now, info, f.stamp), [])
    case Heartbeat(bssid, _) => Out(HandleHeartbeat(c, now, f.src, bssid), [])
    case Bye(bssid, ipv4) => HandleBye(c, f.src, bssid, ipv4)
  }

  // ---- the timer ----

  function ReapSlot(s: StationSlot, now: int): StationSlot {
    if Live(s) && now - s.lastSeen >= PEER_TIMEOUT then Emptied(s) else s
  }

  function Reap(st: Stations, now: int): Stations {
    seq(STATIONS, i requires 0 <= i < STATIONS => ReapSlot(st[i], now))
  }

  function Reaped(c: Console, now: int): Console {
    c.(stations := Reap(c.stations, now))
  }

  /** A station's heartbeat to its host, and the host's timeout. */
  function TickStation(c: Console, now: int): Out {
    var host := if c.state == StationConnected && c.net.nodeCount > 0 then c.net.nodes[0].ip else 0;
    var o := if c.joinActive && host != 0 then Send(Out(c, []), host, Heartbeat(c.joinTarget, c.ip)) else Out(c, []);
    if c.state == StationConnected && now - c.hostLastSeen >= PEER_TIMEOUT then Out(LeaveSession(o.c, 6), o.frames)
    else o
  }

  function Tick(c0: Console, now: int): Out {
    if now - c0.lastBeacon < BEACON_INTERVAL then Out(c0.(lastTick := now), [])
    else
      var c := c0.(lastTick := now, lastBeacon := now);
      if c.state == AccessPointCreated then UpdateNodes(Out(Reaped(c, now), []))
      else if c.state == Station || c.state == StationConnected then TickStation(c, now)
      else Out(c, [])
  }

  // ---- calls of the game ----

  datatype Call =
    | Initialize
    | Finalize
    | OpenAccessPoint
    | CloseAccessPoint
    | CreateNetwork(settings: NetworkSettings, name: seq<Byte>, version: int)
    | DestroyNetwork
    | SetAdvertiseData(data: seq<Byte>)
    | SetStationAcceptPolicy(policy: nat)
    | Reject(nodeId: nat)
    | OpenStation
    | CloseStation
    | ScanBegin(filter: nat)
    | ScanSend
    | ConnectBegin(target: NetworkInfo)
    | ConnectSend(host: Ip, me: NodeInfo)
    | ConnectTimeout
    | Disconnect
    | ReadUpdates(capacity: nat)

  function Broadcast(ip: Ip): Ip {
    ip - ip % 0x1_0000 + 0xFFFF
  }

  function Created(c: Console, settings: NetworkSettings, name: seq<Byte>, version: int): Console {
    var channel := if settings.channel != 0 then settings.channel else 6;
    var net := ZeroNetwork().(settings := settings.(channel := channel), bssid := FakeMac(c.ip));
    ForgetChanges(c.(net := net, version := version, selfName := name, advSize := 0, advData := ZeroAdvertise(),
                     stations := NoStations(c.stations), state := AccessPointCreated))
  }

  function DoCreateNetwork(c: Console, settings: NetworkSettings, name: seq<Byte>, version: int): Out {
    if c.state != AccessPoint then Out(c, []) else UpdateNodes(Out(Created(c, settings, name, version), []))
  }

  function DoDestroyNetwork(c: Console): Out {
    var o := if CountLive(c.stations) > 0 then Send(Out(c, []), Broadcast(c.ip), Bye(c.net.bssid, c.ip)) else Out(c, []);
    Out(o.c.(stations := NoStations(c.stations), state := AccessPoint), o.frames)
  }

  function Advertising(c: Console, data: seq<Byte>): Console
    requires |data| <= ADVERTISE_MAX
  {
    c.(advData := data + c.advData[|data|..], advSize := |data|, net := c.net.(advSize := |data|))
  }

  function DoSetAdvertiseData(c: Console, data: seq<Byte>): Out {
    if |data| > ADVERTISE_MAX then Out(c, []) else UpdateNodes(Out(Advertising(c, data), []))
  }

  function Rejected(c: Console, nodeId: nat): Console
    requires 1 <= nodeId < NODES
  {
    c.(stations := c.stations[nodeId - 1 := c.stations[nodeId - 1].(active := false, connected := false)])
  }

  function DoReject(c: Console, nodeId: nat): Out {
    if nodeId < 1 || nodeId >= NODES then Out(c, []) else UpdateNodes(Out(Rejected(c, nodeId), []))
  }

  function DoDisconnect(c: Console): Out {
    var o := if c.joinActive && c.net.nodeCount > 0 then
               Send(Out(c, []), c.net.nodes[0].ip, Bye(c.joinTarget, c.ip))
             else Out(c, []);
    Out(o.c.(joinActive := false, syncValid := false, stations := NoStations(c.stations), state := Station), o.frames)
  }

  /** The change records below `capacity` are handed out and cleared. */
  function ClearChanges(ch: Changes, capacity: nat): Changes {
    seq(NODES, i requires 0 <= i < NODES => if i < capacity then NO_CHANGE else ch[i])
  }

  predicate Attached(c: Console) {
    c.state == AccessPointCreated || c.state == StationConnected
  }

  /** May game data of this sender reach the game? Outside a network there is nothing to check
      against. */
  predicate KnownPeer(c: Console, ip: Ip) {
    || (c.state != AccessPointCreated && c.state != Station && c.state != StationConnected)
    || ip == c.ip || Confirms(c.net, ip)
  }

  function DoInitialize(c: Console): Console {
    ForgetChanges(c.(reason := 0, scanFilter := 0, scanResults := [], stations := NoStations(c.stations), state := Initialized))
  }

  function DoFinalize(c: Console): Console {
    c.(scanFilter := 0, scanResults := [], joinActive := false, syncValid := false,
       stations := NoStations(c.stations), state := Down)
  }

  /** OpenAccessPoint and OpenStation. */
  function DoOpen(c: Console, target: CommState): Console {
    if c.state == Down then c.(reason := 0)
    else c.(reason := 0, stations := NoStations(c.stations), state := target)
  }

  /** CloseAccessPoint and CloseStation. */
  function DoClose(c: Console): Console {
    if c.state == Down then c else c.(stations := NoStations(c.stations), state := Initialized)
  }

  function DoConnectBegin(c: Console, target: NetworkInfo): Console {
    if c.state == Down || target.nodeCount == 0 then c
    else c.(scanFilter := 0, scanResults := [], joinActive := true, joinTarget := target.bssid)
  }

  function DoReadUpdates(c: Console, capacity: nat): Console {
    if capacity > NODES || !Attached(c) then c else c.(changes := ClearChanges(c.changes, capacity))
  }

  function DoCall(c: Console, call: Call): Out {
    match call
    case Initialize => Out(DoInitialize(c), [])
    case Finalize => Out(DoFinalize(c), [])
    case OpenAccessPoint => Out(DoOpen(c, AccessPoint), [])
    case CloseAccessPoint => Out(DoClose(c), [])
    case CreateNetwork(settings, name, version) => DoCreateNetwork(c, settings, name, version)
    case DestroyNetwork => DoDestroyNetwork(c)
    case SetAdvertiseData(data) => DoSetAdvertiseData(c, data)
    case SetStationAcceptPolicy(policy) => Out(c.(net := c.net.(policy := policy)), [])
    case Reject(nodeId) => DoReject(c, nodeId)
    case OpenStation => Out(DoOpen(c, Station), [])
    case CloseStation => Out(DoClose(c), [])
    case ScanBegin(filter) =>
      if c.state == Down || c.state == Error then Out(c, []) else Out(c.(scanFilter := filter, scanResults := []), [])
    case ScanSend => Send(Out(c, []), Broadcast(c.ip), Message.Scan)
    case ConnectBegin(target) => Out(DoConnectBegin(c, target), [])
    case ConnectSend(host, me) =>
      Send(Out(c, []), host, Message.Connect(me.(ip := c.ip, mac := FakeMac(c.ip), nodeId := 0, connected := true)))
    case ConnectTimeout => Out(c.(joinActive := false, syncValid := false), [])
    case Disconnect => DoDisconnect(c)
    case ReadUpdates(capacity) => Out(DoReadUpdates(c, capacity), [])
  }

  // ---- one step ----

  datatype Event = Receives(frame: Frame) | Ticks | Calls(call: Call)

  ghost function Step(c: Console, now: int, e: Event): Out {
    var c' := c.(clock := now);
    match e
    case Receives(f) => Receive(c', now, f)
    case Ticks => Tick(c', now)
    case Calls(call) => DoCall(c', call)
  }
}

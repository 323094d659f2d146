/** Wire and state types of the LDN control plane. */
module LdnTypes {
  import opened Basics

  /** A virtual IPv4 address, first octet in the top byte. */
  type Ip = x: int | 0 <= x < 0x1_0000_0000
  type Stamp = n: int | 0 <= n < 0x1_0000
  type Mac = m: seq<Byte> | |m| == 6 witness [0, 0, 0, 0, 0, 0]

  const NODES: nat := 8
  const STATIONS: nat := 7
  const SCANNERS: nat := 16
  const ADVERTISE_MAX: nat := 384
  const SCAN_RESULTS_MAX: nat := 8

  // Times are raw ticks of 19.2 MHz.
  const SECOND: int := 19200000
  const BEACON_INTERVAL: int := 5 * SECOND
  const PEER_TIMEOUT: int := 30 * SECOND
  const SCANNER_TIMEOUT: int := 30 * SECOND

  datatype CommState = Down | Initialized | AccessPoint | AccessPointCreated | Station | StationConnected | Error

  const ZERO_MAC: Mac := [0, 0, 0, 0, 0, 0]

  /** 02:00 followed by the address bytes as they lie in memory. */
  function FakeMac(ip: Ip): Mac {
    [2, 0, ip % 256, ip / 0x100 % 256, ip / 0x1_0000 % 256, ip / 0x100_0000]
  }

  /** The layout: 02:00, then the address with its last octet first. */
  lemma {:induction false} FakeMacBytes(ip: Ip)
    ensures FakeMac(ip)[0] == 2 && FakeMac(ip)[1] == 0
    ensures ip == FakeMac(ip)[2] as int + 0x100 * FakeMac(ip)[3] as int + 0x1_0000 * FakeMac(ip)[4] as int
                  + 0x100_0000 * FakeMac(ip)[5] as int
  {
    Bytes(ip);
  }

  lemma {:induction false} FakeMacInjective(a: Ip, b: Ip)
    requires FakeMac(a) == FakeMac(b)
    ensures a == b
  {
    Bytes(a);
    Bytes(b);
    assert FakeMac(a)[2] == FakeMac(b)[2] && FakeMac(a)[3] == FakeMac(b)[3];
    assert FakeMac(a)[4] == FakeMac(b)[4] && FakeMac(a)[5] == FakeMac(b)[5];
  }

  lemma {:induction false} Bytes(a: Ip)
    ensures a == a % 256 + 0x100 * (a / 0x100 % 256) + 0x1_0000 * (a / 0x1_0000 % 256) + 0x100_0000 * (a / 0x100_0000)
  {
  }

  datatype NodeInfo = NodeInfo(ip: Ip, mac: Mac, nodeId: int, connected: bool, name: seq<Byte>, version: int)

  const ZERO_NODE: NodeInfo := NodeInfo(0, ZERO_MAC, 0, false, [], 0)

  type Nodes = s: seq<NodeInfo> | |s| == NODES witness seq(NODES, _ => ZERO_NODE)
  type NodeCount = n: int | 0 <= n <= NODES
  type AdvertiseData = s: seq<Byte> | |s| == ADVERTISE_MAX witness seq(ADVERTISE_MAX, _ => 0)
  type AdvertiseSize = n: int | 0 <= n <= ADVERTISE_MAX

  function ZeroNodes(): Nodes { seq(NODES, _ => ZERO_NODE) }
  function ZeroAdvertise(): AdvertiseData { seq(ADVERTISE_MAX, _ => 0) }

  /** The parts of NetworkInfo fixed when a network is created. */
  datatype NetworkSettings = NetworkSettings(
    localCommunicationId: nat, sceneId: nat, sessionId: nat, channel: int,
    securityMode: nat, nodeCountMax: nat, random: nat)

  const ZERO_SETTINGS: NetworkSettings := NetworkSettings(0, 0, 0, 0, 0, 0, 0)

  datatype NetworkInfo = NetworkInfo(
    settings: NetworkSettings, bssid: Mac, policy: nat, nodeCount: NodeCount, nodes: Nodes,
    advSize: AdvertiseSize, advData: AdvertiseData)

  function ZeroNetwork(): NetworkInfo {
    NetworkInfo(ZERO_SETTINGS, ZERO_MAC, 0, 0, ZeroNodes(), 0, ZeroAdvertise())
  }

  datatype Message =
    | Scan
    | ScanResp(info: NetworkInfo)
    | Connect(node: NodeInfo)
    | Sync(info: NetworkInfo)
    | Heartbeat(bssid: Mac, ipv4: Ip)
    | Bye(bssid: Mac, ipv4: Ip)

  /** A frame on the relay. The receiver sees the source and the stamp, never the destination. */
  datatype Frame = Frame(src: Ip, dst: Ip, stamp: Stamp, msg: Message)

  datatype StationSlot = StationSlot(active: bool, connected: bool, src: Ip, node: NodeInfo, lastSeen: int)
  datatype Scanner = Scanner(ip: Ip, lastTick: int, used: bool)
  /** The two bits of a node's change record. */
  datatype Change = Change(connect: bool, disconnect: bool)

  const EMPTY_SLOT: StationSlot := StationSlot(false, false, 0, ZERO_NODE, 0)
  const NO_CHANGE: Change := Change(false, false)

  type Stations = s: seq<StationSlot> | |s| == STATIONS witness seq(STATIONS, _ => EMPTY_SLOT)
  type Scanners = s: seq<Scanner> | |s| == SCANNERS witness seq(SCANNERS, _ => Scanner(0, 0, false))
  type Flags = s: seq<bool> | |s| == NODES witness seq(NODES, _ => false)
  type Changes = s: seq<Change> | |s| == NODES witness seq(NODES, _ => NO_CHANGE)

  function EmptyStations(): Stations { seq(STATIONS, _ => EMPTY_SLOT) }
  function EmptyScanners(): Scanners { seq(SCANNERS, _ => Scanner(0, 0, false)) }
  function NoFlags(): Flags { seq(NODES, _ => false) }
  function NoChanges(): Changes { seq(NODES, _ => NO_CHANGE) }

  /** Everything a console remembers. `clock` and `lastTick` are the times of the last step
      and of the last Tick call; the program itself keeps neither. */
  datatype Console = Console(
    ip: Ip, state: CommState, reason: nat,
    net: NetworkInfo, version: int, selfName: seq<Byte>, advSize: AdvertiseSize, advData: AdvertiseData,
    stations: Stations, scanners: Scanners,
    scanFilter: nat, scanResults: seq<NetworkInfo>,
    joinActive: bool, joinTarget: Mac, hostLastSeen: int, lastBeacon: int,
    txSeq: Stamp, syncSeq: Stamp, syncValid: bool,
    prev: Flags, changes: Changes,
    clock: int, lastTick: int)

  /** The console as constructed. */
  function NewConsole(ip: Ip): Console {
    Console(ip, Down, 0, ZeroNetwork(), 0, [], 0, ZeroAdvertise(), EmptyStations(), EmptyScanners(),
            0, [], false, ZERO_MAC, 0, 0, 0, 0, false, NoFlags(), NoChanges(), 0, 0)
  }
}

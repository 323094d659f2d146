# Verified model of sys-slp-client

sys-slp-client lets Nintendo Switch games play local wireless and LAN games over a
switch-lan-play relay. This project models its stateful core and proves what that core is
relied on for.

| file | component |
|---|---|
| `LdnTypes`, `LdnConsole` | the LDN control plane of one console as a state machine: every section under the mutex is one step |
| `LdnInvariants`, `LdnSteps`, `LdnOperations` | what every step keeps, what a single step can do, and what each operation promises its peers and its game |
| `LdnRuns`, `LdnLiveness`, `LdnSessions`, `LdnAdmission`, `LdnTraffic`, `LdnWitness` | runs of any number of consoles over a relay that may lose, duplicate, reorder and flood frames: join safety, timeouts, isolation of sessions, completeness of admission, heartbeats, scan results, and runs that show the premises can be met |
| `SyncOrder`, `ScannerTable`, `ChangeLog` | the 16-bit sync window, the bounded scanner table against the unbounded scan log, the change bits against the history of the node list |
| `LdnControl` | the same control plane as an object with arrays, loops and in-place updates; each method is proved equal to the step of `LdnConsole` |
| `Basics`, `Rle`, `LanFrame` | the zero-run code and the frame header |
| `Fips180`, `Sha1` | SHA-1 as FIPS 180-4 defines it (the specification), and the streaming implementation proved against it |
| `Ring`, `ProxySocket`, `SocketManager`, `EarlyArrivals`, `PacketJourney` | the receive ring, the registry with its routing, the ring of early arrivals and its in-place compaction |
| `PortPool`, `PortOwnership`, `BsdService` | the rotating port allocator, and who owns a port while calls interleave |
| `EdgeSort` | the edge sort of the overlay's font rasteriser |

Verify everything with `dafny verify dfyconfig.toml`.

## Reading the model

A console is a value of `LdnTypes.Console`; `LdnConsole.Step` gives the console and the frames
after one frame, one Tick or one locked section of a call. A run (`LdnRuns`) interleaves the
steps of all consoles, each with its own clock that never goes back. The relay is the set of
all frames ever sent, and any of them may be handed to any console at any time. Virtual
addresses are unique and source addresses authentic.

Where code and comments disagree the code is followed. Results about the code as it is:

- A sync's sequence number is recorded before the session check, so a foreign sync moves the
  window (`LdnSessions.OtherHostsIgnored`).
- The sync window is one send tighter than its 256 stamps suggest, because the counter skips 0
  (`SyncOrder.WindowIsSharp`).
- Connect does not ask whether the station is already in a session; a join to another network
  from there, and nothing else, leaves the old network under the new target
  (`LdnSessions.JoinTargetExactly`, `LdnWitness.JoinAwayHappens`).
- SetAdvertiseData and Reject do not ask whether the console hosts; a guest that calls them takes
  the place of its host in its own description (`LdnSessions.SessionExactly`,
  `LdnWitness.GuestCallHappens`).
- Early arrivals are matched by port and protocol only, so a socket bound to one address also
  gets held packets for other addresses (`EarlyArrivals.SamePortExactly`).
- Bind and hand-over are two sections; a packet routed between them overtakes the held ones
  (`EarlyArrivals.GapExactly`).
- A bind that is refused after the port was reserved keeps the reservation
  (`PortOwnership.LeaksExactly`).
- SHA1Update makes its test for a complete block on the 32-bit sum of fill level and length; when
  that sum wraps the whole piece is copied behind the end of the buffer
  (`Sha1.CopiesFitExactly`), which is why `Sha1.Sha1Context.Update` asks that it does not.
- The quicksort leaves one place out when its scans cross between two places; what the insertion
  sort still has to repair is short segments and such places (`EdgeSort.WrongOrderIsLocal`).

## Model

| member | source | states |
|---|---|---|
| `LdnRuns.JoinSafety` | sysmodule/source/ldn/ldn_control.cpp:651-785 | over every run of any number of consoles and any loss, duplication and reordering: a station that becomes connected while its join to another console H is active was, at an earlier moment, in the table of H, which was hosting; the entry was made by a Connect that the station itself had sent, within 30 s of H handling a Scan of that station while hosting |
| `LdnRuns.ReachableInv` | sysmodule/source/ldn/ldn_control.cpp:842-1135 | in every state of every run every console satisfies the whole invariant (table, cache, mirror, timing) and every frame on the relay carries the address of a console of the run |
| `LdnRuns.OneSlotPerPeer` | sysmodule/source/ldn/ldn_control.cpp:665-703 | over any run, a peer that stays registered keeps one slot and node id, however often it retries and whoever else connects |
| `LdnRuns.FrameOrigin` | sysmodule/source/ldn/ldn_control.cpp:455-496 | a frame on the relay was put there by the console whose address it carries, and says what that console held right then |
| `LdnRuns.ScanOrigin` | sysmodule/source/ldn/ldn_control.cpp:566-606 | a used scanner entry goes back to a Scan that this console handled while hosting, at the recorded time |
| `LdnRuns.AdmissionOrigin` | sysmodule/source/ldn/ldn_control.cpp:651-710 | a registered peer was put into the table by its own Connect while its scan was on record, and has been registered ever since |
| `LdnSteps.ListedIsRegistered` | sysmodule/source/ldn/ldn_control.cpp:965-998 | every address that a host lists, besides its own, is in its station table |
| `LdnRuns.ConnectedBySync` | sysmodule/source/ldn/ldn_control.cpp:738-785 | only a Sync that names this console connects it, and with a join active only one with the bssid of the join target |
| `LdnRuns.HostMoment` | sysmodule/source/ldn/ldn_control.cpp:1000-1012 | a Sync with the bssid of H that names a station was sent by H, hosting, with the station registered |
| `LdnInvariants.StepInv` | sysmodule/source/ldn/ldn_control.cpp:595-1135 | every frame, tick and call keeps: a slot is active iff connected; active slots exist only while hosting, have pairwise distinct addresses and carry them in their node; while hosting the cached description equals a fresh rebuild with the own bssid; in a network the previous flags mirror the node list; the timing bounds |
| `LdnInvariants.NewConsoleInv` | sysmodule/source/ldn/ldn_control.cpp:182-199 | a freshly constructed console satisfies the invariant |
| `LdnInvariants.HostDescription` | sysmodule/source/ldn/ldn_control.cpp:965-998 | what a host announces: itself first, station i at its rank among the live slots, zeros behind, count 1 + stations, bssid FakeMac(own address) |
| `LdnInvariants.LiveNodeAt` | sysmodule/source/ldn/ldn_control.cpp:980-990 | a live station is listed behind exactly the live stations of smaller node id |
| `LdnInvariants.LiveNodeFrom` | sysmodule/source/ldn/ldn_control.cpp:980-990 | every listed station comes from a live slot and carries that slot's node id |
| `LdnInvariants.BuildIdempotent` | sysmodule/source/ldn/ldn_control.cpp:965-998 | rebuilding a rebuilt description changes nothing |
| `LdnInvariants.UpdateNodesFrames` | sysmodule/source/ldn/ldn_control.cpp:1000-1012 | what UpdateNodes sends is the rebuilt description, under the own address, and only with a live station present |
| `LdnInvariants.UpdateNodesInv` | sysmodule/source/ldn/ldn_control.cpp:1000-1012 | UpdateNodes restores cache and mirror after any change of the table |
| `LdnSteps.OtherStep` | sysmodule/source/ldn/ldn_control.cpp:595-1111 | a step that neither admits a peer nor refreshes one never takes, reassigns or refreshes a slot |
| `LdnSteps.RegistrationStep` | sysmodule/source/ldn/ldn_control.cpp:651-710 | a peer that becomes registered in a step does so by its own Connect with its scan on record |
| `LdnSteps.SlotStays` | sysmodule/source/ldn/ldn_control.cpp:665-703 | one step: a peer that stays registered stays in its slot |
| `LdnSteps.RefusedOnlyWhenFull` | sysmodule/source/ldn/ldn_control.cpp:665-690 | a Connect from a recent scanner is refused exactly when seven other peers, pairwise distinct, hold the seven slots |
| `LdnSteps.ScannerStep` | sysmodule/source/ldn/ldn_control.cpp:595-606 | the scanner table changes only by recording the sender of a Scan while hosting |
| `LdnSteps.ReceiveSession` | sysmodule/source/ldn/ldn_control.cpp:712-785 | which frames replace the description and refresh the host's time, and exactly when a station is connected afterwards |
| `LdnSteps.StepFrames` | sysmodule/source/ldn/ldn_control.cpp:455-496 | every frame sent in a step is honest: own address, Sync only from a host and equal to its description, Connect and Scan only from the corresponding calls, Heartbeat and Bye naming the sender |
| `LdnLiveness.NeverDroppedEarly` | sysmodule/source/ldn/ldn_control.cpp:1061-1086 | over any run, a station that a Tick drops was silent for 30 s; heard at gaps below 30 s it is never dropped by Tick |
| `LdnLiveness.LastHeard` | sysmodule/source/ldn/ldn_control.cpp:791-804 | the stored last-seen time of a station is the time of a frame in which the host heard from it |
| `LdnLiveness.SilentIsGone` | sysmodule/source/ldn/ldn_control.cpp:1061-1086 | over any run with Tick gaps of at most d, a station silent since t is out of the table by t + 35 s + d |
| `LdnLiveness.HostSeenStep` | sysmodule/source/ldn/ldn_control.cpp:738-757 | the host's last-seen time moves exactly when a Sync of the session is applied |
| `LdnLiveness.HostNotGivenUpEarly` | sysmodule/source/ldn/ldn_control.cpp:1085-1111 | a station gives its host up by Tick only after 30 s without an applied Sync |
| `LdnLiveness.HostLastHeard` | sysmodule/source/ldn/ldn_control.cpp:738-757 | the stored host time is the time of an applied Sync |
| `LdnLiveness.SilentHostIsLeft` | sysmodule/source/ldn/ldn_control.cpp:1085-1111 | a station whose host is silent since t has left by t + 35 s + d |
| `LdnSessions.SyncNamesSender` | sysmodule/source/ldn/ldn_control.cpp:1000-1012 | every Sync on the relay carries the bssid and the address of its sender as host |
| `LdnSessions.JoinTargetExactly` | sysmodule/source/ldn/ldn_control.cpp:738-757 | a step makes a connected station with an active join hold another network than the join target iff it is a join from inside the session (accepted, and to another bssid); no frame, tick or other call can |
| `LdnSessions.SessionExactly` | sysmodule/source/ldn/ldn_control.cpp:738-838 | the description of a connected station names its host and the join target after a step iff the step is neither such a join nor an accepted SetAdvertiseData or Reject of a guest |
| `LdnSessions.HoldsJoinTarget` | sysmodule/source/ldn/ldn_control.cpp:738-757 | over every run: the stored bssid of a station that is connected with an active join is the join target in all states up to k iff its game never joined away from inside a session before k |
| `LdnSessions.HoldsSession` | sysmodule/source/ldn/ldn_control.cpp:738-838 | the same for the whole session, where host calls of a guest count too |
| `LdnSessions.OtherHostsIgnored` | sysmodule/source/ldn/ldn_control.cpp:727-757 | over every run: with a join to H active, a Sync sent by any other console changes the recorded sequence number and nothing else |
| `LdnSessions.HostKnowsExactly` | sysmodule/source/ldn/ldn_control.cpp:433-447 | a host lets game data through from itself and its registered stations, and from nobody else |
| `LdnSessions.GuestListOrigin` | sysmodule/source/ldn/ldn_control.cpp:433-447 | over every run, the node list of a guest was sent in a Sync |
| `LdnSessions.GuestKnowsRegistered` | sysmodule/source/ldn/ldn_control.cpp:433-447 | over every run, a guest of H lets game data through only from itself, from H and from peers that H had registered while hosting |
| `LdnWitness.JoinHappens` | sysmodule/source/ldn/ldn_control.cpp:651-785 | any two consoles have a run in which one joins the other, so that the premises of join safety are met |
| `LdnWitness.JoinAwayHappens` | sysmodule/source/ldn/ldn_control.cpp:1285-1306 | from there one Connect to any other network breaks the session of a reachable station |
| `LdnWitness.GuestCallHappens` | sysmodule/source/ldn/ldn_control.cpp:934-945 | and so does one SetAdvertiseData |
| `LdnAdmission.TableIsLog` | sysmodule/source/ldn/ldn_control.cpp:566-606 | in every state of every run the scanner table is the bounded table of all scans handled so far, in order of time |
| `LdnAdmission.ScannerIsAdmitted` | sysmodule/source/ldn/ldn_control.cpp:651-710 | over every run without a crowded window: a Connect handled within 30 s of a handled Scan of that peer registers it iff not seven other peers hold the seven slots |
| `LdnSessions.OnlyHostEndsSession` | sysmodule/source/ldn/ldn_control.cpp:809-838 | over every run: a Bye that ends the session of a station joined to H was sent by H; another station's Bye never does |
| `LdnTypes.FakeMacBytes` | sysmodule/source/ldn/ldn_control.cpp:115-122 | 02:00, then the four bytes of the address, lowest first |
| `LdnTypes.FakeMacInjective` | sysmodule/source/ldn/ldn_control.cpp:115-122 | different addresses have different bssids |
| `LdnInvariants.UpdateNodesSends` | sysmodule/source/ldn/ldn_control.cpp:1000-1012 | UpdateNodes sends exactly one frame per live station, in slot order, to the address it registered with, each the rebuilt description; no other frame |
| `LdnOperations.TellsEveryStation` | sysmodule/source/ldn/ldn_control.cpp:595-1111 | every step that changes who or what is announced (an admitted Connect, a Bye, a due Tick, SetAdvertiseData, Reject, CreateNetwork) tells every live station the description it leaves, once, and nobody else; no other step sends a Sync |
| `LdnOperations.ScanIsAnswered` | sysmodule/source/ldn/ldn_control.cpp:595-606 | a host answers a Scan with one frame to its sender, its current description; no other step of any console sends a ScanResp |
| `LdnOperations.ByeFreesSlot` | sysmodule/source/ldn/ldn_control.cpp:825-838 | a Bye for the own network unregisters its sender, who is no longer listed, and keeps every other slot as it is; one for another network changes nothing |
| `LdnOperations.ByeEndsSessionExactly` | sysmodule/source/ldn/ldn_control.cpp:812-824 | a guest leaves by a Bye iff its join is active, the bssid is the target and the address is that of node 0; then state Station, no join, reason 3; otherwise nothing changes |
| `LdnOperations.HeartbeatExactly` | sysmodule/source/ldn/ldn_control.cpp:1087-1101 | a Tick of a station sends one heartbeat, with the joined bssid and the own address, to node 0, iff it is due, connected, joined and the address is known; otherwise nothing |
| `LdnOperations.TickLeavesExactly` | sysmodule/source/ldn/ldn_control.cpp:1102-1110 | a Tick makes a guest leave, with reason 6, iff it is due and the host was silent for 30 s |
| `LdnOperations.TickReapsExactly` | sysmodule/source/ldn/ldn_control.cpp:1068-1083 | a due Tick frees a slot iff it was silent for 30 s; every other slot stays as it is |
| `LdnOperations.HeartbeatRefreshesExactly` | sysmodule/source/ldn/ldn_control.cpp:791-804 | a heartbeat refreshes the slot of its sender, for the own network only, and changes nothing else |
| `LdnOperations.RefusedIsIgnored` | sysmodule/source/ldn/ldn_control.cpp:651-690 | a Connect that is not admitted changes nothing and is not answered |
| `LdnOperations.AdmittedIsListed` | sysmodule/source/ldn/ldn_control.cpp:691-709 | an admitted station is listed at its rank with the tunnel address, its bssid, its node id and the name and version of its Connect; other slots stay |
| `LdnOperations.UnappliedSync` | sysmodule/source/ldn/ldn_control.cpp:712-757 | a Sync that is not applied changes at most the recorded stamp |
| `LdnOperations.ResultsStayOk` | sysmodule/source/ldn/ldn_control.cpp:608-649 | every step keeps: at most eight scan results, with pairwise different bssids |
| `LdnOperations.AnswerExactly` | sysmodule/source/ldn/ldn_control.cpp:608-649 | an answer that passes the filter is kept for its bssid when that is known or there is room, all other networks stay; own and filtered answers change nothing |
| `LdnOperations.RejectExactly` | sysmodule/source/ldn/ldn_control.cpp:954-963 | Reject frees the slot of that node id and no other; an id out of range changes nothing |
| `LdnOperations.AdvertiseExactly` | sysmodule/source/ldn/ldn_control.cpp:934-945 | the description and every Sync carry exactly the bytes set; data that does not fit is refused |
| `LdnOperations.AdvertisedStays` | sysmodule/source/ldn/ldn_control.cpp:990-997 | every later description of the host carries the advertise data it remembers |
| `LdnOperations.CreateExactly` | sysmodule/source/ldn/ldn_control.cpp:881-916 | a created network announces the settings, name and version of the call, channel 6 only for 0, the caller as its one node and no stations; refused outside AccessPoint |
| `LdnOperations.NetworkKeepsIdentity` | sysmodule/source/ldn/ldn_control.cpp:965-998 | while a network exists its settings, bssid and host node stay, and its policy is what was last set |
| `LdnOperations.BroadcastIsSubnet` | sysmodule/source/ldn/ldn_control.cpp:1057-1060 | the broadcast address is the own /16 with the last two octets 255 |
| `LdnOperations.DestroyExactly` | sysmodule/source/ldn/ldn_control.cpp:918-932 | one Bye with the own bssid to the subnet iff there is a live station; the table is empty afterwards |
| `LdnOperations.DestroyIsHeard` | sysmodule/source/ldn/ldn_control.cpp:809-824 | a guest of that host that hears this Bye leaves |
| `LdnOperations.DisconnectExactly` | sysmodule/source/ldn/ldn_control.cpp:1364-1380 | one Bye with the joined bssid to node 0 iff a join is active and the list is not empty |
| `LdnOperations.DisconnectIsHeard` | sysmodule/source/ldn/ldn_control.cpp:825-838 | the host that hears this Bye unregisters the station |
| `LdnOperations.AskingExactly` | sysmodule/source/ldn/ldn_control.cpp:1308-1322 | one Scan to the subnet; one Connect to the host with the own address and the name and version of the call |
| `LdnOperations.ModesExactly` | sysmodule/source/ldn/ldn_control.cpp:842-879 | the states in which the mode calls are refused, and what they leave |
| `LdnOperations.JoinExactly` | sysmodule/source/ldn/ldn_control.cpp:1285-1306 | refused in Down and for an empty description; otherwise the target is remembered and the session stays |
| `LdnOperations.ScanBeginExactly` | sysmodule/source/ldn/ldn_control.cpp:1177-1210 | the filter of the call and no results; refused in Down and Error |
| `LdnOperations.StepStamped` | sysmodule/source/ldn/ldn_control.cpp:466-470 | every frame of every step carries the next value of the sender's counter |
| `LdnTraffic.GuestBeats` | sysmodule/source/ldn/ldn_control.cpp:1087-1101 | over every run: a due Tick of a guest of H puts a heartbeat for H on the relay, addressed to H |
| `LdnTraffic.HeartbeatIsHeard` | sysmodule/source/ldn/ldn_control.cpp:791-804 | over every run: a host that handles a heartbeat of a registered station for its network has heard from it |
| `LdnTraffic.BeatingStaysIn` | sysmodule/source/ldn/ldn_control.cpp:1061-1083 | over every run: no Tick drops a station of which a heartbeat arrived within the last 30 s |
| `LdnTraffic.FoundIsHosted` | sysmodule/source/ldn/ldn_control.cpp:608-649 | over every run: every scan result was the description of another console that was hosting at that moment |
| `LdnTraffic.FoundNamesHost` | sysmodule/source/ldn/ldn_control.cpp:608-649 | over every run: a scan result has a host as node 0 and that host's bssid |
| `LdnTraffic.ListedAsIntroduced` | sysmodule/source/ldn/ldn_control.cpp:691-709 | over every run: the listed name and version of a station are those of a Connect by which the host admitted it |
| `LdnTraffic.FramesAreNumbered` | sysmodule/source/ldn/ldn_control.cpp:466-470 | over every run: the n-th frame of a console carries the n-th stamp, the numbering on which the sync order rests |
| `SyncOrder.StampsFollow` | sysmodule/source/ldn/ldn_control.cpp:466-470 | the counter that skips 0 on wrap-around stamps the n-th frame with ((n - 1) mod 65535) + 1 |
| `SyncOrder.BehindExact` | sysmodule/source/ldn/ldn_control.cpp:727-736 | the 16-bit distance of a frame b sends behind is b, or b + 1 across the wrap |
| `SyncOrder.AheadExact` | sysmodule/source/ldn/ldn_control.cpp:727-736 | the 16-bit distance of a frame a sends ahead, on either side of the wrap |
| `SyncOrder.TakenIffNewer` | sysmodule/source/ldn/ldn_control.cpp:727-736 | at most 254 sends behind and 65279 ahead of the newest recorded one, a frame is taken iff it is newer |
| `SyncOrder.WindowIsSharp` | sysmodule/source/ldn/ldn_control.cpp:727-736 | 255 behind is taken exactly when the newest stamp is at most 255, and 65280 ahead is dropped exactly when it is above 255 |
| `SyncOrder.RecordedIncreases` | sysmodule/source/ldn/ldn_control.cpp:727-736 | over a whole run of deliveries in that window, the recorded syncs are strictly increasing in send order and end with the newest one |
| `SyncOrder.StationRecords` | sysmodule/source/ldn/ldn_control.cpp:727-736 | one delivery: the frame handler records as that run function does, and an old frame leaves the whole console unchanged |
| `SyncOrder.HandlerRecords` | sysmodule/source/ldn/ldn_control.cpp:727-736 | over any list of deliveries the handler records exactly the sequence of that run function, and remembers the stamp of the last |
| `SyncOrder.HandlerIncreases` | sysmodule/source/ldn/ldn_control.cpp:727-736 | so what the handler records from one sender in the window is strictly increasing in send order and ends with the newest delivered |
| `ScannerTable.RecordScanner` | sysmodule/source/ldn/ldn_control.cpp:566-583 | the loop refreshes the entry of the address, else takes the first reusable entry, else entry 0; nothing else changes |
| `ScannerTable.RecordExactly` | sysmodule/source/ldn/ldn_control.cpp:566-583 | exactly one entry changes: the first of that address, else the first unused or expired one, else entry 0 |
| `ScannerTable.WasRecentScanner` | sysmodule/source/ldn/ldn_control.cpp:585-593 | answers whether some entry of the address is at most 30 s old |
| `ScannerTable.TableInvariant` | sysmodule/source/ldn/ldn_control.cpp:566-583 | after any log of scans, used entries have distinct addresses and each is a scan that happened |
| `ScannerTable.RecentIsSound` | sysmodule/source/ldn/ldn_control.cpp:585-593 | a positive answer means a Scan of that address within 30 s |
| `ScannerTable.FullTableIsCrowded` | sysmodule/source/ldn/ldn_control.cpp:566-583 | a live entry is overwritten only when 17 distinct addresses scanned within 30 s |
| `ScannerTable.TableCovers` | sysmodule/source/ldn/ldn_control.cpp:566-583 | with at most 16 distinct scanners in every 30 s window, every scan of the last 30 s is in the table |
| `ScannerTable.RecentIsExact` | sysmodule/source/ldn/ldn_control.cpp:566-593 | under that condition the answer agrees with the unbounded log, both ways |
| `ChangeLog.BitsAreEdges` | sysmodule/source/ldn/ldn_control.cpp:1118-1135 | starting from cleared bits, each bit is set iff an edge of its kind occurred |
| `ChangeLog.BitsTellNetChange` | sysmodule/source/ldn/ldn_control.cpp:1118-1135 | one bit alone tells the net change; none means no net change |
| `ChangeLog.StepIsOps` | sysmodule/source/ldn/ldn_control.cpp:1113-1135 | every step of a console acts on the record of an index as an observation of the node list it leaves, a read, a fresh start, or nothing |
| `ChangeLog.RecordIsHistory` | sysmodule/source/ldn/ldn_control.cpp:1113-1135 | over any run the record of an index is the fold of its history |
| `ChangeLog.BitsSinceLastRead` | sysmodule/source/ldn/ldn_control.cpp:1399-1415 | for every run, index and prefix read: the bits since the index was last read are exactly the edges since then, and determine the net change |
| `LdnControl.LdnControl.constructor` | sysmodule/source/ldn/ldn_control.cpp:182-199 | a new object stands for a new console |
| `LdnControl.LdnControl.Initialize` | sysmodule/source/ldn/ldn_control.cpp:201-234 | change log, scan state and stations are cleared, state Initialized |
| `LdnControl.LdnControl.Finalize` | sysmodule/source/ldn/ldn_control.cpp:236-250 | scan state, join and stations are cleared, state Down |
| `LdnControl.LdnControl.SendFrame` | sysmodule/source/ldn/ldn_control.cpp:455-496 | the frame goes out under the next non-zero stamp |
| `LdnControl.LdnControl.OnControlFrame` | sysmodule/source/ldn/ldn_control.cpp:498-562 | dispatch: the effect on the whole object and the frames sent are those of the console model for every frame type |
| `LdnControl.LdnControl.HandleScan` | sysmodule/source/ldn/ldn_control.cpp:595-606 | a host records the scanner and answers with a fresh description |
| `LdnControl.LdnControl.HandleScanResp` | sysmodule/source/ldn/ldn_control.cpp:608-649 | own and filtered answers are ignored; one entry per bssid, at most eight |
| `LdnControl.LdnControl.HandleConnect` | sysmodule/source/ldn/ldn_control.cpp:651-710 | gate by recent scan or existing entry, slot choice, node rewrite, UpdateNodes: as the console model |
| `LdnControl.LdnControl.HandleSyncNetwork` | sysmodule/source/ldn/ldn_control.cpp:712-789 | staleness window, recording before the session check, take-over: as the console model |
| `LdnControl.LdnControl.Apply` | sysmodule/source/ldn/ldn_control.cpp:744-789 | the description is taken over and a waiting station it names becomes connected |
| `LdnControl.LdnControl.HandleRelayHeartbeat` | sysmodule/source/ldn/ldn_control.cpp:791-804 | the peer's slot is refreshed for the own bssid only |
| `LdnControl.LdnControl.HandleRelayBye` | sysmodule/source/ldn/ldn_control.cpp:809-838 | the station leaves on its host's goodbye; the host drops the sender |
| `LdnControl.LdnControl.OpenAccessPoint` | sysmodule/source/ldn/ldn_control.cpp:842-861 | refused in Down; otherwise the table is emptied and the state is AccessPoint |
| `LdnControl.LdnControl.Close` | sysmodule/source/ldn/ldn_control.cpp:863-879 | CloseAccessPoint and CloseStation: refused in Down, otherwise Initialized with an empty table |
| `LdnControl.LdnControl.CreateNetwork` | sysmodule/source/ldn/ldn_control.cpp:881-916 | only from AccessPoint; a fresh network with own bssid, channel 6 by default, an empty table and an empty change log |
| `LdnControl.LdnControl.DestroyNetwork` | sysmodule/source/ldn/ldn_control.cpp:918-932 | a Bye when stations exist; no state guard |
| `LdnControl.LdnControl.SetAdvertiseData` | sysmodule/source/ldn/ldn_control.cpp:934-945 | refused above 384 bytes; otherwise stored and synced; no state guard |
| `LdnControl.LdnControl.Reject` | sysmodule/source/ldn/ldn_control.cpp:954-963 | the slot of a node id 1 to 7 is freed |
| `LdnControl.LdnControl.BuildNetwork` | sysmodule/source/ldn/ldn_control.cpp:965-998 | the two-index loop yields the specified description |
| `LdnControl.LdnControl.UpdateNodes` | sysmodule/source/ldn/ldn_control.cpp:1000-1012 | rebuild, one Sync per live station in slot order, changes noted |
| `LdnControl.LdnControl.ResetStations` | sysmodule/source/ldn/ldn_control.cpp:1014-1021 | every slot is emptied |
| `LdnControl.LdnControl.StationCount` | sysmodule/source/ldn/ldn_control.cpp:1023-1030 | the number of live slots |
| `LdnControl.LdnControl.FindFreeNodeId` | sysmodule/source/ldn/ldn_control.cpp:1032-1047 | the first inactive slot |
| `LdnControl.LdnControl.FindStationByIp` | sysmodule/source/ldn/ldn_control.cpp:1049-1055 | the first active slot of the address |
| `LdnControl.LdnControl.Tick` | sysmodule/source/ldn/ldn_control.cpp:1061-1111 | beacon interval, reaping and the station's half: as the console model |
| `LdnControl.LdnControl.TickStation` | sysmodule/source/ldn/ldn_control.cpp:1087-1110 | heartbeat to the host, then the 30 s host timeout |
| `LdnControl.LdnControl.Reap` | sysmodule/source/ldn/ldn_control.cpp:1071-1083 | exactly the live slots silent for 30 s are emptied |
| `LdnControl.LdnControl.InitNodeStateChange` | sysmodule/source/ldn/ldn_control.cpp:1113-1116 | flags and bits are cleared |
| `LdnControl.LdnControl.OnNetworkInfoChanged` | sysmodule/source/ldn/ldn_control.cpp:1118-1135 | each flag that changed leaves its bit, and the flags are remembered |
| `LdnControl.LdnControl.OpenStation` | sysmodule/source/ldn/ldn_control.cpp:1139-1157 | refused in Down; otherwise the table is emptied and the state is Station |
| `LdnControl.LdnControl.ConnectBegin` | sysmodule/source/ldn/ldn_control.cpp:1285-1310 | the first locked section of Connect: join target set, scan state cleared |
| `LdnControl.LdnControl.Disconnect` | sysmodule/source/ldn/ldn_control.cpp:1364-1380 | a Bye to the host when a join is active; no state guard |
| `LdnControl.LdnControl.SetStationAcceptPolicy` | sysmodule/source/ldn/ldn_control.cpp:947-952 | stored in the description; not enforced |
| `LdnControl.LdnControl.ScanBegin` | sysmodule/source/ldn/ldn_control.cpp:1177-1210 | refused in Down and Error; the filter is set and the results are cleared |
| `LdnControl.LdnControl.ScanSend` | sysmodule/source/ldn/ldn_control.cpp:1212 | one broadcast Scan |
| `LdnControl.LdnControl.ConnectSend` | sysmodule/source/ldn/ldn_control.cpp:1308-1322 | one Connect with the own node, whatever the caller filled in |
| `LdnControl.LdnControl.ConnectTimeout` | sysmodule/source/ldn/ldn_control.cpp:1354-1359 | the join ends |
| `LdnControl.LdnControl.IsKnownSessionPeer` | sysmodule/source/ldn/ldn_control.cpp:433-447 | true outside a network, for the own address and for connected nodes of the description |
| `LdnControl.LdnControl.Perform` | sysmodule/source/ldn/ldn_control.cpp:595-1415 | any frame, tick or call is the step of the console model on the whole object, with its frames, and keeps the invariant |
| `LdnControl.LdnControl.GetNetworkInfoLatestUpdate` | sysmodule/source/ldn/ldn_control.cpp:1399-1415 | hands out the description and the first `capacity` records and clears those only |
| `Rle.Compress` | sysmodule/source/ldn/ldn_control.cpp:127-149 | succeeds iff the encoded length fits the output, and then writes exactly the encoding |
| `Rle.Decompress` | sysmodule/source/ldn/ldn_control.cpp:151-171 | result flag and output of the bounded decoder, for every input and capacity |
| `Rle.DecodeEncode` | sysmodule/source/ldn/ldn_control.cpp:127-171 | decoding an encoded body gives the body |
| `Rle.InflateIsBoundedDecode` | sysmodule/source/ldn/ldn_control.cpp:151-171 | the bounded decoder succeeds exactly on well-formed input whose last token starts inside the room, and yields the decoded bytes cut to the room |
| `Rle.InflateEncode` | sysmodule/source/ldn/ldn_control.cpp:127-171 | any body that fits the receiver's buffer survives the trip |
| `Rle.PairFormat` | sysmodule/source/ldn/ldn_control.cpp:124-126 | a pair (0, c) stands for c + 1 zeros, and c + 1 zeros are encoded as that pair |
| `Rle.EncodePrependZeros` | sysmodule/source/ldn/ldn_control.cpp:127-149 | one more zero pair in front never saves a byte |
| `Rle.EncodeIsShortest` | sysmodule/source/ldn/ldn_control.cpp:127-171 | among all strings that decode to a body the encoder's is shortest |
| `LanFrame.FrameSender.SendFrame` | sysmodule/source/ldn/ldn_control.cpp:455-496 | for every type and every body up to sizeof(NetworkInfo), compressed or raw, the datagram parses to that type, body and the new non-zero stamp |
| `LanFrame.OnControlFrame` | sysmodule/source/ldn/ldn_control.cpp:498-540 | the parser on arbitrary datagrams: which are dropped, and what is dispatched |
| `LanFrame.HeaderLayout` | sysmodule/source/ldn/ldn_control.cpp:60-73 | the twelve header bytes, one by one |
| `LanFrame.RoundTrip` | sysmodule/source/ldn/ldn_control.cpp:455-540 | parsing what was built gives type, body and sequence number back |
| `LanFrame.TrailingBytesIgnored` | sysmodule/source/ldn/ldn_control.cpp:498-540 | bytes behind the announced length change nothing |
| `LanFrame.TruncatedIsDropped` | sysmodule/source/ldn/ldn_control.cpp:498-540 | every proper prefix of a datagram is dropped |
| `LanFrame.ParseParts` | sysmodule/source/ldn/ldn_control.cpp:498-540 | exact outcome for every header and body, also with a wrong plain length |
| `Sha1.SwapIsBigEndian` | sysmodule/source/slp/sha1.c:46-53 | the two rotations and masks turn a little-endian load into a big-endian word |
| `Sha1.ChForm` | sysmodule/source/slp/sha1.c:58-59 | the rewritten choice function |
| `Sha1.MajForm` | sysmodule/source/slp/sha1.c:61 | the rewritten majority function |
| `Sha1.WordIsThere` | sysmodule/source/slp/sha1.c:54-55 | a schedule word stays at its place modulo 16 for the sixteen rounds that may need it |
| `Sha1.NextWord` | sysmodule/source/slp/sha1.c:54-55 | the in-place recurrence on 16 words yields word t of the 80-word schedule |
| `Sha1.TraceExists` | sysmodule/source/slp/sha1.c:67-111 | the in-place window and the registers follow the definition through all 80 rounds |
| `Sha1.Transform` | sysmodule/source/slp/sha1.c:67-123 | for every state and block: the compression of section 6.1.2 of FIPS 180-4 |
| `Sha1.CounterAdds` | sysmodule/source/slp/sha1.c:147-150 | the two-word bit counter with its carry counts bits modulo 2^64 |
| `Sha1.Fill` | sysmodule/source/slp/sha1.c:151 | the fill level read off the low word is the message length modulo 64 |
| `Sha1.CopiesFitExactly` | sysmodule/source/slp/sha1.c:152-161 | the copies into the buffer stay inside it iff the 32-bit sum of fill level and length does not wrap |
| `Sha1.AtPad` | sysmodule/source/slp/sha1.c:198 | the padding test is met exactly at the least padding of section 5.1.1 |
| `Sha1.Sha1Context.constructor` | sysmodule/source/slp/sha1.c:128-137 | a new context stands for the empty message |
| `Sha1.Sha1Context.Update` | sysmodule/source/slp/sha1.c:142-162 | a context standing for a message stands for the message and the piece afterwards, for every carry and piece length that the 32-bit sum admits |
| `Sha1.Sha1Context.AppendPadding` | sysmodule/source/slp/sha1.c:196-201 | one byte at a time, the loop terminates with the padding of section 5.1.1 |
| `Sha1.Sha1Context.Final` | sysmodule/source/slp/sha1.c:167-210 | the digest of the message, and a wiped counter |
| `Sha1.CountBytes` | sysmodule/source/slp/sha1.c:191-194 | the length bytes, high word first |
| `Sha1.ReadDigest` | sysmodule/source/slp/sha1.c:203-206 | the digest bytes in big-endian order |
| `Sha1.HashPieces` | sysmodule/source/slp/sha1.c:128-210 | Init, any Updates, Final: the FIPS 180-4 digest of the concatenation, however the message is cut |
| `ProxySocket.ProxySocket.Bind` | sysmodule/source/bsd/proxy_socket.cpp:58-77 | once, and for AF_INET only; otherwise nothing changes |
| `ProxySocket.ProxySocket.IncomingData` | sysmodule/source/bsd/proxy_socket.cpp:353-404 | append and keep the last 32, payload cut to 2000 bytes, event signalled; the packet dropped is the oldest |
| `ProxySocket.ProxySocket.RecvFrom` | sysmodule/source/bsd/proxy_socket.cpp:281-351 | end of file, bad descriptor, EAGAIN, or the front packet cut to the buffer; a peek leaves the queue; the event is cleared when the queue is empty |
| `ProxySocket.ProxySocket.GetPendingDataSize` | sysmodule/source/bsd/proxy_socket.cpp:732-740 | the sum of the waiting payloads |
| `ProxySocket.ProxySocket.Shutdown` | sysmodule/source/bsd/proxy_socket.cpp:658-679 | exactly the named halves are shut down, receivers wake up and nothing waiting is lost; an unknown half is refused |
| `ProxySocket.ProxySocket.Close` | sysmodule/source/bsd/proxy_socket.cpp:681-725 | what waits is discarded, the event stays signalled for the waiters |
| `ProxySocket.ArrivalsAccounted` | sysmodule/source/bsd/proxy_socket.cpp:353-404 | in every reachable state: arrivals = delivered + dropped oldest + discarded at close + waiting |
| `ProxySocket.TotalSizeAdds` | sysmodule/source/bsd/proxy_socket.cpp:732-740 | the pending size adds up over any cut of the queue |
| `ProxySocket.TotalSizeOne` | sysmodule/source/bsd/proxy_socket.cpp:732-740 | it is 0 for no packet and the payload length for one |
| `ProxySocket.FateCounts` | sysmodule/source/bsd/proxy_socket.cpp:302-322 | a packet that leaves adds one to the count of its fate only |
| `ProxySocket.FatesAddUp` | sysmodule/source/bsd/proxy_socket.cpp:302-322 | every packet that left did so in exactly one of the three ways |
| `ProxySocket.PushAllKeepsLast` | sysmodule/source/bsd/proxy_socket.cpp:353-404 | any number of arrivals leave the last 32 of queue and arrivals |
| `SocketManager.ProxySocketManager.constructor` | sysmodule/source/bsd/proxy_socket_manager.cpp:23-26 | an empty registry, an empty ring and an empty pool |
| `SocketManager.ProxySocketManager.FindAllSocketsByDestination` | sysmodule/source/bsd/proxy_socket_manager.cpp:555-602 | the positions of the specified targets, in walk order |
| `SocketManager.ProxySocketManager.Deliver` | sysmodule/source/bsd/proxy_socket_manager.cpp:480-483 | each target receives the packet once, every other queue stays |
| `SocketManager.ProxySocketManager.RouteIncomingData` | sysmodule/source/bsd/proxy_socket_manager.cpp:379-486 | dropped iff it is for a port outside LAN mode and its sender is unknown to the control plane; otherwise held when no socket accepts it, else delivered; true iff some socket accepts it; each of the first eight accepting sockets then ends with a packet of family AF_INET with the sender's address and port and the first 2000 bytes, and every other socket is unchanged |
| `SocketManager.ProxySocketManager.HoldPacket` | sysmodule/source/bsd/proxy_socket_manager.cpp:425-446 | append to the early arrivals cut to 1400 bytes, dropping the oldest of 16 |
| `SocketManager.ProxySocketManager.DeliverPendingPackets` | sysmodule/source/bsd/proxy_socket_manager.cpp:635-684 | in-place circular compaction: the matching packets are delivered in arrival order, exactly the others stay, in order; each delivered packet carries the address and port of its sender and its payload |
| `SocketManager.ProxySocketManager.CreateProxySocket` | sysmodule/source/bsd/proxy_socket_manager.cpp:32-55 | an existing socket is returned, a full registry of 64 gives none, else a fresh one; no other socket changes |
| `SocketManager.ProxySocketManager.CloseProxySocket` | sysmodule/source/bsd/proxy_socket_manager.cpp:73-109 | the socket leaves the registry, its port is released in its own pool, no other socket or port changes |
| `SocketManager.TargetsExactly` | sysmodule/source/bsd/proxy_socket_manager.cpp:555-602 | a socket is a target iff it accepts the packet and fewer than eight before it do |
| `SocketManager.NoTargetExactly` | sysmodule/source/bsd/proxy_socket_manager.cpp:420-425 | a packet is held iff no socket accepts it |
| `SocketManager.RouteReaches` | sysmodule/source/bsd/proxy_socket_manager.cpp:450-486 | what routing does to every receive queue, packet by packet |
| `SocketManager.SplitHandsOver` | sysmodule/source/bsd/proxy_socket_manager.cpp:646-684 | the split of the early arrivals position by position: the k-th one for the port becomes the k-th packet, every other keeps its rank |
| `SocketManager.HoldAllKeepsLast` | sysmodule/source/bsd/proxy_socket_manager.cpp:425-446 | any number of held packets leaves the last 16, each cut to its first 1400 bytes |
| `SocketManager.AcceptsExactly` | sysmodule/source/bsd/proxy_socket_manager.cpp:574-597 | on the right port and protocol: broadcast always, otherwise iff the socket is bound to no address or to that one |
| `PacketJourney.RouteThenReceive` | sysmodule/source/bsd/proxy_socket_manager.cpp:450-486 | after routing to an open, empty socket the next receive returns the sender's address and port and the payload cut to 2000 bytes and to the buffer |
| `PacketJourney.HoldThenReceive` | sysmodule/source/bsd/proxy_socket_manager.cpp:635-684 | a packet that came before the bind is received after bind and drain with the sender's address and port and the payload cut to 1400 bytes and to the buffer |
| `PacketJourney.ForeignExactly` | sysmodule/source/bsd/proxy_socket_manager.cpp:404-411 | a host keeps out exactly the packets for ports outside LAN mode of everybody but itself and its registered stations; outside a network nobody is kept out |
| `EarlyArrivals.EarlyOrLate` | sysmodule/source/bsd/proxy_socket_manager.cpp:415-486 | for an INADDR_ANY socket and packets that fit: routing any number of packets and then binding and draining leaves the same sockets, queues and ring as doing so first |
| `EarlyArrivals.GapExactly` | sysmodule/source/bsd/bsd_mitm_service.cpp:1306-1409 | a packet routed between the bind and the drain leaves the same as one routed after both iff it is for another port, or some socket accepts it and, if the bound one does, every packet held for it equals it |
| `EarlyArrivals.OvertakesExactly` | sysmodule/source/bsd/proxy_socket_manager.cpp:635-684 | a packet in front of the held ones rather than behind them gives the same receive queue iff all of them are equal |
| `EarlyArrivals.EmptyGap` | sysmodule/source/bsd/bsd_mitm_service.cpp:1306-1409 | with nothing held for the port a packet in the gap is harmless, and nothing is held after it |
| `EarlyArrivals.SamePortExactly` | sysmodule/source/bsd/proxy_socket_manager.cpp:652-668 | for one packet to the new port that nobody accepts yet: the order of bind and routing does not matter iff the bound socket accepts its address and the payload is at most 1400 bytes |
| `EarlyArrivals.OtherPortCommutes` | sysmodule/source/bsd/proxy_socket_manager.cpp:415-486 | a packet for another port never notices the bind |
| `EarlyArrivals.HeldThenBound` | sysmodule/source/bsd/proxy_socket_manager.cpp:635-684 | exactly what a held packet becomes when the socket is bound |
| `EarlyArrivals.FitsExactly` | sysmodule/source/bsd/proxy_socket_manager.cpp:438-442 | a packet survives a held slot unchanged iff it has at most 1400 bytes |
| `BsdService.TakePort` | sysmodule/source/bsd/bsd_mitm_service.cpp:1286-1304 | port 0 takes an ephemeral port, another port is reserved; a step of the port ownership either way |
| `BsdService.BindReserved` | sysmodule/source/bsd/bsd_mitm_service.cpp:1305-1311 | the reservation becomes the socket's port, or is left behind when the bind is refused |
| `BsdService.BindProxy` | sysmodule/source/bsd/bsd_mitm_service.cpp:1286-1311 | the reserve-then-bind sequence: two steps of the port ownership, the exact outcome, and the bound socket in the routing state |
| `BsdService.Drain` | sysmodule/source/bsd/bsd_mitm_service.cpp:1409 | the hand-over, a section of its own: the routing state of draining, every other socket unchanged |
| `BsdService.OpenProxy` | sysmodule/source/bsd/bsd_mitm_service.cpp:1245 | registering a socket is a Create step of the port ownership |
| `BsdService.CloseProxy` | sysmodule/source/bsd/bsd_mitm_service.cpp:835-840 | closing a descriptor is a Close step of the port ownership |
| `PortPool.EphemeralPortPool.AllocatePort` | sysmodule/source/bsd/ephemeral_port_pool.cpp:47-71 | the first free port cyclically from the cursor, or 0 iff all 16384 are taken; the other protocol's half stays |
| `PortPool.EphemeralPortPool.AllocateSpecificPort` | sysmodule/source/bsd/ephemeral_port_pool.cpp:73-98 | true iff below the range or free, and then marked |
| `PortPool.EphemeralPortPool.ReleasePort` | sysmodule/source/bsd/ephemeral_port_pool.cpp:100-116 | exactly that bit is cleared |
| `PortPool.EphemeralPortPool.GetAvailableCount` | sysmodule/source/bsd/ephemeral_port_pool.cpp:130-137 | free plus taken is 16384 |
| `PortPool.EphemeralPortPool.ReleaseAll` | sysmodule/source/bsd/ephemeral_port_pool.cpp:139-146 | both halves as new |
| `PortPool.EphemeralPortPool.constructor` | sysmodule/source/bsd/ephemeral_port_pool.hpp:94-99 | both halves empty |
| `PortPool.CountTakenChanges` | sysmodule/source/bsd/ephemeral_port_pool.cpp:130-137 | changing one bit changes the count by exactly that bit |
| `PortPool.CountTakenNone` | sysmodule/source/bsd/ephemeral_port_pool.cpp:130-137 | the count is 0 iff no port is taken |
| `PortPool.CursorStopsAtFree` | sysmodule/source/bsd/ephemeral_port_pool.cpp:47-71 | while a port stays free the cursor, started behind another, never passes it |
| `PortPool.NoPortStarves` | sysmodule/source/bsd/ephemeral_port_pool.cpp:47-112 | in any run without ReleaseAll, between two automatic hand-outs of one port no other port stayed free all the time |
| `PortOwnership.StepOwned` | sysmodule/source/bsd/proxy_socket_manager.cpp:73-109 | every interleaved step keeps: each held ephemeral port is marked and has one holder, socket or call in flight |
| `PortOwnership.HolderStep` | sysmodule/source/bsd/bsd_mitm_service.cpp:1286-1311 | who can come to hold a port in a step: a call that takes a free one, or the socket that takes a reservation over |
| `PortOwnership.NoSharedPort` | sysmodule/source/bsd/bsd_mitm_service.cpp:1286-1311 | in every reachable state live sockets of one pool have different ephemeral ports, all marked |
| `PortOwnership.LeaksExactly` | sysmodule/source/bsd/bsd_mitm_service.cpp:1306-1311 | a step loses a port iff a failing call keeps its ephemeral reservation |
| `PortOwnership.ReleaseAllExactly` | sysmodule/source/bsd/ephemeral_port_pool.cpp:139-146 | clearing the pool keeps the ownership iff nobody holds an ephemeral port |
| `PortOwnership.CrossPoolBind` | sysmodule/source/bsd/bsd_mitm_service.cpp:1286-1311 | binding a port reserved in the other pool keeps the ownership iff it is not ephemeral, or is marked and unheld in the socket's own pool |
| `EdgeSort.MedianToFront` | overlay/libtesla/stb_truetype.h:3368-3388 | a permutation of the segment after which both scans have a sentinel |
| `EdgeSort.ScanInward` | overlay/libtesla/stb_truetype.h:3395-3400 | the unguarded scans stay inside the segment |
| `EdgeSort.Partition` | overlay/libtesla/stb_truetype.h:3391-3410 | terminates; nothing before the crossing is above the pivot, nothing behind it is below |
| `EdgeSort.Quicksort` | overlay/libtesla/stb_truetype.h:3360-3420 | terminates, permutes its own segment only, and leaves it coarse: short, or split around a value into two coarse parts and at most one place between them |
| `EdgeSort.WrongOrderIsLocal` | overlay/libtesla/stb_truetype.h:3360-3420 | two places still in the wrong order lie in one segment of at most 12, or the later one is a place left out between two parts |
| `EdgeSort.Insert` | overlay/libtesla/stb_truetype.h:3346-3356 | one more element is in order, nothing is lost |
| `EdgeSort.MovedDownSorted` | overlay/libtesla/stb_truetype.h:3346-3356 | moving an element down to where its lower neighbour is not above it keeps the order |
| `EdgeSort.InsertionSort` | overlay/libtesla/stb_truetype.h:3342-3358 | a sorted permutation of any array |
| `EdgeSort.SortEdges` | overlay/libtesla/stb_truetype.h:3422-3426 | a sorted permutation of any array |

## Left out

- Local network mode and everything below nifm: calls into the operating system.
- Byte layout of NetworkInfo, NodeInfo and the heartbeat payload inside frame bodies: the control plane exchanges typed messages, the frame codec treats bodies as bytes; length checks at the top of the handlers are therefore not modelled.
- A SyncNetwork body with a node count above 8: no console of the model can send one, and the code would read past its node array.
- LdnControl.LdnControl.SendFrame: frames are typed messages, and the early return while the relay runtime is not running is not modelled.
- LdnControl.LdnControl.OnControlFrame: dispatches typed frames; the length checks on bodies are not modelled.
- Waiting inside Scan, Connect and RecvFrom: each locked section is a step of its own (ScanBegin, ScanSend, ConnectBegin, ConnectSend, ConnectTimeout), and an empty wait is EAGAIN.
- Collecting and filtering the results of Scan for the game, and the getters that only copy fields.
- Enforcement of nodeCountMax and the accept policy: the code stores both and enforces neither.
- Threads that race on the send counter outside the mutex: each section is one step.
- LdnControl.LdnControl.Initialize: does not read the virtual address again; the address of a console is fixed over a run.
- The order in which the registry is walked is a parameter of the routing.
- The system tick is a parameter of every step that reads it; the initial time is 0.
- TCP connect, listen and accept, sending, socket options, Select and Poll, and the forwarding to the original socket service.
- The address translation of LAN mode: it is switched off at compile time.
- ProxySocket.ProxySocket.RecvFrom: the timed wait is left out, and null buffers (EFAULT), and null data pointers with a length, have no counterpart.
- ProxySocket.ProxySocket.Close: the disconnect notice to a TCP peer is left out.
- EarlyArrivals.EarlyOrLate: nothing is routed between the bind and the hand-over; EarlyArrivals.GapExactly says what happens to a packet that is.
- CloseAllProxySockets and Reset: never called; each clears the pool in a second locked section, for which PortOwnership.ReleaseAllExactly gives the condition.
- A socket that is closed while another thread still holds a pointer to it.
- Sha1.Sha1Context.Final: messages of 2^64 bits and more, which FIPS 180-4 excludes as well.
- Edge coordinates are real numbers; NaN does not occur.
- The relay client protocol, server lists, the overlay user interface and the rest of the font rasteriser.

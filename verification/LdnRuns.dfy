/** Runs of any number of consoles over a relay that may lose, duplicate, reorder and flood:
    every frame ever sent can be handed to any console, any number of times, at any moment. */
module LdnRuns {
  import opened LdnTypes
  import opened LdnConsole
  import opened LdnInvariants
  import opened LdnSteps
  import ScannerTable

  /** Consoles are identified by their (unique) virtual address. */
  datatype Global = Global(consoles: map<Ip, Console>, sent: set<Frame>)

  /** `who` takes a step when its own clock shows `now`. */
  datatype Action = Action(who: Ip, now: int, event: Event)

  ghost predicate Enabled(g: Global, a: Action) {
    && a.who in g.consoles
    && g.consoles[a.who].clock <= a.now
    && (a.event.Receives? ==> a.event.frame in g.sent)
  }

  ghost function Effect(g: Global, a: Action): Out
    requires a.who in g.consoles
  {
    Step(g.consoles[a.who], a.now, a.event)
  }

  ghost function After(g: Global, a: Action): Global
    requires a.who in g.consoles
  {
    var o := Effect(g, a);
    Global(g.consoles[a.who := o.c], g.sent + set f | f in o.frames)
  }

  datatype Run = Run(states: seq<Global>, actions: seq<Action>)

  ghost predicate Initial(g: Global) {
    g.sent == {} && forall ip :: ip in g.consoles ==> g.consoles[ip] == NewConsole(ip)
  }

  ghost predicate Follows(r: Run, k: nat)
    requires k < |r.actions| && |r.states| == |r.actions| + 1
  {
    Enabled(r.states[k], r.actions[k]) && r.states[k + 1] == After(r.states[k], r.actions[k])
  }

  ghost predicate IsRun(r: Run) {
    && |r.states| == |r.actions| + 1
    && Initial(r.states[0])
    && forall k :: 0 <= k < |r.actions| ==> Follows(r, k)
  }

  ghost predicate GlobalInv(g: Global) {
    && (forall ip :: ip in g.consoles ==> g.consoles[ip].ip == ip && Inv(g.consoles[ip]))
    && (forall f :: f in g.sent ==> f.src in g.consoles)
  }

  lemma {:induction false} AfterInv(g: Global, a: Action)
    requires GlobalInv(g) && Enabled(g, a)
    ensures GlobalInv(After(g, a)) && After(g, a).consoles.Keys == g.consoles.Keys
  {
    var c := g.consoles[a.who];
    StepInv(c, a.now, a.event);
    StepFrames(c, a.now, a.event);
    var o := Effect(g, a);
    forall f | f in o.frames ensures f.src == a.who {
      var k :| 0 <= k < |o.frames| && o.frames[k] == f;
      assert Honest(o.frames[k], o.c, a.event);
    }
  }

  lemma {:induction false} ReachableInv(r: Run, k: nat)
    requires IsRun(r) && k < |r.states|
    ensures GlobalInv(r.states[k]) && r.states[k].consoles.Keys == r.states[0].consoles.Keys
  {
    if k == 0 {
      forall ip | ip in r.states[0].consoles ensures Inv(r.states[0].consoles[ip]) {
        NewConsoleInv(ip);
      }
    } else {
      ReachableInv(r, k - 1);
      assert Follows(r, k - 1);
      AfterInv(r.states[k - 1], r.actions[k - 1]);
    }
  }

  /** Console `ip` in state k of the run. */
  ghost function At(r: Run, k: nat, ip: Ip): Console
    requires IsRun(r) && k < |r.states| && ip in r.states[0].consoles
  {
    ReachableInv(r, k);
    r.states[k].consoles[ip]
  }

  lemma {:induction false} Reachable(r: Run, k: nat, ip: Ip)
    requires IsRun(r) && k < |r.states| && ip in r.states[0].consoles
    ensures Inv(At(r, k, ip)) && At(r, k, ip).ip == ip
    ensures k == 0 ==> At(r, k, ip) == NewConsole(ip)
  {
    ReachableInv(r, k);
  }

  /** Action k seen from console `ip`. */
  lemma {:induction false} StepOf(r: Run, k: nat, ip: Ip)
    requires IsRun(r) && k < |r.actions| && ip in r.states[0].consoles
    ensures Inv(At(r, k, ip))
    ensures var a := r.actions[k];
            if a.who == ip then
              && At(r, k, ip).clock <= a.now
              && At(r, k + 1, ip) == Step(At(r, k, ip), a.now, a.event).c
            else At(r, k + 1, ip) == At(r, k, ip)
  {
    ReachableInv(r, k);
    ReachableInv(r, k + 1);
    assert Follows(r, k);
  }

  // ---- where things come from ----

  lemma {:induction false} NewFrame(r: Run, k: nat, f: Frame)
    requires IsRun(r) && k < |r.actions| && f in r.states[k + 1].sent && f !in r.states[k].sent
    ensures r.actions[k].who == f.src && f.src in r.states[0].consoles
    ensures SentBy(r, k, f) && Honest(f, At(r, k + 1, f.src), r.actions[k].event)
  {
    ReachableInv(r, k);
    assert Follows(r, k);
    var a := r.actions[k];
    var o := Effect(r.states[k], a);
    StepFrames(r.states[k].consoles[a.who], a.now, a.event);
    var j :| 0 <= j < |o.frames| && o.frames[j] == f;
    assert Honest(o.frames[j], o.c, a.event);
    ReachableInv(r, k + 1);
  }

  /** Action k put frame `f` on the relay. */
  ghost predicate SentBy(r: Run, k: nat, f: Frame) {
    && k < |r.actions| && k < |r.states| && r.actions[k].who in r.states[k].consoles
    && f in Effect(r.states[k], r.actions[k]).frames
  }

  /** A frame on the relay was sent by the console whose address it carries. */
  lemma {:induction false} FrameOrigin(r: Run, k: nat, f: Frame) returns (i: nat)
    requires IsRun(r) && k < |r.states| && f in r.states[k].sent
    ensures i < k && r.actions[i].who == f.src && f.src in r.states[0].consoles
    ensures SentBy(r, i, f) && Honest(f, At(r, i + 1, f.src), r.actions[i].event)
  {
    assert k > 0;
    if f in r.states[k - 1].sent {
      i := FrameOrigin(r, k - 1, f);
    } else {
      i := k - 1;
      NewFrame(r, i, f);
    }
  }

  lemma {:induction false} NewScanner(r: Run, k: nat, h: Ip, i: nat)
    requires IsRun(r) && k < |r.actions| && h in r.states[0].consoles && i < SCANNERS
    requires At(r, k + 1, h).scanners[i] != At(r, k, h).scanners[i]
    ensures r.actions[k].who == h && r.actions[k].event.Receives? && r.actions[k].event.frame.msg.Scan?
    ensures At(r, k + 1, h).scanners[i] == Scanner(r.actions[k].event.frame.src, r.actions[k].now, true)
    ensures At(r, k, h).state == AccessPointCreated
  {
    StepOf(r, k, h);
    if r.actions[k].who == h {
      ScannerStep(At(r, k, h), r.actions[k].now, r.actions[k].event);
    }
  }

  /** A used scanner entry goes back to a Scan that the console handled while hosting. */
  lemma {:induction false} ScanOrigin(r: Run, k: nat, h: Ip, i: nat) returns (s: nat)
    requires IsRun(r) && k < |r.states| && h in r.states[0].consoles && i < SCANNERS
    requires At(r, k, h).scanners[i].used
    ensures s < k && r.actions[s].who == h && r.actions[s].event.Receives? && r.actions[s].event.frame.msg.Scan?
    ensures r.actions[s].event.frame.src == At(r, k, h).scanners[i].ip
    ensures r.actions[s].now == At(r, k, h).scanners[i].lastTick
    ensures At(r, s, h).state == AccessPointCreated
  {
    Reachable(r, k, h);
    if At(r, k, h).scanners[i] == At(r, k - 1, h).scanners[i] {
      s := ScanOrigin(r, k - 1, h, i);
    } else {
      s := k - 1;
      NewScanner(r, s, h, i);
    }
  }

  lemma {:induction false} NewStation(r: Run, k: nat, h: Ip, p: Ip)
    requires IsRun(r) && k < |r.actions| && h in r.states[0].consoles
    requires !Registered(At(r, k, h), p) && Registered(At(r, k + 1, h), p)
    ensures r.actions[k].who == h && Admits(At(r, k, h), r.actions[k].now, r.actions[k].event, p)
    ensures ScannerTable.Recent(At(r, k, h).scanners, r.actions[k].now, p)
  {
    StepOf(r, k, h);
    RegistrationStep(At(r, k, h), r.actions[k].now, r.actions[k].event, p);
  }

  /** The step that put a registered peer into the table, with the peer registered ever since. */
  lemma {:induction false} AdmissionOrigin(r: Run, k: nat, h: Ip, p: Ip) returns (a: nat)
    requires IsRun(r) && k < |r.states| && h in r.states[0].consoles && Registered(At(r, k, h), p)
    ensures a < k && r.actions[a].who == h
    ensures Admits(At(r, a, h), r.actions[a].now, r.actions[a].event, p)
    ensures ScannerTable.Recent(At(r, a, h).scanners, r.actions[a].now, p)
    ensures !Registered(At(r, a, h), p)
    ensures forall j :: a < j <= k ==> Registered(At(r, j, h), p)
  {
    Reachable(r, k, h);
    if Registered(At(r, k - 1, h), p) {
      a := AdmissionOrigin(r, k - 1, h, p);
    } else {
      a := k - 1;
      NewStation(r, a, h, p);
    }
  }

  // ---- join safety ----

  /** Everything a completed join rests on: the host's admission step `a` and the Scan step
      `s` at the host, and the step `b` in which the station itself sent the Connect. */
  ghost predicate Joined(r: Run, k: nat, station: Ip, h: Ip, i: nat, a: nat, s: nat, b: nat)
    requires IsRun(r) && station in r.states[0].consoles && h in r.states[0].consoles
  {
    && s < a < i <= k < |r.states| && b < a
    // at moment i the host is hosting with the station in its table ...
    && At(r, i, h).state == AccessPointCreated
    && (forall j :: a < j <= i ==> Registered(At(r, j, h), station))
    // ... where it was put at step a by a Connect frame ...
    && !Registered(At(r, a, h), station)
    && r.actions[a].who == h && r.actions[a].event.Receives?
    && (var f := r.actions[a].event.frame;
        && f.msg.Connect? && f.src == station
        // ... that the station itself had sent ...
        && r.actions[b].who == station && r.actions[b].event.Calls? && r.actions[b].event.call.ConnectSend?
        && SentBy(r, b, f))
    // ... within 30 s of the host handling a Scan of the station.
    && r.actions[s].who == h && r.actions[s].event.Receives?
    && r.actions[s].event.frame.msg.Scan? && r.actions[s].event.frame.src == station
    && At(r, s, h).state == AccessPointCreated
    && r.actions[a].now - r.actions[s].now <= SCANNER_TIMEOUT
  }

  /** Becoming connected takes a Sync that names this console and, with a join active,
      carries the join target. */
  lemma {:induction false} ConnectedBySync(c: Console, now: int, e: Event)
    requires Inv(c) && c.clock <= now && c.state != StationConnected && Step(c, now, e).c.state == StationConnected
    ensures e.Receives? && e.frame.msg.Sync? && Confirms(e.frame.msg.info, c.ip)
    ensures c.joinActive ==> e.frame.msg.info.bssid == c.joinTarget
    ensures Step(c, now, e).c.joinActive == c.joinActive && Step(c, now, e).c.joinTarget == c.joinTarget
  {
    var d := c.(clock := now);
    match e
    case Receives(f) => ReceiveSession(d, now, f); ReceiveKeeps(d, now, f);
    case Ticks => TickKeeps(d, now);
    case Calls(call) => CallKeeps(d, call);
  }

  /** Join safety, for every run: a station that becomes connected while its join to another
      console is active was registered there before, by its own Connect, after its own Scan. */
  lemma {:induction false} JoinSafety(r: Run, k: nat, station: Ip, h: Ip) returns (i: nat, a: nat, s: nat, b: nat)
    requires IsRun(r) && k + 1 < |r.states|
    requires station in r.states[0].consoles && h in r.states[0].consoles && station != h
    requires At(r, k, station).state != StationConnected && At(r, k + 1, station).state == StationConnected
    requires At(r, k + 1, station).joinActive && At(r, k + 1, station).joinTarget == FakeMac(h)
    ensures Joined(r, k, station, h, i, a, s, b)
  {
    var f := SyncThatConnects(r, k, station);
    i := HostMoment(r, k, station, h, f);
    a := AdmissionOrigin(r, i, h, station);
    var e :| 0 <= e < SCANNERS && ScannerTable.Holds(At(r, a, h).scanners[e], station)
             && r.actions[a].now - At(r, a, h).scanners[e].lastTick <= SCANNER_TIMEOUT;
    s := ScanOrigin(r, a, h, e);
    assert Follows(r, a);
    b := FrameOrigin(r, a, r.actions[a].event.frame);
  }

  lemma {:induction false} SyncThatConnects(r: Run, k: nat, station: Ip) returns (f: Frame)
    requires IsRun(r) && k + 1 < |r.states| && station in r.states[0].consoles
    requires At(r, k, station).state != StationConnected && At(r, k + 1, station).state == StationConnected
    ensures f in r.states[k].sent && f.msg.Sync? && Confirms(f.msg.info, station)
    ensures At(r, k + 1, station).joinActive ==> f.msg.info.bssid == At(r, k + 1, station).joinTarget
  {
    StepOf(r, k, station);
    Reachable(r, k, station);
    assert Follows(r, k);
    ConnectedBySync(At(r, k, station), r.actions[k].now, r.actions[k].event);
    f := r.actions[k].event.frame;
  }

  /** A Sync with the bssid of `h` that names the station was sent by `h`, hosting, with the
      station registered. */
  lemma {:induction false} HostMoment(r: Run, k: nat, station: Ip, h: Ip, f: Frame) returns (i: nat)
    requires IsRun(r) && k < |r.states|
    requires station in r.states[0].consoles && h in r.states[0].consoles && station != h
    requires f in r.states[k].sent && f.msg.Sync? && f.msg.info.bssid == FakeMac(h) && Confirms(f.msg.info, station)
    ensures i <= k && At(r, i, h).state == AccessPointCreated && Registered(At(r, i, h), station)
  {
    var j := FrameOrigin(r, k, f);
    i := j + 1;
    Reachable(r, i, f.src);
    FakeMacInjective(f.src, h);
    ListedIsRegistered(At(r, i, h), station);
  }

  // ---- retries ----

  lemma {:induction false} KeepsSlot(r: Run, k: nat, h: Ip, p: Ip, slot: nat)
    requires IsRun(r) && k < |r.actions| && h in r.states[0].consoles && slot < STATIONS
    requires At(r, k, h).stations[slot].active && At(r, k, h).stations[slot].src == p
    requires Registered(At(r, k + 1, h), p)
    ensures At(r, k + 1, h).stations[slot].active && At(r, k + 1, h).stations[slot].src == p
  {
    StepOf(r, k, h);
    if r.actions[k].who == h {
      SlotStays(At(r, k, h), r.actions[k].now, r.actions[k].event, p, slot);
    }
  }

  /** As long as a peer is registered it keeps its slot, hence its node id, over any run. */
  lemma {:induction false} OneSlotPerPeer(r: Run, k: nat, m: nat, h: Ip, p: Ip, slot: nat)
    requires IsRun(r) && k <= m < |r.states| && h in r.states[0].consoles && slot < STATIONS
    requires At(r, k, h).stations[slot].active && At(r, k, h).stations[slot].src == p
    requires forall j :: k <= j <= m ==> Registered(At(r, j, h), p)
    ensures At(r, m, h).stations[slot].active && At(r, m, h).stations[slot].src == p
    ensures At(r, m, h).stations[slot].node.nodeId == slot + 1
    decreases m
  {
    Reachable(r, m, h);
    if m > k {
      OneSlotPerPeer(r, k, m - 1, h, p, slot);
      KeepsSlot(r, m - 1, h, p, slot);
    }
    assert SlotOk(At(r, m, h).stations[slot], slot);
  }
}

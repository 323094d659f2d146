/** What reaches whom, over whole runs: heartbeats keep a station in, scan results are real
    networks, listed nodes are what their owners said, and stamps number the frames. */
module LdnTraffic {
  import opened LdnTypes
  import opened LdnConsole
  import opened LdnInvariants
  import opened LdnSteps
  import opened LdnRuns
  import opened LdnLiveness
  import opened LdnOperations
  import SyncOrder

  // ---- heartbeats ----

  /** A due Tick of a guest of `h` puts a heartbeat for `h` on the relay. */
  lemma {:induction false} GuestBeats(r: Run, k: nat, s: Ip, h: Ip) returns (f: Frame)
    requires IsRun(r) && k < |r.actions| && s in r.states[0].consoles && r.actions[k].who == s && r.actions[k].event == Ticks
    requires var c := At(r, k, s);
             && c.state == StationConnected && c.joinActive && c.joinTarget == FakeMac(h)
             && c.net.nodeCount > 0 && c.net.nodes[0].ip == h != 0
             && r.actions[k].now - c.lastBeacon >= BEACON_INTERVAL
    ensures f in r.states[k + 1].sent && f.src == s && f.dst == h && f.msg.Heartbeat? && f.msg.bssid == FakeMac(h)
  {
    Reachable(r, k, s);
    StepOf(r, k, s);
    assert Follows(r, k);
    ReachableInv(r, k);
    HeartbeatExactly(At(r, k, s), r.actions[k].now);
    f := Effect(r.states[k], r.actions[k]).frames[0];
    assert f in Effect(r.states[k], r.actions[k]).frames;
  }

  /** Whenever the host handles such a heartbeat with the station registered, it has heard from
      the station. */
  lemma {:induction false} HeartbeatIsHeard(r: Run, k: nat, s: Ip, h: Ip)
    requires IsRun(r) && k < |r.actions| && h in r.states[0].consoles && r.actions[k].who == h
    requires r.actions[k].event.Receives? && r.actions[k].event.frame.src == s
    requires r.actions[k].event.frame.msg.Heartbeat? && r.actions[k].event.frame.msg.bssid == FakeMac(h)
    requires Registered(At(r, k, h), s)
    ensures HearsFrom(r, k, h, s)
  {
    Reachable(r, k, h);
    RegisteredIsFound(At(r, k, h), s);
    var i :| 0 <= i < STATIONS && At(r, k, h).stations[i].active && At(r, k, h).stations[i].src == s;
    assert At(r, k, h).state == AccessPointCreated;
  }

  /** Action j brings the host a heartbeat of the registered station `s`. */
  ghost predicate BeatArrives(r: Run, j: nat, s: Ip, h: Ip)
    requires IsRun(r) && h in r.states[0].consoles
  {
    && j < |r.actions| && r.actions[j].who == h && r.actions[j].event.Receives?
    && r.actions[j].event.frame.src == s && r.actions[j].event.frame.msg.Heartbeat?
    && r.actions[j].event.frame.msg.bssid == FakeMac(h) && Registered(At(r, j, h), s)
  }

  /** So a station whose heartbeats arrive at gaps below 30 seconds is never dropped by Tick:
      at every Tick of the host within 30 seconds of an arrived heartbeat it stays registered. */
  lemma {:induction false} BeatingStaysIn(r: Run, j: nat, k: nat, s: Ip, h: Ip)
    requires IsRun(r) && h in r.states[0].consoles && j < k < |r.actions| && BeatArrives(r, j, s, h)
    requires r.actions[k].who == h && r.actions[k].event == Ticks && Registered(At(r, k, h), s)
    requires r.actions[k].now - r.actions[j].now < PEER_TIMEOUT
    ensures Registered(At(r, k + 1, h), s)
  {
    HeartbeatIsHeard(r, j, s, h);
    if !Registered(At(r, k + 1, h), s) {
      NeverDroppedEarly(r, j, k, h, s);
    }
  }

  // ---- scan results ----

  lemma {:induction false} NewResult(c: Console, now: int, e: Event, info: NetworkInfo)
    requires info in Step(c, now, e).c.scanResults && info !in c.scanResults
    ensures e.Receives? && e.frame.msg == ScanResp(info) && e.frame.src != c.ip
  {
    if e.Calls? {
      CallResults(c.(clock := now), e.call);
    } else if !(e.Receives? && e.frame.msg.ScanResp?) {
      OtherResults(c, now, e);
    }
  }

  /** Every network that a console found was the description of another console, which was
      hosting at that moment. */
  lemma {:induction false} FoundIsHosted(r: Run, k: nat, s: Ip, info: NetworkInfo) returns (i: nat, h: Ip)
    requires IsRun(r) && k < |r.states| && s in r.states[0].consoles && info in At(r, k, s).scanResults
    ensures i <= k && h != s && h in r.states[0].consoles && At(r, i, h).state == AccessPointCreated && At(r, i, h).net == info
  {
    Reachable(r, k, s);
    if info in At(r, k - 1, s).scanResults {
      i, h := FoundIsHosted(r, k - 1, s, info);
    } else {
      StepOf(r, k - 1, s);
      Reachable(r, k - 1, s);
      assert Follows(r, k - 1);
      NewResult(At(r, k - 1, s), r.actions[k - 1].now, r.actions[k - 1].event, info);
      var f := r.actions[k - 1].event.frame;
      var j := FrameOrigin(r, k - 1, f);
      i, h := j + 1, f.src;
    }
  }

  /** What a console finds under a bssid is a network of the console with that bssid. */
  lemma {:induction false} FoundNamesHost(r: Run, k: nat, s: Ip, info: NetworkInfo)
    requires IsRun(r) && k < |r.states| && s in r.states[0].consoles && info in At(r, k, s).scanResults
    ensures info.nodeCount >= 1 && info.bssid == FakeMac(info.nodes[0].ip) && info.nodes[0].ip != s
  {
    var i, h := FoundIsHosted(r, k, s, info);
    Reachable(r, i, h);
    HostDescription(At(r, i, h), 0);
  }

  // ---- what the list says of a station ----

  /** Action j is an admitted Connect of the peer in slot i, with the name and version listed. */
  ghost predicate Introduced(r: Run, j: nat, h: Ip, s: StationSlot)
    requires IsRun(r) && h in r.states[0].consoles
  {
    && j < |r.actions| && r.actions[j].who == h
    && Admits(At(r, j, h), r.actions[j].now, r.actions[j].event, s.src)
    && r.actions[j].event.frame.msg.node.name == s.node.name && r.actions[j].event.frame.msg.node.version == s.node.version
  }

  lemma {:induction false} IntroducedStep(r: Run, k: nat, h: Ip, i: nat)
    requires IsRun(r) && k < |r.actions| && h in r.states[0].consoles && i < STATIONS && At(r, k + 1, h).stations[i].active
    ensures var s, s' := At(r, k, h).stations[i], At(r, k + 1, h).stations[i];
            (s.active && s.src == s'.src && s.node == s'.node) || Introduced(r, k, h, s')
  {
    StepOf(r, k, h);
    var c, now, e := At(r, k, h), r.actions[k].now, r.actions[k].event;
    if r.actions[k].who == h {
      if e.Receives? && Admits(c, now, e, e.frame.src) {
        var j := AdmittedIsListed(c, now, e.frame);
        HostDescription(At(r, k + 1, h), j);
        Reachable(r, k + 1, h);
      } else if e.Receives? && Beats(c, e, e.frame.src) {
        BeatStep(c, now, e, e.frame.src);
      } else {
        OtherStep(c, now, e);
      }
    }
  }

  /** The listed name and version of a station are those of a Connect by which the host admitted
      it. */
  lemma {:induction false} ListedAsIntroduced(r: Run, k: nat, h: Ip, i: nat) returns (j: nat)
    requires IsRun(r) && k < |r.states| && h in r.states[0].consoles && i < STATIONS && At(r, k, h).stations[i].active
    ensures j < k && Introduced(r, j, h, At(r, k, h).stations[i])
    ensures At(r, k, h).state == AccessPointCreated
    ensures var rank := 1 + CountLive(At(r, k, h).stations[..i]);
            rank < At(r, k, h).net.nodeCount && At(r, k, h).net.nodes[rank] == At(r, k, h).stations[i].node
  {
    Reachable(r, k, h);
    HostDescription(At(r, k, h), i);
    IntroducedStep(r, k - 1, h, i);
    if Introduced(r, k - 1, h, At(r, k, h).stations[i]) {
      j := k - 1;
    } else {
      j := ListedAsIntroduced(r, k - 1, h, i);
    }
  }

  // ---- stamps ----

  /** All frames that console `s` sent before state k, in order. */
  ghost function SentBefore(r: Run, k: nat, s: Ip): seq<Frame>
    requires IsRun(r) && k < |r.states| && s in r.states[0].consoles
  {
    if k == 0 then []
    else if r.actions[k - 1].who == s then
      SentBefore(r, k - 1, s) + Step(At(r, k - 1, s), r.actions[k - 1].now, r.actions[k - 1].event).frames
    else SentBefore(r, k - 1, s)
  }

  /** Everything a console sends is stamped by one counter that starts at 0. */
  lemma {:induction false} SentIsStamped(r: Run, k: nat, s: Ip)
    requires IsRun(r) && k < |r.states| && s in r.states[0].consoles
    ensures Stamped(SentBefore(r, k, s), 0) && At(r, k, s).txSeq == Counter(SentBefore(r, k, s), 0)
    decreases k
  {
    Reachable(r, k, s);
    if k > 0 {
      SentIsStamped(r, k - 1, s);
      StepOf(r, k - 1, s);
      var a := r.actions[k - 1];
      if a.who == s {
        StepStamped(At(r, k - 1, s), a.now, a.event);
        StampedConcat(SentBefore(r, k - 1, s), Step(At(r, k - 1, s), a.now, a.event).frames, 0);
      }
    }
  }

  lemma {:induction false} StampedIsNumbered(fs: seq<Frame>, n: nat)
    requires Stamped(fs, 0) && n < |fs|
    ensures fs[n].stamp == SyncOrder.StampOf(n + 1)
    decreases |fs|
  {
    var m := |fs| - 1;
    if n < m {
      StampedIsNumbered(fs[..m], n);
    } else {
      if m > 0 {
        StampedIsNumbered(fs[..m], m - 1);
      }
      SyncOrder.StampsFollow(if m > 0 then m else 1);
    }
  }

  /** Over every run, the n-th frame that a console sends carries the n-th stamp of the counter:
      the numbering that the ordering of syncs rests on. */
  lemma {:induction false} FramesAreNumbered(r: Run, k: nat, s: Ip, n: nat)
    requires IsRun(r) && k < |r.states| && s in r.states[0].consoles && n < |SentBefore(r, k, s)|
    ensures SentBefore(r, k, s)[n].src == s && SentBefore(r, k, s)[n].stamp == SyncOrder.StampOf(n + 1)
  {
    SentIsStamped(r, k, s);
    StampedIsNumbered(SentBefore(r, k, s), n);
    SentIsOwn(r, k, s, n);
  }

  lemma {:induction false} SentIsOwn(r: Run, k: nat, s: Ip, n: nat)
    requires IsRun(r) && k < |r.states| && s in r.states[0].consoles && n < |SentBefore(r, k, s)|
    ensures SentBefore(r, k, s)[n].src == s
    decreases k
  {
    if k > 0 {
      if n < |SentBefore(r, k - 1, s)| {
        SentIsOwn(r, k - 1, s, n);
      } else {
        var a := r.actions[k - 1];
        StepOf(r, k - 1, s);
        Reachable(r, k, s);
        StepFrames(At(r, k - 1, s), a.now, a.event);
        var o := Step(At(r, k - 1, s), a.now, a.event);
        assert Honest(o.frames[n - |SentBefore(r, k - 1, s)|], o.c, a.event);
      }
    }
  }
}

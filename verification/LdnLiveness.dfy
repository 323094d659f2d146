/** Peer timeouts over whole runs: nobody is dropped early, nobody silent is kept. */
module LdnLiveness {
  import opened LdnTypes
  import opened LdnConsole
  import opened LdnInvariants
  import opened LdnSteps
  import opened LdnRuns

  // ---- the host's side ----

  /** Action k shows console `h` that `p` is alive. */
  ghost predicate HearsFrom(r: Run, k: nat, h: Ip, p: Ip)
    requires IsRun(r) && h in r.states[0].consoles
  {
    && k < |r.actions| && r.actions[k].who == h
    && Refreshes(At(r, k, h), r.actions[k].now, r.actions[k].event, p)
  }

  /** The slot of `p`, if it has one, was refreshed at or after time `t`. */
  ghost predicate SeenSince(c: Console, p: Ip, t: int) {
    && t <= c.clock
    && forall i :: 0 <= i < STATIONS && c.stations[i].active && c.stations[i].src == p ==> c.stations[i].lastSeen >= t
  }

  lemma {:induction false} SeenSinceStep(c: Console, now: int, e: Event, p: Ip, t: int)
    requires Inv(c) && c.clock <= now
    requires SeenSince(c, p, t) || (t == now && Refreshes(c, now, e, p))
    ensures SeenSince(Step(c, now, e).c, p, t)
  {
    StepFrames(c, now, e);
    if e.Receives? && Admits(c, now, e, e.frame.src) {
      AdmitStep(c, now, e, e.frame.src);
    } else if e.Receives? && Beats(c, e, e.frame.src) {
      BeatStep(c, now, e, e.frame.src);
    } else {
      OtherStep(c, now, e);
    }
  }

  lemma {:induction false} SeenSinceRun(r: Run, j: nat, k: nat, h: Ip, p: Ip)
    requires IsRun(r) && j < k < |r.states| && h in r.states[0].consoles && HearsFrom(r, j, h, p)
    ensures SeenSince(At(r, k, h), p, r.actions[j].now)
    decreases k
  {
    if k > j + 1 {
      SeenSinceRun(r, j, k - 1, h, p);
    }
    StepOf(r, k - 1, h);
    if r.actions[k - 1].who == h {
      SeenSinceStep(At(r, k - 1, h), r.actions[k - 1].now, r.actions[k - 1].event, p, r.actions[j].now);
    }
  }

  /** Tick drops only stations that have been silent for 30 seconds. */
  lemma {:induction false} TickDropsSilent(c: Console, now: int, p: Ip)
    requires Inv(c) && c.clock <= now && Registered(c, p) && !Registered(Step(c, now, Ticks).c, p)
    ensures exists i :: 0 <= i < STATIONS && c.stations[i].active && c.stations[i].src == p
                        && now - c.stations[i].lastSeen >= PEER_TIMEOUT
  {
    var i :| 0 <= i < STATIONS && c.stations[i].active && c.stations[i].src == p;
    assert !Step(c, now, Ticks).c.stations[i].active || Step(c, now, Ticks).c.stations[i].src != p;
  }

  /** No early drop: when a Tick drops `p`, every sign of life of `p` is at least 30 seconds
      old; so a station heard at gaps below 30 seconds is never dropped by Tick. */
  lemma {:induction false} NeverDroppedEarly(r: Run, j: nat, k: nat, h: Ip, p: Ip)
    requires IsRun(r) && j < k < |r.actions| && h in r.states[0].consoles && HearsFrom(r, j, h, p)
    requires r.actions[k].who == h && r.actions[k].event == Ticks
    requires Registered(At(r, k, h), p) && !Registered(At(r, k + 1, h), p)
    ensures r.actions[k].now - r.actions[j].now >= PEER_TIMEOUT
  {
    SeenSinceRun(r, j, k, h, p);
    StepOf(r, k, h);
    TickDropsSilent(At(r, k, h), r.actions[k].now, p);
  }

  lemma {:induction false} ChangedSlot(r: Run, k: nat, h: Ip, i: nat)
    requires IsRun(r) && k < |r.actions| && h in r.states[0].consoles && i < STATIONS
    requires At(r, k + 1, h).stations[i].active
    requires var s, s' := At(r, k, h).stations[i], At(r, k + 1, h).stations[i];
             !(s.active && s.src == s'.src && s.lastSeen == s'.lastSeen)
    ensures HearsFrom(r, k, h, At(r, k + 1, h).stations[i].src)
    ensures r.actions[k].now == At(r, k + 1, h).stations[i].lastSeen
  {
    StepOf(r, k, h);
    var c, now, e := At(r, k, h), r.actions[k].now, r.actions[k].event;
    if e.Receives? && Admits(c, now, e, e.frame.src) {
      AdmitStep(c, now, e, e.frame.src);
    } else if e.Receives? && Beats(c, e, e.frame.src) {
      BeatStep(c, now, e, e.frame.src);
    } else {
      OtherStep(c, now, e);
    }
  }

  /** lastSeen is the time of an action in which the host heard from the station. */
  lemma {:induction false} LastHeard(r: Run, k: nat, h: Ip, i: nat) returns (j: nat)
    requires IsRun(r) && k < |r.states| && h in r.states[0].consoles && i < STATIONS
    requires At(r, k, h).stations[i].active
    ensures j < k && HearsFrom(r, j, h, At(r, k, h).stations[i].src)
    ensures r.actions[j].now == At(r, k, h).stations[i].lastSeen
  {
    Reachable(r, k, h);
    var s, s' := At(r, k - 1, h).stations[i], At(r, k, h).stations[i];
    if s.active && s.src == s'.src && s.lastSeen == s'.lastSeen {
      j := LastHeard(r, k - 1, h, i);
    } else {
      j := k - 1;
      ChangedSlot(r, j, h, i);
    }
  }

  /** No late drop: a station not heard from after time `t` is gone 35 seconds plus the gap
      between Tick calls later. */
  lemma {:induction false} SilentIsGone(r: Run, k: nat, h: Ip, p: Ip, t: int, d: int)
    requires IsRun(r) && k < |r.states| && h in r.states[0].consoles
    requires forall j :: 0 <= j < k && HearsFrom(r, j, h, p) ==> r.actions[j].now <= t
    requires At(r, k, h).clock - At(r, k, h).lastTick <= d
    requires At(r, k, h).clock >= t + PEER_TIMEOUT + BEACON_INTERVAL + d
    ensures !Registered(At(r, k, h), p)
  {
    if Registered(At(r, k, h), p) {
      var i :| 0 <= i < STATIONS && At(r, k, h).stations[i].active && At(r, k, h).stations[i].src == p;
      var j := LastHeard(r, k, h, i);
      Reachable(r, k, h);
      assert false;
    }
  }

  // ---- the station's side ----

  ghost predicate HearsHost(r: Run, k: nat, s: Ip)
    requires IsRun(r) && s in r.states[0].consoles
  {
    k < |r.actions| && r.actions[k].who == s && AppliesSync(At(r, k, s), r.actions[k].event)
  }

  lemma {:induction false} HostSeenStep(c: Console, now: int, e: Event)
    requires Inv(c) && c.clock <= now
    ensures AppliesSync(c, e) ==> Step(c, now, e).c.hostLastSeen == now
    ensures !AppliesSync(c, e) ==> Step(c, now, e).c.hostLastSeen == c.hostLastSeen
    ensures Step(c, now, e).c.state == StationConnected ==> c.state == StationConnected || AppliesSync(c, e)
  {
    var d := c.(clock := now);
    match e
    case Receives(f) => ReceiveSession(d, now, f);
    case Ticks => TickKeeps(d, now);
    case Calls(call) => CallKeeps(d, call);
  }

  lemma {:induction false} HostSeenSince(r: Run, j: nat, k: nat, s: Ip)
    requires IsRun(r) && j < k < |r.states| && s in r.states[0].consoles && HearsHost(r, j, s)
    ensures At(r, k, s).hostLastSeen >= r.actions[j].now && At(r, k, s).clock >= r.actions[j].now
    decreases k
  {
    if k > j + 1 {
      HostSeenSince(r, j, k - 1, s);
    }
    StepOf(r, k - 1, s);
    if r.actions[k - 1].who == s {
      HostSeenStep(At(r, k - 1, s), r.actions[k - 1].now, r.actions[k - 1].event);
      StepFrames(At(r, k - 1, s), r.actions[k - 1].now, r.actions[k - 1].event);
    }
  }

  /** A station gives its host up by Tick only after 30 seconds without an applied Sync. */
  lemma {:induction false} HostNotGivenUpEarly(r: Run, j: nat, k: nat, s: Ip)
    requires IsRun(r) && j < k < |r.actions| && s in r.states[0].consoles && HearsHost(r, j, s)
    requires r.actions[k].who == s && r.actions[k].event == Ticks
    requires At(r, k, s).state == StationConnected && At(r, k + 1, s).state != StationConnected
    ensures r.actions[k].now - r.actions[j].now >= PEER_TIMEOUT
  {
    HostSeenSince(r, j, k, s);
    StepOf(r, k, s);
  }

  lemma {:induction false} HostLastHeard(r: Run, k: nat, s: Ip) returns (j: nat)
    requires IsRun(r) && k < |r.states| && s in r.states[0].consoles && At(r, k, s).state == StationConnected
    ensures j < k && HearsHost(r, j, s) && r.actions[j].now == At(r, k, s).hostLastSeen
  {
    Reachable(r, k, s);
    StepOf(r, k - 1, s);
    if r.actions[k - 1].who == s {
      HostSeenStep(At(r, k - 1, s), r.actions[k - 1].now, r.actions[k - 1].event);
    }
    if HearsHost(r, k - 1, s) {
      j := k - 1;
    } else {
      j := HostLastHeard(r, k - 1, s);
    }
  }

  /** A station whose host has been silent since time `t` has left 35 seconds plus the gap
      between Tick calls later. */
  lemma {:induction false} SilentHostIsLeft(r: Run, k: nat, s: Ip, t: int, d: int)
    requires IsRun(r) && k < |r.states| && s in r.states[0].consoles
    requires forall j :: 0 <= j < k && HearsHost(r, j, s) ==> r.actions[j].now <= t
    requires At(r, k, s).clock - At(r, k, s).lastTick <= d
    requires At(r, k, s).clock >= t + PEER_TIMEOUT + BEACON_INTERVAL + d
    ensures At(r, k, s).state != StationConnected
  {
    if At(r, k, s).state == StationConnected {
      var j := HostLastHeard(r, k, s);
      Reachable(r, k, s);
      assert false;
    }
  }
}

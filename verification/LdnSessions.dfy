/** Isolation of sessions that share one relay. */
module LdnSessions {
  import opened LdnTypes
  import opened LdnConsole
  import opened LdnInvariants
  import opened LdnSteps
  import opened LdnRuns

  /** A connected station with a join active holds the network it joined. */
  ghost predicate BssidOk(c: Console) {
    c.state == StationConnected && c.joinActive ==> c.net.bssid == c.joinTarget
  }

  /** The description names its own host. */
  ghost predicate NamesHost(info: NetworkInfo) {
    info.bssid == FakeMac(info.nodes[0].ip)
  }

  /** Moreover, the description of a connected station names its host. */
  ghost predicate SessionOk(c: Console) {
    BssidOk(c) && (c.state == StationConnected ==> NamesHost(c.net))
  }

  // ---- what breaks them, exactly ----

  /** A join to another network from inside a session. */
  ghost predicate JoinsAway(c: Console, e: Event) {
    && c.state == StationConnected && e.Calls? && e.call.ConnectBegin?
    && e.call.target.nodeCount > 0 && e.call.target.bssid != c.net.bssid
  }

  /** A call meant for hosts, made as a guest: it rebuilds the guest's description with the
      guest in the first place. */
  ghost predicate HostsAsGuest(c: Console, e: Event) {
    && c.state == StationConnected && c.net.bssid != FakeMac(c.ip) && e.Calls?
    && ((e.call.SetAdvertiseData? && |e.call.data| <= ADVERTISE_MAX) || (e.call.Reject? && 1 <= e.call.nodeId < NODES))
  }

  /** A step loses the joined network exactly when it is a join to another one. */
  lemma {:induction false} JoinTargetExactly(c: Console, now: int, e: Event)
    requires Inv(c) && c.clock <= now && BssidOk(c)
    ensures BssidOk(Step(c, now, e).c) <==> !JoinsAway(c, e)
  {
    var d := c.(clock := now);
    match e
    case Receives(f) => ReceiveSession(d, now, f); ReceiveKeeps(d, now, f);
    case Ticks => TickKeeps(d, now);
    case Calls(call) => CallBssid(d, call);
  }

  lemma {:induction false} CallBssid(c: Console, call: Call)
    requires BssidOk(c)
    ensures BssidOk(DoCall(c, call).c) <==> !JoinsAway(c, Calls(call))
  {
  }

  /** A step loses the session exactly when it is a join to another network or a host call of
      a guest. */
  lemma {:induction false} SessionExactly(c: Console, now: int, e: Event)
    requires Inv(c) && c.clock <= now && SessionOk(c)
    requires e.Receives? && e.frame.msg.Sync? ==> NamesHost(e.frame.msg.info)
    ensures SessionOk(Step(c, now, e).c) <==> !JoinsAway(c, e) && !HostsAsGuest(c, e)
  {
    var d := c.(clock := now);
    match e
    case Receives(f) => ReceiveSession(d, now, f); ReceiveKeeps(d, now, f);
    case Ticks => TickKeeps(d, now);
    case Calls(call) => CallBssid(d, call); CallNamesHost(d, call);
  }

  lemma {:induction false} CallNamesHost(c: Console, call: Call)
    requires c.state == StationConnected ==> NamesHost(c.net)
    ensures var c' := DoCall(c, call).c;
            (c'.state == StationConnected ==> NamesHost(c'.net)) <==> !HostsAsGuest(c, Calls(call))
  {
    if HostsAsGuest(c, Calls(call)) && DoCall(c, call).c.net.bssid == FakeMac(c.ip) {
      assert false;
    }
  }

  // ---- over runs ----

  /** Every Sync on the relay names its sender as host. */
  lemma {:induction false} SyncNamesSender(r: Run, k: nat, f: Frame)
    requires IsRun(r) && k < |r.states| && f in r.states[k].sent && f.msg.Sync?
    ensures f.msg.info.bssid == FakeMac(f.src) && f.msg.info.nodes[0].ip == f.src
  {
    var i := FrameOrigin(r, k, f);
    Reachable(r, i + 1, f.src);
    HostDescription(At(r, i + 1, f.src), 0);
  }

  /** Action k is one of `s` that joins another network from inside a session. */
  ghost predicate JoinsAwayAt(r: Run, k: nat, s: Ip)
    requires IsRun(r) && k < |r.actions| && s in r.states[0].consoles
  {
    r.actions[k].who == s && JoinsAway(At(r, k, s), r.actions[k].event)
  }

  ghost predicate BreaksSessionAt(r: Run, k: nat, s: Ip)
    requires IsRun(r) && k < |r.actions| && s in r.states[0].consoles
  {
    JoinsAwayAt(r, k, s) || (r.actions[k].who == s && HostsAsGuest(At(r, k, s), r.actions[k].event))
  }

  lemma {:induction false} JoinAction(r: Run, k: nat, s: Ip)
    requires IsRun(r) && k < |r.actions| && s in r.states[0].consoles && BssidOk(At(r, k, s))
    ensures BssidOk(At(r, k + 1, s)) <==> !JoinsAwayAt(r, k, s)
  {
    StepOf(r, k, s);
    if r.actions[k].who == s {
      JoinTargetExactly(At(r, k, s), r.actions[k].now, r.actions[k].event);
    }
  }

  /** Over every run and every behaviour of the relay and the other consoles: a station holds
      the network it joined in all states up to k exactly when its game never joined another
      one from inside a session. */
  lemma {:induction false} HoldsJoinTarget(r: Run, k: nat, s: Ip)
    requires IsRun(r) && k < |r.states| && s in r.states[0].consoles
    ensures (forall j :: 0 <= j <= k ==> BssidOk(At(r, j, s))) <==> (forall j :: 0 <= j < k ==> !JoinsAwayAt(r, j, s))
    decreases k
  {
    Reachable(r, 0, s);
    if k > 0 {
      HoldsJoinTarget(r, k - 1, s);
      if BssidOk(At(r, k - 1, s)) {
        JoinAction(r, k - 1, s);
      }
    }
  }

  lemma {:induction false} SessionAction(r: Run, k: nat, s: Ip)
    requires IsRun(r) && k < |r.actions| && s in r.states[0].consoles && SessionOk(At(r, k, s))
    ensures SessionOk(At(r, k + 1, s)) <==> !BreaksSessionAt(r, k, s)
  {
    StepOf(r, k, s);
    var a := r.actions[k];
    if a.who == s {
      assert Follows(r, k);
      if a.event.Receives? && a.event.frame.msg.Sync? {
        SyncNamesSender(r, k, a.event.frame);
      }
      SessionExactly(At(r, k, s), a.now, a.event);
    }
  }

  /** The same for the whole session, where host calls of a guest count as well. */
  lemma {:induction false} HoldsSession(r: Run, k: nat, s: Ip)
    requires IsRun(r) && k < |r.states| && s in r.states[0].consoles
    ensures (forall j :: 0 <= j <= k ==> SessionOk(At(r, j, s))) <==> (forall j :: 0 <= j < k ==> !BreaksSessionAt(r, j, s))
    decreases k
  {
    Reachable(r, 0, s);
    if k > 0 {
      HoldsSession(r, k - 1, s);
      if SessionOk(At(r, k - 1, s)) {
        SessionAction(r, k - 1, s);
      }
    }
  }

  /** With a join active, a Sync of another network changes nothing but the recorded stamp. */
  lemma {:induction false} ForeignSyncIgnored(c: Console, now: int, info: NetworkInfo, stamp: Stamp)
    requires c.joinActive && info.bssid != c.joinTarget
    ensures HandleSync(c, now, info, stamp) ==
              if (c.state == Station || c.state == StationConnected) && stamp != 0 && !Stale(c, stamp)
              then c.(syncSeq := stamp, syncValid := true) else c
  {
  }

  /** In every run: a Sync sent by any console but the one joined changes nothing but the
      recorded stamp. */
  lemma {:induction false} OtherHostsIgnored(r: Run, k: nat, s: Ip, h: Ip)
    requires IsRun(r) && k < |r.actions| && s in r.states[0].consoles
    requires r.actions[k].who == s && r.actions[k].event.Receives? && r.actions[k].event.frame.msg.Sync?
    requires At(r, k, s).joinActive && At(r, k, s).joinTarget == FakeMac(h) && r.actions[k].event.frame.src != h
    ensures var c, c' := At(r, k, s), At(r, k + 1, s);
            c' == c.(clock := r.actions[k].now, syncSeq := c'.syncSeq, syncValid := c'.syncValid)
  {
    var f := r.actions[k].event.frame;
    StepOf(r, k, s);
    assert Follows(r, k);
    SyncNamesSender(r, k, f);
    if f.msg.info.bssid == FakeMac(h) {
      FakeMacInjective(f.src, h);
    }
    ForeignSyncIgnored(At(r, k, s).(clock := r.actions[k].now), r.actions[k].now, f.msg.info, f.stamp);
  }

  lemma {:induction false} ByeStep(c: Console, now: int, f: Frame)
    requires Inv(c) && c.clock <= now && f.msg.Bye? && c.state == StationConnected
    requires Step(c, now, Receives(f)).c.state != StationConnected
    ensures c.joinActive && f.msg.bssid == c.joinTarget && f.msg.ipv4 == c.net.nodes[0].ip
  {
  }

  /** Only the host itself can say goodbye for the session: a Bye that ends the session of a
      station joined to `h` was sent by `h`. */
  lemma {:induction false} OnlyHostEndsSession(r: Run, k: nat, s: Ip, h: Ip)
    requires IsRun(r) && k < |r.actions| && s in r.states[0].consoles
    requires forall j :: 0 <= j < k ==> !BreaksSessionAt(r, j, s)
    requires r.actions[k].who == s && r.actions[k].event.Receives? && r.actions[k].event.frame.msg.Bye?
    requires At(r, k, s).state == StationConnected && At(r, k, s).joinTarget == FakeMac(h)
    requires At(r, k + 1, s).state != StationConnected
    ensures r.actions[k].event.frame.src == h
  {
    var f := r.actions[k].event.frame;
    HoldsSession(r, k, s);
    StepOf(r, k, s);
    ByeStep(At(r, k, s), r.actions[k].now, f);
    assert Follows(r, k);
    var i := FrameOrigin(r, k, f);
    FakeMacInjective(h, At(r, k, s).net.nodes[0].ip);
  }

  // ---- whose game data is let through ----

  /** A host knows itself and its registered stations, and nobody else. */
  lemma {:induction false} HostKnowsExactly(c: Console, ip: Ip)
    requires Inv(c) && c.state == AccessPointCreated
    ensures KnownPeer(c, ip) <==> ip == c.ip || Registered(c, ip)
  {
    if Confirms(c.net, ip) && ip != c.ip {
      ListedIsRegistered(c, ip);
    }
    if Registered(c, ip) {
      var i :| 0 <= i < STATIONS && c.stations[i].active && c.stations[i].src == ip;
      HostDescription(c, i);
      assert SlotOk(c.stations[i], i);
    }
  }

  ghost predicate SameNodes(a: NetworkInfo, b: NetworkInfo) {
    a.bssid == b.bssid && a.nodeCount == b.nodeCount && a.nodes == b.nodes
  }

  /** A guest's node list changes by an applied Sync only, unless it calls as a host. */
  lemma {:induction false} GuestListStep(c: Console, now: int, e: Event)
    requires Inv(c) && c.clock <= now && !AppliesSync(c, e) && !HostsAsGuest(c, e)
    requires Step(c, now, e).c.state == StationConnected && Step(c, now, e).c.net.bssid != FakeMac(c.ip)
    ensures c.state == StationConnected && SameNodes(Step(c, now, e).c.net, c.net)
  {
    var d := c.(clock := now);
    match e
    case Receives(f) => ReceiveSession(d, now, f);
    case Ticks => TickKeeps(d, now);
    case Calls(call) => CallKeeps(d, call); GuestListCall(d, call);
  }

  lemma {:induction false} GuestListCall(c: Console, call: Call)
    requires DoCall(c, call).c.state == StationConnected && DoCall(c, call).c.net.bssid != FakeMac(c.ip)
    requires !HostsAsGuest(c, Calls(call))
    ensures SameNodes(DoCall(c, call).c.net, c.net)
  {
  }

  /** Action k is an applied Sync of `s`. */
  ghost predicate TakesListAt(r: Run, k: nat, s: Ip)
    requires IsRun(r) && k < |r.actions| && s in r.states[0].consoles
  {
    r.actions[k].who == s && AppliesSync(At(r, k, s), r.actions[k].event)
  }

  lemma {:induction false} TakenList(r: Run, k: nat, s: Ip)
    requires IsRun(r) && k < |r.actions| && s in r.states[0].consoles && TakesListAt(r, k, s)
    ensures r.actions[k].event.frame in r.states[k].sent && At(r, k + 1, s).net == r.actions[k].event.frame.msg.info
  {
    var a := r.actions[k];
    StepOf(r, k, s);
    assert Follows(r, k);
    ReceiveSession(At(r, k, s).(clock := a.now), a.now, a.event.frame);
  }

  lemma {:induction false} KeptList(r: Run, k: nat, s: Ip)
    requires IsRun(r) && k < |r.actions| && s in r.states[0].consoles
    requires !TakesListAt(r, k, s) && !BreaksSessionAt(r, k, s)
    requires At(r, k + 1, s).state == StationConnected && At(r, k + 1, s).net.bssid != FakeMac(s)
    ensures At(r, k, s).state == StationConnected && SameNodes(At(r, k + 1, s).net, At(r, k, s).net)
  {
    StepOf(r, k, s);
    Reachable(r, k, s);
    if r.actions[k].who == s {
      GuestListStep(At(r, k, s), r.actions[k].now, r.actions[k].event);
    }
  }

  lemma {:induction false} SentStays(r: Run, k: nat)
    requires IsRun(r) && k < |r.actions|
    ensures r.states[k].sent <= r.states[k + 1].sent
  {
    assert Follows(r, k);
  }

  /** The node list of a guest was sent by the host it names. */
  lemma {:induction false} GuestListOrigin(r: Run, k: nat, s: Ip) returns (f: Frame)
    requires IsRun(r) && k < |r.states| && s in r.states[0].consoles
    requires forall j :: 0 <= j < k ==> !BreaksSessionAt(r, j, s)
    requires At(r, k, s).state == StationConnected && At(r, k, s).net.bssid != FakeMac(s)
    ensures f in r.states[k].sent && f.msg.Sync? && SameNodes(At(r, k, s).net, f.msg.info)
    decreases k
  {
    Reachable(r, k, s);
    SentStays(r, k - 1);
    if TakesListAt(r, k - 1, s) {
      TakenList(r, k - 1, s);
      f := r.actions[k - 1].event.frame;
    } else {
      KeptList(r, k - 1, s);
      f := GuestListOrigin(r, k - 1, s);
    }
  }

  /** Whose game data a guest lets through: its own, its host's, and that of peers which its
      host had registered. */
  lemma {:induction false} GuestKnowsRegistered(r: Run, k: nat, s: Ip, h: Ip, ip: Ip) returns (i: nat)
    requires IsRun(r) && k < |r.states| && s in r.states[0].consoles && h != s
    requires forall j :: 0 <= j < k ==> !BreaksSessionAt(r, j, s)
    requires At(r, k, s).state == StationConnected && At(r, k, s).joinActive && At(r, k, s).joinTarget == FakeMac(h)
    requires KnownPeer(At(r, k, s), ip) && ip != s && ip != h
    ensures i <= k && h in r.states[0].consoles && At(r, i, h).state == AccessPointCreated && Registered(At(r, i, h), ip)
  {
    HoldsSession(r, k, s);
    Reachable(r, k, s);
    if FakeMac(h) == FakeMac(s) {
      FakeMacInjective(h, s);
    }
    var f := GuestListOrigin(r, k, s);
    SyncNamesSender(r, k, f);
    FakeMacInjective(f.src, h);
    var j := FrameOrigin(r, k, f);
    i := j + 1;
    Reachable(r, i, h);
    ListedIsRegistered(At(r, i, h), ip);
  }
}

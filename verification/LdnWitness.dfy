/** Runs that exist: a join that completes, and the one call that then breaks it. */
module LdnWitness {
  import opened LdnTypes
  import opened LdnConsole
  import opened LdnInvariants
  import opened LdnSteps
  import opened LdnRuns
  import opened LdnSessions
  import ScannerTable

  ghost function Last(r: Run): Global
    requires IsRun(r)
  {
    r.states[|r.states| - 1]
  }

  /** All clocks of the run still show 0. */
  ghost predicate AtZero(r: Run) {
    IsRun(r) && forall ip :: ip in Last(r).consoles ==> Last(r).consoles[ip].clock == 0 && Last(r).consoles[ip].ip == ip
  }

  /** Two consoles, just constructed. */
  lemma {:induction false} TwoConsoles(h: Ip, s: Ip) returns (r: Run)
    requires h != s
    ensures AtZero(r) && |r.actions| == 0 && Last(r).consoles == map[h := NewConsole(h), s := NewConsole(s)]
  {
    r := Run([Global(map[h := NewConsole(h), s := NewConsole(s)], {})], []);
  }

  lemma {:induction false} Extend(r: Run, a: Action) returns (r': Run)
    requires IsRun(r) && Enabled(Last(r), a)
    ensures IsRun(r') && r'.actions == r.actions + [a] && r'.states == r.states + [After(Last(r), a)]
  {
    r' := Run(r.states + [After(Last(r), a)], r.actions + [a]);
    forall k | 0 <= k < |r'.actions| ensures Follows(r', k) {
      if k < |r.actions| {
        assert Follows(r, k);
      }
    }
  }

  /** One more step of `who`, at time 0. */
  lemma {:induction false} Act(r: Run, who: Ip, e: Event) returns (r': Run)
    requires AtZero(r) && who in Last(r).consoles && (e.Receives? ==> e.frame in Last(r).sent)
    ensures AtZero(r') && r'.actions == r.actions + [Action(who, 0, e)]
    ensures r'.states == r.states + [After(Last(r), Action(who, 0, e))]
    ensures var o := Step(Last(r).consoles[who], 0, e);
            && Last(r').consoles == Last(r).consoles[who := o.c] && Last(r').sent == Last(r).sent + set f | f in o.frames
            && Inv(Last(r).consoles[who]) && Inv(o.c)
  {
    ReachableInv(r, |r.states| - 1);
    r' := Extend(r, Action(who, 0, e));
    StepFrames(Last(r).consoles[who], 0, e);
    StepInv(Last(r).consoles[who], 0, e);
  }

  /** The same, seen as action k of the longer run. */
  lemma {:induction false} ActAt(r: Run, who: Ip, e: Event) returns (r': Run, k: nat)
    requires AtZero(r) && who in Last(r).consoles && (e.Receives? ==> e.frame in Last(r).sent)
    ensures AtZero(r') && k + 2 == |r'.states| && k + 1 == |r.states| && who in r.states[0].consoles
    ensures r'.states[0] == r.states[0] && r'.actions[k] == Action(who, 0, e)
    ensures who in Last(r').consoles && Last(r').consoles[who] == At(r', k + 1, who)
    ensures At(r', k, who) == At(r, k, who) == Last(r).consoles[who] && At(r', k + 1, who) == Step(At(r, k, who), 0, e).c
  {
    k := |r.states| - 1;
    ReachableInv(r, k);
    r' := Act(r, who, e);
    ReachableInv(r', k);
    ReachableInv(r', k + 1);
    assert r'.states[k] == r.states[k];
  }

  // ---- the two sides, step by step ----

  /** A host with an empty table. */
  ghost predicate Hosting(c: Console) {
    c.state == AccessPointCreated && TableEmpty(c.stations)
  }

  lemma {:induction false} HostReady(c: Console, settings: NetworkSettings)
    requires Inv(c) && c.state == AccessPoint
    ensures Hosting(Step(c, 0, Calls(CreateNetwork(settings, [], 0))).c)
  {
  }

  lemma {:induction false} ScanRecorded(c: Console, f: Frame)
    requires Hosting(c) && f.msg.Scan?
    ensures var c' := Step(c, 0, Receives(f)).c;
            Hosting(c') && c'.net == c.net && ScannerTable.Recent(c'.scanners, 0, f.src)
  {
    var d := c.(clock := 0);
    ReceiveScanners(d, 0, f);
    var t := ScannerTable.Record(c.scanners, 0, f.src);
    var own, free := ScannerTable.Lookup(c.scanners, f.src), ScannerTable.FirstReusable(c.scanners, 0);
    var slot := if own >= 0 then own else if free >= 0 then free else 0;
    assert ScannerTable.Holds(t[slot], f.src);
  }

  lemma {:induction false} SyncSent(o: Out, n: nat, i: nat) returns (f: Frame)
    requires i < n <= STATIONS && Live(o.c.stations[i])
    ensures f in SyncTo(o, n).frames && f.msg == Sync(o.c.net)
  {
    if i == n - 1 {
      var before := SyncTo(o, n - 1);
      f := Frame(o.c.ip, o.c.stations[i].src, SyncTo(o, n).c.txSeq, Sync(o.c.net));
      assert SyncTo(o, n).frames == before.frames + [f];
    } else {
      f := SyncSent(o, n - 1, i);
    }
  }

  /** A host with an empty table answers the Connect of a recent scanner with a Sync that
      names it. */
  lemma {:induction false} ConnectAnswered(c: Console, f: Frame) returns (sync: Frame)
    requires Inv(c) && c.clock == 0 && Hosting(c) && f.msg.Connect? && ScannerTable.Recent(c.scanners, 0, f.src)
    ensures sync in Step(c, 0, Receives(f)).frames && sync.msg.Sync?
    ensures sync.msg.info.bssid == FakeMac(c.ip) && Confirms(sync.msg.info, f.src)
  {
    var e := Receives(f);
    assert Admits(c, 0, e, f.src);
    AdmitStep(c, 0, e, f.src);
    StepInv(c, 0, e);
    var slot, c' := SlotFor(c.stations, f.src), Step(c, 0, e).c;
    assert SlotOk(c'.stations[slot], slot);
    var a := Admitted(c.(clock := 0), 0, f.src, f.msg.node);
    sync := SyncSent(Out(a.(net := Build(a)), []), STATIONS, slot);
    assert sync.msg.info == c'.net;
    HostDescription(c', slot);
  }

  /** A station that waits for the network it asked to join. */
  ghost predicate Joining(c: Console, h: Ip) {
    c.state == Station && !c.syncValid && c.joinActive && c.joinTarget == FakeMac(h)
  }

  lemma {:induction false} SyncConnects(c: Console, h: Ip, f: Frame)
    requires Joining(c, h) && f.msg.Sync? && f.msg.info.bssid == FakeMac(h) && Confirms(f.msg.info, c.ip)
    ensures var c' := Step(c, 0, Receives(f)).c;
            c'.state == StationConnected && c'.joinActive && c'.joinTarget == FakeMac(h) && c'.net == f.msg.info
  {
  }

  // ---- the runs ----

  /** The host creates its network. */
  lemma {:induction false} HostOpens(h: Ip, s: Ip) returns (r: Run)
    requires h != s
    ensures AtZero(r) && h in Last(r).consoles && s in Last(r).consoles && Hosting(Last(r).consoles[h])
    ensures Last(r).consoles[s] == NewConsole(s)
  {
    r := TwoConsoles(h, s);
    r := Act(r, h, Calls(Initialize));
    r := Act(r, h, Calls(OpenAccessPoint));
    HostReady(Last(r).consoles[h], ZERO_SETTINGS);
    r := Act(r, h, Calls(CreateNetwork(ZERO_SETTINGS, [], 0)));
  }

  lemma {:induction false} ScanFrames(c: Console)
    ensures var o := Step(c, 0, Calls(ScanSend));
            && |o.frames| == 1 && o.frames[0] in o.frames && o.frames[0].src == c.ip && o.frames[0].msg.Scan?
            && o.c == c.(clock := 0, txSeq := o.c.txSeq)
  {
  }

  ghost predicate Waiting(c: Console) {
    c.state == Station && !c.syncValid
  }

  /** The station opens. */
  lemma {:induction false} StationOpens(h: Ip, s: Ip) returns (r: Run)
    requires h != s
    ensures AtZero(r) && h in Last(r).consoles && s in Last(r).consoles
    ensures Hosting(Last(r).consoles[h]) && Waiting(Last(r).consoles[s])
  {
    r := HostOpens(h, s);
    r := Act(r, s, Calls(Initialize));
    r := Act(r, s, Calls(OpenStation));
  }

  /** It scans, and the host hears it. */
  lemma {:induction false} StationScans(h: Ip, s: Ip) returns (r: Run)
    requires h != s
    ensures AtZero(r) && h in Last(r).consoles && s in Last(r).consoles
    ensures Hosting(Last(r).consoles[h]) && Waiting(Last(r).consoles[s])
    ensures ScannerTable.Recent(Last(r).consoles[h].scanners, 0, s)
  {
    r := StationOpens(h, s);
    var c := Last(r).consoles[s];
    ScanFrames(c);
    var f := Step(c, 0, Calls(ScanSend)).frames[0];
    r := Act(r, s, Calls(ScanSend));
    ScanRecorded(Last(r).consoles[h], f);
    r := Act(r, h, Receives(f));
  }

  /** It names its target. */
  lemma {:induction false} StationJoins(h: Ip, s: Ip) returns (r: Run)
    requires h != s
    ensures AtZero(r) && h in Last(r).consoles && s in Last(r).consoles
    ensures Hosting(Last(r).consoles[h]) && Joining(Last(r).consoles[s], h)
    ensures ScannerTable.Recent(Last(r).consoles[h].scanners, 0, s)
  {
    r := StationScans(h, s);
    r := Act(r, s, Calls(ConnectBegin(ZeroNetwork().(nodeCount := 1, bssid := FakeMac(h)))));
  }

  lemma {:induction false} AskFrames(c: Console, h: Ip)
    ensures var o := Step(c, 0, Calls(ConnectSend(h, ZERO_NODE)));
            && |o.frames| == 1 && o.frames[0] in o.frames && o.frames[0].src == c.ip && o.frames[0].msg.Connect?
            && o.c == c.(clock := 0, txSeq := o.c.txSeq)
  {
  }

  /** It asks to be let in. */
  lemma {:induction false} StationAsks(h: Ip, s: Ip) returns (r: Run, f: Frame)
    requires h != s
    ensures AtZero(r) && h in Last(r).consoles && s in Last(r).consoles && Hosting(Last(r).consoles[h])
    ensures ScannerTable.Recent(Last(r).consoles[h].scanners, 0, s)
    ensures Joining(Last(r).consoles[s], h)
    ensures f in Last(r).sent && f.msg.Connect? && f.src == s
  {
    r := StationJoins(h, s);
    AskFrames(Last(r).consoles[s], h);
    f := Step(Last(r).consoles[s], 0, Calls(ConnectSend(h, ZERO_NODE))).frames[0];
    r := Act(r, s, Calls(ConnectSend(h, ZERO_NODE)));
  }

  /** The host admits it and answers. */
  lemma {:induction false} HostAdmits(h: Ip, s: Ip) returns (r: Run, sync: Frame)
    requires h != s
    ensures AtZero(r) && h in Last(r).consoles && s in Last(r).consoles && Joining(Last(r).consoles[s], h)
    ensures sync in Last(r).sent && sync.msg.Sync? && sync.msg.info.bssid == FakeMac(h) && Confirms(sync.msg.info, s)
  {
    var f;
    r, f := StationAsks(h, s);
    ReachableInv(r, |r.states| - 1);
    sync := ConnectAnswered(Last(r).consoles[h], f);
    r := Act(r, h, Receives(f));
  }

  /** Any two consoles have a run in which one joins the other: the premises of join safety can
      be met. */
  lemma {:induction false} JoinHappens(h: Ip, s: Ip) returns (r: Run, k: nat)
    requires h != s
    ensures AtZero(r) && k + 2 == |r.states| && h in r.states[0].consoles && s in r.states[0].consoles
    ensures s in Last(r).consoles && Last(r).consoles[s] == At(r, k + 1, s)
    ensures At(r, k, s).state != StationConnected && At(r, k + 1, s).state == StationConnected
    ensures At(r, k + 1, s).joinActive && At(r, k + 1, s).joinTarget == FakeMac(h) && At(r, k + 1, s).net.bssid == FakeMac(h)
    ensures SessionOk(At(r, k + 1, s))
  {
    var sync;
    r, sync := HostAdmits(h, s);
    ReachableInv(r, |r.states| - 1);
    SyncConnects(Last(r).consoles[s], h, sync);
    SyncNamesSender(r, |r.states| - 1, sync);
    r, k := ActAt(r, s, Receives(sync));
  }

  /** The breaking input on a reachable console: one more call, a join to any other network,
      and the station holds the network of `h` under another join target. */
  lemma {:induction false} JoinAwayHappens(h: Ip, s: Ip, target: NetworkInfo) returns (r: Run, k: nat)
    requires h != s && target.nodeCount > 0 && target.bssid != FakeMac(h)
    ensures IsRun(r) && k + 2 == |r.states| && s in r.states[0].consoles
    ensures r.actions[k] == Action(s, 0, Calls(ConnectBegin(target))) && JoinsAwayAt(r, k, s)
    ensures BssidOk(At(r, k, s)) && !BssidOk(At(r, k + 1, s))
  {
    r, k := JoinHappens(h, s);
    r, k := ActAt(r, s, Calls(ConnectBegin(target)));
    JoinAction(r, k, s);
  }

  /** The other one: a guest that sets advertise data puts itself in the place of its host. */
  lemma {:induction false} GuestCallHappens(h: Ip, s: Ip) returns (r: Run, k: nat)
    requires h != s
    ensures IsRun(r) && k + 2 == |r.states| && s in r.states[0].consoles
    ensures r.actions[k] == Action(s, 0, Calls(SetAdvertiseData([]))) && BreaksSessionAt(r, k, s)
    ensures SessionOk(At(r, k, s)) && !SessionOk(At(r, k + 1, s))
  {
    if FakeMac(h) == FakeMac(s) {
      FakeMacInjective(h, s);
    }
    r, k := JoinHappens(h, s);
    r, k := ActAt(r, s, Calls(SetAdvertiseData([])));
    SessionAction(r, k, s);
  }
}

/** The scanner gate over whole runs: the bounded table answers for all scans handled so far. */
module LdnAdmission {
  import opened LdnTypes
  import opened LdnConsole
  import opened LdnInvariants
  import opened LdnSteps
  import opened LdnRuns
  import opened ScannerTable

  /** Action k is a Scan that host `h` handles. */
  ghost predicate ScanAt(r: Run, k: nat, h: Ip)
    requires IsRun(r) && k < |r.actions| && h in r.states[0].consoles
  {
    r.actions[k].who == h && HandlesScan(At(r, k, h), r.actions[k].event)
  }

  /** The scans that `h` handled before state k, in order. */
  ghost function ScanLog(r: Run, k: nat, h: Ip): seq<ScanEvent>
    requires IsRun(r) && k < |r.states| && h in r.states[0].consoles
  {
    if k == 0 then []
    else if ScanAt(r, k - 1, h) then
      ScanLog(r, k - 1, h) + [ScanEvent(r.actions[k - 1].event.frame.src, r.actions[k - 1].now)]
    else ScanLog(r, k - 1, h)
  }

  lemma {:induction false} TableNext(log: seq<ScanEvent>, e: ScanEvent, now: int)
    requires InOrder(log, now) && now <= e.time
    ensures Table(log + [e]) == Record(Table(log), e.time, e.ip) && InOrder(log + [e], e.time)
  {
    assert (log + [e])[..|log|] == log;
  }

  /** In every reachable state the scanner table is the bounded table of that log, and the log
      is in order of time. */
  lemma {:induction false} TableIsLog(r: Run, k: nat, h: Ip)
    requires IsRun(r) && k < |r.states| && h in r.states[0].consoles
    ensures At(r, k, h).scanners == Table(ScanLog(r, k, h))
    ensures InOrder(ScanLog(r, k, h), At(r, k, h).clock)
    decreases k
  {
    if k == 0 {
      Reachable(r, k, h);
    } else {
      TableIsLog(r, k - 1, h);
      StepOf(r, k - 1, h);
      var c, a := At(r, k - 1, h), r.actions[k - 1];
      if a.who == h {
        ScannerStep(c, a.now, a.event);
        StepFrames(c, a.now, a.event);
        if ScanAt(r, k - 1, h) {
          TableNext(ScanLog(r, k - 1, h), ScanEvent(a.event.frame.src, a.now), c.clock);
        }
      }
    }
  }

  /** A handled scan stays in the log. */
  lemma {:induction false} ScanIsLogged(r: Run, j: nat, k: nat, h: Ip)
    requires IsRun(r) && j < k < |r.states| && h in r.states[0].consoles && ScanAt(r, j, h)
    ensures ScanEvent(r.actions[j].event.frame.src, r.actions[j].now) in ScanLog(r, k, h)
    decreases k
  {
    if j < k - 1 {
      ScanIsLogged(r, j, k - 1, h);
    }
  }

  /** Admission is complete: a Connect that a host handles within 30 seconds of a Scan of the
      same peer registers the peer, unless seven other peers hold the seven slots, as long as
      no 30 seconds saw more than 16 scanners. */
  lemma {:induction false} ScannerIsAdmitted(r: Run, j: nat, k: nat, h: Ip)
    requires IsRun(r) && j < k < |r.actions| && h in r.states[0].consoles && ScanAt(r, j, h)
    requires r.actions[k].who == h && r.actions[k].event.Receives? && r.actions[k].event.frame.msg.Connect?
    requires r.actions[k].event.frame.src == r.actions[j].event.frame.src
    requires r.actions[k].now - r.actions[j].now <= SCANNER_TIMEOUT
    requires At(r, k, h).state == AccessPointCreated && NeverCrowded(ScanLog(r, k, h))
    ensures var c, p := At(r, k, h), r.actions[k].event.frame.src;
            Registered(At(r, k + 1, h), p) <==>
            !(forall i :: 0 <= i < STATIONS ==> c.stations[i].active && c.stations[i].src != p)
  {
    var c, p, now, log := At(r, k, h), r.actions[k].event.frame.src, r.actions[k].now, ScanLog(r, k, h);
    TableIsLog(r, k, h);
    StepOf(r, k, h);
    ScanIsLogged(r, j, k, h);
    var i :| 0 <= i < |log| && log[i] == ScanEvent(p, r.actions[j].now);
    assert ScannedRecently(log, now, p);
    RecentIsExact(log, now, p);
    RefusedOnlyWhenFull(c, now, r.actions[k].event.frame);
  }
}

/** The 16-entry table of recent scanners, and how it refines the log of all scans. */
module ScannerTable {
  import opened LdnTypes

  predicate Holds(e: Scanner, ip: Ip) {
    e.used && e.ip == ip
  }

  predicate Reusable(e: Scanner, now: int) {
    !e.used || now - e.lastTick > SCANNER_TIMEOUT
  }

  /** First entry for `ip`, or -1. */
  function Lookup(t: seq<Scanner>, ip: Ip, i: nat := 0): (r: int)
    requires i <= |t|
    ensures r == -1 || i <= r < |t|
    ensures r >= 0 ==> Holds(t[r], ip) && forall k :: i <= k < r ==> !Holds(t[k], ip)
    ensures r < 0 ==> forall k :: i <= k < |t| ==> !Holds(t[k], ip)
    decreases |t| - i
  {
    if i == |t| then -1 else if Holds(t[i], ip) then i else Lookup(t, ip, i + 1)
  }

  /** First entry that may be overwritten, or -1. */
  function FirstReusable(t: seq<Scanner>, now: int, i: nat := 0): (r: int)
    requires i <= |t|
    ensures r == -1 || i <= r < |t|
    ensures r >= 0 ==> Reusable(t[r], now) && forall k :: i <= k < r ==> !Reusable(t[k], now)
    ensures r < 0 ==> forall k :: i <= k < |t| ==> !Reusable(t[k], now)
    decreases |t| - i
  {
    if i == |t| then -1 else if Reusable(t[i], now) then i else FirstReusable(t, now, i + 1)
  }

  /** Refreshes the entry of `ip`, or takes a reusable one, or overwrites entry 0. */
  function Record(t: Scanners, now: int, ip: Ip): Scanners {
    var at := Lookup(t, ip);
    var free := FirstReusable(t, now);
    var slot := if at >= 0 then at else if free >= 0 then free else 0;
    t[slot := Scanner(ip, now, true)]
  }

  ghost predicate Recent(t: Scanners, now: int, ip: Ip) {
    exists i :: 0 <= i < SCANNERS && Holds(t[i], ip) && now - t[i].lastTick <= SCANNER_TIMEOUT
  }

  /** Recording a scan changes one entry: the first of that address, else the first unused or
      expired one, else the very first. */
  lemma {:induction false} RecordExactly(t: Scanners, now: int, ip: Ip, i: nat)
    requires i < SCANNERS
    ensures var own, free := exists k :: 0 <= k < SCANNERS && Holds(t[k], ip), exists k :: 0 <= k < SCANNERS && Reusable(t[k], now);
            var here := if own then Holds(t[i], ip) && forall k :: 0 <= k < i ==> !Holds(t[k], ip)
                        else if free then Reusable(t[i], now) && forall k :: 0 <= k < i ==> !Reusable(t[k], now)
                        else i == 0;
            Record(t, now, ip)[i] == if here then Scanner(ip, now, true) else t[i]
  {
  }

  // ---- the two loops, on the table in place ----

  method RecordScanner(table: array<Scanner>, now: int, ip: Ip)
    requires table.Length == SCANNERS
    modifies table
    ensures table[..] == Record(old(table[..]), now, ip)
  {
    var free := -1;
    ghost var t := table[..];
    for i := 0 to SCANNERS
      invariant table[..] == t
      invariant Lookup(t, ip) == Lookup(t, ip, i)
      invariant -1 <= free < i
      invariant free >= 0 ==> FirstReusable(t, now) == free
      invariant free < 0 ==> FirstReusable(t, now) == FirstReusable(t, now, i)
    {
      var e := table[i];
      if e.used && e.ip == ip {
        table[i] := e.(lastTick := now);
        return;
      }
      if free < 0 && (!e.used || now - e.lastTick > SCANNER_TIMEOUT) {
        free := i;
      }
    }
    if free < 0 {
      free := 0;
    }
    table[free] := Scanner(ip, now, true);
  }

  method WasRecentScanner(table: array<Scanner>, now: int, ip: Ip) returns (r: bool)
    requires table.Length == SCANNERS
    ensures r <==> Recent(table[..], now, ip)
  {
    for i := 0 to SCANNERS
      invariant forall k :: 0 <= k < i ==> !(Holds(table[k], ip) && now - table[k].lastTick <= SCANNER_TIMEOUT)
    {
      if table[i].used && table[i].ip == ip && now - table[i].lastTick <= SCANNER_TIMEOUT {
        assert Holds(table[..][i], ip);
        return true;
      }
    }
    r := false;
  }

  // ---- the table against the log of all scans ----

  datatype ScanEvent = ScanEvent(ip: Ip, time: int)

  ghost predicate InOrder(log: seq<ScanEvent>, now: int) {
    && (forall i, j :: 0 <= i < j < |log| ==> log[i].time <= log[j].time)
    && (forall i :: 0 <= i < |log| ==> log[i].time <= now)
  }

  /** The table after the scans of `log`. */
  function Table(log: seq<ScanEvent>): Scanners {
    if log == [] then EmptyScanners()
    else Record(Table(log[..|log| - 1]), log[|log| - 1].time, log[|log| - 1].ip)
  }

  /** What the table stands for: a scan of `ip` in the last 30 seconds. */
  ghost predicate ScannedRecently(log: seq<ScanEvent>, now: int, ip: Ip) {
    exists k :: 0 <= k < |log| && log[k].ip == ip && now - log[k].time <= SCANNER_TIMEOUT
  }

  ghost predicate DistinctIps(t: Scanners) {
    forall i, j :: 0 <= i < j < SCANNERS && t[i].used && t[j].used ==> t[i].ip != t[j].ip
  }

  /** Every used entry is a scan that happened. */
  ghost predicate Witnessed(t: Scanners, log: seq<ScanEvent>) {
    forall i :: 0 <= i < SCANNERS && t[i].used ==> ScanEvent(t[i].ip, t[i].lastTick) in log
  }

  lemma {:induction false} TableInvariant(log: seq<ScanEvent>)
    ensures DistinctIps(Table(log)) && Witnessed(Table(log), log)
    decreases |log|
  {
    if log != [] {
      var rest, e := log[..|log| - 1], log[|log| - 1];
      TableInvariant(rest);
      var t, t' := Table(rest), Table(log);
      assert e in log && forall x :: x in rest ==> x in log;
      RecordKeepsDistinct(t, e.time, e.ip);
    }
  }

  lemma {:induction false} RecordKeepsDistinct(t: Scanners, now: int, ip: Ip)
    requires DistinctIps(t)
    ensures DistinctIps(Record(t, now, ip))
  {
  }

  /** Soundness: a positive answer means a scan within 30 seconds. */
  lemma {:induction false} RecentIsSound(log: seq<ScanEvent>, now: int, ip: Ip)
    requires Recent(Table(log), now, ip)
    ensures ScannedRecently(log, now, ip)
  {
    TableInvariant(log);
  }

  /** The addresses that scanned in the 30 seconds up to and including scan number k - 1. */
  ghost function Window(log: seq<ScanEvent>, k: nat): set<Ip>
    requires 0 < k <= |log|
  {
    set j | 0 <= j < k && log[k - 1].time - log[j].time <= SCANNER_TIMEOUT :: log[j].ip
  }

  ghost predicate NeverCrowded(log: seq<ScanEvent>) {
    forall k :: 0 < k <= |log| ==> |Window(log, k)| <= SCANNERS
  }

  ghost function Ips(t: seq<Scanner>): set<Ip> {
    set i | 0 <= i < |t| :: t[i].ip
  }

  lemma {:induction false} DistinctCount(t: seq<Scanner>)
    requires forall i, j :: 0 <= i < j < |t| ==> t[i].ip != t[j].ip
    ensures |Ips(t)| == |t|
    decreases |t|
  {
    if t != [] {
      var n := |t| - 1;
      DistinctCount(t[..n]);
      assert Ips(t) == Ips(t[..n]) + {t[n].ip};
    }
  }

  /** A scan handled when every entry is live and none is its own makes 17 distinct scanners. */
  lemma {:induction false} FullTableIsCrowded(log: seq<ScanEvent>)
    requires log != []
    requires var t, e := Table(log[..|log| - 1]), log[|log| - 1];
             Lookup(t, e.ip) < 0 && FirstReusable(t, e.time) < 0
    ensures |Window(log, |log|)| > SCANNERS
  {
    var rest, e := log[..|log| - 1], log[|log| - 1];
    var t := Table(rest);
    TableInvariant(rest);
    assert forall i :: 0 <= i < SCANNERS ==> t[i].used && e.time - t[i].lastTick <= SCANNER_TIMEOUT by {
      assert forall i :: 0 <= i < SCANNERS ==> !Reusable(t[i], e.time);
    }
    DistinctCount(t);
    var w := Window(log, |log|);
    forall ip | ip in Ips(t) ensures ip in w {
      var i :| 0 <= i < SCANNERS && t[i].ip == ip;
      var j :| 0 <= j < |rest| && rest[j] == ScanEvent(t[i].ip, t[i].lastTick);
      assert log[j] == rest[j];
    }
    assert log[|log| - 1].ip in w;
    assert e.ip !in Ips(t) by {
      assert forall i :: 0 <= i < SCANNERS ==> !Holds(t[i], e.ip);
    }
    assert Ips(t) + {e.ip} <= w;
    Smaller(Ips(t) + {e.ip}, w);
  }

  lemma {:induction false} Smaller(a: set<Ip>, b: set<Ip>)
    requires a <= b
    ensures |a| <= |b|
  {
    assert b == a + (b - a);
  }

  /** Every scan of the last 30 seconds is in the table, with its time or a later one. */
  ghost predicate Covers(t: Scanners, log: seq<ScanEvent>, now: int) {
    forall j :: 0 <= j < |log| && now - log[j].time <= SCANNER_TIMEOUT ==>
      exists i :: 0 <= i < SCANNERS && Holds(t[i], log[j].ip) && t[i].lastTick >= log[j].time
  }

  lemma {:induction false} TableCovers(log: seq<ScanEvent>, now: int)
    requires InOrder(log, now) && NeverCrowded(log)
    ensures Covers(Table(log), log, now)
    decreases |log|
  {
    if log != [] {
      var rest, e := log[..|log| - 1], log[|log| - 1];
      assert forall k :: 0 < k <= |rest| ==> Window(rest, k) == Window(log, k);
      TableCovers(rest, e.time);
      if Lookup(Table(rest), e.ip) < 0 && FirstReusable(Table(rest), e.time) < 0 {
        FullTableIsCrowded(log);
        assert false;
      }
      RecordCovers(Table(rest), rest, e, log, now);
    }
  }

  lemma {:induction false} RecordCovers(t: Scanners, rest: seq<ScanEvent>, e: ScanEvent, log: seq<ScanEvent>, now: int)
    requires log == rest + [e] && InOrder(log, now) && Covers(t, rest, e.time)
    requires Lookup(t, e.ip) >= 0 || FirstReusable(t, e.time) >= 0
    ensures Covers(Record(t, e.time, e.ip), log, now)
  {
    var r := Record(t, e.time, e.ip);
    var slot := if Lookup(t, e.ip) >= 0 then Lookup(t, e.ip) else FirstReusable(t, e.time);
    assert r == t[slot := Scanner(e.ip, e.time, true)];
    assert Holds(r[slot], e.ip) && log[|log| - 1] == e;
    forall j | 0 <= j < |log| && now - log[j].time <= SCANNER_TIMEOUT
      ensures exists i :: 0 <= i < SCANNERS && Holds(r[i], log[j].ip) && r[i].lastTick >= log[j].time
    {
      if log[j].ip == e.ip {
        assert Holds(r[slot], log[j].ip) && r[slot].lastTick >= log[j].time;
      } else {
        assert log[j] == rest[j] && e.time - rest[j].time <= SCANNER_TIMEOUT;
        var i :| 0 <= i < SCANNERS && Holds(t[i], rest[j].ip) && t[i].lastTick >= rest[j].time;
        assert i != slot;
        assert Holds(r[i], log[j].ip);
      }
    }
  }

  /** Exactness: when no 30-second window ever holds more than 16 distinct scanners, the
      table answers as the log would. */
  lemma {:induction false} RecentIsExact(log: seq<ScanEvent>, now: int, ip: Ip)
    requires InOrder(log, now) && NeverCrowded(log)
    ensures Recent(Table(log), now, ip) <==> ScannedRecently(log, now, ip)
  {
    if Recent(Table(log), now, ip) {
      RecentIsSound(log, now, ip);
    }
    TableCovers(log, now);
  }
}

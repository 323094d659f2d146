/** The 16-bit window that keeps SyncNetwork frames in order on an unordered relay. */
module SyncOrder {
  import opened LdnTypes
  import opened LdnConsole
  import LanFrame

  /** The stamp of a sender's n-th frame, n counted from 1. */
  function StampOf(n: nat): Stamp
    requires n >= 1
  {
    (n - 1) % 0xFFFF + 1
  }

  /** The counter that skips 0 on wrap-around produces these stamps. */
  lemma {:induction false} StampsFollow(n: nat)
    requires n >= 1
    ensures StampOf(1) == LanFrame.NextStamp(0)
    ensures StampOf(n + 1) == LanFrame.NextStamp(StampOf(n))
  {
    var q, s := (n - 1) / 0xFFFF, (n - 1) % 0xFFFF;
    assert n - 1 == 0xFFFF * q + s;
    if s + 1 < 0xFFFF {
      Remainder(n, q, s + 1);
    } else {
      Remainder(n, q + 1, 0);
    }
  }

  lemma {:induction false} Remainder(x: nat, q: nat, s: nat)
    requires x == 0xFFFF * q + s && s < 0xFFFF
    ensures x % 0xFFFF == s
  {
  }

  /** The stamp of a later frame, within one turn of the counter. */
  lemma {:induction false} StampAhead(n: nat, a: nat)
    requires n >= 1 && a < 0xFFFF
    ensures StampOf(n + a) == if StampOf(n) + a <= 0xFFFF then StampOf(n) + a else StampOf(n) + a - 0xFFFF
  {
    var q, s := (n - 1) / 0xFFFF, (n - 1) % 0xFFFF;
    assert n - 1 + a == 0xFFFF * q + (s + a);
    if s + a < 0xFFFF {
      Remainder(n - 1 + a, q, s + a);
    } else {
      Remainder(n - 1 + a, q + 1, s + a - 0xFFFF);
    }
  }

  /** The window's distance is the number of sends behind, plus one across the wrap. */
  lemma {:induction false} BehindExact(n: nat, b: nat)
    requires b < n && b < 0xFFFF
    ensures Behind(StampOf(n), StampOf(n - b)) == if b < StampOf(n) then b else b + 1
  {
    StampAhead(n - b, b);
  }

  lemma {:induction false} AheadExact(n: nat, a: nat)
    requires n >= 1 && 1 <= a < 0xFFFF
    ensures Behind(StampOf(n), StampOf(n + a)) == if StampOf(n) + a <= 0xFFFF then 0x1_0000 - a else 0xFFFF - a
  {
    StampAhead(n, a);
  }

  /** Inside the window a frame is taken exactly when it is newer. */
  lemma {:induction false} TakenIffNewer(newest: nat, m: nat)
    requires newest >= 1 && m >= 1 && newest <= m + 254 && m <= newest + 65279
    ensures Behind(StampOf(newest), StampOf(m)) >= 256 <==> m > newest
  {
    if m <= newest {
      BehindExact(newest, newest - m);
    } else {
      AheadExact(newest, m - newest);
    }
  }

  /** Both ends are sharp: one more behind is taken just after the wrap, one more ahead is
      dropped across it. */
  lemma {:induction false} WindowIsSharp(newest: nat)
    requires newest > 255
    ensures Behind(StampOf(newest), StampOf(newest - 255)) >= 256 <==> StampOf(newest) <= 255
    ensures Behind(StampOf(newest), StampOf(newest + 65280)) < 256 <==> StampOf(newest) > 255
  {
    BehindExact(newest, 255);
    AheadExact(newest, 65280);
  }

  /** The numbers of the sends that a receiver records, in order, from the deliveries `ds`. */
  function Recorded(ds: seq<nat>): (r: seq<nat>)
    requires forall k :: 0 <= k < |ds| ==> ds[k] >= 1
    ensures forall k :: 0 <= k < |r| ==> r[k] >= 1
    ensures ds != [] ==> r != []
  {
    if ds == [] then []
    else
      var r, d := Recorded(ds[..|ds| - 1]), ds[|ds| - 1];
      if r != [] && Behind(StampOf(r[|r| - 1]), StampOf(d)) < 256 then r else r + [d]
  }

  /** Each delivery is at most 254 sends behind and 65279 ahead of the newest recorded one. */
  ghost predicate InWindow(ds: seq<nat>)
    requires forall k :: 0 <= k < |ds| ==> ds[k] >= 1
  {
    |ds| > 1 ==>
      var n := |ds| - 1;
      var r := Recorded(ds[..n]);
      InWindow(ds[..n]) && r[|r| - 1] <= ds[n] + 254 && ds[n] <= r[|r| - 1] + 65279
  }

  /** `r` is strictly increasing and ends with the newest element of `ds`. */
  ghost predicate Increasing(r: seq<nat>, ds: seq<nat>) {
    && r != []
    && (forall i, j :: 0 <= i < j < |r| ==> r[i] < r[j])
    && (forall k :: 0 <= k < |ds| ==> ds[k] <= r[|r| - 1])
    && r[|r| - 1] in ds
  }

  /** The recorded syncs are strictly increasing in send order, and the last one is the
      newest of all delivered. */
  lemma {:induction false} RecordedIncreases(ds: seq<nat>)
    requires ds != [] && (forall k :: 0 <= k < |ds| ==> ds[k] >= 1) && InWindow(ds)
    ensures Increasing(Recorded(ds), ds)
    decreases |ds|
  {
    var n := |ds| - 1;
    var rest := ds[..n];
    if n == 0 {
      assert Recorded(ds) == [] + [ds[0]];
    } else {
      RecordedIncreases(rest);
      var r := Recorded(rest);
      TakenIffNewer(r[|r| - 1], ds[n]);
      Extends(r, rest, ds[n], ds);
    }
  }

  lemma {:induction false} Extends(r: seq<nat>, rest: seq<nat>, d: nat, ds: seq<nat>)
    requires Increasing(r, rest) && ds == rest + [d]
    ensures d > r[|r| - 1] ==> Increasing(r + [d], ds)
    ensures d <= r[|r| - 1] ==> Increasing(r, ds)
  {
    assert ds[|rest|] == d;
    assert forall x :: x in rest ==> x in ds;
  }

  /** The station remembers the stamp of the last recorded sync. */
  ghost predicate Tracks(c: Console, r: seq<nat>)
    requires forall k :: 0 <= k < |r| ==> r[k] >= 1
  {
    && (c.state == Station || c.state == StationConnected)
    && (if r == [] then !c.syncValid else c.syncValid && c.syncSeq == StampOf(r[|r| - 1]))
  }

  /** One delivery: the handler follows Recorded, and an old frame leaves the whole console as
      it was. */
  lemma {:induction false} StationRecords(c: Console, now: int, info: NetworkInfo, ds: seq<nat>, d: nat)
    requires d >= 1 && (forall k :: 0 <= k < |ds| ==> ds[k] >= 1) && Tracks(c, Recorded(ds))
    ensures Recorded(ds + [d]) == if Stale(c, StampOf(d)) then Recorded(ds) else Recorded(ds) + [d]
    ensures Tracks(HandleSync(c, now, info, StampOf(d)), Recorded(ds + [d]))
    ensures Stale(c, StampOf(d)) ==> HandleSync(c, now, info, StampOf(d)) == c
  {
    assert (ds + [d])[..|ds|] == ds;
  }

  // ---- the handler over a whole list of deliveries ----

  /** The sender's n-th frame, delivered at time `now`. */
  datatype Delivery = Delivery(n: nat, now: int, info: NetworkInfo)

  ghost predicate Numbered(ds: seq<Delivery>) {
    forall k :: 0 <= k < |ds| ==> ds[k].n >= 1
  }

  function Numbers(ds: seq<Delivery>): (r: seq<nat>)
    ensures |r| == |ds|
  {
    seq(|ds|, i requires 0 <= i < |ds| => ds[i].n)
  }

  /** The station after the handler saw all deliveries. */
  ghost function Handled(c: Console, ds: seq<Delivery>): Console
    requires Numbered(ds)
  {
    if ds == [] then c
    else
      var n := |ds| - 1;
      HandleSync(Handled(c, ds[..n]), ds[n].now, ds[n].info, StampOf(ds[n].n))
  }

  /** The send numbers of the deliveries that the handler recorded rather than dropped. */
  ghost function RecordedBy(c: Console, ds: seq<Delivery>): seq<nat>
    requires Numbered(ds)
  {
    if ds == [] then []
    else
      var n := |ds| - 1;
      var before := RecordedBy(c, ds[..n]);
      if Stale(Handled(c, ds[..n]), StampOf(ds[n].n)) then before else before + [ds[n].n]
  }

  /** The handler records exactly what Recorded says, and remembers the stamp of the last. */
  lemma {:induction false} HandlerRecords(c: Console, ds: seq<Delivery>)
    requires Numbered(ds) && (c.state == Station || c.state == StationConnected) && !c.syncValid
    ensures RecordedBy(c, ds) == Recorded(Numbers(ds)) && Tracks(Handled(c, ds), Recorded(Numbers(ds)))
    decreases |ds|
  {
    if ds != [] {
      var n := |ds| - 1;
      HandlerRecords(c, ds[..n]);
      assert Numbers(ds) == Numbers(ds[..n]) + [ds[n].n];
      StationRecords(Handled(c, ds[..n]), ds[n].now, ds[n].info, Numbers(ds[..n]), ds[n].n);
    }
  }

  /** So the syncs that a station records from one sender are strictly increasing in send order
      and end with the newest delivered, however the relay delays, repeats and reorders them
      inside the window. */
  lemma {:induction false} HandlerIncreases(c: Console, ds: seq<Delivery>)
    requires ds != [] && Numbered(ds) && (c.state == Station || c.state == StationConnected) && !c.syncValid
    requires InWindow(Numbers(ds))
    ensures Increasing(RecordedBy(c, ds), Numbers(ds))
  {
    HandlerRecords(c, ds);
    RecordedIncreases(Numbers(ds));
  }
}

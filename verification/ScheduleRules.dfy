/**
 Which beacon logs are accepted (`roundScheduleFromEvents`, src/round.ts), entry by entry and in terms of the entries
 alone: what may be registered, scheduled and cancelled after what.
 */
module ScheduleRules {
  import opened Common
  import opened BeaconSchedule
  import opened ScheduleReading

  /** The beacons that entries register, in order. */
  ghost function Beacons(es: seq<Entry>): (bs: seq<Beacon>)
    ensures forall b :: b in bs ==> exists j :: 0 <= j < |es| && Registers(es[j], b)
  {
    if es == [] then []
    else
      var n := |es| - 1;
      var before := Beacons(es[..n]);
      assert forall j :: 0 <= j < n ==> es[..n][j] == es[j];
      if es[n].event.Some? && es[n].event.value.Registered?
      then
        var b := Beacon(es[n].event.value.registration, es[n].event.value.identity);
        assert Registers(es[n], b);
        before + [b]
      else before
  }

  ghost predicate Registers(e: Entry, b: Beacon) {
    e.event.Some? && e.event.value.Registered?
    && e.event.value.registration == b.registration && e.event.value.identity == b.identity
  }

  /** Some schedule event lies before index i. */
  ghost predicate Begun?(es: seq<Entry>, i: nat)
    requires i <= |es|
  {
    exists k :: 0 <= k < i && IsSchedule(es[k])
  }

  /** The last schedule or cancellation before index i. */
  ghost predicate LastChange(es: seq<Entry>, i: nat, k: nat) {
    && k < i <= |es| && IsChange(es[k])
    && forall j :: k < j < i ==> !IsChange(es[j])
  }

  /** A change of beacon waits at index i: the last change schedules it, and it is not the first schedule of all. */
  ghost predicate Waits(es: seq<Entry>, i: nat, id: uint8, fromTime: nat)
    requires i <= |es|
  {
    exists k: nat ::
      && LastChange(es, i, k) && es[k].event.value.Scheduled? && Begun?(es, k)
      && es[k].event.value.beaconId == id && es[k].event.value.fromTime == fromTime
  }

  /** Two entries next to each other: other positions, one time within a block, and time does not go back. */
  ghost predicate After(a: Entry, b: Entry) {
    && (a.block != b.block || a.index != b.index)
    && (if a.block == b.block then a.time == b.time else a.time <= b.time)
  }

  /** What an entry may be after those before it. */
  ghost predicate Allowed(identify: Registration -> nat, es: seq<Entry>, i: nat)
    requires i < |es|
  {
    var known := Beacons(es[..i]);
    && (i > 0 ==> After(es[i - 1], es[i]))
    && match es[i].event
       case None => false
       case Some(Registered(id, identity, r)) =>
         && id == |known| && identify(r) == identity && r.chainHash != 0
         && 1 <= r.genesis <= 0xFF_FFFF_FFFF && 1 <= r.period <= 10
         && forall b :: b in known ==> b.identity != identity
       case Some(Scheduled(id, fromTime)) =>
         && id < |known|
         && if Begun?(es, i) then es[i].time + 600 <= fromTime <= 0xFF_FFFF_FFFF else id == 0 && fromTime == es[i].time
       case Some(Cancelled(id, fromTime)) =>
         id < |known| && Waits(es, i, id, fromTime) && es[i].time < fromTime
  }

  // ---- the replay's state, read from the entries

  lemma LastChangeLocal(es: seq<Entry>, n: nat, i: nat, k: nat)
    requires i <= n <= |es|
    ensures LastChange(es[..n], i, k) <==> LastChange(es, i, k)
  {
  }

  lemma BegunLocal(es: seq<Entry>, n: nat, i: nat)
    requires i <= n <= |es|
    ensures Begun?(es[..n], i) <==> Begun?(es, i)
  {
    if Begun?(es, i) {
      var k :| 0 <= k < i && IsSchedule(es[k]);
      assert IsSchedule(es[..n][k]);
    }
  }

  lemma WaitsLocal(es: seq<Entry>, n: nat, i: nat, id: uint8, fromTime: nat)
    requires i <= n <= |es|
    ensures Waits(es[..n], i, id, fromTime) <==> Waits(es, i, id, fromTime)
  {
    forall k: nat
      ensures LastChange(es[..n], i, k) <==> LastChange(es, i, k)
      ensures k <= i ==> (Begun?(es[..n], k) <==> Begun?(es, k))
    {
      LastChangeLocal(es, n, i, k);
      if k <= i { BegunLocal(es, n, k); }
    }
    if k: nat :| LastChange(es, i, k) && es[k].event.value.Scheduled? && Begun?(es, k)
                 && es[k].event.value.beaconId == id && es[k].event.value.fromTime == fromTime {
      assert LastChange(es[..n], i, k) && es[..n][k] == es[k];
    }
    if k: nat :| LastChange(es[..n], i, k) && es[..n][k].event.value.Scheduled? && Begun?(es[..n], k)
                 && es[..n][k].event.value.beaconId == id && es[..n][k].event.value.fromTime == fromTime {
      assert LastChange(es, i, k) && es[..n][k] == es[k];
    }
  }

  lemma AllowedLocal(identify: Registration -> nat, es: seq<Entry>, n: nat, i: nat)
    requires i < n <= |es|
    ensures Allowed(identify, es[..n], i) <==> Allowed(identify, es, i)
  {
    assert es[..n][..i] == es[..i];
    BegunLocal(es, n, i);
    if es[i].event.Some? && es[i].event.value.Cancelled? {
      WaitsLocal(es, n, i, es[i].event.value.beaconId, es[i].event.value.fromTime);
    }
  }

  /** What the schedule holds after entries: their beacons, whether any was scheduled, and the change that waits. */
  ghost predicate Reads(s: Schedule, es: seq<Entry>) {
    && s.beacons == Beacons(es) && (s.eras != [] <==> Begun?(es, |es|))
    && (s.pending.Some? ==> s.eras != [])
    && forall id: uint8, fromTime: nat :: s.pending == Some(Era(id, fromTime)) <==> Waits(es, |es|, id, fromTime)
  }

  lemma StillBegun(es: seq<Entry>)
    requires es != []
    ensures Begun?(es, |es|) <==> Begun?(es[..|es| - 1], |es| - 1) || IsSchedule(es[|es| - 1])
  {
    BegunLocal(es, |es| - 1, |es| - 1);
  }

  /** After an entry that changes nothing waits what waited before. */
  lemma WaitsStill(es: seq<Entry>, id: uint8, fromTime: nat)
    requires es != [] && !IsChange(es[|es| - 1])
    ensures Waits(es, |es|, id, fromTime) <==> Waits(es[..|es| - 1], |es| - 1, id, fromTime)
  {
    var n := |es| - 1;
    WaitsLocal(es, n, n, id, fromTime);
    forall k: nat ensures LastChange(es, |es|, k) <==> LastChange(es, n, k) {
    }
  }

  /** After a change waits what it schedules, unless it is a cancellation or the first schedule. */
  lemma WaitsNow(es: seq<Entry>, id: uint8, fromTime: nat)
    requires es != [] && IsChange(es[|es| - 1])
    ensures Waits(es, |es|, id, fromTime) <==>
            && es[|es| - 1].event.value.Scheduled? && Begun?(es, |es| - 1)
            && es[|es| - 1].event.value.beaconId == id && es[|es| - 1].event.value.fromTime == fromTime
  {
    var n := |es| - 1;
    assert LastChange(es, |es|, n);
    forall k: nat ensures LastChange(es, |es|, k) ==> k == n {
    }
  }

  lemma ReadsStep(identify: Registration -> nat, es: seq<Entry>, s: Schedule)
    requires es != [] && Reads(s, es[..|es| - 1]) && es[|es| - 1].event.Some?
    requires Apply(identify, s, es[|es| - 1].time, es[|es| - 1].event.value).Ok?
    ensures Reads(Apply(identify, s, es[|es| - 1].time, es[|es| - 1].event.value).value, es)
  {
    var n := |es| - 1;
    var next := Apply(identify, s, es[n].time, es[n].event.value).value;
    StillBegun(es);
    BegunLocal(es, n, n);
    forall id: uint8, fromTime: nat ensures next.pending == Some(Era(id, fromTime)) <==> Waits(es, |es|, id, fromTime) {
      if IsChange(es[n]) { WaitsNow(es, id, fromTime); } else { WaitsStill(es, id, fromTime); }
    }
  }

  lemma {:induction false} FoldReads(identify: Registration -> nat, es: seq<Entry>)
    requires Fold(identify, es).Ok?
    ensures Reads(Fold(identify, es).value, es)
  {
    if es != [] {
      FoldStep(identify, es);
      FoldReads(identify, es[..|es| - 1]);
      ReadsStep(identify, es, Fold(identify, es[..|es| - 1]).value);
    }
  }

  // ---- acceptance

  lemma AppliesIff(identify: Registration -> nat, es: seq<Entry>, s: Schedule)
    requires es != [] && Reads(s, es[..|es| - 1])
    ensures var n := |es| - 1;
            Allowed(identify, es, n) <==>
            && (n > 0 ==> OutOfOrder(es[n - 1], es[n]).None?) && es[n].event.Some?
            && Apply(identify, s, es[n].time, es[n].event.value).Ok?
  {
    var n := |es| - 1;
    BegunLocal(es, n, n);
    if es[n].event.Some? && es[n].event.value.Cancelled? {
      WaitsLocal(es, n, n, es[n].event.value.beaconId, es[n].event.value.fromTime);
    }
  }

  lemma AllAllowedLocal(identify: Registration -> nat, es: seq<Entry>)
    requires es != []
    ensures var n := |es| - 1;
            (forall i :: 0 <= i < n ==> Allowed(identify, es[..n], i)) <==>
            forall i :: 0 <= i < n ==> Allowed(identify, es, i)
  {
    var n := |es| - 1;
    forall i | 0 <= i < n ensures Allowed(identify, es[..n], i) <==> Allowed(identify, es, i) {
      AllowedLocal(identify, es, n, i);
    }
  }

  lemma LastDecides(identify: Registration -> nat, es: seq<Entry>)
    requires es != []
    ensures var n := |es| - 1; Fold(identify, es).Ok? <==> Fold(identify, es[..n]).Ok? && Allowed(identify, es, n)
  {
    var n := |es| - 1;
    if Fold(identify, es[..n]).Ok? {
      FoldReads(identify, es[..n]);
      AppliesIff(identify, es, Fold(identify, es[..n]).value);
    }
  }

  /**
   The logs are accepted exactly when every entry is allowed after those before it: positions do not repeat and times do
   not go back; a registration has the next number, a good beacon and a new identity; the first schedule is beacon 0's
   from its own block, and each later one gives 600 seconds; a cancellation names the change that waits, before its
   time.
   */
  lemma {:induction false} AcceptedIffAllowed(identify: Registration -> nat, es: seq<Entry>)
    ensures Fold(identify, es).Ok? <==> forall i :: 0 <= i < |es| ==> Allowed(identify, es, i)
  {
    if es != [] {
      var n := |es| - 1;
      AcceptedIffAllowed(identify, es[..n]);
      AllAllowedLocal(identify, es);
      LastDecides(identify, es);
    }
  }
}

/**
 The declarative reading of a beacon log: a schedule event takes effect unless a later change came before its time.
 The replay of src/round.ts agrees with it for every accepted log.
 */
module ScheduleReading {
  import opened Common
  import opened Rounds
  import opened BeaconSchedule

  ghost predicate IsSchedule(e: Entry) {
    e.event.Some? && e.event.value.Scheduled?
  }

  /** A schedule or a cancellation. */
  ghost predicate IsChange(e: Entry) {
    e.event.Some? && !e.event.value.Registered?
  }

  ghost function FromTime(e: Entry): nat
    requires IsChange(e)
  {
    e.event.value.fromTime
  }

  ghost function EraOf(e: Entry): Era
    requires IsChange(e)
  {
    Era(e.event.value.beaconId, e.event.value.fromTime)
  }

  /** The schedule event at i takes effect: no later change has a block time before its own time. */
  ghost predicate Effective(es: seq<Entry>, i: nat) {
    && i < |es| && IsSchedule(es[i])
    && forall j :: i < j < |es| && IsChange(es[j]) ==> es[j].time >= FromTime(es[i])
  }

  /** The event in force at t: the effective one with the latest time up to t, or the earliest when none has begun. */
  ghost predicate InForce(es: seq<Entry>, t: int, i: nat) {
    && Effective(es, i)
    && if FromTime(es[i]) <= t
       then forall k: nat :: Effective(es, k) && FromTime(es[k]) <= t ==> FromTime(es[k]) <= FromTime(es[i])
       else forall k: nat :: Effective(es, k) ==> FromTime(es[i]) <= FromTime(es[k])
  }

  // ---- the effective events, in order

  ghost predicate Listed(es: seq<Entry>, ix: seq<nat>) {
    && (forall k :: 0 <= k < |ix| ==> ix[k] < |es| && IsSchedule(es[ix[k]]))
    && forall k, m :: 0 <= k < m < |ix| ==> ix[k] < ix[m]
  }

  /** The positions of the effective events. */
  ghost function Effects(es: seq<Entry>): (ix: seq<nat>)
    ensures Listed(es, ix)
  {
    if es == [] then []
    else
      var n := |es| - 1;
      var before := Effects(es[..n]);
      ListedLonger(es, before);
      var kept := if IsChange(es[n]) then Survivors(es, before, es[n].time) else before;
      if IsSchedule(es[n]) then kept + [n] else kept
  }

  lemma ListedLonger(es: seq<Entry>, ix: seq<nat>)
    requires es != [] && Listed(es[..|es| - 1], ix)
    ensures Listed(es, ix) && forall k :: 0 <= k < |ix| ==> ix[k] < |es| - 1 && es[..|es| - 1][ix[k]] == es[ix[k]]
  {
  }

  /** The events a change at this time leaves: all but the last, which goes when its time has not come. */
  ghost function Survivors(es: seq<Entry>, ix: seq<nat>, time: nat): (kept: seq<nat>)
    requires Listed(es, ix)
    ensures kept <= ix && Listed(es, kept)
  {
    if ix != [] && time < FromTime(Scheduling(es, ix, |ix| - 1)) then ix[..|ix| - 1] else ix
  }

  ghost function Scheduling(es: seq<Entry>, ix: seq<nat>, k: nat): (e: Entry)
    requires Listed(es, ix) && k < |ix|
    ensures IsSchedule(e) && e == es[ix[k]]
  {
    es[ix[k]]
  }

  ghost function ErasOf(es: seq<Entry>, ix: seq<nat>): (eras: seq<Era>)
    requires Listed(es, ix)
    ensures |eras| == |ix|
  {
    seq(|ix|, k requires 0 <= k < |ix| => EraOf(Scheduling(es, ix, k)))
  }

  lemma ErasOfFront(es: seq<Entry>, ix: seq<nat>, n: nat)
    requires Listed(es, ix) && n <= |ix|
    ensures Listed(es, ix[..n]) && ErasOf(es, ix[..n]) == ErasOf(es, ix)[..n]
  {
    forall k | 0 <= k < n ensures Scheduling(es, ix[..n], k) == Scheduling(es, ix, k) {
    }
  }

  lemma SurvivingEras(es: seq<Entry>, ix: seq<nat>, time: nat)
    requires Listed(es, ix)
    ensures var tl := ErasOf(es, ix);
            && ErasOf(es, Survivors(es, ix, time))
               == if tl != [] && time < tl[|tl| - 1].since then tl[..|tl| - 1] else tl
  {
    if ix != [] {
      assert ErasOf(es, ix)[|ix| - 1].since == FromTime(Scheduling(es, ix, |ix| - 1));
      ErasOfFront(es, ix, |ix| - 1);
    }
  }

  lemma ErasOfAppend(es: seq<Entry>, ix: seq<nat>, n: nat)
    requires Listed(es, ix) && Listed(es, ix + [n])
    ensures ErasOf(es, ix + [n]) == ErasOf(es, ix) + [EraOf(es[(ix + [n])[|ix|]])]
  {
    forall k | 0 <= k < |ix| ensures Scheduling(es, ix + [n], k) == Scheduling(es, ix, k) {
    }
  }

  /** The effective events before the last entry that it leaves. */
  ghost function Kept(es: seq<Entry>): (kept: seq<nat>)
    requires es != []
    ensures Listed(es, kept) && forall k :: 0 <= k < |kept| ==> kept[k] < |es| - 1
  {
    var before := Effects(es[..|es| - 1]);
    ListedLonger(es, before);
    if IsChange(es[|es| - 1]) then Survivors(es, before, es[|es| - 1].time) else before
  }

  lemma EffectsUnfold(es: seq<Entry>)
    requires es != []
    ensures Effects(es) == Kept(es) + if IsSchedule(es[|es| - 1]) then [|es| - 1] else []
  {
  }

  /** How one entry changes the list of effective eras. */
  lemma EffectsStep(es: seq<Entry>)
    requires es != []
    ensures var n := |es| - 1;
            var tl := ErasOf(es[..n], Effects(es[..n]));
            var kept := if IsChange(es[n]) && tl != [] && es[n].time < tl[|tl| - 1].since then tl[..|tl| - 1] else tl;
            ErasOf(es, Effects(es)) == kept + if IsSchedule(es[n]) then [EraOf(es[n])] else []
  {
    var n := |es| - 1;
    var before := Effects(es[..n]);
    ListedLonger(es, before);
    assert ErasOf(es[..n], before) == ErasOf(es, before);
    SurvivingEras(es, before, es[n].time);
    EffectsUnfold(es);
    if IsSchedule(es[n]) {
      ErasOfAppend(es, Kept(es), n);
    } else {
      assert Effects(es) == Kept(es);
    }
  }

  /** What Apply does to the timeline, in the terms of Effects. */
  lemma TimelineStep(identify: Registration -> nat, s: Schedule, was: nat, time: nat, e: Event)
    requires Invariant(identify, s, was) && was <= time && Apply(identify, s, time, e).Ok?
    ensures var tl := Timeline(s);
            var drops := !e.Registered? && tl != [] && time < tl[|tl| - 1].since;
            var kept := if drops then tl[..|tl| - 1] else tl;
            && Timeline(Apply(identify, s, time, e).value)
               == kept + if e.Scheduled? then [Era(e.beaconId, e.fromTime)] else []
  {
    var tl := Timeline(s);
    var next := Apply(identify, s, time, e).value;
    if !e.Registered? {
      assert s.pending.Some? ==> tl[|tl| - 1] == s.pending.value && tl[..|tl| - 1] == s.eras;
      assert s.pending.None? ==> tl == s.eras;
      if s.eras != [] && e.Scheduled? {
        assert Timeline(next) == Begun(s, time) + [Era(e.beaconId, e.fromTime)];
      }
    }
  }

  /** The replayed timeline is the list of the effective events. */
  lemma {:induction false} TimelineIsEffects(identify: Registration -> nat, es: seq<Entry>)
    requires Fold(identify, es).Ok?
    ensures Timeline(Fold(identify, es).value) == ErasOf(es, Effects(es))
  {
    if es != [] {
      var n := |es| - 1;
      FoldStep(identify, es);
      TimelineIsEffects(identify, es[..n]);
      FoldKeepsInvariant(identify, es[..n]);
      TimelineStep(identify, Fold(identify, es[..n]).value, Now(es[..n]), es[n].time, es[n].event.value);
      EffectsStep(es);
    }
  }

  lemma EffectivePrefix(es: seq<Entry>, i: nat)
    requires es != [] && i < |es| - 1
    ensures Effective(es, i) <==>
            var n := |es| - 1; Effective(es[..n], i) && (IsChange(es[n]) ==> es[n].time >= FromTime(es[i]))
  {
    var n := |es| - 1;
    if Effective(es, i) {
      forall j | i < j < n && IsChange(es[..n][j]) ensures es[..n][j].time >= FromTime(es[..n][i]) {
        assert es[..n][j] == es[j];
      }
    }
    if Effective(es[..n], i) && (IsChange(es[n]) ==> es[n].time >= FromTime(es[i])) {
      forall j | i < j < |es| && IsChange(es[j]) ensures es[j].time >= FromTime(es[i]) {
        if j < n { assert es[..n][j] == es[j]; }
      }
    }
  }

  /** Of the effective events before a later entry, all but the last have begun by its time. */
  lemma BegunButLast(identify: Registration -> nat, es: seq<Entry>, time: nat, k: nat)
    requires Fold(identify, es).Ok? && Now(es) <= time && k < |Effects(es)| - 1
    ensures FromTime(Scheduling(es, Effects(es), k)) <= time
  {
    FoldKeepsInvariant(identify, es);
    TimelineIsEffects(identify, es);
    var s := Fold(identify, es).value;
    assert Timeline(s)[k] == s.eras[k];
    assert ErasOf(es, Effects(es))[k] == EraOf(Scheduling(es, Effects(es), k));
  }

  /** A change keeps exactly the earlier effective events whose time has come. */
  lemma SurvivorsAreBegun(es: seq<Entry>, ix: seq<nat>, time: nat, i: nat)
    requires Listed(es, ix) && i in ix
    requires forall k :: 0 <= k < |ix| - 1 ==> FromTime(Scheduling(es, ix, k)) <= time
    ensures i < |es| && IsSchedule(es[i])
    ensures i in Survivors(es, ix, time) <==> FromTime(es[i]) <= time
  {
    var k :| 0 <= k < |ix| && ix[k] == i;
    assert Scheduling(es, ix, k) == es[i];
    if k < |ix| - 1 {
      assert Survivors(es, ix, time)[k] == i;
    } else {
      assert i !in ix[..k];
      assert ix == ix[..k] + [i];
    }
  }

  lemma KeptWhenBegun(identify: Registration -> nat, es: seq<Entry>, i: nat)
    requires es != [] && Fold(identify, es).Ok? && i in Effects(es[..|es| - 1])
    ensures i < |es| - 1 && IsSchedule(es[i])
    ensures i in Kept(es) <==> (IsChange(es[|es| - 1]) ==> FromTime(es[i]) <= es[|es| - 1].time)
  {
    var n := |es| - 1;
    var before := Effects(es[..n]);
    FoldStep(identify, es);
    ListedLonger(es, before);
    forall k | 0 <= k < |before| - 1 ensures FromTime(Scheduling(es, before, k)) <= es[n].time {
      BegunButLast(identify, es[..n], es[n].time, k);
    }
    SurvivorsAreBegun(es, before, es[n].time, i);
  }

  /** Effects lists exactly the effective events. */
  lemma {:induction false} EffectsAreEffective(identify: Registration -> nat, es: seq<Entry>, i: nat)
    requires Fold(identify, es).Ok?
    ensures i in Effects(es) <==> Effective(es, i)
  {
    if es != [] {
      var n := |es| - 1;
      FoldStep(identify, es);
      EffectsAreEffective(identify, es[..n], i);
      EffectsUnfold(es);
      if i < n {
        EffectivePrefix(es, i);
        if i in Effects(es[..n]) { KeptWhenBegun(identify, es, i); }
      }
    }
  }

  // ---- the beacon in force

  lemma {:induction false} LatestBegunSpec(eras: seq<Era>, t: int)
    requires eras != []
    ensures var k := LatestBegun(eras, t);
            && (k == 0 || eras[k].since <= t)
            && forall j :: k < j < |eras| ==> t < eras[j].since
  {
    var n := |eras| - 1;
    if n > 0 && t < eras[n].since {
      LatestBegunSpec(eras[..n], t);
      var k := LatestBegun(eras[..n], t);
      forall j | k < j < |eras| ensures t < eras[j].since {
        if j < n { assert eras[..n][j] == eras[j]; }
      }
    }
  }

  lemma BeaconAtTimeline(s: Schedule, t: int)
    requires s.eras != []
    ensures Timeline(s) != [] && BeaconAt(s, t) == Timeline(s)[LatestBegun(Timeline(s), t)].beaconId
  {
    if s.pending.Some? {
      LatestBegunAppend(s.eras, s.pending.value, t);
      assert Timeline(s) == s.eras + [s.pending.value];
    } else {
      assert Timeline(s) == s.eras;
    }
  }

  /** Where an effective event stands in the timeline. */
  lemma TimelinePosition(identify: Registration -> nat, es: seq<Entry>, k: nat) returns (b: nat)
    requires Fold(identify, es).Ok? && Effective(es, k)
    ensures b < |Effects(es)| && Effects(es)[b] == k
    ensures b < |Timeline(Fold(identify, es).value)| && Timeline(Fold(identify, es).value)[b] == EraOf(es[k])
  {
    EffectsAreEffective(identify, es, k);
    TimelineIsEffects(identify, es);
    b :| 0 <= b < |Effects(es)| && Effects(es)[b] == k;
    assert ErasOf(es, Effects(es))[b] == EraOf(Scheduling(es, Effects(es), b));
  }

  /** Two effective events of one time are one event. */
  lemma OneEventATime(identify: Registration -> nat, es: seq<Entry>, i: nat, k: nat)
    requires Fold(identify, es).Ok? && Effective(es, i) && Effective(es, k) && FromTime(es[i]) == FromTime(es[k])
    ensures i == k
  {
    FoldKeepsInvariant(identify, es);
    var a := TimelinePosition(identify, es, i);
    var b := TimelinePosition(identify, es, k);
  }

  lemma InForceTimesAgree(es: seq<Entry>, t: int, i: nat, k: nat)
    requires InForce(es, t, i) && InForce(es, t, k)
    ensures FromTime(es[i]) == FromTime(es[k])
  {
  }

  /** The latest begun era of the timeline against any other. */
  lemma LatestAgainst(eras: seq<Era>, t: int, b: nat)
    requires Spaced(eras) && b < |eras|
    ensures var m := LatestBegun(eras, t);
            && (eras[m].since <= t && eras[b].since <= t ==> eras[b].since <= eras[m].since)
            && (t < eras[m].since ==> eras[m].since <= eras[b].since)
  {
    LatestBegunSpec(eras, t);
  }

  lemma LatestIsInForce(identify: Registration -> nat, es: seq<Entry>, t: int, i: nat)
    requires Accepted(identify, es) && Effective(es, i)
    requires var tl := Timeline(Fold(identify, es).value); tl != [] && EraOf(es[i]) == tl[LatestBegun(tl, t)]
    ensures InForce(es, t, i)
  {
    FoldKeepsInvariant(identify, es);
    forall k: nat | Effective(es, k)
      ensures FromTime(es[i]) <= t && FromTime(es[k]) <= t ==> FromTime(es[k]) <= FromTime(es[i])
      ensures t < FromTime(es[i]) ==> FromTime(es[i]) <= FromTime(es[k])
    {
      var b := TimelinePosition(identify, es, k);
      LatestAgainst(Timeline(Fold(identify, es).value), t, b);
    }
  }

  /**
   The replay agrees with the declarative reading: at every timestamp exactly one event is in force, and `roundAt`
   answers with its beacon.
   */
  lemma ReplayAgreesWithReading(identify: Registration -> nat, es: seq<Entry>, t: int) returns (i: nat)
    requires Accepted(identify, es)
    ensures InForce(es, t, i) && forall k: nat :: InForce(es, t, k) ==> k == i
    ensures BeaconAt(Fold(identify, es).value, t) == es[i].event.value.beaconId
  {
    var s := Fold(identify, es).value;
    TimelineIsEffects(identify, es);
    BeaconAtTimeline(s, t);
    var m := LatestBegun(Timeline(s), t);
    i := Effects(es)[m];
    assert ErasOf(es, Effects(es))[m] == EraOf(Scheduling(es, Effects(es), m));
    EffectsAreEffective(identify, es, i);
    LatestIsInForce(identify, es, t, i);
    forall k: nat | InForce(es, t, k) ensures k == i {
      InForceTimesAgree(es, t, i, k);
      OneEventATime(identify, es, i, k);
    }
  }

  /** A registered beacon is what the event with its number registered. */
  lemma {:induction false} BeaconIsRegistered(identify: Registration -> nat, es: seq<Entry>, id: uint8) returns (j: nat)
    requires Fold(identify, es).Ok? && id < |Fold(identify, es).value.beacons|
    ensures j < |es|
    ensures var b := Fold(identify, es).value.beacons[id];
            es[j].event == Some(Registered(id, b.identity, b.registration))
  {
    var n := |es| - 1;
    FoldStep(identify, es);
    if id < |Fold(identify, es[..n]).value.beacons| {
      j := BeaconIsRegistered(identify, es[..n], id);
    } else {
      j := n;
    }
  }

  /**
   The round too: at every uint64 timestamp `roundAt` answers with the least round, of the beacon that the event in
   force names as the log registers it, that is due at least the lead after the timestamp.
   */
  lemma RoundAgreesWithReading(identify: Registration -> nat, es: seq<Entry>, t: int, round: int)
      returns (i: nat, j: nat)
    requires Accepted(identify, es) && 0 <= t <= MAX_UINT64 && round >= 1
    ensures InForce(es, t, i) && j < |es| && es[j].event.Some? && es[j].event.value.Registered?
    ensures es[j].event.value.beaconId == es[i].event.value.beaconId
    ensures var s, clock := Fold(identify, es).value, es[j].event.value.registration;
            && BeaconAt(s, t) < |s.beacons| && RoundAt(s, t).Some?
            && RoundAt(s, t).value.beaconId == es[i].event.value.beaconId && RoundAt(s, t).value.round >= 1
            && (round >= RoundAt(s, t).value.round <==> clock.genesis + (round - 1) * clock.period >= t + 3)
  {
    i := ReplayAgreesWithReading(identify, es, t);
    RoundAtDefined(identify, es, t);
    j := BeaconIsRegistered(identify, es, es[i].event.value.beaconId);
    var clock := es[j].event.value.registration;
    FirstRoundIsFirst(clock.genesis, clock.period, t + ROUND_LEAD, round);
  }

  lemma {:induction false} FirstEraStays(identify: Registration -> nat, es: seq<Entry>, m: nat)
    requires Fold(identify, es).Ok? && m <= |es|
    ensures Fold(identify, es[..m]).Ok?
    ensures Fold(identify, es[..m]).value.eras != [] ==>
              Fold(identify, es).value.eras != []
                  && Fold(identify, es).value.eras[0] == Fold(identify, es[..m]).value.eras[0]
  {
    var n := |es| - 1;
    if m == |es| {
      assert es[..m] == es;
    } else {
      FoldStep(identify, es);
      FirstEraStays(identify, es[..n], m);
      assert es[..n][..m] == es[..m];
    }
  }

  /** Before anything has begun, the event in force is the first change of all: initialization's. */
  lemma EarliestIsInitialization(identify: Registration -> nat, es: seq<Entry>, t: int, i: nat, k: nat)
    requires Accepted(identify, es) && InForce(es, t, i) && t < FromTime(es[i])
    requires k < i
    ensures !IsChange(es[k])
  {
    if IsChange(es[k]) {
      FirstEraStays(identify, es, i);
      FirstEraStays(identify, es, i + 1);
      assert es[..i + 1][..i] == es[..i];
      FoldStep(identify, es[..i + 1]);
      ChangeMeansEra(identify, es[..i], k);
      FoldKeepsInvariant(identify, es[..i]);
      FirstOrNoticed(identify, es, i, k);
      var s := Fold(identify, es).value;
      TimelineIsEffects(identify, es);
      assert Timeline(s)[0] == s.eras[0];
      var first := Effects(es)[0];
      assert ErasOf(es, Effects(es))[0] == EraOf(Scheduling(es, Effects(es), 0));
      EffectsAreEffective(identify, es, first);
    }
  }

  // ---- the notice every change gives

  /** An effective event starts at or before the time of a change, or at least the lead after it. */
  lemma EffectiveOutsideNotice(identify: Registration -> nat, es: seq<Entry>, i: nat, k: nat)
    requires Accepted(identify, es) && i < |es| && IsChange(es[i]) && Effective(es, k)
    ensures FromTime(es[k]) <= es[i].time || es[i].time + MIN_SCHEDULE_LEAD <= FromTime(es[k])
  {
    if k >= i {
      TimesAscend(identify, es, i, k);
      FirstOrNoticed(identify, es, k, i);
    }
  }

  /** A schedule event gives the full lead, unless it is the first change of all, which starts at its own block. */
  lemma {:induction false} FirstOrNoticed(identify: Registration -> nat, es: seq<Entry>, k: nat, i: nat)
    requires Fold(identify, es).Ok? && i <= k < |es| && IsSchedule(es[k]) && IsChange(es[i])
    ensures es[k].time + MIN_SCHEDULE_LEAD <= FromTime(es[k]) || (i == k && FromTime(es[k]) == es[k].time)
  {
    var n := |es| - 1;
    FoldStep(identify, es);
    if k < n {
      FirstOrNoticed(identify, es[..n], k, i);
    } else if i < n {
      ChangeMeansEra(identify, es[..n], i);
    }
  }

  lemma ChangeLeavesEra(identify: Registration -> nat, s: Schedule, time: nat, e: Event)
    requires (s.pending.Some? ==> s.eras != []) && (!e.Registered? || s.eras != []) && Apply(identify, s, time, e).Ok?
    ensures Apply(identify, s, time, e).value.eras != []
  {
  }

  lemma {:induction false} ChangeMeansEra(identify: Registration -> nat, es: seq<Entry>, i: nat)
    requires Fold(identify, es).Ok? && i < |es| && IsChange(es[i])
    ensures Fold(identify, es).value.eras != []
  {
    var n := |es| - 1;
    FoldStep(identify, es);
    FoldKeepsInvariant(identify, es[..n]);
    if i < n {
      ChangeMeansEra(identify, es[..n], i);
    }
    ChangeLeavesEra(identify, Fold(identify, es[..n]).value, es[n].time, es[n].event.value);
  }

  /**
   Notice: from the block of any schedule or cancellation the beacon in force stays the same for the schedule lead,
   however the log goes on.
   */
  lemma ConstantDuringNotice(identify: Registration -> nat, es: seq<Entry>, i: nat, t: int)
    requires Accepted(identify, es) && i < |es| && IsChange(es[i])
    requires es[i].time <= t < es[i].time + 600
    ensures BeaconAt(Fold(identify, es).value, t) == BeaconAt(Fold(identify, es).value, es[i].time)
  {
    var a := ReplayAgreesWithReading(identify, es, t);
    var b := ReplayAgreesWithReading(identify, es, es[i].time);
    forall k: nat | Effective(es, k) ensures FromTime(es[k]) <= es[i].time <==> FromTime(es[k]) <= t {
      EffectiveOutsideNotice(identify, es, i, k);
    }
    SameBegunSameInForce(es, es[i].time, t, a);
  }

  lemma SameBegunSameInForce(es: seq<Entry>, t: int, u: int, i: nat)
    requires forall k: nat :: Effective(es, k) ==> (FromTime(es[k]) <= t <==> FromTime(es[k]) <= u)
    requires InForce(es, u, i)
    ensures InForce(es, t, i)
  {
  }
}

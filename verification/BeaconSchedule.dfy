/**
 The beacon schedule from its events (src/round.ts): `Fold` replays the logs of a coordinator into the eras in force
 and one pending change, `RoundAt` asks it which beacon and round a block binds.
 */
module BeaconSchedule {
  import opened Common
  import opened Rounds

  const MIN_SCHEDULE_LEAD := 600
  const MAX_BEACON_PERIOD := 10
  const MAX_UINT40 := 0xFF_FFFF_FFFF

  type uint8 = x: int | 0 <= x < 256
  type uint64 = x: int | 0 <= x <= MAX_UINT64

  /** What a beacon is registered with; its identity is a hash of it. */
  datatype Registration = Registration(verifier: nat, chainHash: nat, publicKey: nat, genesis: uint64, period: uint64)

  datatype Beacon = Beacon(registration: Registration, identity: nat)

  /** A beacon in force from a time on. */
  datatype Era = Era(beaconId: uint8, since: nat)

  datatype Schedule = Schedule(beacons: seq<Beacon>, eras: seq<Era>, pending: Option<Era>)

  datatype Event =
    | Registered(beaconId: uint8, identity: nat, registration: Registration)
    | Scheduled(beaconId: uint8, fromTime: uint64)
    | Cancelled(beaconId: uint8, fromTime: uint64)

  /** A beacon log with its position in the chain; its event is absent when the log is not the exact encoding of one. */
  datatype Entry = Entry(block: nat, index: nat, time: nat, event: Option<Event>)

  datatype Refusal =
    | OtherAddress | RemovedLog | InvalidPosition
    | Repeated | TimeGoesBack | InvalidEvent
    | InvalidRegistration | UnregisteredBeacon | InvalidFirstSchedule | InvalidSchedule | InvalidCancellation
    | NotInitialized

  const EMPTY := Schedule([], [], None)

  predicate ValidRegistration(identify: Registration -> nat, beacons: seq<Beacon>, e: Event)
    requires e.Registered?
  {
    && e.beaconId == |beacons|
    && e.registration.chainHash != 0
    && 1 <= e.registration.genesis <= MAX_UINT40
    && 1 <= e.registration.period <= MAX_BEACON_PERIOD
    && identify(e.registration) == e.identity
    && forall i :: 0 <= i < |beacons| ==> beacons[i].identity != e.identity
  }

  /** What one event of a block with this time makes of the schedule. */
  function Apply(identify: Registration -> nat, s: Schedule, time: nat, e: Event): Result<Schedule, Refusal> {
    if e.Registered? then
      if ValidRegistration(identify, s.beacons, e)
      then Ok(s.(beacons := s.beacons + [Beacon(e.registration, e.identity)])) else Err(InvalidRegistration)
    else if e.beaconId >= |s.beacons| then Err(UnregisteredBeacon)
    else if e.Scheduled? then
      if s.eras == [] then
        if e.beaconId != 0 || e.fromTime != time then Err(InvalidFirstSchedule)
        else Ok(s.(eras := [Era(e.beaconId, e.fromTime)]))
      else if e.fromTime < time + MIN_SCHEDULE_LEAD || e.fromTime > MAX_UINT40 then Err(InvalidSchedule)
      else Ok(s.(eras := Begun(s, time), pending := Some(Era(e.beaconId, e.fromTime))))
    else if s.pending.None? || s.pending.value != Era(e.beaconId, e.fromTime) || time >= e.fromTime
    then Err(InvalidCancellation)
    else Ok(s.(pending := None))
  }

  /** The eras begun by a time: a pending change whose time had come is one. */
  function Begun(s: Schedule, time: nat): seq<Era> {
    if s.pending.Some? && time >= s.pending.value.since then s.eras + [s.pending.value] else s.eras
  }

  /** Why an entry may not come after the one before it. */
  function OutOfOrder(previous: Entry, e: Entry): Option<Refusal> {
    if previous.block == e.block && previous.index == e.index then Some(Repeated)
    else if (if previous.block == e.block then previous.time != e.time else previous.time > e.time)
    then Some(TimeGoesBack)
    else None
  }

  /** One pass of the replay loop. */
  function Advance(identify: Registration -> nat, s: Schedule, previous: Option<Entry>,
      e: Entry): Result<Schedule, Refusal> {
    if previous.Some? && OutOfOrder(previous.value, e).Some? then Err(OutOfOrder(previous.value, e).value)
    else if e.event.None? then Err(InvalidEvent)
    else Apply(identify, s, e.time, e.event.value)
  }

  function Last(es: seq<Entry>): Option<Entry> {
    if es == [] then None else Some(es[|es| - 1])
  }

  /** The replay of entries in order. */
  function Fold(identify: Registration -> nat, es: seq<Entry>): Result<Schedule, Refusal> {
    if es == [] then Ok(EMPTY)
    else
      var init := es[..|es| - 1];
      match Fold(identify, init)
      case Err(why) => Err(why)
      case Ok(s) => Advance(identify, s, Last(init), es[|es| - 1])
  }

  /** Entries whose replay succeeds and reaches initialization. */
  ghost predicate Accepted(identify: Registration -> nat, es: seq<Entry>) {
    Fold(identify, es).Ok? && Fold(identify, es).value.eras != []
  }

  // ---- queries

  /** The latest era begun by t, else the first. */
  function LatestBegun(eras: seq<Era>, t: int): (i: nat)
    requires eras != []
    ensures i < |eras|
  {
    var n := |eras| - 1;
    if n == 0 || t >= eras[n].since then n else LatestBegun(eras[..n], t)
  }

  /** The beacon in force for a block with timestamp t. */
  function BeaconAt(s: Schedule, t: int): uint8
    requires s.eras != []
  {
    if s.pending.Some? && t >= s.pending.value.since then s.pending.value.beaconId
    else s.eras[LatestBegun(s.eras, t)].beaconId
  }

  datatype Assignment = Assignment(beaconId: uint8, round: int, beacon: Beacon)

  /** `roundAt`: the beacon and round a request binds; a timestamp that is not a uint64 throws. */
  function RoundAt(s: Schedule, t: int): Option<Assignment>
    requires s.eras != [] && BeaconAt(s, t) < |s.beacons|
  {
    var id := BeaconAt(s, t);
    var beacon := s.beacons[id];
    match RoundFor(beacon.registration.genesis, beacon.registration.period, t, ROUND_LEAD)
    case None => None
    case Some(round) => Some(Assignment(id, round, beacon))
  }

  // ---- what every accepted replay keeps

  /** Eras start at increasing times, at least the schedule lead apart. */
  ghost predicate Spaced(eras: seq<Era>) {
    forall i, j :: 0 <= i < j < |eras| ==> eras[i].since + MIN_SCHEDULE_LEAD <= eras[j].since
  }

  ghost predicate Known(s: Schedule, e: Era) {
    e.beaconId < |s.beacons|
  }

  /** The eras in force so far and the change still pending, oldest first. */
  ghost function Timeline(s: Schedule): seq<Era> {
    s.eras + if s.pending.Some? then [s.pending.value] else []
  }

  ghost predicate ValidBeacons(identify: Registration -> nat, beacons: seq<Beacon>) {
    && |beacons| <= 256
    && (forall i :: 0 <= i < |beacons| ==>
          && beacons[i].identity == identify(beacons[i].registration)
          && 1 <= beacons[i].registration.genesis <= MAX_UINT40
          && 1 <= beacons[i].registration.period <= MAX_BEACON_PERIOD)
    && forall i, j :: 0 <= i < j < |beacons| ==> beacons[i].identity != beacons[j].identity
  }

  ghost predicate Invariant(identify: Registration -> nat, s: Schedule, now: nat) {
    && ValidBeacons(identify, s.beacons)
    && (s.pending.Some? ==> s.eras != [])
    && (forall i :: 0 <= i < |s.eras| ==> s.eras[i].since <= now)
    && Spaced(Timeline(s))
    && forall i :: 0 <= i < |Timeline(s)| ==> Known(s, Timeline(s)[i])
  }

  ghost function Now(es: seq<Entry>): nat {
    if es == [] then 0 else es[|es| - 1].time
  }

  lemma RegisteredKeepsBeacons(identify: Registration -> nat, beacons: seq<Beacon>, e: Event)
    requires e.Registered? && ValidBeacons(identify, beacons) && ValidRegistration(identify, beacons, e)
    ensures ValidBeacons(identify, beacons + [Beacon(e.registration, e.identity)])
  {
  }

  lemma SpacedAppend(eras: seq<Era>, e: Era)
    requires Spaced(eras) && forall i :: 0 <= i < |eras| ==> eras[i].since + MIN_SCHEDULE_LEAD <= e.since
    ensures Spaced(eras + [e])
  {
  }

  /** The eras begun by the time of a schedule event all lie at or before it, and still before the change it makes. */
  lemma BegunKeeps(identify: Registration -> nat, s: Schedule, was: nat, time: nat)
    requires Invariant(identify, s, was) && was <= time
    ensures Spaced(Begun(s, time))
    ensures forall i :: 0 <= i < |Begun(s, time)| ==> Begun(s, time)[i].since <= time && Known(s, Begun(s, time)[i])
  {
    var b := Begun(s, time);
    assert b <= Timeline(s);
    forall i | 0 <= i < |b| ensures b[i].since <= time && Known(s, b[i]) {
      assert b[i] == Timeline(s)[i];
    }
    forall i, j | 0 <= i < j < |b| ensures b[i].since + MIN_SCHEDULE_LEAD <= b[j].since {
      assert b[i] == Timeline(s)[i] && b[j] == Timeline(s)[j];
    }
  }

  lemma ScheduleKeepsInvariant(identify: Registration -> nat, s: Schedule, was: nat, time: nat, e: Event)
    requires Invariant(identify, s, was) && was <= time && e.Scheduled? && Apply(identify, s, time, e).Ok?
    ensures Invariant(identify, Apply(identify, s, time, e).value, time)
  {
    var next := Apply(identify, s, time, e).value;
    var era := Era(e.beaconId, e.fromTime);
    if s.eras == [] {
      assert Timeline(next) == [era];
    } else {
      BegunKeeps(identify, s, was, time);
      SpacedAppend(Begun(s, time), era);
      assert Timeline(next) == Begun(s, time) + [era];
    }
  }

  lemma CancelKeepsInvariant(identify: Registration -> nat, s: Schedule, was: nat, time: nat, e: Event)
    requires Invariant(identify, s, was) && was <= time && e.Cancelled? && Apply(identify, s, time, e).Ok?
    ensures Invariant(identify, Apply(identify, s, time, e).value, time)
  {
    var next := Apply(identify, s, time, e).value;
    assert Timeline(next) == s.eras;
    assert forall i :: 0 <= i < |s.eras| ==> Timeline(s)[i] == s.eras[i];
  }

  lemma ApplyKeepsInvariant(identify: Registration -> nat, s: Schedule, was: nat, time: nat, e: Event)
    requires Invariant(identify, s, was) && was <= time && Apply(identify, s, time, e).Ok?
    ensures Invariant(identify, Apply(identify, s, time, e).value, time)
  {
    match e
    case Registered(_, _, _) =>
      RegisteredKeepsBeacons(identify, s.beacons, e);
      assert Timeline(Apply(identify, s, time, e).value) == Timeline(s);
    case Scheduled(_, _) => ScheduleKeepsInvariant(identify, s, was, time, e);
    case Cancelled(_, _) => CancelKeepsInvariant(identify, s, was, time, e);
  }

  lemma FoldStep(identify: Registration -> nat, es: seq<Entry>)
    requires es != [] && Fold(identify, es).Ok?
    ensures var n := |es| - 1;
            && Fold(identify, es[..n]).Ok? && es[n].event.Some?
            && Fold(identify, es) == Apply(identify, Fold(identify, es[..n]).value, es[n].time, es[n].event.value)
            && Now(es[..n]) <= es[n].time
  {
  }

  /** Every accepted replay keeps the invariant: spaced eras, registered and distinct beacons. */
  lemma {:induction false} FoldKeepsInvariant(identify: Registration -> nat, es: seq<Entry>)
    requires Fold(identify, es).Ok?
    ensures Invariant(identify, Fold(identify, es).value, Now(es))
  {
    if es != [] {
      var n := |es| - 1;
      FoldStep(identify, es);
      FoldKeepsInvariant(identify, es[..n]);
      ApplyKeepsInvariant(identify, Fold(identify, es[..n]).value, Now(es[..n]), es[n].time, es[n].event.value);
    }
  }

  /** The beacon in force is always a registered one, so the query is answered for every uint64 timestamp. */
  lemma RoundAtDefined(identify: Registration -> nat, es: seq<Entry>, t: int)
    requires Accepted(identify, es)
    ensures var s := Fold(identify, es).value;
            && BeaconAt(s, t) < |s.beacons|
            && (RoundAt(s, t).Some? <==> 0 <= t <= MAX_UINT64)
  {
    FoldKeepsInvariant(identify, es);
    var s := Fold(identify, es).value;
    assert forall i :: 0 <= i < |s.eras| ==> Timeline(s)[i] == s.eras[i];
    assert s.pending.Some? ==> Timeline(s)[|s.eras|] == s.pending.value;
    assert Known(s, Timeline(s)[LatestBegun(s.eras, t)]);
  }

  // ---- history never changes

  lemma LatestBegunAppend(eras: seq<Era>, e: Era, t: int)
    requires eras != []
    ensures LatestBegun(eras + [e], t) == if t >= e.since then |eras| else LatestBegun(eras, t)
  {
    assert (eras + [e])[..|eras|] == eras;
  }

  /** One event leaves the beacon in force unchanged for every time up to and including its own. */
  lemma ApplyKeepsPast(identify: Registration -> nat, s: Schedule, time: nat, e: Event, t: int)
    requires s.eras != [] && t <= time && Apply(identify, s, time, e).Ok?
    ensures var next := Apply(identify, s, time, e).value;
            next.eras != [] && s.beacons <= next.beacons && BeaconAt(next, t) == BeaconAt(s, t)
  {
    if e.Scheduled? && s.pending.Some? && time >= s.pending.value.since {
      LatestBegunAppend(s.eras, s.pending.value, t);
    }
  }

  /** However an accepted log goes on, the beacon of every timestamp up to the first added block's stays what it was. */
  lemma {:induction false} BeaconImmutable(identify: Registration -> nat, es: seq<Entry>, more: seq<Entry>, t: int)
    requires Accepted(identify, es) && more != [] && t <= more[0].time
    requires Fold(identify, es + more).Ok?
    ensures Accepted(identify, es + more)
    ensures var before, after := Fold(identify, es).value, Fold(identify, es + more).value;
            before.beacons <= after.beacons && BeaconAt(after, t) == BeaconAt(before, t)
  {
    var n := |more| - 1;
    var init := es + more[..n];
    assert (es + more)[..|es + more| - 1] == init;
    FoldStep(identify, es + more);
    if n == 0 {
      assert init == es;
    } else {
      BeaconImmutable(identify, es, more[..n], t);
      TimesAscend(identify, es + more, |es|, |es| + n);
    }
    ApplyKeepsPast(identify, Fold(identify, init).value, more[n].time, more[n].event.value, t);
  }

  /**
   History is immutable: however an accepted log goes on, the beacon and the round of every timestamp up to and
   including the first added block's stay what they were.
   */
  lemma HistoryImmutable(identify: Registration -> nat, es: seq<Entry>, more: seq<Entry>, t: int)
    requires Accepted(identify, es) && more != [] && t <= more[0].time
    requires Fold(identify, es + more).Ok?
    ensures Accepted(identify, es + more)
    ensures var before, after := Fold(identify, es).value, Fold(identify, es + more).value;
            && before.beacons <= after.beacons
            && BeaconAt(after, t) == BeaconAt(before, t) < |before.beacons|
            && RoundAt(after, t) == RoundAt(before, t)
  {
    BeaconImmutable(identify, es, more, t);
    RoundAtDefined(identify, es, t);
  }

  lemma {:induction false} TimesAscend(identify: Registration -> nat, es: seq<Entry>, i: nat, j: nat)
    requires Fold(identify, es).Ok? && i <= j < |es|
    ensures es[i].time <= es[j].time
  {
    var n := |es| - 1;
    FoldStep(identify, es);
    if j < n {
      TimesAscend(identify, es[..n], i, j);
    } else if i < n {
      TimesAscend(identify, es[..n], i, n - 1);
    }
  }
}
